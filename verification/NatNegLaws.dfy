/** What a sweep sends and to whom, and what packets and sending leave in the records, said
    of the records before and after. */
module NatNegLaws {
  import opened Bits
  import opened NatNeg

  // ---------- Who was sent to, and who was named ----------

  ghost predicate SentTo(sent: seq<Message>, from: nat, id: nat) {
    exists k :: from <= k < |sent| && sent[k].Connect? && sent[k].to == id
  }

  ghost predicate Named(sent: seq<Message>, from: nat, to: nat, id: nat) {
    to <= |sent| && exists k :: from <= k < to && Involves(sent[k], id)
  }

  /** A record that only sending touched: it is connected once it was sent to or named, and
      has the time of a CONNECT that it was sent. */
  ghost predicate TouchedAt(a: Record, b: Record, sent: seq<Message>, from: nat, now: int) {
    b == a.(connected := a.connected || Named(sent, from, |sent|, a.id),
            sentconnecttime := if SentTo(sent, from, a.id) then now else a.sentconnecttime)
  }

  ghost predicate Touched(w: World, w': World, now: int) {
    |w'.list| == |w.list| && w'.nextId == w.nextId && w.sent <= w'.sent &&
    forall i :: 0 <= i < |w.list| ==> TouchedAt(w.list[i], w'.list[i], w'.sent, |w.sent|, now)
  }

  lemma TouchedNothing(w: World, now: int)
    ensures Touched(w, w, now)
  {
  }

  lemma TouchedAtOn(a: Record, b: Record, c: Record, s: seq<Message>, s': seq<Message>, from: nat, now: int)
    requires TouchedAt(a, b, s, from, now) && TouchedAt(b, c, s', |s|, now) && s <= s' && from <= |s|
    ensures TouchedAt(a, c, s', from, now)
  {
    assert forall k :: 0 <= k < |s| ==> s'[k] == s[k];
    if Named(s', from, |s'|, a.id) && !Named(s', |s|, |s'|, a.id) {
      var k :| from <= k < |s'| && Involves(s'[k], a.id);
      assert Involves(s[k], a.id);
    }
    if Named(s, from, |s|, a.id) {
      var k :| from <= k < |s| && Involves(s[k], a.id);
      assert Involves(s'[k], a.id);
    }
    if SentTo(s', from, a.id) && !SentTo(s', |s|, a.id) {
      var k :| from <= k < |s'| && s'[k].Connect? && s'[k].to == a.id;
      assert s[k].Connect? && s[k].to == a.id;
    }
    if SentTo(s, from, a.id) {
      var k :| from <= k < |s| && s[k].Connect? && s[k].to == a.id;
      assert s'[k].Connect? && s'[k].to == a.id;
    }
  }

  lemma TouchedOn(u: World, v: World, w: World, now: int)
    requires Touched(u, v, now) && Touched(v, w, now)
    ensures Touched(u, w, now)
  {
    hide TouchedAt;
    forall i | 0 <= i < |u.list| ensures TouchedAt(u.list[i], w.list[i], w.sent, |u.sent|, now) {
      TouchedAtOn(u.list[i], v.list[i], w.list[i], v.sent, w.sent, |u.sent|, now);
    }
  }

  lemma SendConnectTouches(w: World, i: nat, j: nat, sendToOther: bool, now: int)
    requires i < |w.list| && j < |w.list| && i != j && Distinct(w.list)
    ensures Touched(w, SendConnect(w, i, j, sendToOther, now), now)
  {
    var w' := SendConnect(w, i, j, sendToOther, now);
    var n := |w.sent|;
    if w' != w {
      var a, b := w.list[i], w.list[j];
      assert w'.sent[n] == Connect(a.id, a.address, b.id, b.address, a.cookie);
      assert sendToOther ==> w'.sent[n + 1] == Connect(b.id, b.address, a.id, a.address, a.cookie);
      assert Involves(w'.sent[n], a.id) && Involves(w'.sent[n], b.id);
      forall k | 0 <= k < |w.list| ensures TouchedAt(w.list[k], w'.list[k], w'.sent, n, now) {
        assert k != i ==> w.list[k].id != a.id;
        assert k != j ==> w.list[k].id != b.id;
      }
    }
  }

  lemma TrySendConnectTouches(w: World, i: nat, sendToOther: bool, now: int)
    requires i < |w.list| && Distinct(w.list)
    ensures Touched(w, TrySendConnect(w, i, sendToOther, now), now)
  {
    hide Touched, SendConnect, FindPartner;
    TouchedNothing(w, now);
    var a := w.list[i];
    var j := FindPartner(w.list, a.cookie, a.instance, Other(a.cindex));
    if !a.gotConnectAck && j < |w.list| && j != i {
      SendConnectTouches(w, i, j, sendToOther, now);
    }
  }

  lemma GiveUpTouches(w: World, i: nat, now: int)
    requires i < |w.list| && Distinct(w.list)
    ensures Touched(w, GiveUp(w, i, now), now)
  {
    var w', a := GiveUp(w, i, now), w.list[i];
    if w' != w {
      assert w'.sent[|w.sent|] == Deadbeat(a.id, a.address, a.cookie);
      assert Involves(w'.sent[|w.sent|], a.id);
      forall k | 0 <= k < |w.list| ensures TouchedAt(w.list[k], w'.list[k], w'.sent, |w.sent|, now) {
        assert k != i ==> w.list[k].id != a.id;
      }
    }
  }

  lemma TouchedIsDistinct(w: World, w': World, now: int)
    requires Touched(w, w', now) && Distinct(w.list)
    ensures Distinct(w'.list)
  {
    hide Named, SentTo;
    forall i | 0 <= i < |w.list| ensures w'.list[i].id == w.list[i].id && w'.list[i].address == w.list[i].address {
      assert TouchedAt(w.list[i], w'.list[i], w'.sent, |w.sent|, now);
    }
  }

  lemma {:induction false} ResendFromTouches(w: World, i: nat, now: int)
    requires i <= |w.list| && Distinct(w.list)
    ensures Touched(w, ResendFrom(w, i, now), now)
    decreases |w.list| - i
  {
    hide Touched, Distinct, TrySendConnect;
    TouchedNothing(w, now);
    if i < |w.list| {
      var v := Resend(w, i, now);
      TrySendConnectTouches(w, i, false, now);
      TouchedIsDistinct(w, v, now);
      ResendFromTouches(v, i + 1, now);
      TouchedOn(w, v, ResendFrom(w, i, now), now);
    }
  }

  lemma {:induction false} GiveUpFromTouches(w: World, i: nat, now: int)
    requires i <= |w.list| && Distinct(w.list)
    ensures Touched(w, GiveUpFrom(w, i, now), now)
    decreases |w.list| - i
  {
    hide Touched, Distinct, GiveUp;
    TouchedNothing(w, now);
    if i < |w.list| {
      var v := GiveUp(w, i, now);
      GiveUpTouches(w, i, now);
      TouchedIsDistinct(w, v, now);
      GiveUpFromTouches(v, i + 1, now);
      TouchedOn(w, v, GiveUpFrom(w, i, now), now);
    }
  }

  // ---------- Sending again ----------

  /** More than five seconds without an acknowledgement of the last CONNECT. */
  predicate Overdue(a: Record, now: int) {
    a.instance == 1 && a.gotInit && !a.gotConnectAck && now - 5 > a.sentconnecttime
  }

  predicate Partner(a: Record, b: Record) {
    b.cookie == a.cookie && b.instance == a.instance && b.cindex == if a.cindex == 1 then 0 else 1
  }

  predicate FirstPartner(list: seq<Record>, a: Record, j: int) {
    0 <= j < |list| && Partner(a, list[j]) && forall k :: 0 <= k < j ==> !Partner(a, list[k])
  }

  predicate Introduces(m: Message, a: Record, b: Record) {
    m == Connect(a.id, a.address, b.id, b.address, a.cookie)
  }

  lemma PartnerIsFound(list: seq<Record>, a: Record)
    ensures var j := FindPartner(list, a.cookie, a.instance, Other(a.cindex));
      if j < |list| then FirstPartner(list, a, j) else forall k :: 0 <= k < |list| ==> !Partner(a, list[k])
    ensures forall j :: FirstPartner(list, a, j) ==> j == FindPartner(list, a.cookie, a.instance, Other(a.cindex))
  {
    hide FindPartner;
    var j := FindPartner(list, a.cookie, a.instance, Other(a.cindex));
    assert forall k :: 0 <= k < |list| ==> (Partner(a, list[k]) <==> IsPartner(list[k], a.cookie, a.instance, Other(a.cindex)));
  }

  /** What one turn of the loop sends. */
  lemma ResendMeans(w: World, i: nat, now: int)
    requires i < |w.list|
    ensures var a, w' := w.list[i], Resend(w, i, now);
      var j := FindPartner(w.list, a.cookie, a.instance, Other(a.cindex));
      if a.connected && Overdue(a, now) && j < |w.list| && !w.list[j].gotConnectAck then
        |w'.sent| == |w.sent| + 1 && w.sent <= w'.sent && Introduces(w'.sent[|w.sent|], a, w.list[j])
      else w'.sent == w.sent
  {
    hide FindPartner;
  }

  /** Nobody's own time or place changes before their turn. */
  lemma Untouched(w: World, i: nat, j: nat, now: int)
    requires i < |w.list| && j < |w.list| && i != j && Distinct(w.list)
    ensures var v := Resend(w, i, now);
      v.list[j] == w.list[j].(connected := v.list[j].connected) && (w.list[j].connected ==> v.list[j].connected)
  {
    hide FindPartner;
  }

  lemma SamePartners(w: World, v: World, a: Record, b: Record, now: int)
    requires Touched(w, v, now) && b == a.(connected := b.connected, sentconnecttime := b.sentconnecttime)
    ensures forall k :: 0 <= k < |w.list| ==> (Partner(a, w.list[k]) <==> Partner(b, v.list[k]))
  {
    hide Named, SentTo;
    forall k | 0 <= k < |w.list| ensures Partner(a, w.list[k]) <==> Partner(b, v.list[k]) {
      assert TouchedAt(w.list[k], v.list[k], v.sent, |w.sent|, now);
    }
  }

  /** Every overdue record that counts as connected is told about its partner again. */
  lemma {:induction false} ResendFromReaches(w: World, i: nat, j: nat, p: nat, now: int) returns (k: nat)
    requires i <= j < |w.list| && Distinct(w.list)
    requires w.list[j].connected && Overdue(w.list[j], now) && FirstPartner(w.list, w.list[j], p) && !w.list[p].gotConnectAck
    ensures var w' := ResendFrom(w, i, now);
      |w.sent| <= k < |w'.sent| && Introduces(w'.sent[k], w.list[j], w.list[p])
    decreases |w.list| - i
  {
    hide Distinct, TouchedAt, Overdue, Partner, Resend;
    var v := Resend(w, i, now);
    ResendTouches(w, i, now);
    TouchedIsDistinct(w, v, now);
    if i == j {
      PartnerIsFound(w.list, w.list[j]);
      ResendMeans(w, i, now);
      ResendFromTouches(v, i + 1, now);
      k := |w.sent|;
    } else {
      Untouched(w, i, j, now);
      SamePartners(w, v, w.list[j], v.list[j], now);
      SameButMarks(w, v, p, now);
      StillOverdue(w.list[j], v.list[j], now);
      k := ResendFromReaches(v, i + 1, j, p, now);
    }
  }

  lemma ResendTouches(w: World, i: nat, now: int)
    requires i < |w.list| && Distinct(w.list)
    ensures Touched(w, Resend(w, i, now), now)
  {
    hide Touched, TrySendConnect;
    TouchedNothing(w, now);
    TrySendConnectTouches(w, i, false, now);
  }

  lemma StillOverdue(a: Record, b: Record, now: int)
    requires b == a.(connected := b.connected)
    ensures Overdue(a, now) <==> Overdue(b, now)
  {
  }

  lemma SameButMarks(w: World, v: World, p: nat, now: int)
    requires Touched(w, v, now) && p < |w.list|
    ensures v.list[p] == w.list[p].(connected := v.list[p].connected, sentconnecttime := v.list[p].sentconnecttime)
    ensures v.list[p].connected ==> w.list[p].connected || Named(v.sent, |w.sent|, |v.sent|, w.list[p].id)
  {
    hide Named, SentTo;
    assert TouchedAt(w.list[p], v.list[p], v.sent, |w.sent|, now);
  }

  /** And nothing else is sent by the loop: what it sends from record i on. */
  lemma {:induction false} ResendFromOnly(w: World, i: nat, k: nat, now: int) returns (j: nat, p: nat)
    requires i <= |w.list| && Distinct(w.list) && |w.sent| <= k < |ResendFrom(w, i, now).sent|
    ensures var sent := ResendFrom(w, i, now).sent;
      i <= j < |w.list| && Overdue(w.list[j], now) && FirstPartner(w.list, w.list[j], p) && !w.list[p].gotConnectAck &&
      Introduces(sent[k], w.list[j], w.list[p]) && (w.list[j].connected || Named(sent, |w.sent|, k, w.list[j].id))
    decreases |w.list| - i
  {
    hide Distinct, TouchedAt, Overdue, Partner, Resend, Named, FindPartner;
    var v := Resend(w, i, now);
    ResendTouches(w, i, now);
    TouchedIsDistinct(w, v, now);
    ResendFromTouches(v, i + 1, now);
    if k < |v.sent| {
      j := i;
      p := FindPartner(w.list, w.list[i].cookie, w.list[i].instance, Other(w.list[i].cindex));
      PartnerIsFound(w.list, w.list[i]);
      ResendMeans(w, i, now);
    } else {
      j, p := ResendFromOnly(v, i + 1, k, now);
      Untouched(w, i, j, now);
      SamePartners(w, v, w.list[j], v.list[j], now);
      SameButMarks(w, v, p, now);
      SameButMarks(w, v, j, now);
      StillOverdue(w.list[j], v.list[j], now);
      NamedBefore(v.sent, ResendFrom(w, i, now).sent, |w.sent|, k, w.list[j].id);
    }
  }

  lemma NamedBefore(s: seq<Message>, sent: seq<Message>, from: nat, k: nat, id: nat)
    requires s <= sent && from <= |s| <= k <= |sent|
    ensures Named(s, from, |s|, id) ==> Named(sent, from, k, id)
    ensures Named(sent, |s|, k, id) ==> Named(sent, from, k, id)
  {
    if Named(s, from, |s|, id) {
      var i :| from <= i < |s| && Involves(s[i], id);
      assert Involves(sent[i], id);
    }
  }

  // ---------- Giving up ----------

  /** Older than thirty seconds, of instance 1 and not connected. */
  predicate Lonely(a: Record, now: int) {
    a.instance == 1 && now - 30 > a.connecttime && !a.connected
  }

  predicate Notice(m: Message, a: Record) {
    m == Deadbeat(a.id, a.address, a.cookie)
  }

  lemma GiveUpMeans(w: World, i: nat, now: int)
    requires i < |w.list|
    ensures var a, w' := w.list[i], GiveUp(w, i, now);
      (forall j :: 0 <= j < |w.list| && j != i ==> w'.list[j] == w.list[j]) && w.sent <= w'.sent &&
      if Lonely(a, now) then |w'.sent| == |w.sent| + 1 && Notice(w'.sent[|w.sent|], a) else w'.sent == w.sent
  {
  }

  /** The third loop notifies whoever is lonely, */
  lemma {:induction false} GiveUpFromReaches(w: World, i: nat, j: nat, now: int) returns (k: nat)
    requires i <= j < |w.list| && Lonely(w.list[j], now)
    ensures var w' := GiveUpFrom(w, i, now); |w.sent| <= k < |w'.sent| && Notice(w'.sent[k], w.list[j])
    decreases |w.list| - i
  {
    hide GiveUp;
    var v := GiveUp(w, i, now);
    GiveUpMeans(w, i, now);
    GiveUpFromGrows(v, i + 1, now);
    if i == j {
      k := |w.sent|;
    } else {
      k := GiveUpFromReaches(v, i + 1, j, now);
    }
  }

  lemma {:induction false} GiveUpFromGrows(w: World, i: nat, now: int)
    requires i <= |w.list|
    ensures w.sent <= GiveUpFrom(w, i, now).sent
    decreases |w.list| - i
  {
    hide GiveUp;
    if i < |w.list| {
      GiveUpMeans(w, i, now);
      GiveUpFromGrows(GiveUp(w, i, now), i + 1, now);
    }
  }

  /** and sends nothing else. */
  lemma {:induction false} GiveUpFromOnly(w: World, i: nat, k: nat, now: int) returns (j: nat)
    requires i <= |w.list| && |w.sent| <= k < |GiveUpFrom(w, i, now).sent|
    ensures i <= j < |w.list| && Lonely(w.list[j], now) && Notice(GiveUpFrom(w, i, now).sent[k], w.list[j])
    decreases |w.list| - i
  {
    hide GiveUp, Lonely, Notice;
    var v := GiveUp(w, i, now);
    GiveUpMeans(w, i, now);
    GiveUpFromGrows(v, i + 1, now);
    if k < |v.sent| {
      j := i;
    } else {
      j := GiveUpFromOnly(v, i + 1, k, now);
    }
  }

  // ---------- Who is left ----------

  /** A packet came within the last two minutes. */
  predicate Alive(r: Record, now: int) {
    now - 120 <= r.lastPacket
  }

  lemma {:induction false} KeptAt(list: seq<Record>, i: nat, now: int) returns (p: nat)
    requires i < |list| && Alive(list[i], now)
    ensures p < |Unexpired(list, now)| && Unexpired(list, now)[p] == list[i]
    decreases |list|
  {
    if i == 0 {
      p := 0;
    } else {
      p := KeptAt(list[1..], i - 1, now);
      p := if Alive(list[0], now) then p + 1 else p;
    }
  }

  lemma {:induction false} KeptFrom(list: seq<Record>, p: nat, now: int) returns (i: nat)
    requires p < |Unexpired(list, now)|
    ensures i < |list| && Alive(list[i], now) && Unexpired(list, now)[p] == list[i]
    decreases |list|
  {
    if !Alive(list[0], now) {
      i := KeptFrom(list[1..], p, now);
      i := i + 1;
    } else if p == 0 {
      i := 0;
    } else {
      i := KeptFrom(list[1..], p - 1, now);
      i := i + 1;
    }
  }

  /** The first of those who are alive with the cookie, the instance and the other index. */
  predicate FirstAlivePartner(list: seq<Record>, a: Record, j: int, now: int) {
    0 <= j < |list| && Alive(list[j], now) && Partner(a, list[j]) &&
    forall k :: 0 <= k < j ==> !(Alive(list[k], now) && Partner(a, list[k]))
  }

  lemma {:induction false} FirstKept(list: seq<Record>, a: Record, j: nat, now: int) returns (p: nat)
    requires FirstAlivePartner(list, a, j, now)
    ensures FirstPartner(Unexpired(list, now), a, p) && Unexpired(list, now)[p] == list[j]
    decreases |list|
  {
    hide Partner;
    if j == 0 {
      p := 0;
    } else {
      assert forall k :: 0 <= k < j - 1 ==> list[1..][k] == list[k + 1];
      p := FirstKept(list[1..], a, j - 1, now);
      p := if Alive(list[0], now) then p + 1 else p;
    }
  }

  lemma {:induction false} FirstFrom(list: seq<Record>, a: Record, p: nat, now: int) returns (j: nat)
    requires FirstPartner(Unexpired(list, now), a, p)
    ensures FirstAlivePartner(list, a, j, now) && Unexpired(list, now)[p] == list[j]
    decreases |list|
  {
    hide Partner;
    if Alive(list[0], now) && p == 0 {
      j := 0;
    } else {
      var rest := Unexpired(list[1..], now);
      if Alive(list[0], now) {
        assert Unexpired(list, now) == [list[0]] + rest;
        assert !Partner(a, Unexpired(list, now)[0]);
        assert forall k :: 0 <= k < p - 1 ==> rest[k] == Unexpired(list, now)[k + 1];
        j := FirstFrom(list[1..], a, p - 1, now);
      } else {
        j := FirstFrom(list[1..], a, p, now);
      }
      j := j + 1;
    }
  }

  // ---------- The sweep ----------

  lemma SweepParts(w: World, now: int)
    requires Inv(w)
    ensures var u := w.(list := Unexpired(w.list, now)); var v := ResendFrom(u, 0, now);
      Distinct(u.list) && Touched(u, v, now) && Distinct(v.list) && Touched(v, CheckTimeouts(w, now), now) && Touched(u, CheckTimeouts(w, now), now)
  {
    hide Touched, ResendFrom, GiveUpFrom, Unexpired;
    var u := w.(list := Unexpired(w.list, now));
    DeletingKeepsInv(w, now);
    ResendFromTouches(u, 0, now);
    TouchedIsDistinct(u, ResendFrom(u, 0, now), now);
    GiveUpFromTouches(ResendFrom(u, 0, now), 0, now);
    TouchedOn(u, ResendFrom(u, 0, now), CheckTimeouts(w, now), now);
  }

  /** A sweep sends a CONNECT again: to every living record that counts as connected and is
      overdue, about the first living partner, unless that acknowledged. */
  lemma SweepSendsAgain(w: World, now: int, i: nat, j: nat) returns (k: nat)
    requires Inv(w) && i < |w.list| && Alive(w.list[i], now) && w.list[i].connected && Overdue(w.list[i], now)
    requires FirstAlivePartner(w.list, w.list[i], j, now) && !w.list[j].gotConnectAck
    ensures var w' := CheckTimeouts(w, now);
      |w.sent| <= k < |w'.sent| && w'.sent[k] == Connect(w.list[i].id, w.list[i].address, w.list[j].id, w.list[j].address, w.list[i].cookie)
  {
    hide Inv, Touched, Distinct, ResendFrom, GiveUpFrom, Unexpired, Overdue, FirstPartner, FirstAlivePartner;
    var u := w.(list := Unexpired(w.list, now));
    SweepParts(w, now);
    var at := KeptAt(w.list, i, now);
    var p := FirstKept(w.list, w.list[i], j, now);
    FirstInList(u.list, w.list[i], p);
    k := ResendFromReaches(u, 0, at, p, now);
    GiveUpFromGrows(ResendFrom(u, 0, now), 0, now);
  }

  lemma FirstInList(list: seq<Record>, a: Record, p: int)
    requires FirstPartner(list, a, p)
    ensures 0 <= p < |list|
  {
  }

  /** Every CONNECT of a sweep is one of these, to a record that was connected before or was
      named earlier in the sweep. */
  lemma SweepSendsNothingElse(w: World, now: int, k: nat) returns (i: nat, j: nat)
    requires Inv(w) && |w.sent| <= k < |CheckTimeouts(w, now).sent| && CheckTimeouts(w, now).sent[k].Connect?
    ensures var sent := CheckTimeouts(w, now).sent;
      i < |w.list| && Alive(w.list[i], now) && Overdue(w.list[i], now) &&
      FirstAlivePartner(w.list, w.list[i], j, now) && !w.list[j].gotConnectAck &&
      sent[k] == Connect(w.list[i].id, w.list[i].address, w.list[j].id, w.list[j].address, w.list[i].cookie) &&
      (w.list[i].connected || Named(sent, |w.sent|, k, w.list[i].id))
  {
    hide Inv, Touched, Distinct, ResendFrom, GiveUpFrom, Unexpired, Overdue, FirstPartner, FirstAlivePartner, Named, Lonely;
    var u := w.(list := Unexpired(w.list, now));
    var v := ResendFrom(u, 0, now);
    SweepParts(w, now);
    GiveUpFromGrows(v, 0, now);
    assert v.sent <= CheckTimeouts(w, now).sent;
    if k >= |v.sent| {
      var l := GiveUpFromOnly(v, 0, k, now);
    }
    var at, p := ResendFromOnly(u, 0, k, now);
    i := KeptFrom(w.list, at, now);
    j := FirstFrom(w.list, u.list[at], p, now);
    NamedLater(v.sent, CheckTimeouts(w, now).sent, |w.sent|, k, w.list[i].id);
    AliveInList(w.list, w.list[i], j, now);
  }

  lemma AliveInList(list: seq<Record>, a: Record, j: int, now: int)
    requires FirstAlivePartner(list, a, j, now)
    ensures 0 <= j < |list|
  {
  }

  lemma NamedLater(s: seq<Message>, sent: seq<Message>, from: nat, k: nat, id: nat)
    requires s <= sent && k <= |s|
    ensures Named(s, from, k, id) ==> Named(sent, from, k, id)
  {
    if Named(s, from, k, id) {
      var i :| from <= i < k && Involves(s[i], id);
      assert Involves(sent[i], id);
    }
  }

  /** A living record gets a deadbeat notice exactly if it is lonely and the sweep names it
      in no CONNECT. */
  lemma SweepGivesUp(w: World, now: int, i: nat)
    requires Inv(w) && i < |w.list| && Alive(w.list[i], now)
    ensures var sent := CheckTimeouts(w, now).sent;
      (exists k :: |w.sent| <= k < |sent| && sent[k] == Deadbeat(w.list[i].id, w.list[i].address, w.list[i].cookie)) <==>
      Lonely(w.list[i], now) && forall k :: |w.sent| <= k < |sent| && sent[k].Connect? ==> !Involves(sent[k], w.list[i].id)
  {
    hide Inv, Touched, ResendFrom, GiveUpFrom, Unexpired;
    var u := w.(list := Unexpired(w.list, now));
    var v, w' := ResendFrom(u, 0, now), CheckTimeouts(w, now);
    SweepParts(w, now);
    GiveUpFromGrows(v, 0, now);
    ResendGrows(u, v, now);
    var p := KeptAt(w.list, i, now);
    LonelyAfter(u, v, p, now);
    OnlyConnects(u, now);
    if k :| |w.sent| <= k < |w'.sent| && w'.sent[k] == Deadbeat(w.list[i].id, w.list[i].address, w.list[i].cookie) {
      assert k >= |v.sent|;
      var q := GiveUpFromOnly(v, 0, k, now);
      SameButMarks(u, v, q, now);
      SameButMarks(u, v, p, now);
      SameId(u.list, p, q);
      NoConnectLater(v, w', now);
    }
    if Lonely(w.list[i], now) && forall k :: |w.sent| <= k < |w'.sent| && w'.sent[k].Connect? ==> !Involves(w'.sent[k], w.list[i].id) {
      assert forall k :: |w.sent| <= k < |v.sent| ==> v.sent[k] == w'.sent[k];
      SameButMarks(u, v, p, now);
      var k := GiveUpFromReaches(v, 0, p, now);
    }
  }

  lemma ResendGrows(u: World, v: World, now: int)
    requires Touched(u, v, now)
    ensures u.sent <= v.sent && |u.list| == |v.list|
  {
  }

  /** After the second loop, whoever was lonely still is unless it was named. */
  lemma LonelyAfter(u: World, v: World, p: nat, now: int)
    requires Touched(u, v, now) && p < |u.list|
    ensures |v.list| == |u.list| && (Lonely(v.list[p], now) <==> Lonely(u.list[p], now) && !Named(v.sent, |u.sent|, |v.sent|, u.list[p].id))
  {
    hide Named, SentTo;
    assert TouchedAt(u.list[p], v.list[p], v.sent, |u.sent|, now);
  }

  lemma OnlyConnects(u: World, now: int)
    requires Distinct(u.list)
    ensures forall k :: |u.sent| <= k < |ResendFrom(u, 0, now).sent| ==> ResendFrom(u, 0, now).sent[k].Connect?
  {
    hide Distinct, ResendFrom;
    forall k | |u.sent| <= k < |ResendFrom(u, 0, now).sent| ensures ResendFrom(u, 0, now).sent[k].Connect? {
      var j, p := ResendFromOnly(u, 0, k, now);
    }
  }

  lemma NoConnectLater(v: World, w': World, now: int)
    requires w' == GiveUpFrom(v, 0, now)
    ensures forall k :: |v.sent| <= k < |w'.sent| ==> w'.sent[k].Deadbeat?
  {
    hide GiveUpFrom, Lonely;
    forall k | |v.sent| <= k < |w'.sent| ensures w'.sent[k].Deadbeat? {
      var j := GiveUpFromOnly(v, 0, k, now);
    }
  }

  /** The records that are left are the living ones in their order, and only sending touched
      them. */
  lemma SweepLeaves(w: World, now: int)
    requires Inv(w)
    ensures Touched(w.(list := Unexpired(w.list, now)), CheckTimeouts(w, now), now)
    ensures forall r :: r in Unexpired(w.list, now) <==> r in w.list && Alive(r, now)
  {
    hide Touched, Inv, ResendFrom, GiveUpFrom, Unexpired;
    SweepParts(w, now);
    UnexpiredMembers(w.list, now);
  }

  // ---------- A packet ----------

  /** The record that a packet comes to, as it was before: a new peer has a new one. */
  function Before(w: World, i: nat, peer: Address, instance: int, now: int, garbage: int): Record {
    if i < |w.list| then w.list[i] else Record(w.nextId, peer, instance, now, now, garbage, 0, 0, false, false, false)
  }

  /** A packet with the right magic renews the time of its peer's record, an INIT brings
      cookie and index, an acknowledgement is noted; else a record only changes by what is
      sent. */
  ghost predicate PacketLaw(a: Record, b: Record, peer: Address, p: Packet, sent: seq<Message>, from: nat, now: int) {
    var its := a.address == peer && p.magic;
    var c := a.(lastPacket := if its then now else a.lastPacket,
      cookie := if its && p.packettype == 0 then p.cookie else a.cookie,
      cindex := if its && p.packettype == 0 then (if p.clientindex < 128 then p.clientindex else p.clientindex - 256) else a.cindex,
      gotInit := a.gotInit || (its && p.packettype == 0),
      gotConnectAck := a.gotConnectAck || (its && p.packettype == 6));
    TouchedAt(c, b, sent, from, now)
  }

  /** The packet that answers another: its type. */
  predicate Answered(p: Packet, answer: int) {
    (p.packettype == 0 && answer == 1) || (p.packettype == 10 && answer == 11) || (p.packettype == 13 && answer == 14) ||
    (p.packettype == 12 && (p.porttype == 1 || p.socket) && answer == 2)
  }

  lemma NotedMeans(w: World, i: nat, p: Packet, now: int)
    requires i < |w.list| && (forall j :: 0 <= j < |w.list| && j != i ==> w.list[j].address != w.list[i].address)
    ensures var v := Noted(w, i, p, now); var peer := w.list[i].address;
      |v.list| == |w.list| && v.nextId == w.nextId && w.sent <= v.sent &&
      (forall j :: 0 <= j < |w.list| ==> PacketLaw(w.list[j], v.list[j], peer, p, v.sent, |v.sent|, now)) &&
      if p.magic && exists answer :: Answered(p, answer) then
        |v.sent| == |w.sent| + 1 && v.sent[|w.sent|].Reply? && v.sent[|w.sent|].to == w.list[i].id &&
        v.sent[|w.sent|].toAddress == peer && Answered(p, v.sent[|w.sent|].packettype)
      else v.sent == w.sent
  {
    var v := Noted(w, i, p, now);
    assert Answered(p, 1) || Answered(p, 11) || Answered(p, 14) || Answered(p, 2) <==> exists answer :: Answered(p, answer);
  }

  /** Receiving a packet: there is a record for its peer afterwards, every record obeys the
      law, and the first thing sent is the answer, if there is one. */
  lemma PacketMeans(w: World, peer: Address, instance: int, p: Packet, now: int, garbage: int)
    requires Inv(w)
    ensures var w' := Receive(w, peer, instance, p, now, garbage); var n := |w.sent|;
      |w'.list| == |w.list| + (if exists j :: 0 <= j < |w.list| && w.list[j].address == peer then 0 else 1) && w.sent <= w'.sent &&
      (forall i :: 0 <= i < |w'.list| ==> PacketLaw(Before(w, i, peer, instance, now, garbage), w'.list[i], peer, p, w'.sent, n, now)) &&
      if p.magic && exists answer :: Answered(p, answer) then
        |w'.sent| > n && w'.sent[n].Reply? && w'.sent[n].toAddress == peer && Answered(p, w'.sent[n].packettype)
      else w'.sent == w.sent
  {
    hide FindUser, Inv, Incoming, Noted, TrySendConnect, PacketLaw, Answered;
    var i := FindUser(w.list, peer);
    var u := if i == |w.list| then Enroll(w, peer, instance, now, garbage) else w;
    if i == |w.list| {
      EnrollKeepsInv(w, peer, instance, now, garbage);
    }
    DistinctIn(u);
    assert u.list[i].address == peer;
    NotedMeans(u, i, p, now);
    var v, w' := Noted(u, i, p, now), Incoming(u, i, p, now);
    IncomingIsNoted(u, i, p, now);
    NotedKeepsInv(u, i, p, now);
    DistinctIn(v);
    if p.magic && p.packettype == 0 {
      assert Answered(p, 1) by { InitAnswered(p); }
      TrySendConnectTouches(v, i, true, now);
    } else {
      TouchedNothing(v, now);
    }
    forall j | 0 <= j < |w'.list|
      ensures PacketLaw(Before(w, j, peer, instance, now, garbage), w'.list[j], peer, p, w'.sent, |w.sent|, now)
    {
      assert u.list[j] == Before(w, j, peer, instance, now, garbage);
      LawOn(u.list[j], v.list[j], w'.list[j], peer, p, w.sent, v.sent, w'.sent, now);
    }
  }

  lemma InitAnswered(p: Packet)
    requires p.packettype == 0
    ensures Answered(p, 1)
  {
  }

  lemma DistinctIn(w: World)
    requires Inv(w)
    ensures Distinct(w.list)
    ensures forall i, j :: 0 <= i < |w.list| && 0 <= j < |w.list| && i != j ==> w.list[i].address != w.list[j].address
  {
    hide Counted, Marked, DeadbeatsComeFirst;
    forall i, j | 0 <= i < |w.list| && 0 <= j < |w.list| && i != j ensures w.list[i].address != w.list[j].address {
      assert i < j || j < i;
    }
  }

  /** An answer is no CONNECT, so that a record that was noted is touched by the rest. */
  lemma LawOn(a: Record, b: Record, c: Record, peer: Address, p: Packet, s: seq<Message>, t: seq<Message>, sent: seq<Message>, now: int)
    requires s <= t <= sent && (forall k :: |s| <= k < |t| ==> t[k].Reply?)
    requires PacketLaw(a, b, peer, p, t, |t|, now) && TouchedAt(b, c, sent, |t|, now)
    ensures PacketLaw(a, c, peer, p, sent, |s|, now)
  {
    assert forall k :: 0 <= k < |t| ==> sent[k] == t[k];
    assert Named(sent, |s|, |sent|, a.id) <==> Named(sent, |t|, |sent|, a.id);
    assert SentTo(sent, |s|, a.id) <==> SentTo(sent, |t|, a.id);
    assert !Named(t, |t|, |t|, a.id) && !SentTo(t, |t|, a.id);
  }
}
