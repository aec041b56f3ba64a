/** NAT negotiation: the rules of the matchmaking server over values, and what holds in
    every run of it. */
module NatNeg {
  import opened Bits

  const PING_TIME := 120
  const DEADBEAT_TIME := 30
  const RETRY_TIME := 5
  const NN_INIT := 0
  const NN_INITACK := 1
  const NN_ERTTEST := 2
  const NN_CONNECT_ACK := 6
  const NN_ADDRESS_CHECK := 10
  const NN_ADDRESS_REPLY := 11
  const NN_NATIFY_REQUEST := 12
  const NN_REPORT := 13
  const NN_REPORT_ACK := 14
  const NN_PT_NN1 := 1

  datatype Address = Address(ip: int, port: int)

  /** A client record; id tells apart records, also those that have been deleted. */
  datatype Record = Record(
    id: nat, address: Address, instance: int, connecttime: int, lastPacket: int, sentconnecttime: int,
    cookie: int, cindex: int, connected: bool, gotInit: bool, gotConnectAck: bool)

  /** Datagrams: to whom, about whom, and what they say. A reply is the packet that it
      answers with another type. */
  datatype Message =
    | Connect(to: nat, toAddress: Address, about: nat, remote: Address, cookie: int)
    | Deadbeat(to: nat, toAddress: Address, cookie: int)
    | Reply(to: nat, toAddress: Address, packettype: int)

  datatype World = World(list: seq<Record>, nextId: nat, sent: seq<Message>)

  /** A received packet: whether its magic is right, its type, and the fields of an INIT.
      Its last part says whether another socket can be had for the answer. */
  datatype Packet = Packet(magic: bool, packettype: int, cookie: int, clientindex: byte, porttype: byte, socket: bool)

  // ---------- One step ----------

  function FindUser(list: seq<Record>, peer: Address): (i: nat)
    ensures i <= |list| && (i < |list| ==> list[i].address == peer)
    ensures forall j :: 0 <= j < i ==> list[j].address != peer
  {
    if list == [] || list[0].address == peer then 0 else
      var j := FindUser(list[1..], peer);
      j + 1
  }

  predicate IsPartner(r: Record, cookie: int, instance: int, index: int) {
    r.cookie == cookie && r.instance == instance && r.cindex == index
  }

  function FindPartner(list: seq<Record>, cookie: int, instance: int, index: int): (i: nat)
    ensures i <= |list| && (i < |list| ==> IsPartner(list[i], cookie, instance, index))
    ensures forall j :: 0 <= j < i ==> !IsPartner(list[j], cookie, instance, index)
  {
    if list == [] || IsPartner(list[0], cookie, instance, index) then 0 else
      var j := FindPartner(list[1..], cookie, instance, index);
      j + 1
  }

  /** A byte read through a signed char. */
  function Char(c: byte): int {
    if c < 0x80 then c else c - 0x100
  }

  function Other(cindex: int): int {
    if cindex == 1 then 0 else 1
  }

  /** SendConnectPacket: record i is told about record j, and j about i if wanted. */
  function SendConnect(w: World, i: nat, j: nat, sendToOther: bool, now: int): (w': World)
    requires i < |w.list| && j < |w.list| && i != j
    ensures |w'.list| == |w.list|
  {
    var a, b := w.list[i], w.list[j];
    if a.instance != 1 || a.gotConnectAck || b.gotConnectAck || !a.gotInit then w
    else
      var a' := a.(connected := true, sentconnecttime := now);
      var b' := if sendToOther then b.(connected := true, sentconnecttime := now) else b.(connected := true);
      var one := [Connect(a.id, a.address, b.id, b.address, a.cookie)];
      var two := if sendToOther then [Connect(b.id, b.address, a.id, a.address, a.cookie)] else [];
      w.(list := w.list[i := a'][j := b'], sent := w.sent + one + two)
  }

  function TrySendConnect(w: World, i: nat, sendToOther: bool, now: int): (w': World)
    requires i < |w.list|
    ensures |w'.list| == |w.list|
  {
    var a := w.list[i];
    var j := FindPartner(w.list, a.cookie, a.instance, Other(a.cindex));
    if a.gotConnectAck || j == |w.list| || j == i then w else SendConnect(w, i, j, sendToOther, now)
  }

  function Enroll(w: World, peer: Address, instance: int, now: int, garbage: int): World {
    World(w.list + [Record(w.nextId, peer, instance, now, now, garbage, 0, 0, false, false, false)], w.nextId + 1, w.sent)
  }

  /** What a packet is answered with. */
  function Answers(a: Record, p: Packet): seq<Message> {
    if p.packettype == NN_INIT then [Reply(a.id, a.address, NN_INITACK)]
    else if p.packettype == NN_ADDRESS_CHECK then [Reply(a.id, a.address, NN_ADDRESS_REPLY)]
    else if p.packettype == NN_REPORT then [Reply(a.id, a.address, NN_REPORT_ACK)]
    else if p.packettype == NN_NATIFY_REQUEST && (p.porttype == NN_PT_NN1 || p.socket) then [Reply(a.id, a.address, NN_ERTTEST)]
    else []
  }

  /** handleIncoming of record i. */
  function Incoming(w: World, i: nat, p: Packet, now: int): World
    requires i < |w.list|
  {
    var a, sent := w.list[i], w.sent + Answers(w.list[i], p);
    if !p.magic then w
    else if p.packettype == NN_INIT then
      var b := a.(lastPacket := now, cookie := p.cookie, cindex := Char(p.clientindex), gotInit := true);
      TrySendConnect(w.(list := w.list[i := b], sent := sent), i, true, now)
    else if p.packettype == NN_CONNECT_ACK then
      w.(list := w.list[i := a.(lastPacket := now, gotConnectAck := true)])
    else w.(list := w.list[i := a.(lastPacket := now)], sent := sent)
  }

  /** handleConnection: the record of the peer, made if need be, handles the packet. The
      time of the last CONNECT in a new record is whatever was in memory. */
  function Receive(w: World, peer: Address, instance: int, p: Packet, now: int, garbage: int): World {
    var i := FindUser(w.list, peer);
    Incoming(if i == |w.list| then Enroll(w, peer, instance, now, garbage) else w, i, p, now)
  }

  predicate Expired(r: Record, now: int) {
    now - PING_TIME > r.lastPacket
  }

  /** The unexpired records, in order. */
  function Unexpired(list: seq<Record>, now: int): seq<Record> {
    if list == [] then []
    else if Expired(list[0], now) then Unexpired(list[1..], now)
    else [list[0]] + Unexpired(list[1..], now)
  }

  function Resend(w: World, i: nat, now: int): (w': World)
    requires i < |w.list|
    ensures |w'.list| == |w.list|
  {
    var a := w.list[i];
    if a.connected && !a.gotConnectAck && now - RETRY_TIME > a.sentconnecttime then TrySendConnect(w, i, false, now) else w
  }

  /** The second loop of checkTimeouts, from record i on. */
  function ResendFrom(w: World, i: nat, now: int): World
    requires i <= |w.list|
    decreases |w.list| - i
  {
    if i == |w.list| then w else ResendFrom(Resend(w, i, now), i + 1, now)
  }

  function GiveUp(w: World, i: nat, now: int): (w': World)
    requires i < |w.list|
    ensures |w'.list| == |w.list|
  {
    var a := w.list[i];
    if now - DEADBEAT_TIME > a.connecttime && !a.connected && a.instance == 1 then
      w.(list := w.list[i := a.(connected := true)], sent := w.sent + [Deadbeat(a.id, a.address, a.cookie)])
    else w
  }

  /** The third loop, from record i on. */
  function GiveUpFrom(w: World, i: nat, now: int): World
    requires i <= |w.list|
    decreases |w.list| - i
  {
    if i == |w.list| then w else GiveUpFrom(GiveUp(w, i, now), i + 1, now)
  }

  function CheckTimeouts(w: World, now: int): World {
    GiveUpFrom(ResendFrom(w.(list := Unexpired(w.list, now)), 0, now), 0, now)
  }

  // ---------- Runs ----------

  datatype Event =
    | Datagram(peer: Address, instance: int, packet: Packet, now: int, garbage: int)
    | Sweep(now: int)

  function Step(w: World, e: Event): World {
    match e
    case Datagram(peer, instance, p, now, garbage) => Receive(w, peer, instance, p, now, garbage)
    case Sweep(now) => CheckTimeouts(w, now)
  }

  function Run(w: World, events: seq<Event>): World {
    if events == [] then w else Step(Run(w, events[..|events| - 1]), events[|events| - 1])
  }

  const START := World([], 0, [])

  // ---------- What holds in every reachable world ----------

  predicate Involves(m: Message, id: nat) {
    match m
    case Connect(to, _, about, _, _) => to == id || about == id
    case Deadbeat(to, _, _) => to == id
    case Reply(_, _, _) => false
  }

  ghost predicate Distinct(list: seq<Record>) {
    forall i, j :: 0 <= i < j < |list| ==> list[i].id != list[j].id && list[i].address != list[j].address
  }

  /** Identities come from the counter and are not used again. */
  ghost predicate Counted(w: World) {
    (forall i :: 0 <= i < |w.list| ==> w.list[i].id < w.nextId) &&
    (forall k, id: nat :: 0 <= k < |w.sent| && Involves(w.sent[k], id) ==> id < w.nextId)
  }

  /** Whoever a datagram was sent to or named in counts as connected. */
  ghost predicate Marked(w: World) {
    forall k, i :: 0 <= k < |w.sent| && 0 <= i < |w.list| && Involves(w.sent[k], w.list[i].id) ==> w.list[i].connected
  }

  /** A deadbeat notice is the first word its receiver is involved in; so there is at most
      one, and none after a CONNECT. */
  ghost predicate DeadbeatsComeFirst(sent: seq<Message>) {
    forall j, k :: 0 <= j < k < |sent| && sent[k].Deadbeat? ==> !Involves(sent[j], sent[k].to)
  }

  ghost predicate Inv(w: World) {
    Distinct(w.list) && Counted(w) && Marked(w) && DeadbeatsComeFirst(w.sent)
  }

  /** Every datagram goes to a record of the list. A CONNECT is about another one: both of
      instance 1, with the same cookie, one of which sent an INIT and has the other as partner
      by its index, and neither acknowledged. A deadbeat notice goes to instance 1 only. */
  ghost predicate Justified(m: Message, list: seq<Record>) {
    if m.Connect? then exists i, j :: 0 <= i < |list| && 0 <= j < |list| && i != j && Pair(m, list[i], list[j])
    else exists i :: 0 <= i < |list| && Addressed(m, list[i])
  }

  predicate Addressed(m: Message, a: Record) {
    m.to == a.id && m.toAddress == a.address &&
    (m.Deadbeat? ==> m.cookie == a.cookie && a.instance == 1 && a.connected)
  }

  predicate Pair(m: Message, a: Record, b: Record)
    requires m.Connect?
  {
    m.to == a.id && m.toAddress == a.address && m.about == b.id && m.remote == b.address &&
    m.cookie == a.cookie == b.cookie && a.instance == b.instance == 1 && !a.gotConnectAck && !b.gotConnectAck &&
    ((a.gotInit && b.cindex == Other(a.cindex)) || (b.gotInit && a.cindex == Other(b.cindex)))
  }

  ghost predicate AllJustified(messages: seq<Message>, list: seq<Record>) {
    forall k :: 0 <= k < |messages| ==> Justified(messages[k], list)
  }

  /** Nothing but the times of sending changed, and records only become connected. */
  predicate Alike(a: Record, b: Record) {
    b == a.(sentconnecttime := b.sentconnecttime, connected := b.connected) && (a.connected ==> b.connected)
  }

  predicate SameWho(a: Record, b: Record) {
    a.id == b.id && a.address == b.address && (a.connected ==> b.connected)
  }

  predicate AllAlike(l: seq<Record>, m: seq<Record>) {
    |l| == |m| && forall i :: 0 <= i < |l| ==> Alike(l[i], m[i])
  }

  /** A CONNECT was sent to id or named it, or id was sent a deadbeat notice. */
  ghost predicate Heard(sent: seq<Message>, id: nat) {
    exists k :: 0 <= k < |sent| && Involves(sent[k], id)
  }

  /** Records that became connected were sent to or named. */
  ghost predicate Connects(l: seq<Record>, l': seq<Record>, sent: seq<Message>)
    requires |l| == |l'|
  {
    forall i :: 0 <= i < |l| && l'[i].connected ==> l[i].connected || Heard(sent, l'[i].id)
  }

  /** What sending does to a world: all that is new is justified, and records only become
      connected by it. */
  ghost predicate Sends(w: World, w': World) {
    AllAlike(w.list, w'.list) && w'.nextId == w.nextId && w.sent <= w'.sent &&
    AllJustified(w'.sent[|w.sent|..], w'.list) && Connects(w.list, w'.list, w'.sent)
  }

  lemma HeardMore(sent: seq<Message>, sent': seq<Message>, id: nat)
    requires Heard(sent, id) && sent <= sent'
    ensures Heard(sent', id)
  {
    var k :| 0 <= k < |sent| && Involves(sent[k], id);
    assert sent'[k] == sent[k];
  }

  lemma ConnectsOn(u: World, v: World, w: World)
    requires AllAlike(u.list, v.list) && AllAlike(v.list, w.list) && v.sent <= w.sent
    requires Connects(u.list, v.list, v.sent) && Connects(v.list, w.list, w.sent)
    ensures Connects(u.list, w.list, w.sent)
  {
    hide Heard;
    forall i | 0 <= i < |u.list| && w.list[i].connected && !u.list[i].connected ensures Heard(w.sent, w.list[i].id) {
      assert Alike(v.list[i], w.list[i]);
      if v.list[i].connected {
        HeardMore(v.sent, w.sent, v.list[i].id);
      }
    }
  }

  lemma JustifiedKeeps(m: Message, l: seq<Record>, l': seq<Record>)
    requires Justified(m, l) && AllAlike(l, l')
    ensures Justified(m, l')
  {
    if m.Connect? {
      var i, j :| 0 <= i < |l| && 0 <= j < |l| && i != j && Pair(m, l[i], l[j]);
      assert Alike(l[i], l'[i]) && Alike(l[j], l'[j]);
      assert Pair(m, l'[i], l'[j]);
    } else {
      var i :| 0 <= i < |l| && Addressed(m, l[i]);
      assert Alike(l[i], l'[i]);
      assert Addressed(m, l'[i]);
    }
  }

  lemma SendsOn(u: World, v: World, w: World)
    requires Sends(u, v) && Sends(v, w)
    ensures Sends(u, w)
  {
    hide Justified, Connects;
    ConnectsOn(u, v, w);
    forall i | 0 <= i < |u.list| ensures Alike(u.list[i], w.list[i]) {
      assert Alike(u.list[i], v.list[i]) && Alike(v.list[i], w.list[i]);
    }
    var new_ := w.sent[|u.sent|..];
    forall k | 0 <= k < |new_| ensures Justified(new_[k], w.list) {
      if k < |v.sent| - |u.sent| {
        assert new_[k] == v.sent[|u.sent|..][k];
        JustifiedKeeps(new_[k], v.list, w.list);
      } else {
        assert new_[k] == w.sent[|v.sent|..][k - (|v.sent| - |u.sent|)];
      }
    }
  }

  /** More datagrams, no deadbeat notice among them, about connected records. */
  lemma InvGrows(w: World, w': World)
    requires Inv(w) && w'.nextId == w.nextId && w.sent <= w'.sent
    requires |w.list| == |w'.list| && forall i :: 0 <= i < |w.list| ==> SameWho(w.list[i], w'.list[i])
    requires forall k :: |w.sent| <= k < |w'.sent| ==> !w'.sent[k].Deadbeat?
    requires forall k, id: nat :: |w.sent| <= k < |w'.sent| && Involves(w'.sent[k], id) ==>
               exists i :: 0 <= i < |w'.list| && w'.list[i].id == id && w'.list[i].connected
    ensures Inv(w')
  {
    assert forall i :: 0 <= i < |w.list| ==> SameWho(w.list[i], w'.list[i]);
    assert forall k :: 0 <= k < |w.sent| ==> w'.sent[k] == w.sent[k];
    assert Distinct(w'.list);
    assert Counted(w');
    assert Marked(w') by {
      forall k, i | 0 <= k < |w'.sent| && 0 <= i < |w'.list| && Involves(w'.sent[k], w'.list[i].id)
        ensures w'.list[i].connected
      {
        assert SameWho(w.list[i], w'.list[i]);
        if k < |w.sent| {
          assert Involves(w.sent[k], w.list[i].id);
        } else {
          var j :| 0 <= j < |w'.list| && w'.list[j].id == w'.list[i].id && w'.list[j].connected;
        }
      }
    }
    assert DeadbeatsComeFirst(w'.sent);
  }

  lemma SendConnectSends(w: World, i: nat, j: nat, sendToOther: bool, now: int)
    requires i < |w.list| && j < |w.list| && i != j && Inv(w)
    requires IsPartner(w.list[j], w.list[i].cookie, w.list[i].instance, Other(w.list[i].cindex))
    ensures var w' := SendConnect(w, i, j, sendToOther, now); Sends(w, w') && Inv(w')
  {
    hide Inv;
    var w' := SendConnect(w, i, j, sendToOther, now);
    var a', b' := w'.list[i], w'.list[j];
    if w' != w {
      var new_ := w'.sent[|w.sent|..];
      assert new_[0] == Connect(a'.id, a'.address, b'.id, b'.address, a'.cookie);
      assert Pair(new_[0], a', b');
      if sendToOther {
        assert new_[1] == Connect(b'.id, b'.address, a'.id, a'.address, a'.cookie);
        assert Pair(new_[1], b', a');
      }
      assert Connects(w.list, w'.list, w'.sent) by {
        assert w'.sent[|w.sent|] == new_[0];
        assert Involves(w'.sent[|w.sent|], a'.id) && Involves(w'.sent[|w.sent|], b'.id);
      }
      forall k, id: nat | |w.sent| <= k < |w'.sent| && Involves(w'.sent[k], id)
        ensures exists i :: 0 <= i < |w'.list| && w'.list[i].id == id && w'.list[i].connected
      {
        assert w'.sent[k] == new_[k - |w.sent|];
        assert id == a'.id || id == b'.id;
      }
      InvGrows(w, w');
    }
  }

  lemma TrySendConnectSends(w: World, i: nat, sendToOther: bool, now: int)
    requires i < |w.list| && Inv(w)
    ensures var w' := TrySendConnect(w, i, sendToOther, now); Sends(w, w') && Inv(w')
  {
    hide Inv, Sends, SendConnect;
    var a := w.list[i];
    var j := FindPartner(w.list, a.cookie, a.instance, Other(a.cindex));
    if a.gotConnectAck || j == |w.list| || j == i {
      SendsNothing(w);
    } else {
      SendConnectSends(w, i, j, sendToOther, now);
    }
  }

  lemma GiveUpSends(w: World, i: nat, now: int)
    requires i < |w.list| && Inv(w)
    ensures var w' := GiveUp(w, i, now); Sends(w, w') && Inv(w')
  {
    var w' := GiveUp(w, i, now);
    if w' != w {
      assert Addressed(w'.sent[|w.sent|..][0], w'.list[i]);
      assert Involves(w'.sent[|w.sent|], w'.list[i].id);
    }
  }

  lemma ResendFromSends(w: World, i: nat, now: int)
    requires i <= |w.list| && Inv(w)
    ensures var w' := ResendFrom(w, i, now); Sends(w, w') && Inv(w')
    decreases |w.list| - i
  {
    hide Inv, Sends, TrySendConnect;
    if i < |w.list| {
      var v := Resend(w, i, now);
      assert Sends(w, v) && Inv(v) by {
        if v == w {
          SendsNothing(w);
        } else {
          TrySendConnectSends(w, i, false, now);
        }
      }
      ResendFromSends(v, i + 1, now);
      SendsOn(w, v, ResendFrom(w, i, now));
    } else {
      SendsNothing(w);
    }
  }

  lemma SendsNothing(w: World)
    ensures Sends(w, w)
  {
  }

  lemma GiveUpFromSends(w: World, i: nat, now: int)
    requires i <= |w.list| && Inv(w)
    ensures var w' := GiveUpFrom(w, i, now); Sends(w, w') && Inv(w')
    decreases |w.list| - i
  {
    hide Inv, Sends, GiveUp;
    if i < |w.list| {
      var v := GiveUp(w, i, now);
      GiveUpSends(w, i, now);
      GiveUpFromSends(v, i + 1, now);
      SendsOn(w, v, GiveUpFrom(w, i, now));
    } else {
      SendsNothing(w);
    }
  }

  lemma EnrollKeepsInv(w: World, peer: Address, instance: int, now: int, garbage: int)
    requires Inv(w) && FindUser(w.list, peer) == |w.list|
    ensures Inv(Enroll(w, peer, instance, now, garbage))
  {
    var w' := Enroll(w, peer, instance, now, garbage);
    assert forall i :: 0 <= i < |w.list| ==> w'.list[i] == w.list[i];
  }

  /** The record as its packet leaves it, before anything but the answer is sent. */
  function Noted(w: World, i: nat, p: Packet, now: int): (w': World)
    requires i < |w.list|
    ensures |w'.list| == |w.list|
  {
    var a := w.list[i].(lastPacket := now);
    var b :=
      if p.packettype == NN_INIT then a.(cookie := p.cookie, cindex := Char(p.clientindex), gotInit := true)
      else if p.packettype == NN_CONNECT_ACK then a.(gotConnectAck := true)
      else a;
    if !p.magic then w else w.(list := w.list[i := b], sent := w.sent + Answers(a, p))
  }

  lemma IncomingIsNoted(w: World, i: nat, p: Packet, now: int)
    requires i < |w.list|
    ensures Incoming(w, i, p, now) ==
      if p.magic && p.packettype == NN_INIT then TrySendConnect(Noted(w, i, p, now), i, true, now) else Noted(w, i, p, now)
  {
    hide TrySendConnect;
  }

  lemma NotedKeepsInv(w: World, i: nat, p: Packet, now: int)
    requires i < |w.list| && Inv(w)
    ensures Inv(Noted(w, i, p, now))
  {
    InvGrows(w, Noted(w, i, p, now)) by {
      hide Inv;
    }
  }

  /** The answer to a packet goes to its sender. */
  lemma NotedIsJustified(w: World, i: nat, p: Packet, now: int)
    requires i < |w.list|
    ensures var v := Noted(w, i, p, now); w.sent <= v.sent && AllJustified(v.sent[|w.sent|..], v.list)
  {
    var v := Noted(w, i, p, now);
    if v.sent != w.sent {
      assert Addressed(v.sent[|w.sent|..][0], v.list[i]);
    }
  }

  lemma IncomingSends(w: World, i: nat, p: Packet, now: int)
    requires i < |w.list| && Inv(w)
    ensures var w' := Incoming(w, i, p, now); Sends(Noted(w, i, p, now), w') && Inv(w')
  {
    hide Inv, Sends, TrySendConnect, Noted, Incoming;
    NotedKeepsInv(w, i, p, now);
    IncomingIsNoted(w, i, p, now);
    if p.magic && p.packettype == NN_INIT {
      TrySendConnectSends(Noted(w, i, p, now), i, true, now);
    } else {
      SendsNothing(Noted(w, i, p, now));
    }
  }

  lemma UnexpiredMembers(list: seq<Record>, now: int)
    ensures forall r :: r in Unexpired(list, now) <==> r in list && !Expired(r, now)
  {
    if list != [] {
      assert forall r :: r in list <==> r == list[0] || r in list[1..];
    }
  }

  lemma {:induction false} UnexpiredConcat(a: seq<Record>, b: seq<Record>, now: int)
    ensures Unexpired(a + b, now) == Unexpired(a, now) + Unexpired(b, now)
    decreases |a|
  {
    if a == [] {
      assert a + b == b;
    } else {
      assert (a + b)[1..] == a[1..] + b;
      UnexpiredConcat(a[1..], b, now);
    }
  }

  lemma {:induction false} UnexpiredIsDistinct(list: seq<Record>, now: int)
    requires Distinct(list)
    ensures Distinct(Unexpired(list, now))
    decreases |list|
  {
    if list != [] {
      var rest := Unexpired(list[1..], now);
      UnexpiredIsDistinct(list[1..], now);
      UnexpiredMembers(list[1..], now);
      forall k | 0 <= k < |rest| ensures rest[k].id != list[0].id && rest[k].address != list[0].address {
        assert rest[k] in list[1..];
      }
    }
  }

  lemma DeletingKeepsInv(w: World, now: int)
    requires Inv(w)
    ensures Inv(w.(list := Unexpired(w.list, now)))
  {
    var list := Unexpired(w.list, now);
    UnexpiredIsDistinct(w.list, now);
    forall i | 0 <= i < |list| ensures list[i] in w.list {
      UnexpiredMembers(w.list, now);
    }
  }

  lemma CheckTimeoutsSends(w: World, now: int)
    requires Inv(w)
    ensures var w' := CheckTimeouts(w, now); Sends(w.(list := Unexpired(w.list, now)), w') && Inv(w')
  {
    hide Inv, Sends, ResendFrom, GiveUpFrom, Unexpired;
    var u := w.(list := Unexpired(w.list, now));
    DeletingKeepsInv(w, now);
    ResendFromSends(u, 0, now);
    GiveUpFromSends(ResendFrom(u, 0, now), 0, now);
    SendsOn(u, ResendFrom(u, 0, now), CheckTimeouts(w, now));
  }

  // ---------- The main results ----------

  /** A step keeps the invariant, takes back nothing that was sent, and all that it sends is
      justified by the records it leaves. */
  lemma StepIsSound(w: World, e: Event)
    requires Inv(w)
    ensures var w' := Step(w, e); Inv(w') && w.sent <= w'.sent && AllJustified(w'.sent[|w.sent|..], w'.list)
  {
    hide Inv, Unexpired, ResendFrom, GiveUpFrom, CheckTimeouts, Justified, Incoming, FindUser;
    match e
    case Sweep(now) =>
      CheckTimeoutsSends(w, now);
    case Datagram(peer, instance, p, now, garbage) =>
      var i := FindUser(w.list, peer);
      var u := if i == |w.list| then Enroll(w, peer, instance, now, garbage) else w;
      if i == |w.list| {
        EnrollKeepsInv(w, peer, instance, now, garbage);
      }
      IncomingSends(u, i, p, now);
      var v, w' := Noted(u, i, p, now), Incoming(u, i, p, now);
      NotedIsJustified(u, i, p, now);
      forall k | 0 <= k < |w'.sent| - |w.sent| ensures Justified(w'.sent[|w.sent|..][k], w'.list) {
        if |w.sent| + k >= |v.sent| {
          assert w'.sent[|w.sent|..][k] == w'.sent[|v.sent|..][|w.sent| + k - |v.sent|];
        } else {
          assert w'.sent[|w.sent|..][k] == v.sent[|w.sent|..][k];
          JustifiedKeeps(v.sent[|w.sent|..][k], v.list, w'.list);
        }
      }
  }

  lemma {:induction false} RunKeepsInv(w: World, events: seq<Event>)
    requires Inv(w)
    ensures Inv(Run(w, events)) && w.sent <= Run(w, events).sent
    decreases |events|
  {
    hide Inv, Step, AllJustified;
    if events != [] {
      var before := events[..|events| - 1];
      RunKeepsInv(w, before);
      StepIsSound(Run(w, before), events[|events| - 1]);
    }
  }

  /** In every run: addresses are distinct, whoever was sent to or named is marked, deadbeat
      notices come first and at most once, and what the last step sent is justified. */
  lemma RunIsSound(events: seq<Event>, e: Event)
    ensures var w, w' := Run(START, events), Run(START, events + [e]);
      Inv(w') && w.sent <= w'.sent && AllJustified(w'.sent[|w.sent|..], w'.list)
  {
    hide Step, AllJustified;
    var all := events + [e];
    assert all[..|all| - 1] == events && all[|all| - 1] == e;
    assert Inv(START);
    RunKeepsInv(START, events);
    StepIsSound(Run(START, events), e);
    assert Run(START, all) == Step(Run(START, events), e);
  }

  /** The record id has acknowledged, or has been deleted after doing so. */
  ghost predicate Acknowledged(w: World, id: nat) {
    id < w.nextId && forall i :: 0 <= i < |w.list| && w.list[i].id == id ==> w.list[i].gotConnectAck
  }

  lemma SendsKeepsAcknowledged(w: World, w': World, id: nat)
    requires Sends(w, w') && Acknowledged(w, id)
    ensures Acknowledged(w', id)
  {
    forall i | 0 <= i < |w'.list| && w'.list[i].id == id ensures w'.list[i].gotConnectAck {
      assert Alike(w.list[i], w'.list[i]);
    }
  }

  lemma JustifiedLeavesAlone(m: Message, w: World, id: nat)
    requires m.Connect? && Justified(m, w.list) && Acknowledged(w, id)
    ensures !Involves(m, id)
  {
  }

  lemma AcknowledgedStays(w: World, e: Event, id: nat)
    requires Inv(w) && Acknowledged(w, id)
    ensures Acknowledged(Step(w, e), id)
  {
    hide Inv, Sends, Unexpired, ResendFrom, GiveUpFrom, CheckTimeouts, Justified, Incoming, FindUser;
    match e
    case Sweep(now) =>
      CheckTimeoutsSends(w, now);
      var u := w.(list := Unexpired(w.list, now));
      forall i | 0 <= i < |u.list| ensures u.list[i] in w.list {
        UnexpiredMembers(w.list, now);
      }
      SendsKeepsAcknowledged(u, CheckTimeouts(w, now), id);
    case Datagram(peer, instance, p, now, garbage) =>
      var i := FindUser(w.list, peer);
      var u := if i == |w.list| then Enroll(w, peer, instance, now, garbage) else w;
      if i == |w.list| {
        EnrollKeepsInv(w, peer, instance, now, garbage);
      }
      IncomingSends(u, i, p, now);
      SendsKeepsAcknowledged(Noted(u, i, p, now), Incoming(u, i, p, now), id);
  }

  /** Once a record has acknowledged, no run sends it, or names it in, another CONNECT. */
  lemma {:induction false} AcknowledgedIsLeftAlone(w: World, events: seq<Event>, id: nat)
    requires Inv(w) && Acknowledged(w, id)
    ensures var w' := Run(w, events);
      Acknowledged(w', id) && w.sent <= w'.sent &&
      forall k :: |w.sent| <= k < |w'.sent| && w'.sent[k].Connect? ==> !Involves(w'.sent[k], id)
    decreases |events|
  {
    hide Inv, Step, Acknowledged, Involves, Justified;
    if events != [] {
      var u, e := Run(w, events[..|events| - 1]), events[|events| - 1];
      RunKeepsInv(w, events[..|events| - 1]);
      AcknowledgedIsLeftAlone(w, events[..|events| - 1], id);
      StepIsSound(u, e);
      AcknowledgedStays(u, e, id);
      var w' := Step(u, e);
      forall k | |w.sent| <= k < |w'.sent| && w'.sent[k].Connect? ensures !Involves(w'.sent[k], id) {
        if k < |u.sent| {
          assert w'.sent[k] == u.sent[k];
        } else {
          assert w'.sent[|u.sent|..][k - |u.sent|] == w'.sent[k];
          JustifiedLeavesAlone(w'.sent[k], w', id);
        }
      }
    }
  }

  /** An INIT is answered, and if its sender's partner is on record and neither has
      acknowledged, both are sent each other's address; nothing else is sent. */
  lemma InitTellsBoth(w: World, i: nat, p: Packet, now: int)
    requires i < |w.list| && p.magic && p.packettype == NN_INIT
    ensures var w' := Incoming(w, i, p, now);
      var j := FindPartner(w'.list, p.cookie, w.list[i].instance, Other(Char(p.clientindex)));
      var a := w'.list[i];
      w.sent <= w'.sent && w'.sent[|w.sent|..] == [Reply(a.id, a.address, NN_INITACK)] +
        if a.instance == 1 && j < |w'.list| && !a.gotConnectAck && !w'.list[j].gotConnectAck then
          var b := w'.list[j];
          [Connect(a.id, a.address, b.id, b.address, p.cookie), Connect(b.id, b.address, a.id, a.address, p.cookie)]
        else []
  {
    hide FindPartner;
    var v, w' := Noted(w, i, p, now), Incoming(w, i, p, now);
    var a := v.list[i];
    var j := FindPartner(v.list, p.cookie, a.instance, Other(a.cindex));
    assert !IsPartner(a, p.cookie, a.instance, Other(a.cindex));
    SamePartner(v.list, w'.list, p.cookie, a.instance, Other(a.cindex));
  }

  lemma SamePartner(l: seq<Record>, m: seq<Record>, cookie: int, instance: int, index: int)
    requires AllAlike(l, m)
    ensures FindPartner(l, cookie, instance, index) == FindPartner(m, cookie, instance, index)
  {
    var i, j := FindPartner(l, cookie, instance, index), FindPartner(m, cookie, instance, index);
    assert forall k :: 0 <= k < |l| ==> Alike(l[k], m[k]);
    assert i < |l| ==> IsPartner(m[i], cookie, instance, index);
    assert j < |m| ==> IsPartner(l[j], cookie, instance, index);
  }

  // ---------- What INITs leave in the records ----------

  /** Every record has a cookie, an index and an INIT flag that are accepted. */
  predicate AllAccepted(list: seq<Record>, ok: (int, int, bool) -> bool) {
    forall i :: 0 <= i < |list| ==> ok(list[i].cookie, list[i].cindex, list[i].gotInit)
  }

  /** An INIT leaves in a record what is accepted. */
  predicate Accepted(e: Event, ok: (int, int, bool) -> bool) {
    e.Datagram? && e.packet.magic && e.packet.packettype == NN_INIT ==> ok(e.packet.cookie, Char(e.packet.clientindex), true)
  }

  lemma SendsKeepsAccepted(w: World, w': World, ok: (int, int, bool) -> bool)
    requires Sends(w, w') && AllAccepted(w.list, ok)
    ensures AllAccepted(w'.list, ok)
  {
    forall i | 0 <= i < |w'.list| ensures ok(w'.list[i].cookie, w'.list[i].cindex, w'.list[i].gotInit) {
      assert Alike(w.list[i], w'.list[i]);
    }
  }

  lemma StepKeepsAccepted(w: World, e: Event, ok: (int, int, bool) -> bool)
    requires Inv(w) && ok(0, 0, false) && AllAccepted(w.list, ok) && Accepted(e, ok)
    ensures AllAccepted(Step(w, e).list, ok)
  {
    hide Inv, Sends, Unexpired, ResendFrom, GiveUpFrom, CheckTimeouts, Justified, Incoming, FindUser;
    match e
    case Sweep(now) =>
      CheckTimeoutsSends(w, now);
      var u := w.(list := Unexpired(w.list, now));
      forall i | 0 <= i < |u.list| ensures u.list[i] in w.list {
        UnexpiredMembers(w.list, now);
      }
      SendsKeepsAccepted(u, CheckTimeouts(w, now), ok);
    case Datagram(peer, instance, p, now, garbage) =>
      var i := FindUser(w.list, peer);
      var u := if i == |w.list| then Enroll(w, peer, instance, now, garbage) else w;
      if i == |w.list| {
        EnrollKeepsInv(w, peer, instance, now, garbage);
      }
      IncomingSends(u, i, p, now);
      SendsKeepsAccepted(Noted(u, i, p, now), Incoming(u, i, p, now), ok);
  }

  lemma {:induction false} RunKeepsAccepted(events: seq<Event>, ok: (int, int, bool) -> bool)
    requires ok(0, 0, false) && forall k :: 0 <= k < |events| ==> Accepted(events[k], ok)
    ensures AllAccepted(Run(START, events).list, ok)
    decreases |events|
  {
    hide Inv, Step, Accepted;
    if events != [] {
      var before := events[..|events| - 1];
      RunKeepsAccepted(before, ok);
      StartIsSound();
      RunKeepsInv(START, before);
      StepKeepsAccepted(Run(START, before), events[|events| - 1], ok);
    }
  }

  /** As long as all INITs use the indices 0 and 1, so do the records. */
  predicate ZeroOne(list: seq<Record>) {
    forall i :: 0 <= i < |list| ==> list[i].cindex == 0 || list[i].cindex == 1
  }

  predicate UsesZeroOne(e: Event) {
    e.Datagram? && e.packet.magic && e.packet.packettype == NN_INIT ==> e.packet.clientindex == 0 || e.packet.clientindex == 1
  }

  lemma RunKeepsZeroOne(events: seq<Event>)
    requires forall k :: 0 <= k < |events| ==> UsesZeroOne(events[k])
    ensures ZeroOne(Run(START, events).list)
  {
    hide Run;
    var ok := (cookie: int, index: int, init: bool) => index == 0 || index == 1;
    forall k | 0 <= k < |events| ensures Accepted(events[k], ok) {
      assert UsesZeroOne(events[k]);
    }
    RunKeepsAccepted(events, ok);
  }

  /** The receiver and the subject of a CONNECT both sent an INIT. */
  ghost predicate Mutual(m: Message, list: seq<Record>)
    requires m.Connect?
  {
    exists i, j :: 0 <= i < |list| && 0 <= j < |list| && i != j && Pair(m, list[i], list[j]) && list[i].gotInit && list[j].gotInit
  }

  /** One of them sent an INIT of cookie 0 and index 1, the other none. */
  ghost predicate OneSided(m: Message, list: seq<Record>)
    requires m.Connect?
  {
    exists i, j :: 0 <= i < |list| && 0 <= j < |list| && i != j && Pair(m, list[i], list[j]) && (Silent(list[i], list[j]) || Silent(list[j], list[i]))
  }

  predicate Silent(a: Record, b: Record) {
    a.gotInit && a.cookie == 0 && a.cindex == 1 && !b.gotInit && b.cookie == 0 && b.cindex == 0
  }

  lemma ConnectIsMutual(m: Message, list: seq<Record>)
    requires m.Connect? && Justified(m, list) && Distinct(list)
    requires AllAccepted(list, (cookie: int, index: int, init: bool) => init || (cookie == 0 && index == 0))
    ensures Mutual(m, list) <==> !OneSided(m, list)
  {
    var i, j :| 0 <= i < |list| && 0 <= j < |list| && i != j && Pair(m, list[i], list[j]);
    forall k, l | 0 <= k < |list| && 0 <= l < |list| && k != l && Pair(m, list[k], list[l]) ensures k == i && l == j {
      SameId(list, i, k);
      SameId(list, j, l);
    }
  }

  /** In every run both sides of a CONNECT sent an INIT, or one sent an INIT of cookie 0 and
      index 1 and the other none, whose record has the cookie 0 and the index 0 that it was
      made with. */
  lemma ConnectsAreMutual(events: seq<Event>, e: Event, k: nat)
    requires |Run(START, events).sent| <= k < |Run(START, events + [e]).sent| && Run(START, events + [e]).sent[k].Connect?
    ensures var w := Run(START, events + [e]); Mutual(w.sent[k], w.list) <==> !OneSided(w.sent[k], w.list)
  {
    hide Run, Justified, Mutual, OneSided, Distinct, Counted, Marked, DeadbeatsComeFirst;
    var w, ok := Run(START, events + [e]), (cookie: int, index: int, init: bool) => init || (cookie == 0 && index == 0);
    RunIsSound(events, e);
    RunKeepsAccepted(events + [e], ok);
    assert w.sent[|Run(START, events).sent|..][k - |Run(START, events).sent|] == w.sent[k];
    ConnectIsMutual(w.sent[k], w.list);
  }

  predicate NotZeroAndOne(e: Event) {
    !(e.Datagram? && e.packet.magic && e.packet.packettype == NN_INIT && e.packet.cookie == 0 && e.packet.clientindex == 1)
  }

  /** So without an INIT of cookie 0 and index 1 in the run, both always did. */
  lemma ConnectsAreMutualWithout(events: seq<Event>, e: Event, k: nat)
    requires forall i :: 0 <= i < |events + [e]| ==> NotZeroAndOne((events + [e])[i])
    requires |Run(START, events).sent| <= k < |Run(START, events + [e]).sent| && Run(START, events + [e]).sent[k].Connect?
    ensures var w := Run(START, events + [e]); Mutual(w.sent[k], w.list)
  {
    hide Run, Mutual;
    var all, ok := events + [e], (cookie: int, index: int, init: bool) => !(cookie == 0 && index == 1);
    forall i | 0 <= i < |all| ensures Accepted(all[i], ok) {
      assert NotZeroAndOne(all[i]);
    }
    RunKeepsAccepted(all, ok);
    ConnectsAreMutual(events, e, k);
  }

  lemma StartIsSound()
    ensures Inv(START)
  {
  }

  /** Receiver and subject of a CONNECT have complementary indices exactly if both indices
      are 0 or 1; so they do as long as all INITs use those. */
  lemma IndicesAreComplementary(m: Message, list: seq<Record>, i: nat, j: nat)
    requires m.Connect? && Justified(m, list) && Distinct(list) && i < |list| && j < |list|
    requires list[i].id == m.to && list[j].id == m.about
    ensures list[i].cindex + list[j].cindex == 1 <==> {list[i].cindex, list[j].cindex} <= {0, 1}
  {
    var k, l :| 0 <= k < |list| && 0 <= l < |list| && k != l && Pair(m, list[k], list[l]);
    SameId(list, i, k);
    SameId(list, j, l);
  }

  lemma SameId(list: seq<Record>, i: nat, j: nat)
    requires Distinct(list) && i < |list| && j < |list| && list[i].id == list[j].id
    ensures i == j
  {
  }

  /** The two that an INIT introduces to each other have complementary indices exactly if
      the packet says 0 or 1. */
  lemma InitComplements(w: World, i: nat, p: Packet, now: int)
    requires i < |w.list| && p.magic && p.packettype == NN_INIT
    ensures var list := Incoming(w, i, p, now).list;
      var j := FindPartner(list, p.cookie, w.list[i].instance, Other(Char(p.clientindex)));
      j < |list| ==> (list[i].cindex + list[j].cindex == 1 <==> p.clientindex == 0 || p.clientindex == 1)
  {
    hide FindPartner;
    var v, list := Noted(w, i, p, now), Incoming(w, i, p, now).list;
    assert AllAlike(v.list, list) && v.list[i].cindex == Char(p.clientindex);
    assert Alike(v.list[i], list[i]);
  }

  lemma FirstInit(a: Address, index: byte)
    ensures Step(START, Datagram(a, 1, Packet(true, NN_INIT, 7, index, 0, true), 0, 0)) ==
            World([Record(0, a, 1, 0, 0, 0, 7, Char(index), false, true, false)], 1, [Reply(0, a, NN_INITACK)])
  {
  }

  lemma SecondPeer(u: World, first: Record, b: Address, p: Packet)
    requires u.list == [first] && first.address != b
    ensures Step(u, Datagram(b, 1, p, 0, 0)) == Incoming(Enroll(u, b, 1, 0, 0), 1, p, 0)
  {
    hide Incoming;
  }

  /** The second of two peers sends its INIT, and the first has the index of its partner. */
  lemma SecondInit(w: World, p: Packet)
    requires |w.list| == 2 && p.magic && p.packettype == NN_INIT && !w.list[0].gotConnectAck && !w.list[1].gotConnectAck
    requires IsPartner(w.list[0], p.cookie, 1, Other(Char(p.clientindex))) && w.list[1].instance == 1
    ensures var w' := Incoming(w, 1, p, 0); var a, b := w.list[1], w.list[0];
      |w'.list| == 2 && w'.list[0].cindex == b.cindex && w'.list[0].gotInit == b.gotInit && w'.list[1].cindex == Char(p.clientindex) &&
      Connect(a.id, a.address, b.id, b.address, p.cookie) in w'.sent
  {
    hide FindPartner;
    var v := Noted(w, 1, p, 0);
    IncomingIsNoted(w, 1, p, 0);
    assert v.list[0] == w.list[0];
    assert FindPartner(v.list, p.cookie, 1, Other(Char(p.clientindex))) == 0;
  }

  /** With other indices they need not be: 1 and 2 are introduced to each other. */
  lemma OtherIndices()
    ensures var a, b := Address(1, 1), Address(2, 2);
      var u := Step(START, Datagram(a, 1, Packet(true, NN_INIT, 7, 1, 0, true), 0, 0));
      var w := Step(u, Datagram(b, 1, Packet(true, NN_INIT, 7, 2, 0, true), 0, 0));
      Connect(1, b, 0, a, 7) in w.sent && |w.list| == 2 && w.list[0].cindex == 1 && w.list[1].cindex == 2
  {
    var a, b := Address(1, 1), Address(2, 2);
    var u := Step(START, Datagram(a, 1, Packet(true, NN_INIT, 7, 1, 0, true), 0, 0));
    var first := Record(0, a, 1, 0, 0, 0, 7, 1, false, true, false);
    FirstInit(a, 1);
    SecondPeer(u, first, b, Packet(true, NN_INIT, 7, 2, 0, true));
    hide Step;
    SecondInit(Enroll(u, b, 1, 0, 0), Packet(true, NN_INIT, 7, 2, 0, true));
  }

  /** And with such an INIT they need not: it introduces its sender to a peer that only
      asked for its address. */
  lemma OneSidedConnect(a: Address, b: Address)
    requires a != b
    ensures var u := Step(START, Datagram(a, 1, Packet(true, NN_ADDRESS_CHECK, 7, 0, 0, true), 0, 0));
      var w := Step(u, Datagram(b, 1, Packet(true, NN_INIT, 0, 1, 0, true), 0, 0));
      Connect(1, b, 0, a, 0) in w.sent && |w.list| == 2 && !w.list[0].gotInit
  {
    var u := Step(START, Datagram(a, 1, Packet(true, NN_ADDRESS_CHECK, 7, 0, 0, true), 0, 0));
    FirstCheck(a);
    SecondPeer(u, Record(0, a, 1, 0, 0, 0, 0, 0, false, false, false), b, Packet(true, NN_INIT, 0, 1, 0, true));
    hide Step;
    SecondInit(Enroll(u, b, 1, 0, 0), Packet(true, NN_INIT, 0, 1, 0, true));
  }

  lemma FirstCheck(a: Address)
    ensures Step(START, Datagram(a, 1, Packet(true, NN_ADDRESS_CHECK, 7, 0, 0, true), 0, 0)) ==
            World([Record(0, a, 1, 0, 0, 0, 0, 0, false, false, false)], 1, [Reply(0, a, NN_ADDRESS_REPLY)])
  {
  }

  /** A sweep deletes exactly the expired records, keeps the others in order, and does no
      more to them than sending does. */
  lemma SweepDeletesExpired(w: World, now: int)
    requires Inv(w)
    ensures AllAlike(Unexpired(w.list, now), CheckTimeouts(w, now).list)
    ensures forall r :: r in w.list && !Expired(r, now) ==> exists s :: s in CheckTimeouts(w, now).list && Alike(r, s)
    ensures forall s :: s in CheckTimeouts(w, now).list ==> exists r :: r in w.list && !Expired(r, now) && Alike(r, s)
  {
    hide Inv, CheckTimeouts, Unexpired;
    CheckTimeoutsSends(w, now);
    UnexpiredMembers(w.list, now);
    var u, list := Unexpired(w.list, now), CheckTimeouts(w, now).list;
    forall r | r in w.list && !Expired(r, now) ensures exists s :: s in list && Alike(r, s) {
      var i :| 0 <= i < |u| && u[i] == r;
      assert list[i] in list;
    }
    forall s | s in list ensures exists r :: r in w.list && !Expired(r, now) && Alike(r, s) {
      var i :| 0 <= i < |list| && list[i] == s;
      assert u[i] in u;
    }
  }

  // ---------- Nobody is left without word ----------

  /** Conversely to Marked: whoever counts as connected has heard. */
  ghost predicate AllHeard(w: World) {
    forall i :: 0 <= i < |w.list| && w.list[i].connected ==> Heard(w.sent, w.list[i].id)
  }

  lemma SendsKeepsHeard(w: World, w': World)
    requires Sends(w, w') && AllHeard(w)
    ensures AllHeard(w')
  {
    hide Heard, AllJustified;
    forall i | 0 <= i < |w'.list| && w'.list[i].connected ensures Heard(w'.sent, w'.list[i].id) {
      assert Alike(w.list[i], w'.list[i]);
      if w.list[i].connected {
        HeardMore(w.sent, w'.sent, w.list[i].id);
      }
    }
  }

  lemma NotedKeepsHeard(w: World, i: nat, p: Packet, now: int)
    requires i < |w.list| && AllHeard(w)
    ensures AllHeard(Noted(w, i, p, now))
  {
    hide Heard;
    var v := Noted(w, i, p, now);
    forall j | 0 <= j < |v.list| && v.list[j].connected ensures Heard(v.sent, v.list[j].id) {
      HeardMore(w.sent, v.sent, w.list[j].id);
    }
  }

  lemma StepKeepsHeard(w: World, e: Event)
    requires Inv(w) && AllHeard(w)
    ensures AllHeard(Step(w, e))
  {
    hide Inv, Sends, Unexpired, ResendFrom, GiveUpFrom, CheckTimeouts, Heard, Incoming, FindUser;
    match e
    case Sweep(now) =>
      CheckTimeoutsSends(w, now);
      var u := w.(list := Unexpired(w.list, now));
      forall i | 0 <= i < |u.list| ensures u.list[i] in w.list {
        UnexpiredMembers(w.list, now);
      }
      SendsKeepsHeard(u, CheckTimeouts(w, now));
    case Datagram(peer, instance, p, now, garbage) =>
      var i := FindUser(w.list, peer);
      var u := if i == |w.list| then Enroll(w, peer, instance, now, garbage) else w;
      if i == |w.list| {
        EnrollKeepsInv(w, peer, instance, now, garbage);
      }
      IncomingSends(u, i, p, now);
      NotedKeepsHeard(u, i, p, now);
      SendsKeepsHeard(Noted(u, i, p, now), Incoming(u, i, p, now));
  }

  lemma {:induction false} RunKeepsHeard(events: seq<Event>)
    ensures AllHeard(Run(START, events))
    decreases |events|
  {
    hide Inv, Step, Heard;
    if events != [] {
      var before := events[..|events| - 1];
      RunKeepsHeard(before);
      StartIsSound();
      RunKeepsInv(START, before);
      StepKeepsHeard(Run(START, before), events[|events| - 1]);
    }
  }

  /** Whoever is of instance 1 and came more than 30 seconds ago counts as connected. */
  predicate Told(r: Record, now: int) {
    r.instance == 1 && now - DEADBEAT_TIME > r.connecttime ==> r.connected
  }

  predicate AllTold(list: seq<Record>, now: int) {
    forall r :: r in list ==> Told(r, now)
  }

  lemma {:induction false} GiveUpFromTells(w: World, i: nat, now: int)
    requires i <= |w.list| && AllTold(w.list[..i], now)
    ensures AllTold(GiveUpFrom(w, i, now).list, now)
    decreases |w.list| - i
  {
    if i == |w.list| {
      assert w.list[..i] == w.list;
    } else {
      var v := GiveUp(w, i, now);
      assert v.list[..i] == w.list[..i] && v.list[..i + 1] == v.list[..i] + [v.list[i]];
      GiveUpFromTells(v, i + 1, now);
    }
  }

  lemma SweepTells(w: World, now: int)
    ensures AllTold(CheckTimeouts(w, now).list, now)
  {
    hide GiveUpFrom, ResendFrom, Unexpired;
    var v := ResendFrom(w.(list := Unexpired(w.list, now)), 0, now);
    assert v.list[..0] == [];
    GiveUpFromTells(v, 0, now);
  }

  /** In every run, after a sweep, everybody of instance 1 who came more than 30 seconds ago
      was sent a CONNECT, or named in one, or sent the deadbeat notice. */
  lemma SweepLeavesNobodyWaiting(events: seq<Event>, now: int)
    ensures var w := Run(START, events + [Sweep(now)]);
      forall i :: 0 <= i < |w.list| && w.list[i].instance == 1 && now - DEADBEAT_TIME > w.list[i].connecttime ==>
        Heard(w.sent, w.list[i].id)
  {
    hide Heard, CheckTimeouts;
    var all := events + [Sweep(now)];
    var w := Run(START, all);
    RunKeepsHeard(all);
    assert all[..|all| - 1] == events;
    assert w == CheckTimeouts(Run(START, events), now);
    SweepTells(Run(START, events), now);
    assert forall i :: 0 <= i < |w.list| ==> Told(w.list[i], now);
  }
}
