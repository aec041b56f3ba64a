/** What mode strings do: the law of one letter, field by field, and what follows for whole
    strings. */
module ModeStrings {
  import opened Text
  import opened Channels

  // ---------- One letter ----------

  /** The rank that a letter takes, or an override, which owners-only channels leave to
      their owners. */
  predicate May(c: Chan, u: Actor, rank: bool) {
    rank || (u.operOverride && (!c.onlyowner || RankOf(c, u).owner))
  }

  /** A new rank: owners and ops are made and unmade with all that is below them, an op that
      is unmade is no owner either; ops keep their halfop bit, and owners do but for other
      owners. */
  predicate RankLaw(q: Rank, r: Rank, letter: char, on: bool, byOwner: bool) {
    match letter
    case 'o' => r == if q.op == on then q else Rank(q.voice, on, on, q.owner && on)
    case 'O' => r == if q.owner == on then q else Rank(q.voice, on, on, on)
    case 'h' => r == if q.op || (q.owner && !byOwner) then q else Rank(q.voice, on, q.op, q.owner)
    case 'v' => r == Rank(on, q.halfop, q.op, q.owner)
    case _ => r == q
  }

  /** The entry of the target gets the new rank and no other entry changes. Without power
      one can only take the own voice. */
  ghost predicate MemberLaw(c: Chan, d: Chan, u: Actor, letter: char, on: bool, target: Option<User>) {
    var k := RankOf(c, u);
    if target.Some? && (letter != 'v' || May(c, u, k.halfop || k.op || k.owner) || (target.value == u.user && !on)) then
      (forall i :: IsFirst(c.members, target.value, i) ==>
        |d.members| == |c.members| && d == c.(members := d.members) &&
        d.members[i] == c.members[i].(rank := d.members[i].rank) &&
        RankLaw(c.members[i].rank, d.members[i].rank, letter, on, k.owner) &&
        forall j :: 0 <= j < |c.members| && j != i ==> d.members[j] == c.members[j]) &&
      ((forall i :: 0 <= i < |c.members| ==> c.members[i].user != target.value) ==> d == c)
    else d == c
  }

  /** A letter that takes a parameter: without one, or with an empty one, reading stops. */
  predicate TakesText(r: Reading, s: Reading, t: Command) {
    if !t.hasParams then s == r.(over := true)
    else if t.param(r.next) == "" then s == r.(next := r.next + 1, over := true)
    else s.on == r.on && s.next == r.next + 1
  }

  ghost predicate LetterLaw(r: Reading, s: Reading, u: Actor, letter: char, t: Command) {
    var c, m, k := r.chan, r.chan.modes, RankOf(r.chan, u);
    var may := May(c, u, k.halfop);
    match letter
    case '+' => s == r.(on := true)
    case '-' => s == r.(on := false)
    case 'e' => s == if may then r.(chan := c.(modes := m.(opsObeyLimit := r.on))) else r
    case 'm' => s == if may then r.(chan := c.(modes := m.(moderated := r.on))) else r
    case 'n' => s == if may then r.(chan := c.(modes := m.(nooutsidemsgs := r.on))) else r
    case 'i' => s == if may then r.(chan := c.(modes := m.(inviteonly := r.on))) else r
    case 't' => s == if may then r.(chan := c.(modes := m.(topicProtect := r.on))) else r
    case 'p' => s == if may then r.(chan := c.(modes := m.(priv := r.on, secret := if r.on then false else m.secret))) else r
    case 's' => s == if may then r.(chan := c.(modes := m.(secret := r.on, priv := if r.on then false else m.priv))) else r
    case 'q' => s == if may then r.(chan := c.(modes := m.(auditorium := if r.on then 1 else if m.auditorium == 1 then 0 else m.auditorium))) else r
    case 'u' => s == if may then r.(chan := c.(modes := m.(auditorium := if r.on then 2 else if m.auditorium == 2 then 0 else m.auditorium))) else r
    case 'l' =>
      if !may then s == r
      else if !r.on then s == r.(chan := c.(modes := m.(limit := 0)))
      else
        TakesText(r, s, t) &&
        (t.hasParams && t.param(r.next) != "" ==>
          if t.atoi(t.param(r.next)) < 1 then s.over && s.chan == c
          else s.over == r.over && s.chan == c.(modes := m.(limit := t.atoi(t.param(r.next)))))
    case 'k' =>
      if !may then s == r
      else if !r.on then s == r.(chan := c.(modes := m.(key := "")))
      else
        TakesText(r, s, t) &&
        (t.hasParams && t.param(r.next) != "" ==> s.over == r.over && s.chan == c.(modes := m.(key := t.param(r.next))))
    case _ =>
      if letter == 'o' || letter == 'O' || letter == 'h' || letter == 'v' then
        if letter != 'v' && !May(c, u, if letter == 'h' then k.op else k.owner) then s == r
        else
          TakesText(r, s, t) &&
          (t.hasParams && t.param(r.next) != "" ==>
            s.over == r.over && MemberLaw(c, s.chan, u, letter, r.on, t.find(t.param(r.next))))
      else if letter == 'b' || letter == 'I' || letter == 'E' then
        s.chan == c && s.on == r.on &&
        (!t.hasParams ==> s.next == r.next && (s.over <==> forall i :: 0 <= i < |c.members| ==> c.members[i].user != u.user)) &&
        (t.hasParams ==> if may then s.next == r.next + 1 && s.over == (t.param(r.next) == "") else s == r)
      else s == r
  }

  lemma RankIs(c: Chan, u: Actor)
    ensures forall i :: IsFirst(c.members, u.user, i) ==> RankOf(c, u) == c.members[i].rank
    ensures (forall i :: 0 <= i < |c.members| ==> c.members[i].user != u.user) ==> RankOf(c, u) == Rank(false, false, false, false)
  {
    hide UserInfo;
    var n := UserInfo(c.members, u.user);
    forall i | IsFirst(c.members, u.user, i) ensures i == n {
    }
  }

  lemma MayIs(c: Chan, u: Actor, letter: char)
    ensures var k := RankOf(c, u);
      Allowed(c, u, letter) <==>
      May(c, u, if letter == 'o' || letter == 'O' then k.owner else if letter == 'h' then k.op
                else if letter == 'v' then k.halfop || k.op || k.owner else k.halfop)
  {
    hide RankOf;
  }

  lemma PromotedIsLawful(q: Rank, letter: char, on: bool, byOwner: bool)
    requires IsForMembers(letter)
    ensures RankLaw(q, Promoted(q, letter, on, byOwner), letter, on, byOwner)
  {
  }

  lemma PromoteIsLawful(c: Chan, u: Actor, i: nat, letter: char, on: bool)
    requires i < |c.members| && IsForMembers(letter)
    ensures var d := Promote(c, u, i, letter, on);
      |d.members| == |c.members| && d == c.(members := d.members) && d.members[i] == c.members[i].(rank := d.members[i].rank) &&
      RankLaw(c.members[i].rank, d.members[i].rank, letter, on, RankOf(c, u).owner) &&
      forall j :: 0 <= j < |c.members| && j != i ==> d.members[j] == c.members[j]
  {
    hide RankOf, Promoted, RankLaw;
    PromotedIsLawful(c.members[i].rank, letter, on, RankOf(c, u).owner);
  }

  lemma EntryIsFirst(c: Chan, v: User)
    ensures var n := UserInfo(c.members, v);
      (forall i :: IsFirst(c.members, v, i) ==> i == n) &&
      (n == |c.members| <==> forall i :: 0 <= i < |c.members| ==> c.members[i].user != v)
  {
    hide UserInfo;
  }

  lemma ForMemberIsLawful(c: Chan, u: Actor, letter: char, on: bool, target: Option<User>)
    requires IsForMembers(letter)
    ensures MemberLaw(c, ForMember(c, u, letter, on, target), u, letter, on, target)
  {
    hide RankOf, UserInfo, Promote, Allowed, RankLaw, May;
    MayIs(c, u, 'v');
    if target.Some? {
      EntryIsFirst(c, target.value);
      var n := UserInfo(c.members, target.value);
      if n < |c.members| {
        PromoteIsLawful(c, u, n, letter, on);
      }
    }
  }

  lemma LetterIsLawful(r: Reading, u: Actor, letter: char, t: Command)
    requires !r.over
    ensures LetterLaw(r, Letter(r, u, letter, t), u, letter, t)
  {
    MayIs(r.chan, u, letter);
    hide RankOf, Allowed, MemberLaw, May, ForMember;
    if IsForMembers(letter) {
      if t.hasParams {
        ForMemberIsLawful(r.chan, u, letter, r.on, t.find(t.param(r.next)));
      }
    } else {
      EntryIsFirst(r.chan, u.user);
    }
    hide UserInfo;
  }

  // ---------- A whole string, letter by letter ----------

  /** Before the first letter the setter's own entry is put in order: an owner is an op, and
      an op a halfop. */
  ghost predicate SettleLaw(c: Chan, d: Chan, u: Actor) {
    |d.members| == |c.members| && d == c.(members := d.members) &&
    forall j :: 0 <= j < |c.members| ==>
      var q := c.members[j].rank;
      d.members[j] ==
        if IsFirst(c.members, u.user, j) then c.members[j].(rank := Rank(q.voice, q.halfop || q.op || q.owner, q.op || q.owner, q.owner))
        else c.members[j]
  }

  lemma SettleIsLawful(c: Chan, u: Actor)
    ensures SettleLaw(c, Settle(c, u), u)
  {
    hide UserInfo;
    EntryIsFirst(c, u.user);
    var n := UserInfo(c.members, u.user);
    assert n < |c.members| ==> IsFirst(c.members, u.user, n);
  }

  /** The readings after each letter; where reading stopped, the last one stays. */
  ghost predicate ReadsAs(c: Chan, u: Actor, t: Command, rs: seq<Reading>) {
    |rs| == |t.letters| + 1 && rs[0] == Reading(rs[0].chan, true, 0, false) && SettleLaw(c, rs[0].chan, u) &&
    forall i :: 0 <= i < |t.letters| ==> if rs[i].over then rs[i + 1] == rs[i] else LetterLaw(rs[i], rs[i + 1], u, t.letters[i], t)
  }

  /** A mode string is read letter by letter, each as the law says. */
  lemma StringIsLawful(c: Chan, u: Actor, t: Command) returns (rs: seq<Reading>)
    ensures ReadsAs(c, u, t, rs) && SetModes(c, u, t) == rs[|t.letters|].chan
  {
    hide LetterLaw, SettleLaw, Settle, Letter;
    rs := seq(|t.letters| + 1, i requires 0 <= i <= |t.letters| => Read(Start(c, u), u, i, t));
    SettleIsLawful(c, u);
    forall i | 0 <= i < |t.letters|
      ensures if rs[i].over then rs[i + 1] == rs[i] else LetterLaw(rs[i], rs[i + 1], u, t.letters[i], t)
    {
      if !rs[i].over {
        LetterIsLawful(rs[i], u, t.letters[i], t);
      }
    }
  }

  // ---------- Flags: the last letter says ----------

  predicate IsSign(letter: char) {
    letter == '+' || letter == '-'
  }

  /** The sign before place i that is closest to it; without any it is a plus. */
  ghost predicate InForce(letters: string, i: int, on: bool) {
    0 <= i <= |letters| &&
    ((exists j :: ClosestSign(letters, i, j) && letters[j] == if on then '+' else '-') ||
     (on && forall k :: 0 <= k < i ==> !IsSign(letters[k])))
  }

  predicate ClosestSign(letters: string, i: int, j: int) {
    0 <= j < i <= |letters| && IsSign(letters[j]) && forall k :: j < k < i ==> !IsSign(letters[k])
  }

  lemma OneSign(letters: string, i: int, a: bool, b: bool)
    requires InForce(letters, i, a) && InForce(letters, i, b)
    ensures a == b
  {
  }

  lemma NextSign(letters: string, n: nat, on: bool)
    requires n < |letters| && InForce(letters, n, on)
    ensures InForce(letters, n + 1, if letters[n] == '+' then true else if letters[n] == '-' then false else on)
  {
    if IsSign(letters[n]) {
      assert ClosestSign(letters, n + 1, n);
    } else if j :| ClosestSign(letters, n, j) && letters[j] == if on then '+' else '-' {
      assert ClosestSign(letters, n + 1, j);
    }
  }

  /** A setting is what the last of the first n letters that says something about it says,
      under its sign; if none does, it is the old one. */
  ghost predicate Says(letters: string, n: int, says: (char, bool) -> Option<bool>, old_: bool, now: bool) {
    0 <= n <= |letters| &&
    (forall i, on :: 0 <= i < n && InForce(letters, i, on) && says(letters[i], on).Some? && Silent(letters, i + 1, n, says) ==>
      now == says(letters[i], on).value) &&
    (Silent(letters, 0, n, says) ==> now == old_)
  }

  ghost predicate Silent(letters: string, from: int, to: int, says: (char, bool) -> Option<bool>)
    requires 0 <= from && to <= |letters|
  {
    forall k, on :: from <= k < to && InForce(letters, k, on) ==> says(letters[k], on) == None
  }

  lemma SaysNext(letters: string, n: nat, says: (char, bool) -> Option<bool>, old_: bool, now: bool, next: bool, on: bool)
    requires n < |letters| && Says(letters, n, says, old_, now) && InForce(letters, n, on)
    requires next == match says(letters[n], on) case Some(v) => v case None => now
    ensures Says(letters, n + 1, says, old_, next)
  {
    hide InForce;
    forall a | InForce(letters, n, a) ensures a == on {
      OneSign(letters, n, a, on);
    }
    forall i, a | 0 <= i < n + 1 && InForce(letters, i, a) && says(letters[i], a).Some? && Silent(letters, i + 1, n + 1, says)
      ensures next == says(letters[i], a).value
    {
      if i < n {
        assert says(letters[n], on) == None;
        assert Silent(letters, i + 1, n, says);
      }
    }
    if Silent(letters, 0, n + 1, says) {
      assert says(letters[n], on) == None;
      assert Silent(letters, 0, n, says);
    }
  }

  function Sets(flag: char): (char, bool) -> Option<bool> {
    (letter: char, on: bool) => if letter == flag then Some(on) else None
  }

  /** One flag that another switches off. */
  function SetsBut(flag: char, other: char): (char, bool) -> Option<bool> {
    (letter: char, on: bool) => if letter == flag then Some(on) else if letter == other && on then Some(false) else None
  }

  ghost predicate FlagsSay(letters: string, n: int, m: Modes, d: Modes) {
    FlagsOfChannel(letters, n, m, d) && FlagsOfTalk(letters, n, m, d) && FlagsOfSecrecy(letters, n, m, d) &&
    d.limit == m.limit && d.key == m.key
  }

  ghost predicate FlagsOfChannel(letters: string, n: int, m: Modes, d: Modes) {
    Says(letters, n, Sets('e'), m.opsObeyLimit, d.opsObeyLimit) && Says(letters, n, Sets('i'), m.inviteonly, d.inviteonly) &&
    Says(letters, n, Sets('t'), m.topicProtect, d.topicProtect)
  }

  ghost predicate FlagsOfTalk(letters: string, n: int, m: Modes, d: Modes) {
    Says(letters, n, Sets('m'), m.moderated, d.moderated) && Says(letters, n, Sets('n'), m.nooutsidemsgs, d.nooutsidemsgs)
  }

  ghost predicate FlagsOfSecrecy(letters: string, n: int, m: Modes, d: Modes) {
    Says(letters, n, SetsBut('p', 's'), m.priv, d.priv) && Says(letters, n, SetsBut('s', 'p'), m.secret, d.secret)
  }

  predicate OnlyFlags(letters: string) {
    forall i :: 0 <= i < |letters| ==> IsSign(letters[i]) || IsFlag(letters[i])
  }

  /** Where the setter may, each flag ends with the sign in force at the last letter that
      sets it, or for p and s also at a later plus of the other, and is as it was if there is
      none. Members, limit and key stay. */
  lemma FlagsAreSet(c: Chan, u: Actor, t: Command)
    requires OnlyFlags(t.letters) && var k := RankOf(c, u); May(c, u, k.halfop || k.op || k.owner)
    ensures FlagsSay(t.letters, |t.letters|, c.modes, SetModes(c, u, t).modes)
    ensures SettleLaw(c, SetModes(c, u, t).(modes := c.modes), u)
  {
    hide LetterLaw, SettleLaw, RankOf, May, FlagsSay, SetModes;
    var rs := StringIsLawful(c, u, t);
    SettledMay(c, rs[0].chan, u);
    NothingSaid(t.letters, c.modes);
    SettledSettings(c, rs[0].chan, u);
    FlagsUpTo(c, u, t, rs, |t.letters|);
    assert rs[|t.letters|].chan.(modes := c.modes) == rs[0].chan;
  }

  lemma SettledSettings(c: Chan, d: Chan, u: Actor)
    requires SettleLaw(c, d, u)
    ensures d.modes == c.modes && d.(modes := c.modes) == d
  {
  }

  lemma NothingSaid(letters: string, m: Modes)
    ensures FlagsSay(letters, 0, m, m) && InForce(letters, 0, true)
  {
  }

  lemma SettledMay(c: Chan, d: Chan, u: Actor)
    requires SettleLaw(c, d, u)
    ensures var k := RankOf(c, u); May(c, u, k.halfop || k.op || k.owner) ==> May(d, u, RankOf(d, u).halfop)
  {
    RankIs(c, u);
    RankIs(d, u);
    EntryIsFirst(c, u.user);
    EntryIsFirst(d, u.user);
    hide RankOf, UserInfo;
    var n := UserInfo(c.members, u.user);
    if n < |c.members| {
      assert IsFirst(c.members, u.user, n);
      assert IsFirst(d.members, u.user, n) by {
        assert forall j :: 0 <= j < |c.members| ==> d.members[j].user == c.members[j].user;
      }
    } else {
      assert forall j :: 0 <= j < |c.members| ==> d.members[j].user == c.members[j].user;
    }
  }

  lemma {:induction false} FlagsUpTo(c: Chan, u: Actor, t: Command, rs: seq<Reading>, n: nat)
    requires n <= |t.letters| && OnlyFlags(t.letters) && ReadsAs(c, u, t, rs)
    requires May(rs[0].chan, u, RankOf(rs[0].chan, u).halfop) && rs[0].chan.modes == c.modes
    requires FlagsSay(t.letters, 0, c.modes, c.modes) && InForce(t.letters, 0, true)
    ensures !rs[n].over && rs[n].chan.(modes := c.modes) == rs[0].chan && InForce(t.letters, n, rs[n].on)
    ensures FlagsSay(t.letters, n, c.modes, rs[n].chan.modes)
    decreases n
  {
    hide LetterLaw, SettleLaw, FlagsSay, InForce, RankOf;
    if n == 0 {
      assert rs[0].chan.(modes := c.modes) == rs[0].chan;
    } else {
      FlagsUpTo(c, u, t, rs, n - 1);
      var r, s, letter := rs[n - 1], rs[n], t.letters[n - 1];
      StillMay(rs[0].chan, r.chan, u);
      NextSign(t.letters, n - 1, r.on);
      OneFlag(r, s, u, letter, t);
      FlagsSayNext(t.letters, n - 1, c.modes, r.chan.modes, s.chan.modes, r.on);
    }
  }

  lemma StillMay(c: Chan, d: Chan, u: Actor)
    requires d.(modes := c.modes) == c
    ensures RankOf(d, u) == RankOf(c, u) && (May(c, u, RankOf(c, u).halfop) <==> May(d, u, RankOf(d, u).halfop))
  {
  }

  predicate Becomes(letter: char, flag: char, on: bool, now: bool, next: bool) {
    next == if letter == flag then on else now
  }

  predicate BecomesBut(letter: char, flag: char, other: char, on: bool, now: bool, next: bool) {
    next == if letter == flag then on else if letter == other && on then false else now
  }

  /** What a sign or a flag does to the settings. */
  predicate FlagLaw(m: Modes, d: Modes, letter: char, on: bool) {
    Becomes(letter, 'e', on, m.opsObeyLimit, d.opsObeyLimit) && Becomes(letter, 'm', on, m.moderated, d.moderated) &&
    Becomes(letter, 'n', on, m.nooutsidemsgs, d.nooutsidemsgs) && Becomes(letter, 'i', on, m.inviteonly, d.inviteonly) &&
    Becomes(letter, 't', on, m.topicProtect, d.topicProtect) &&
    BecomesBut(letter, 'p', 's', on, m.priv, d.priv) && BecomesBut(letter, 's', 'p', on, m.secret, d.secret) &&
    d.limit == m.limit && d.key == m.key
  }

  lemma AuditoriumFlag(r: Reading, s: Reading, u: Actor, letter: char, t: Command)
    requires LetterLaw(r, s, u, letter, t) && (letter == 'q' || letter == 'u') && May(r.chan, u, RankOf(r.chan, u).halfop)
    ensures FlagLaw(r.chan.modes, s.chan.modes, letter, r.on)
  {
    hide RankOf, May, MemberLaw, TakesText;
  }

  lemma SecrecyFlag(r: Reading, s: Reading, u: Actor, letter: char, t: Command)
    requires LetterLaw(r, s, u, letter, t) && (letter == 'p' || letter == 's') && May(r.chan, u, RankOf(r.chan, u).halfop)
    ensures FlagLaw(r.chan.modes, s.chan.modes, letter, r.on)
  {
    hide RankOf, May, MemberLaw, TakesText;
  }

  lemma ChannelFlag(r: Reading, s: Reading, u: Actor, letter: char, t: Command)
    requires LetterLaw(r, s, u, letter, t) && (letter == 'e' || letter == 'i' || letter == 't') && May(r.chan, u, RankOf(r.chan, u).halfop)
    ensures FlagLaw(r.chan.modes, s.chan.modes, letter, r.on)
  {
    hide RankOf, May, MemberLaw, TakesText;
  }

  lemma TalkFlag(r: Reading, s: Reading, u: Actor, letter: char, t: Command)
    requires LetterLaw(r, s, u, letter, t) && (letter == 'm' || letter == 'n' || IsSign(letter)) && May(r.chan, u, RankOf(r.chan, u).halfop)
    ensures FlagLaw(r.chan.modes, s.chan.modes, letter, r.on)
  {
    hide RankOf, May, MemberLaw, TakesText;
  }

  lemma OneFlag(r: Reading, s: Reading, u: Actor, letter: char, t: Command)
    requires LetterLaw(r, s, u, letter, t) && (IsSign(letter) || IsFlag(letter)) && May(r.chan, u, RankOf(r.chan, u).halfop)
    ensures s.over == r.over && s.chan.(modes := r.chan.modes) == r.chan && FlagLaw(r.chan.modes, s.chan.modes, letter, r.on)
    ensures s.on == if letter == '+' then true else if letter == '-' then false else r.on
  {
    hide RankOf, May, MemberLaw, TakesText, FlagLaw;
    if letter == 'q' || letter == 'u' {
      AuditoriumFlag(r, s, u, letter, t);
    } else if letter == 'p' || letter == 's' {
      SecrecyFlag(r, s, u, letter, t);
    } else if letter == 'e' || letter == 'i' || letter == 't' {
      ChannelFlag(r, s, u, letter, t);
    } else {
      TalkFlag(r, s, u, letter, t);
    }
  }

  lemma FlagsSayNext(letters: string, n: nat, m: Modes, d: Modes, e: Modes, on: bool)
    requires n < |letters| && FlagsSay(letters, n, m, d) && InForce(letters, n, on) && FlagLaw(d, e, letters[n], on)
    ensures FlagsSay(letters, n + 1, m, e)
  {
    hide InForce, Becomes, BecomesBut, FlagsOfChannel, FlagsOfTalk, FlagsOfSecrecy;
    ChannelNext(letters, n, m, d, e, on);
    TalkNext(letters, n, m, d, e, on);
    SecrecyNext(letters, n, m, d, e, on);
  }

  lemma ChannelNext(letters: string, n: nat, m: Modes, d: Modes, e: Modes, on: bool)
    requires n < |letters| && FlagsOfChannel(letters, n, m, d) && InForce(letters, n, on) && FlagLaw(d, e, letters[n], on)
    ensures FlagsOfChannel(letters, n + 1, m, e)
  {
    hide InForce, Says, Sets, Becomes, BecomesBut;
    SetsNext(letters, n, 'e', m.opsObeyLimit, d.opsObeyLimit, e.opsObeyLimit, on);
    SetsNext(letters, n, 'i', m.inviteonly, d.inviteonly, e.inviteonly, on);
    SetsNext(letters, n, 't', m.topicProtect, d.topicProtect, e.topicProtect, on);
  }

  lemma TalkNext(letters: string, n: nat, m: Modes, d: Modes, e: Modes, on: bool)
    requires n < |letters| && FlagsOfTalk(letters, n, m, d) && InForce(letters, n, on) && FlagLaw(d, e, letters[n], on)
    ensures FlagsOfTalk(letters, n + 1, m, e)
  {
    hide InForce, Says, Sets, Becomes, BecomesBut;
    SetsNext(letters, n, 'm', m.moderated, d.moderated, e.moderated, on);
    SetsNext(letters, n, 'n', m.nooutsidemsgs, d.nooutsidemsgs, e.nooutsidemsgs, on);
  }

  lemma SecrecyNext(letters: string, n: nat, m: Modes, d: Modes, e: Modes, on: bool)
    requires n < |letters| && FlagsOfSecrecy(letters, n, m, d) && InForce(letters, n, on) && FlagLaw(d, e, letters[n], on)
    ensures FlagsOfSecrecy(letters, n + 1, m, e)
  {
    hide InForce, Says, SetsBut, Becomes, BecomesBut;
    SetsButNext(letters, n, 'p', 's', m.priv, d.priv, e.priv, on);
    SetsButNext(letters, n, 's', 'p', m.secret, d.secret, e.secret, on);
  }

  lemma SetsNext(letters: string, n: nat, flag: char, old_: bool, now: bool, next: bool, on: bool)
    requires n < |letters| && Says(letters, n, Sets(flag), old_, now) && InForce(letters, n, on)
    requires Becomes(letters[n], flag, on, now, next)
    ensures Says(letters, n + 1, Sets(flag), old_, next)
  {
    hide InForce, Says;
    SaysNext(letters, n, Sets(flag), old_, now, next, on);
  }

  lemma SetsButNext(letters: string, n: nat, flag: char, other: char, old_: bool, now: bool, next: bool, on: bool)
    requires n < |letters| && Says(letters, n, SetsBut(flag, other), old_, now) && InForce(letters, n, on)
    requires BecomesBut(letters[n], flag, other, on, now, next)
    ensures Says(letters, n + 1, SetsBut(flag, other), old_, next)
  {
    hide InForce, Says;
    SaysNext(letters, n, SetsBut(flag, other), old_, now, next, on);
  }

  // ---------- Two letters: limit, key and ranks ----------

  /** A sign and a letter, and the setter's entry put in order before. */
  lemma OneLetterString(c: Chan, u: Actor, t: Command, on: bool, letter: char) returns (d: Chan, s: Reading)
    requires t.letters == (if on then "+" else "-") + [letter]
    ensures SettleLaw(c, d, u) && SetModes(c, u, t) == s.chan && LetterLaw(Reading(d, on, 0, false), s, u, letter, t)
  {
    hide LetterLaw, SettleLaw, SetModes;
    var rs := StringIsLawful(c, u, t);
    d, s := rs[0].chan, rs[2];
    SignRead(rs[0], rs[1], u, on, t);
  }

  lemma SignRead(r: Reading, s: Reading, u: Actor, on: bool, t: Command)
    requires LetterLaw(r, s, u, if on then '+' else '-', t)
    ensures s == r.(on := on)
  {
    hide RankOf, May;
  }

  /** "+l" leaves the number of its parameter as the limit and "-l" none; a number below one
      changes nothing. */
  lemma LimitIsSet(c: Chan, u: Actor, t: Command, on: bool)
    requires t.letters == (if on then "+" else "-") + "l" && (var k := RankOf(c, u); May(c, u, k.halfop || k.op || k.owner))
    requires on ==> t.hasParams && t.param(0) != ""
    ensures var d := SetModes(c, u, t);
      d.modes == c.modes.(limit := if !on then 0 else if t.atoi(t.param(0)) < 1 then c.modes.limit else t.atoi(t.param(0))) &&
      SettleLaw(c, d.(modes := c.modes), u)
  {
    hide SettleLaw, RankOf, May, SetModes;
    var d, s := OneLetterString(c, u, t, on, 'l');
    SettledMay(c, d, u);
    SettledSettings(c, d, u);
    assert s.chan.(modes := c.modes) == d;
  }

  /** "+k" leaves its parameter as the key and "-k" none. */
  lemma KeyIsSet(c: Chan, u: Actor, t: Command, on: bool)
    requires t.letters == (if on then "+" else "-") + "k" && (var k := RankOf(c, u); May(c, u, k.halfop || k.op || k.owner))
    requires on ==> t.hasParams && t.param(0) != ""
    ensures var d := SetModes(c, u, t);
      d.modes == c.modes.(key := if on then t.param(0) else "") && SettleLaw(c, d.(modes := c.modes), u)
  {
    hide SettleLaw, RankOf, May, SetModes;
    var d, s := OneLetterString(c, u, t, on, 'k');
    SettledMay(c, d, u);
    SettledSettings(c, d, u);
    assert s.chan.(modes := c.modes) == d;
  }

  /** A rank given or taken by name: the entry of that user has the new rank, from the one it
      had when the setter's entry was in order, and no other entry changes. */
  lemma RankIsSet(c: Chan, u: Actor, t: Command, on: bool, letter: char, v: User, i: nat) returns (d: Chan)
    requires letter == 'o' || letter == 'O' || letter == 'h' || letter == 'v'
    requires t.letters == (if on then "+" else "-") + [letter] && t.hasParams && t.param(0) != "" && t.find(t.param(0)) == Some(v)
    requires var k := RankOf(c, u);
      May(c, u, if letter == 'h' then k.op || k.owner else if letter == 'v' then k.halfop || k.op || k.owner else k.owner)
    requires IsFirst(c.members, v, i)
    ensures SettleLaw(c, d, u) && |d.members| == |c.members|
    ensures var e := SetModes(c, u, t);
      |e.members| == |d.members| && e == d.(members := e.members) && e.members[i] == d.members[i].(rank := e.members[i].rank) &&
      RankLaw(d.members[i].rank, e.members[i].rank, letter, on, RankOf(c, u).owner) &&
      forall j :: 0 <= j < |d.members| && j != i ==> e.members[j] == d.members[j]
  {
    hide RankOf, SetModes, RankLaw, LetterLaw, MemberLaw;
    var s;
    d, s := OneLetterString(c, u, t, on, letter);
    SettledRanks(c, d, u);
    assert IsFirst(d.members, v, i) by {
      assert forall j :: 0 <= j < |c.members| ==> d.members[j].user == c.members[j].user;
    }
    hide SettleLaw, IsFirst;
    RankLetter(Reading(d, on, 0, false), s, u, letter, t);
    MemberMeans(d, s.chan, u, letter, on, v, i);
  }

  lemma RankLetter(r: Reading, s: Reading, u: Actor, letter: char, t: Command)
    requires letter == 'o' || letter == 'O' || letter == 'h' || letter == 'v'
    requires LetterLaw(r, s, u, letter, t) && t.hasParams && t.param(r.next) != ""
    requires letter != 'v' ==> var k := RankOf(r.chan, u); May(r.chan, u, if letter == 'h' then k.op else k.owner)
    ensures MemberLaw(r.chan, s.chan, u, letter, r.on, t.find(t.param(r.next)))
  {
    hide RankOf, May, MemberLaw;
  }

  lemma MemberMeans(d: Chan, e: Chan, u: Actor, letter: char, on: bool, v: User, i: nat)
    requires MemberLaw(d, e, u, letter, on, Some(v)) && IsFirst(d.members, v, i)
    requires letter != 'v' || var k := RankOf(d, u); May(d, u, k.halfop || k.op || k.owner)
    ensures |e.members| == |d.members| && e == d.(members := e.members) && e.members[i] == d.members[i].(rank := e.members[i].rank)
    ensures RankLaw(d.members[i].rank, e.members[i].rank, letter, on, RankOf(d, u).owner)
    ensures forall j :: 0 <= j < |d.members| && j != i ==> e.members[j] == d.members[j]
  {
    hide RankOf, RankLaw, May;
  }

  lemma SettledRanks(c: Chan, d: Chan, u: Actor)
    requires SettleLaw(c, d, u)
    ensures var k, l := RankOf(c, u), RankOf(d, u);
      l == Rank(k.voice, k.halfop || k.op || k.owner, k.op || k.owner, k.owner) && d.onlyowner == c.onlyowner
  {
    RankIs(c, u);
    RankIs(d, u);
    EntryIsFirst(c, u.user);
    hide RankOf, UserInfo;
    var n := UserInfo(c.members, u.user);
    assert forall j :: 0 <= j < |c.members| ==> d.members[j].user == c.members[j].user;
    if n < |c.members| {
      assert IsFirst(c.members, u.user, n) && IsFirst(d.members, u.user, n);
    }
  }

  /** In plain bits: what each letter leaves of a rank. */
  lemma RankBits(q: Rank, r: Rank, on: bool, byOwner: bool)
    ensures RankLaw(q, r, 'o', on, byOwner) && q.op != on ==> r.op == r.halfop == on && r.owner == (q.owner && on) && r.voice == q.voice
    ensures RankLaw(q, r, 'O', on, byOwner) && q.owner != on ==> r.owner == r.op == r.halfop == on && r.voice == q.voice
    ensures RankLaw(q, r, 'h', on, byOwner) && !q.op && (q.owner ==> byOwner) ==> r == q.(halfop := on)
    ensures RankLaw(q, r, 'v', on, byOwner) ==> r == q.(voice := on)
  {
  }
}
