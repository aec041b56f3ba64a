/** Chat channels as values: who is on them with what rank, and what a mode string, a join
    and a quit make of them. */
module Channels {
  import opened Text

  /** A connected client. */
  type User = nat

  /** Who sets modes, and whether with the operator's right to override ranks. */
  datatype Actor = Actor(user: User, operOverride: bool)

  /** Names of channels are compared without regard to case. */
  function Fold(name: string): (f: string)
    ensures |f| == |name|
  {
    seq(|name|, i requires 0 <= i < |name| => FoldChar(name[i]))
  }

  function FoldChar(c: char): char {
    if 'A' <= c <= 'Z' then c + ('a' - 'A') else c
  }

  datatype Rank = Rank(voice: bool, halfop: bool, op: bool, owner: bool)

  datatype Member = Member(user: User, rank: Rank, gag: bool, invisible: bool, quiet: bool, invited: bool)

  datatype Modes = Modes(
    moderated: bool, inviteonly: bool, nooutsidemsgs: bool, topicProtect: bool, priv: bool, secret: bool,
    opsObeyLimit: bool, auditorium: int, limit: int, key: string)

  datatype Chan = Chan(name: string, members: seq<Member>, modes: Modes, stayopen: bool, onlyowner: bool)

  /** getUserInfo: the first entry of a user, or the length. */
  function UserInfo(members: seq<Member>, u: User): (i: nat)
    ensures i <= |members| && (i < |members| ==> members[i].user == u)
    ensures forall j :: 0 <= j < i ==> members[j].user != u
  {
    if members == [] || members[0].user == u then 0 else
      var j := UserInfo(members[1..], u);
      j + 1
  }

  predicate On(c: Chan, u: User) {
    UserInfo(c.members, u) < |c.members|
  }

  // ---------- Modes ----------

  /** A mode string with what it takes to read it: its parameters by position ("" where there
      is none), if it has any at all, the users by nick name, and atoi. */
  datatype Command = Command(letters: string, hasParams: bool, param: nat -> string, find: string -> Option<User>, atoi: string -> int)

  /** How far a mode string has been read: the sign in force, the parameters used up, and
      whether it is given up. */
  datatype Reading = Reading(chan: Chan, on: bool, next: nat, over: bool)

  /** The rank a user acts with; someone who is not on the channel has none. */
  function RankOf(c: Chan, u: Actor): Rank {
    var i := UserInfo(c.members, u.user);
    if i < |c.members| then c.members[i].rank else Rank(false, false, false, false)
  }

  predicate IsFlag(letter: char) {
    letter == 'e' || letter == 'm' || letter == 'n' || letter == 'i' || letter == 't' || letter == 'p' || letter == 's' ||
    letter == 'q' || letter == 'u'
  }

  predicate IsForMembers(letter: char) {
    letter == 'o' || letter == 'O' || letter == 'h' || letter == 'v'
  }

  predicate IsForLists(letter: char) {
    letter == 'b' || letter == 'I' || letter == 'E'
  }

  predicate Overrides(c: Chan, u: Actor) {
    u.operOverride && (c.onlyowner ==> RankOf(c, u).owner)
  }

  /** Owners appoint owners and ops, ops appoint halfops, and halfops do the rest. */
  predicate Allowed(c: Chan, u: Actor, letter: char) {
    var r := RankOf(c, u);
    Overrides(c, u) ||
    (if letter == 'o' || letter == 'O' then r.owner
     else if letter == 'h' then r.op
     else if letter == 'v' then r.halfop || r.op || r.owner
     else r.halfop)
  }

  /** A flag of the channel switched on or off; private excludes secret, and the two
      auditorium modes exclude each other. */
  function Flag(m: Modes, letter: char, on: bool): Modes
    requires IsFlag(letter)
  {
    match letter
    case 'e' => m.(opsObeyLimit := on)
    case 'm' => m.(moderated := on)
    case 'n' => m.(nooutsidemsgs := on)
    case 'i' => m.(inviteonly := on)
    case 't' => m.(topicProtect := on)
    case 'p' => m.(priv := on, secret := m.secret && !on)
    case 's' => m.(secret := on, priv := m.priv && !on)
    case 'q' => m.(auditorium := if on then 1 else if m.auditorium == 1 then 0 else m.auditorium)
    case 'u' => m.(auditorium := if on then 2 else if m.auditorium == 2 then 0 else m.auditorium)
  }

  /** A rank after a change. Whoever loses op loses owner too; the halfop bit of an op stays,
      and that of an owner unless an owner changes it. */
  function Promoted(r: Rank, letter: char, on: bool, byOwner: bool): Rank
    requires IsForMembers(letter)
  {
    match letter
    case 'o' => if r.op == on then r else r.(owner := r.owner && on, op := on, halfop := on)
    case 'O' => if r.owner == on then r else r.(owner := on, op := on, halfop := on)
    case 'h' => if r.op || (r.owner && !byOwner) then r else r.(halfop := on)
    case 'v' => r.(voice := on)
  }

  function Promote(c: Chan, u: Actor, i: nat, letter: char, on: bool): Chan
    requires i < |c.members| && IsForMembers(letter)
  {
    var m := c.members[i];
    c.(members := c.members[i := m.(rank := Promoted(m.rank, letter, on, RankOf(c, u).owner))])
  }

  /** A letter about the member whose nick is given. */
  function ForMember(c: Chan, u: Actor, letter: char, on: bool, target: Option<User>): Chan
    requires IsForMembers(letter)
  {
    if target.None? || !On(c, target.value) then c
    else if letter == 'v' && !Allowed(c, u, 'v') && (target.value != u.user || on) then c
    else Promote(c, u, UserInfo(c.members, target.value), letter, on)
  }

  /** Limit or key set to the next parameter, or taken off, which takes none. */
  function LimitOrKey(r: Reading, letter: char, t: Command): Reading
    requires letter == 'l' || letter == 'k'
  {
    var m := r.chan.modes;
    if !r.on then r.(chan := r.chan.(modes := if letter == 'l' then m.(limit := 0) else m.(key := "")))
    else if !t.hasParams then r.(over := true)
    else
      var text := t.param(r.next);
      if text == "" || (letter == 'l' && t.atoi(text) < 1) then r.(next := r.next + 1, over := true)
      else r.(next := r.next + 1, chan := r.chan.(modes := if letter == 'l' then m.(limit := t.atoi(text)) else m.(key := text)))
  }

  /** A letter about the member whose nick is the next parameter. */
  function ForNick(r: Reading, u: Actor, letter: char, t: Command): Reading
    requires IsForMembers(letter)
  {
    if !t.hasParams then r.(over := true)
    else
      var text := t.param(r.next);
      if text == "" then r.(next := r.next + 1, over := true)
      else r.(next := r.next + 1, chan := ForMember(r.chan, u, letter, r.on, t.find(text)))
  }

  /** Bans, invitations and exemptions are kept elsewhere. Their letters take a parameter,
      or, if there is none at all, show the list to a member. */
  function ForList(r: Reading, u: Actor, letter: char, t: Command): Reading
    requires IsForLists(letter)
  {
    if !t.hasParams then r.(over := !On(r.chan, u.user))
    else if !Allowed(r.chan, u, letter) then r
    else r.(next := r.next + 1, over := t.param(r.next) == "")
  }

  function Letter(r: Reading, u: Actor, letter: char, t: Command): Reading {
    var c := r.chan;
    if letter == '-' then r.(on := false)
    else if letter == '+' then r.(on := true)
    else if IsForMembers(letter) then
      if letter == 'v' || Allowed(c, u, letter) then ForNick(r, u, letter, t) else r
    else if IsForLists(letter) then ForList(r, u, letter, t)
    else if !Allowed(c, u, letter) then r
    else if IsFlag(letter) then r.(chan := c.(modes := Flag(c.modes, letter, r.on)))
    else if letter == 'l' || letter == 'k' then LimitOrKey(r, letter, t)
    else r
  }

  /** The first n letters read; what follows the point where it is given up is ignored. */
  function Read(r: Reading, u: Actor, n: nat, t: Command): Reading
    requires n <= |t.letters|
  {
    if n == 0 then r else
      var s := Read(r, u, n - 1, t);
      if s.over then s else Letter(s, u, t.letters[n - 1], t)
  }

  /** An owner counts as an op and an op as a halfop, from the start. */
  function Settled(r: Rank): Rank {
    r.(op := r.op || r.owner, halfop := r.halfop || r.op || r.owner)
  }

  function Settle(c: Chan, u: Actor): Chan {
    var i := UserInfo(c.members, u.user);
    if i < |c.members| then c.(members := c.members[i := c.members[i].(rank := Settled(c.members[i].rank))]) else c
  }

  function Start(c: Chan, u: Actor): Reading {
    Reading(Settle(c, u), true, 0, false)
  }

  /** setModes */
  function SetModes(c: Chan, u: Actor, t: Command): Chan {
    Read(Start(c, u), u, |t.letters|, t).chan
  }

  // ---------- What a mode string cannot do ----------

  /** The same members in the same order, but for their ranks. */
  predicate SameMembers(c: Chan, d: Chan) {
    |c.members| == |d.members| &&
    forall i :: 0 <= i < |c.members| ==> d.members[i] == c.members[i].(rank := d.members[i].rank)
  }

  lemma UserInfoOfUsers(a: seq<Member>, b: seq<Member>, u: User)
    requires |a| == |b| && forall k :: 0 <= k < |a| ==> a[k].user == b[k].user
    ensures UserInfo(a, u) == UserInfo(b, u)
  {
    var i, j := UserInfo(a, u), UserInfo(b, u);
  }

  lemma SameUserInfo(c: Chan, d: Chan, u: User)
    requires SameMembers(c, d)
    ensures UserInfo(c.members, u) == UserInfo(d.members, u)
  {
    UserInfoOfUsers(c.members, d.members, u);
  }

  predicate Exclusive(m: Modes) {
    !(m.priv && m.secret)
  }

  lemma FlagKeepsExclusive(m: Modes, letter: char, on: bool)
    requires IsFlag(letter) && Exclusive(m)
    ensures Exclusive(Flag(m, letter, on))
  {
  }

  /** What a letter may do: nothing; change the channel's own modes, if allowed; or change
      the rank of one member, if allowed or if it only takes away the setter's own voice. */
  ghost predicate Effect(c: Chan, d: Chan, u: Actor, letter: char) {
    c == d ||
    (!IsForMembers(letter) && Allowed(c, u, letter) && d == c.(modes := d.modes) && (Exclusive(c.modes) ==> Exclusive(d.modes))) ||
    (exists on, i: nat :: Promotes(c, d, u, letter, on, i))
  }

  ghost predicate Promotes(c: Chan, d: Chan, u: Actor, letter: char, on: bool, i: nat) {
    IsForMembers(letter) && i < |c.members| && d == Promote(c, u, i, letter, on) &&
    (Allowed(c, u, letter) || (letter == 'v' && !on && i == UserInfo(c.members, u.user)))
  }

  lemma LetterEffect(r: Reading, u: Actor, letter: char, t: Command)
    ensures Effect(r.chan, Letter(r, u, letter, t).chan, u, letter)
  {
    hide UserInfo, Promote, Flag, Allowed;
    var c, d := r.chan, Letter(r, u, letter, t).chan;
    assert letter == 'l' || letter == 'k' ==> LimitOrKey(r, letter, t).chan == c.(modes := LimitOrKey(r, letter, t).chan.modes);
    if IsFlag(letter) && Exclusive(c.modes) {
      FlagKeepsExclusive(c.modes, letter, r.on);
    }
    if c != d && IsForMembers(letter) {
      var text := t.param(r.next);
      assert d == ForMember(c, u, letter, r.on, t.find(text));
      assert Promotes(c, d, u, letter, r.on, UserInfo(c.members, t.find(text).value));
    }
  }

  /** No operator override, or none that helps: where only owners may set modes, it takes an
      owner to override. */
  predicate NoOverride(c: Chan, u: Actor) {
    u.operOverride ==> c.onlyowner
  }

  /** Op and owner bits stay; so do the halfop bits of ops and owners, or all of them. */
  predicate Kept(r: Rank, s: Rank, halfops: bool) {
    r.op == s.op && r.owner == s.owner && (halfops || r.op || r.owner ==> r.halfop == s.halfop)
  }

  predicate AllKept(c: Chan, d: Chan, halfops: bool) {
    SameMembers(c, d) && d.onlyowner == c.onlyowner && forall i :: 0 <= i < |c.members| ==> Kept(c.members[i].rank, d.members[i].rank, halfops)
  }

  lemma AllKeptRank(c: Chan, d: Chan, halfops: bool, u: Actor)
    requires AllKept(c, d, halfops)
    ensures UserInfo(c.members, u.user) == UserInfo(d.members, u.user) && Kept(RankOf(c, u), RankOf(d, u), halfops)
  {
    SameUserInfo(c, d, u.user);
  }

  lemma PromotedKept(r: Rank, s: Rank, letter: char, on: bool, halfops: bool)
    requires Kept(r, s, halfops) && (letter == 'v' || (letter == 'h' && !halfops))
    ensures Kept(r, Promoted(s, letter, on, false), halfops)
  {
  }

  lemma PromoteKeeps(c: Chan, d: Chan, e: Chan, u: Actor, letter: char, on: bool, i: nat)
    requires NoOverride(c, u) && !RankOf(c, u).owner && AllKept(c, d, !RankOf(c, u).op)
    requires Promotes(d, e, u, letter, on, i)
    ensures AllKept(c, e, !RankOf(c, u).op)
  {
    hide UserInfo, RankOf, Promoted, Kept;
    var h := !RankOf(c, u).op;
    AllKeptRank(c, d, h, u);
    KeptMeans(RankOf(c, u), RankOf(d, u), h);
    assert letter == 'v' || (letter == 'h' && !h);
    PromotedKept(c.members[i].rank, d.members[i].rank, letter, on, h);
  }

  lemma KeptMeans(r: Rank, s: Rank, halfops: bool)
    requires Kept(r, s, halfops)
    ensures r.op == s.op && r.owner == s.owner
  {
  }

  lemma {:induction false} ReadKeeps(c: Chan, u: Actor, n: nat, t: Command)
    requires n <= |t.letters| && c == Settle(c, u) && NoOverride(c, u) && !RankOf(c, u).owner
    ensures AllKept(c, Read(Start(c, u), u, n, t).chan, !RankOf(c, u).op)
  {
    hide UserInfo, RankOf, Letter, Settle;
    if n > 0 {
      var s, letter := Read(Start(c, u), u, n - 1, t), t.letters[n - 1];
      ReadKeeps(c, u, n - 1, t);
      var e := Letter(s, u, letter, t).chan;
      LetterEffect(s, u, letter, t);
      if on, i: nat :| Promotes(s.chan, e, u, letter, on, i) {
        PromoteKeeps(c, s.chan, e, u, letter, on, i);
      }
    }
  }

  /** Without being an owner, and without an override, nobody's op or owner bit can be
      changed, nor the halfop bit of an op or owner; without being an op, no halfop bit at
      all. (An op counts as a halfop from the start, which may set the setter's own bit.) */
  lemma OnlyOwnersAppointOps(c: Chan, u: Actor, t: Command)
    requires NoOverride(c, u) && !RankOf(c, u).owner
    ensures AllKept(Settle(c, u), SetModes(c, u, t), !RankOf(c, u).op)
    ensures !RankOf(c, u).op ==> Settle(c, u) == c
  {
    Settles(c, u);
    ReadKeeps(Settle(c, u), u, |t.letters|, t);
  }

  lemma Settles(c: Chan, u: Actor)
    ensures var d := Settle(c, u);
      d == Settle(d, u) && SameMembers(c, d) && RankOf(d, u) == Settled(RankOf(c, u)) &&
      (!RankOf(c, u).owner && !RankOf(c, u).op ==> d == c)
  {
    hide UserInfo, Settled;
    var d := Settle(c, u);
    SameUserInfo(c, d, u.user);
    var i := UserInfo(c.members, u.user);
    if i < |c.members| {
      SettledTwice(c.members[i].rank);
      assert Settle(d, u).members == d.members;
      if !RankOf(c, u).owner && !RankOf(c, u).op {
        assert c.members[i := c.members[i].(rank := Settled(c.members[i].rank))] == c.members;
      }
    } else {
      assert Settled(Rank(false, false, false, false)) == Rank(false, false, false, false) by {
        SettledTwice(Rank(false, false, false, false));
      }
    }
  }

  lemma SettledTwice(r: Rank)
    ensures Settled(Settled(r)) == Settled(r) && (!r.owner && !r.op ==> Settled(r) == r)
  {
  }

  /** Nothing but the voice of u may be gone. */
  predicate OwnVoice(c: Chan, d: Chan, u: Actor) {
    var i := UserInfo(c.members, u.user);
    d == c || (i < |c.members| && d == c.(members := c.members[i := c.members[i].(rank := c.members[i].rank.(voice := false))]))
  }

  predicate Powerless(c: Chan, u: Actor) {
    var r := RankOf(c, u);
    !r.halfop && !r.op && !r.owner && NoOverride(c, u)
  }

  lemma PowerlessStays(c: Chan, d: Chan, u: Actor)
    requires Powerless(c, u) && OwnVoice(c, d, u)
    ensures Powerless(d, u) && UserInfo(d.members, u.user) == UserInfo(c.members, u.user)
  {
    SameUserInfo(c, d, u.user);
  }

  lemma PowerlessPromotes(c: Chan, d: Chan, e: Chan, u: Actor, letter: char, on: bool, i: nat)
    requires Powerless(c, u) && OwnVoice(c, d, u) && Promotes(d, e, u, letter, on, i)
    ensures OwnVoice(c, e, u)
  {
    hide UserInfo;
    PowerlessStays(c, d, u);
    assert i == UserInfo(c.members, u.user) && e == Promote(d, u, i, 'v', false);
    assert d.members[i := e.members[i]] == c.members[i := e.members[i]];
  }

  lemma {:induction false} PowerlessRead(c: Chan, u: Actor, n: nat, t: Command)
    requires n <= |t.letters| && Powerless(c, u) && Settle(c, u) == c
    ensures OwnVoice(c, Read(Start(c, u), u, n, t).chan, u)
  {
    hide UserInfo, Letter, Settle, OwnVoice;
    if n > 0 {
      var s, letter := Read(Start(c, u), u, n - 1, t), t.letters[n - 1];
      PowerlessRead(c, u, n - 1, t);
      PowerlessStays(c, s.chan, u);
      var e := Letter(s, u, letter, t).chan;
      LetterEffect(s, u, letter, t);
      if on, i: nat :| Promotes(s.chan, e, u, letter, on, i) {
        PowerlessPromotes(c, s.chan, e, u, letter, on, i);
      }
    } else {
      Hushes(c, u);
    }
  }

  lemma Hushes(c: Chan, u: Actor)
    ensures OwnVoice(c, c, u)
  {
  }

  /** Without any rank or override a mode string can only take away the setter's own voice. */
  lemma PowerlessCanOnlyHush(c: Chan, u: Actor, t: Command)
    requires Powerless(c, u)
    ensures OwnVoice(c, SetModes(c, u, t), u)
  {
    Settles(c, u);
    PowerlessRead(c, u, |t.letters|, t);
  }

  lemma {:induction false} ReadKeepsExclusive(r: Reading, u: Actor, n: nat, t: Command)
    requires n <= |t.letters| && Exclusive(r.chan.modes)
    ensures Exclusive(Read(r, u, n, t).chan.modes)
  {
    hide UserInfo, Allowed, Letter, Exclusive;
    if n > 0 {
      ReadKeepsExclusive(r, u, n - 1, t);
      LetterEffect(Read(r, u, n - 1, t), u, t.letters[n - 1], t);
    }
  }

  /** Whoever sets the modes, private and secret are never both left on. */
  lemma NeverPrivateAndSecret(c: Chan, u: Actor, t: Command)
    requires !(c.modes.priv && c.modes.secret)
    ensures !(SetModes(c, u, t).modes.priv && SetModes(c, u, t).modes.secret)
  {
    ReadKeepsExclusive(Start(c, u), u, |t.letters|, t);
  }

  /** Owners are ops and ops are halfops. */
  predicate Ordered(c: Chan) {
    forall i :: 0 <= i < |c.members| ==>
      (c.members[i].rank.owner ==> c.members[i].rank.op) && (c.members[i].rank.op ==> c.members[i].rank.halfop)
  }

  lemma {:induction false} ReadKeepsOrder(r: Reading, u: Actor, n: nat, t: Command)
    requires n <= |t.letters| && Ordered(r.chan)
    ensures Ordered(Read(r, u, n, t).chan)
  {
    hide UserInfo, Allowed, Letter, RankOf;
    if n > 0 {
      ReadKeepsOrder(r, u, n - 1, t);
      var s := Read(r, u, n - 1, t);
      LetterEffect(s, u, t.letters[n - 1], t);
    }
  }

  /** Whoever sets the modes, owners stay ops and ops halfops. */
  lemma ModesKeepOrder(c: Chan, u: Actor, t: Command)
    requires Ordered(c)
    ensures Ordered(SetModes(c, u, t))
  {
    ReadKeepsOrder(Start(c, u), u, |t.letters|, t);
  }

  // ---------- Joining and leaving ----------

  const MAX_CHANS_PER_USER := 16

  /** find_chan */
  function FindChan(chans: seq<Chan>, name: string): (i: nat)
    ensures i <= |chans| && (i < |chans| ==> Fold(chans[i].name) == Fold(name))
    ensures forall j :: 0 <= j < i ==> Fold(chans[j].name) != Fold(name)
  {
    if chans == [] || Fold(chans[0].name) == Fold(name) then 0 else
      var j := FindChan(chans[1..], name);
      j + 1
  }

  const NO_MODES := Modes(false, false, false, false, false, false, false, 0, 0, "")

  function NewChan(name: string): Chan {
    Chan(name, [], NO_MODES, false, false)
  }

  /** getNumUsers: the members who are not invisible. */
  function Visible(members: seq<Member>): nat {
    if members == [] then 0 else Visible(members[1..]) + if members[0].invisible then 0 else 1
  }

  function NumChans(chans: seq<Chan>, u: User): nat {
    if chans == [] then 0 else NumChans(chans[1..], u) + if On(chans[0], u) then 1 else 0
  }

  /** Invitation, limit and key of a channel let somebody in. */
  predicate Admits(c: Chan, m: Member, key: Option<string>) {
    var special := m.invited || m.rank.op || m.rank.owner;
    (c.modes.inviteonly ==> special) &&
    (c.modes.limit != 0 && Visible(c.members) >= c.modes.limit ==> special && !c.modes.opsObeyLimit) &&
    (c.modes.key != "" && key != Some(c.modes.key) ==> special)
  }

  /** joinChan, from the moment that the channel is looked up: the channels and whether the
      member is added. */
  function Join(chans: seq<Chan>, name: string, m: Member, key: Option<string>, override: bool): (seq<Chan>, bool) {
    var i := FindChan(chans, name);
    var c := if i < |chans| then chans[i] else NewChan(name);
    if !Admits(c, m, key) || (NumChans(chans, m.user) > MAX_CHANS_PER_USER && !override) || On(c, m.user) then
      (chans, false)
    else
      var d := c.(members := c.members + [m]);
      (if i < |chans| then chans[i := d] else chans + [d], true)
  }

  /** The first entry of a user taken off a channel. */
  function RemoveOne(c: Chan, u: User): Chan
    requires On(c, u)
  {
    var i := UserInfo(c.members, u);
    c.(members := c.members[..i] + c.members[i + 1..])
  }

  predicate ToDelete(c: Chan) {
    c.members == [] && !c.stayopen
  }

  /** removeUser for channel i, which goes too when it is empty and need not stay open. */
  function Remove(chans: seq<Chan>, i: nat, u: User): seq<Chan>
    requires i < |chans|
  {
    if !On(chans[i], u) then if ToDelete(chans[i]) then chans[..i] + chans[i + 1..] else chans
    else
      var c := RemoveOne(chans[i], u);
      if ToDelete(c) then chans[..i] + chans[i + 1..] else chans[i := c]
  }

  /** partChan */
  function Part(chans: seq<Chan>, name: string, u: User): (seq<Chan>, bool) {
    var i := FindChan(chans, name);
    if i == |chans| || !On(chans[i], u) then (chans, false) else (Remove(chans, i, u), true)
  }

  function Without(members: seq<Member>, u: User): seq<Member> {
    if members == [] then []
    else if members[0].user == u then Without(members[1..], u)
    else [members[0]] + Without(members[1..], u)
  }

  /** One channel after a user has left it for good: nothing, if that leaves it empty. */
  function LeaveOne(c: Chan, u: User): seq<Chan> {
    if !On(c, u) then [c] else
      var d := c.(members := Without(c.members, u));
      if ToDelete(d) then [] else [d]
  }

  /** removeFromAllChans */
  function Leave(chans: seq<Chan>, u: User): seq<Chan> {
    if chans == [] then [] else LeaveOne(chans[0], u) + Leave(chans[1..], u)
  }

  /** v shares a channel with the source of a message and may see it there; sees holds the
      users who see the invisible. */
  ghost predicate Hears(chans: seq<Chan>, source: User, v: User, sees: set<User>) {
    HearsAmong(chans, |chans|, source, v, sees)
  }

  /** ... one of the first k channels. */
  ghost predicate HearsAmong(chans: seq<Chan>, k: nat, source: User, v: User, sees: set<User>)
    requires k <= |chans|
  {
    exists i :: 0 <= i < k && HearsIn(chans[i], |chans[i].members|, source, v, sees)
  }

  /** v is one of the first n on a channel with the source, and may see it there. */
  ghost predicate HearsIn(c: Chan, n: nat, source: User, v: User, sees: set<User>)
    requires n <= |c.members|
  {
    On(c, source) && (c.members[UserInfo(c.members, source)].invisible ==> v in sees) &&
    exists j :: 0 <= j < n && c.members[j].user == v
  }

  lemma HearsOneMore(chans: seq<Chan>, k: nat, source: User, v: User, sees: set<User>)
    requires k < |chans|
    ensures HearsAmong(chans, k + 1, source, v, sees) <==>
            HearsAmong(chans, k, source, v, sees) || HearsIn(chans[k], |chans[k].members|, source, v, sees)
  {
    hide HearsIn;
  }

  lemma HearsOneMoreIn(c: Chan, n: nat, source: User, v: User, sees: set<User>)
    requires n < |c.members| && On(c, source)
    ensures HearsIn(c, n + 1, source, v, sees) <==>
            HearsIn(c, n, source, v, sees) ||
            (c.members[n].user == v && (c.members[UserInfo(c.members, source)].invisible ==> v in sees))
  {
    hide On, UserInfo;
  }

  /** Who is told of a quit: everybody with an entry on a channel on which the source has one,
      where its first one is not invisible or the listener sees the invisible. */
  lemma HearsMeans(chans: seq<Chan>, source: User, v: User, sees: set<User>)
    ensures Hears(chans, source, v, sees) <==>
      exists i, j, k ::
        0 <= i < |chans| && 0 <= j < |chans[i].members| && chans[i].members[j].user == v &&
        IsFirst(chans[i].members, source, k) && (!chans[i].members[k].invisible || v in sees)
  {
    hide UserInfo;
    forall i, k | 0 <= i < |chans| && IsFirst(chans[i].members, source, k) ensures k == UserInfo(chans[i].members, source) {
    }
    if Hears(chans, source, v, sees) {
      var i :| 0 <= i < |chans| && HearsIn(chans[i], |chans[i].members|, source, v, sees);
      var j :| 0 <= j < |chans[i].members| && chans[i].members[j].user == v;
      assert IsFirst(chans[i].members, source, UserInfo(chans[i].members, source));
    }
    if i, j, k :| 0 <= i < |chans| && 0 <= j < |chans[i].members| && chans[i].members[j].user == v &&
                  IsFirst(chans[i].members, source, k) && (!chans[i].members[k].invisible || v in sees) {
      assert HearsIn(chans[i], |chans[i].members|, source, v, sees);
    }
  }

  predicate IsFirst(members: seq<Member>, u: User, k: int) {
    0 <= k < |members| && members[k].user == u && forall l :: 0 <= l < k ==> members[l].user != u
  }

  /** Two names are the same if their characters are, or differ in case only. */
  lemma SameName(a: string, b: string)
    ensures Fold(a) == Fold(b) <==>
            |a| == |b| && forall i :: 0 <= i < |a| ==> a[i] == b[i] || UpperOf(a[i], b[i]) || UpperOf(b[i], a[i])
  {
    if Fold(a) == Fold(b) {
      forall i | 0 <= i < |a| ensures a[i] == b[i] || UpperOf(a[i], b[i]) || UpperOf(b[i], a[i]) {
        assert Fold(a)[i] == Fold(b)[i];
      }
    }
  }

  predicate UpperOf(x: char, y: char) {
    'A' <= x <= 'Z' && y as int == x as int + 32
  }

  /** The number of visible members is the number of their places. */
  lemma {:induction false} VisibleIs(members: seq<Member>) returns (places: seq<nat>)
    ensures |places| == Visible(members) && (forall i, j :: 0 <= i < j < |places| ==> places[i] < places[j])
    ensures forall k :: k in places <==> 0 <= k < |members| && !members[k].invisible
    decreases |members|
  {
    if members == [] {
      places := [];
    } else {
      var rest := VisibleIs(members[1..]);
      var later: seq<nat> := seq(|rest|, i requires 0 <= i < |rest| => rest[i] + 1);
      places := (if members[0].invisible then [] else [0]) + later;
      forall k ensures k in later <==> 0 < k < |members| && !members[k].invisible {
        if k in later {
          var i :| 0 <= i < |later| && later[i] == k;
          assert rest[i] in rest;
        }
        if 0 < k < |members| && !members[k].invisible {
          assert k - 1 in rest;
          var i :| 0 <= i < |rest| && rest[i] == k - 1;
          assert later[i] == k;
        }
      }
    }
  }

  // ---------- What joining and leaving mean ----------

  ghost predicate NoDuplicates(members: seq<Member>) {
    forall i, j :: 0 <= i < j < |members| ==> members[i].user != members[j].user
  }

  /** No channel is listed twice, and no user is on a channel twice. */
  ghost predicate Tidy(chans: seq<Chan>) {
    (forall i, j :: 0 <= i < j < |chans| ==> Fold(chans[i].name) != Fold(chans[j].name)) &&
    (forall i :: 0 <= i < |chans| ==> NoDuplicates(chans[i].members))
  }

  lemma {:induction false} WithoutMembers(members: seq<Member>, u: User)
    ensures forall m :: m in Without(members, u) <==> m in members && m.user != u
    ensures NoDuplicates(members) ==> NoDuplicates(Without(members, u))
    decreases |members|
  {
    if members != [] {
      WithoutMembers(members[1..], u);
      assert forall m :: m in members <==> m == members[0] || m in members[1..];
      var w := Without(members[1..], u);
      if NoDuplicates(members) {
        forall k | 0 <= k < |w| ensures w[k].user != members[0].user {
          assert w[k] in members[1..];
        }
      }
    }
  }

  lemma {:induction false} WithoutConcat(a: seq<Member>, b: seq<Member>, u: User)
    ensures Without(a + b, u) == Without(a, u) + Without(b, u)
    decreases |a|
  {
    if a == [] {
      assert a + b == b;
    } else {
      assert (a + b)[1..] == a[1..] + b;
      WithoutConcat(a[1..], b, u);
    }
  }

  lemma {:induction false} WithoutAbsent(members: seq<Member>, u: User)
    requires forall k :: 0 <= k < |members| ==> members[k].user != u
    ensures Without(members, u) == members
    decreases |members|
  {
    if members != [] {
      WithoutAbsent(members[1..], u);
    }
  }

  lemma {:induction false} LeaveConcat(a: seq<Chan>, b: seq<Chan>, u: User)
    ensures Leave(a + b, u) == Leave(a, u) + Leave(b, u)
    decreases |a|
  {
    hide LeaveOne;
    if a == [] {
      assert a + b == b;
    } else {
      assert (a + b)[1..] == a[1..] + b;
      LeaveConcat(a[1..], b, u);
    }
  }

  lemma {:induction false} LeaveAbsent(chans: seq<Chan>, u: User)
    requires forall i :: 0 <= i < |chans| ==> !On(chans[i], u)
    ensures Leave(chans, u) == chans
    decreases |chans|
  {
    hide On;
    if chans != [] {
      LeaveAbsent(chans[1..], u);
    }
  }

  /** Taking one entry off a channel is a step towards leaving it. */
  lemma RemoveOneLeaves(c: Chan, u: User)
    requires On(c, u)
    ensures LeaveOne(c, u) == var d := RemoveOne(c, u); if ToDelete(d) then [] else LeaveOne(d, u)
  {
    hide UserInfo;
    var i := UserInfo(c.members, u);
    var d := RemoveOne(c, u);
    WithoutConcat(c.members[..i], c.members[i..], u);
    assert c.members == c.members[..i] + c.members[i..];
    WithoutConcat(c.members[..i], c.members[i + 1..], u);
    if !On(d, u) {
      WithoutAbsent(d.members, u);
    }
  }

  lemma RemoveLeaves(chans: seq<Chan>, i: nat, u: User)
    requires i < |chans| && On(chans[i], u)
    ensures Leave(Remove(chans, i, u), u) == Leave(chans, u)
  {
    hide On, LeaveOne, RemoveOne, ToDelete;
    var c, a, b := chans[i], chans[..i], chans[i + 1..];
    var d := RemoveOne(c, u);
    RemoveOneLeaves(c, u);
    assert chans == a + ([c] + b);
    LeaveConcat(a, [c] + b, u);
    assert ([c] + b)[1..] == b && ([d] + b)[1..] == b;
    if ToDelete(d) {
      LeaveConcat(a, b, u);
    } else {
      assert chans[i := d] == a + ([d] + b);
      LeaveConcat(a, [d] + b, u);
    }
  }

  ghost predicate IsOn(chans: seq<Chan>, name: string, m: Member) {
    exists i :: 0 <= i < |chans| && Fold(chans[i].name) == Fold(name) && m in chans[i].members
  }

  lemma {:induction false} LeaveMembers(chans: seq<Chan>, u: User)
    ensures forall d :: d in Leave(chans, u) <==> exists c :: c in chans && d in LeaveOne(c, u)
    decreases |chans|
  {
    hide LeaveOne;
    if chans != [] {
      LeaveMembers(chans[1..], u);
      assert forall c :: c in chans <==> c == chans[0] || c in chans[1..];
    }
  }

  /** The channel goes with its last user, unless it is to stay open. */
  predicate GoesWith(c: Chan, u: User) {
    On(c, u) && !c.stayopen && forall m :: m in c.members ==> m.user == u
  }

  predicate IsLeft(c: Chan, d: Chan, u: User) {
    d == c.(members := d.members) && !On(d, u) &&
    (forall m :: m in d.members ==> m in c.members) &&
    (forall m :: m in c.members ==> (m in d.members <==> m.user != u))
  }

  lemma LeaveOneMeans(c: Chan, u: User)
    ensures var l := LeaveOne(c, u);
      |l| <= 1 && (l == [] <==> GoesWith(c, u)) && (l != [] ==> IsLeft(c, l[0], u))
  {
    WithoutMembers(c.members, u);
    var w := Without(c.members, u);
    if w != [] {
      assert w[0] in w;
    }
    if w == [] && On(c, u) {
      forall m | m in c.members ensures m.user == u {
        assert m !in w;
      }
    }
    assert forall k :: 0 <= k < |w| ==> w[k] in w;
    if !On(c, u) {
      assert forall k :: 0 <= k < |c.members| ==> c.members[k].user != u;
    }
  }

  /** What is left of a channel comes from it, and every channel is left that does not go. */
  lemma LeftFrom(chans: seq<Chan>, u: User, d: Chan) returns (c: Chan)
    requires d in Leave(chans, u)
    ensures c in chans && !GoesWith(c, u) && IsLeft(c, d, u)
  {
    hide LeaveOne, Leave, GoesWith, IsLeft;
    LeaveMembers(chans, u);
    c :| c in chans && d in LeaveOne(c, u);
    LeaveOneMeans(c, u);
  }

  lemma LeftAs(chans: seq<Chan>, u: User, c: Chan) returns (d: Chan)
    requires c in chans && !GoesWith(c, u)
    ensures d in Leave(chans, u) && IsLeft(c, d, u)
  {
    hide LeaveOne, Leave, GoesWith, IsLeft;
    LeaveMembers(chans, u);
    LeaveOneMeans(c, u);
    d := LeaveOne(c, u)[0];
  }

  /** After a quit the user is on no channel; everybody else is where they were; nothing else
      about the channels changed; and exactly those are gone that the user was the last on. */
  lemma QuitMeans(chans: seq<Chan>, u: User)
    requires Tidy(chans)
    ensures var left := Leave(chans, u);
      (forall name, m :: IsOn(left, name, m) <==> IsOn(chans, name, m) && m.user != u) &&
      (forall d :: d in left ==> exists c :: c in chans && d == c.(members := d.members)) &&
      (forall c :: c in chans ==> ((exists d :: d in left && d.name == c.name) <==> !GoesWith(c, u)))
  {
    hide Leave, GoesWith, Tidy, IsOn, Fold, On;
    var left := Leave(chans, u);
    forall d | d in left ensures exists c :: c in chans && d == c.(members := d.members) {
      var c := LeftFrom(chans, u, d);
    }
    forall c | c in chans ensures (exists d :: d in left && d.name == c.name) <==> !GoesWith(c, u) {
      if GoesWith(c, u) {
        forall d | d in left ensures d.name != c.name {
          var b := LeftFrom(chans, u, d);
          if b.name == c.name {
            OneOfAName(chans, b, c);
          }
        }
      } else {
        var d := LeftAs(chans, u, c);
      }
    }
    forall name, m ensures IsOn(left, name, m) <==> IsOn(chans, name, m) && m.user != u {
      if IsOn(left, name, m) {
        WasThere(chans, u, name, m);
      }
      if IsOn(chans, name, m) && m.user != u {
        IsStillThere(chans, u, name, m);
      }
    }
  }

  lemma OneOfAName(chans: seq<Chan>, b: Chan, c: Chan)
    requires Tidy(chans) && b in chans && c in chans && b.name == c.name
    ensures b == c
  {
    hide Fold, NoDuplicates;
    var i :| 0 <= i < |chans| && chans[i] == b;
    var j :| 0 <= j < |chans| && chans[j] == c;
  }

  lemma WasThere(chans: seq<Chan>, u: User, name: string, m: Member)
    requires IsOn(Leave(chans, u), name, m)
    ensures IsOn(chans, name, m) && m.user != u
  {
    hide IsLeft, Leave, GoesWith, Fold;
    var left := Leave(chans, u);
    var i :| 0 <= i < |left| && Fold(left[i].name) == Fold(name) && m in left[i].members;
    assert left[i] in left;
    var c := LeftFrom(chans, u, left[i]);
    IsLeftMember(c, left[i], u, m);
    var j :| 0 <= j < |chans| && chans[j] == c;
    assert Fold(chans[j].name) == Fold(name);
  }

  lemma IsStillThere(chans: seq<Chan>, u: User, name: string, m: Member)
    requires IsOn(chans, name, m) && m.user != u
    ensures IsOn(Leave(chans, u), name, m)
  {
    hide IsLeft, GoesWith, Leave, Fold;
    var left := Leave(chans, u);
    var i :| 0 <= i < |chans| && Fold(chans[i].name) == Fold(name) && m in chans[i].members;
    Stays(chans[i], u, m);
    assert chans[i] in chans;
    var d := LeftAs(chans, u, chans[i]);
    IsLeftMember(chans[i], d, u, m);
    var j :| 0 <= j < |left| && left[j] == d;
    assert Fold(left[j].name) == Fold(name);
  }

  lemma Stays(c: Chan, u: User, m: Member)
    requires m in c.members && m.user != u
    ensures !GoesWith(c, u)
  {
    hide On;
  }

  lemma IsLeftMember(c: Chan, d: Chan, u: User, m: Member)
    requires IsLeft(c, d, u)
    ensures d.name == c.name && (m in d.members <==> m in c.members && m.user != u)
  {
  }

  /** A join adds the member to the named channel, where no entry of the user was before, and
      nothing else. */
  lemma JoinMeans(chans: seq<Chan>, name: string, m: Member, key: Option<string>, override: bool)
    requires Tidy(chans) && Join(chans, name, m, key, override).1
    ensures var joined := Join(chans, name, m, key, override).0;
      Tidy(joined) && (forall n, x :: IsOn(joined, n, x) <==> IsOn(chans, n, x) || (Fold(n) == Fold(name) && x == m))
    ensures forall x :: IsOn(chans, name, x) ==> x.user != m.user
  {
    hide Admits, UserInfo, NumChans;
    var i, joined := FindChan(chans, name), Join(chans, name, m, key, override).0;
    var c := if i < |chans| then chans[i] else NewChan(name);
    NotOn(c, m.user);
    assert joined[i] == c.(members := c.members + [m]);
    assert NoDuplicates(joined[i].members);
    forall n, x ensures IsOn(joined, n, x) <==> IsOn(chans, n, x) || (Fold(n) == Fold(name) && x == m) {
      if IsOn(chans, n, x) {
        var k :| 0 <= k < |chans| && Fold(chans[k].name) == Fold(n) && x in chans[k].members;
        assert Fold(joined[k].name) == Fold(n) && x in joined[k].members;
      }
      if Fold(n) == Fold(name) && x == m {
        assert Fold(joined[i].name) == Fold(n) && x in joined[i].members;
      }
    }
  }

  lemma NotOn(c: Chan, u: User)
    requires !On(c, u)
    ensures forall x :: x in c.members ==> x.user != u
  {
  }

  predicate FirstNamed(chans: seq<Chan>, name: string, i: int) {
    0 <= i < |chans| && Fold(chans[i].name) == Fold(name) && forall j :: 0 <= j < i ==> Fold(chans[j].name) != Fold(name)
  }

  predicate Unnamed(chans: seq<Chan>, name: string) {
    forall i :: 0 <= i < |chans| ==> Fold(chans[i].name) != Fold(name)
  }

  /** What lets somebody on a channel: an invitation, room and the key, or for all but the
      room that ops must obey too, being invited, an op or an owner; no other entry; and not
      more than sixteen channels already, or an override. */
  predicate LetsIn(c: Chan, m: Member, key: Option<string>, override: bool, chans: nat) {
    var special := m.invited || m.rank.op || m.rank.owner;
    (!c.modes.inviteonly || special) &&
    (c.modes.limit == 0 || Visible(c.members) < c.modes.limit || (special && !c.modes.opsObeyLimit)) &&
    (c.modes.key == "" || key == Some(c.modes.key) || special) &&
    (chans <= 16 || override) && forall x :: x in c.members ==> x.user != m.user
  }

  /** A join adds the member at the end of the channel of that name, if that lets it in, or
      makes a channel without settings for it; nothing else changes. Otherwise nothing
      does. */
  lemma JoinDoes(chans: seq<Chan>, name: string, m: Member, key: Option<string>, override: bool)
    ensures var (joined, ok) := Join(chans, name, m, key, override);
      (forall i :: FirstNamed(chans, name, i) ==>
        (ok <==> LetsIn(chans[i], m, key, override, NumChans(chans, m.user))) &&
        (ok ==> joined == chans[i := chans[i].(members := chans[i].members + [m])])) &&
      (Unnamed(chans, name) ==>
        (ok <==> NumChans(chans, m.user) <= 16 || override) &&
        (ok ==> joined == chans + [Chan(name, [m], Modes(false, false, false, false, false, false, false, 0, 0, ""), false, false)])) &&
      (!ok ==> joined == chans)
  {
    hide NumChans, UserInfo, Fold;
    var i := FindChan(chans, name);
    forall k | FirstNamed(chans, name, k) ensures k == i {
    }
    var c := if i < |chans| then chans[i] else NewChan(name);
    OnAsMember(c, m.user);
    assert [] + [m] == [m];
  }

  lemma OnAsMember(c: Chan, u: User)
    ensures On(c, u) <==> exists x :: x in c.members && x.user == u
  {
    var k := UserInfo(c.members, u);
    assert k < |c.members| ==> c.members[k] in c.members;
  }

  /** The entries of a user on a tidy channel: one, and no other has it. */
  lemma OneEntryGone(c: Chan, u: User)
    requires On(c, u) && NoDuplicates(c.members)
    ensures var d := RemoveOne(c, u);
      d == c.(members := d.members) && (forall x :: x in d.members <==> x in c.members && x.user != u) &&
      (ToDelete(d) <==> GoesWith(c, u))
  {
    hide UserInfo;
    var d := RemoveOne(c, u);
    forall x ensures x in d.members <==> x in c.members && x.user != u {
      EntryStays(c, u, x);
    }
    hide NoDuplicates;
    assert d.members == [] <==> forall x :: x in c.members ==> x.user == u by {
      if d.members != [] {
        assert d.members[0] in d.members;
      }
    }
  }

  lemma EntryStays(c: Chan, u: User, x: Member)
    requires On(c, u) && NoDuplicates(c.members)
    ensures x in RemoveOne(c, u).members <==> x in c.members && x.user != u
  {
    hide UserInfo;
    var i, d := UserInfo(c.members, u), RemoveOne(c, u).members;
    if x in d {
      var k :| 0 <= k < |d| && d[k] == x;
      assert x == c.members[if k < i then k else k + 1];
    }
    if x in c.members && x.user != u {
      var k :| 0 <= k < |c.members| && c.members[k] == x;
      assert x == d[if k < i then k else k - 1];
    }
  }

  /** A part succeeds exactly for somebody on a channel of that name. Then this one entry is
      gone, the channel goes with it if nobody is left and it need not stay open, and no other
      channel, member or setting changes. */
  lemma PartMeans(chans: seq<Chan>, name: string, u: User)
    requires Tidy(chans)
    ensures var (parted, ok) := Part(chans, name, u);
      (ok <==> exists x: Member :: IsOn(chans, name, x) && x.user == u) && (!ok ==> parted == chans) &&
      (forall n, x :: IsOn(parted, n, x) <==> IsOn(chans, n, x) && !(Fold(n) == Fold(name) && x.user == u)) &&
      (ok ==> forall i :: FirstNamed(chans, name, i) ==>
        if GoesWith(chans[i], u) then parted == chans[..i] + chans[i + 1..]
        else |parted| == |chans| && parted == chans[i := chans[i].(members := parted[i].members)])
  {
    hide On, RemoveOne, NoDuplicates, UserInfo, Fold, ToDelete, GoesWith;
    var i, parted := FindChan(chans, name), Part(chans, name, u).0;
    assert forall k :: FirstNamed(chans, name, k) ==> k == i;
    OnByName(chans, name, u);
    if i < |chans| && On(chans[i], u) {
      TidyAt(chans, i);
      OneEntryGone(chans[i], u);
      forall n, x ensures IsOn(parted, n, x) <==> IsOn(chans, n, x) && !(Fold(n) == Fold(name) && x.user == u) {
        PartedMembers(chans, parted, i, name, u, n, x);
      }
    } else {
      NobodyParts(chans, name, u);
    }
  }

  lemma OnByName(chans: seq<Chan>, name: string, u: User)
    requires Tidy(chans)
    ensures var i := FindChan(chans, name); i < |chans| && On(chans[i], u) <==> exists x: Member :: IsOn(chans, name, x) && x.user == u
  {
    hide On, NoDuplicates, Fold;
    var i := FindChan(chans, name);
    if i < |chans| {
      OnAsMember(chans[i], u);
    }
    forall j | 0 <= j < |chans| && Fold(chans[j].name) == Fold(name) ensures j == i {
    }
  }

  lemma NobodyParts(chans: seq<Chan>, name: string, u: User)
    requires !exists x: Member :: IsOn(chans, name, x) && x.user == u
    ensures forall n, x: Member :: IsOn(chans, n, x) ==> !(Fold(n) == Fold(name) && x.user == u)
  {
    hide Fold;
    forall n, x: Member | IsOn(chans, n, x) && Fold(n) == Fold(name) ensures x.user != u {
      assert IsOn(chans, name, x);
    }
  }

  lemma PartedMembers(chans: seq<Chan>, parted: seq<Chan>, i: nat, name: string, u: User, n: string, x: Member)
    requires Tidy(chans) && i < |chans| && Fold(chans[i].name) == Fold(name) && On(chans[i], u)
    requires var d := RemoveOne(chans[i], u);
      d == chans[i].(members := d.members) && (forall x :: x in d.members <==> x in chans[i].members && x.user != u) &&
      parted == if ToDelete(d) then chans[..i] + chans[i + 1..] else chans[i := d]
    ensures IsOn(parted, n, x) <==> IsOn(chans, n, x) && !(Fold(n) == Fold(name) && x.user == u)
  {
    hide On, RemoveOne, NoDuplicates, UserInfo, Fold, IsOn, Tidy, ToDelete;
    if IsOn(parted, n, x) {
      PartedWere(chans, parted, i, name, u, n, x);
    }
    if IsOn(chans, n, x) && !(Fold(n) == Fold(name) && x.user == u) {
      PartedStay(chans, parted, i, name, u, n, x);
    }
  }

  lemma PartedWere(chans: seq<Chan>, parted: seq<Chan>, i: nat, name: string, u: User, n: string, x: Member)
    requires Tidy(chans) && i < |chans| && Fold(chans[i].name) == Fold(name) && On(chans[i], u)
    requires var d := RemoveOne(chans[i], u);
      d == chans[i].(members := d.members) && (forall x :: x in d.members <==> x in chans[i].members && x.user != u) &&
      parted == if ToDelete(d) then chans[..i] + chans[i + 1..] else chans[i := d]
    requires IsOn(parted, n, x)
    ensures IsOn(chans, n, x) && !(Fold(n) == Fold(name) && x.user == u)
  {
    hide On, RemoveOne, NoDuplicates, UserInfo, Fold;
    var d := RemoveOne(chans[i], u);
    var k :| 0 <= k < |parted| && Fold(parted[k].name) == Fold(n) && x in parted[k].members;
    var j := if ToDelete(d) && k >= i then k + 1 else k;
    assert Fold(chans[j].name) == Fold(n) && x in chans[j].members;
    assert j != i ==> Fold(chans[j].name) != Fold(name);
  }

  lemma PartedStay(chans: seq<Chan>, parted: seq<Chan>, i: nat, name: string, u: User, n: string, x: Member)
    requires Tidy(chans) && i < |chans| && Fold(chans[i].name) == Fold(name) && On(chans[i], u)
    requires var d := RemoveOne(chans[i], u);
      d == chans[i].(members := d.members) && (forall x :: x in d.members <==> x in chans[i].members && x.user != u) &&
      parted == if ToDelete(d) then chans[..i] + chans[i + 1..] else chans[i := d]
    requires IsOn(chans, n, x) && !(Fold(n) == Fold(name) && x.user == u)
    ensures IsOn(parted, n, x)
  {
    hide On, RemoveOne, NoDuplicates, UserInfo, Fold, Tidy;
    var d := RemoveOne(chans[i], u);
    var j :| 0 <= j < |chans| && Fold(chans[j].name) == Fold(n) && x in chans[j].members;
    assert j == i ==> x in d.members;
    assert ToDelete(d) ==> d.members == [];
    var k := if ToDelete(d) && j > i then j - 1 else j;
    assert Fold(parted[k].name) == Fold(n) && x in parted[k].members;
  }

  lemma {:induction false} VisibleConcat(a: seq<Member>, b: seq<Member>)
    ensures Visible(a + b) == Visible(a) + Visible(b)
    decreases |a|
  {
    if a == [] {
      assert a + b == b;
    } else {
      assert (a + b)[1..] == a[1..] + b;
      VisibleConcat(a[1..], b);
    }
  }

  /** Who is neither invited nor an op or owner never brings a channel over its limit; and on
      a channel where ops obey the limit, nobody does. */
  lemma JoinKeepsLimit(chans: seq<Chan>, name: string, m: Member, key: Option<string>, override: bool)
    requires var i := FindChan(chans, name);
      i < |chans| && chans[i].modes.limit != 0 &&
      (chans[i].modes.opsObeyLimit || !(m.invited || m.rank.op || m.rank.owner))
    ensures var i, (joined, ok) := FindChan(chans, name), Join(chans, name, m, key, override);
      ok ==> i < |joined| && Visible(joined[i].members) <= joined[i].modes.limit
  {
    hide NumChans, UserInfo;
    VisibleConcat(chans[FindChan(chans, name)].members, [m]);
  }

  lemma {:induction false} NumChansConcat(a: seq<Chan>, b: seq<Chan>, u: User)
    ensures NumChans(a + b, u) == NumChans(a, u) + NumChans(b, u)
    decreases |a|
  {
    hide On;
    if a == [] {
      assert a + b == b;
    } else {
      assert (a + b)[1..] == a[1..] + b;
      NumChansConcat(a[1..], b, u);
    }
  }

  // ---------- Runs ----------

  datatype Act =
    | Joins(name: string, member: Member, key: Option<string>, override: bool)
    | Parts(name: string, user: User)
    | Quits(user: User)
    | SetsModes(name: string, actor: Actor, command: Command)

  function Do(chans: seq<Chan>, a: Act): seq<Chan> {
    match a
    case Joins(name, m, key, override) => Join(chans, name, m, key, override).0
    case Parts(name, u) => Part(chans, name, u).0
    case Quits(u) => Leave(chans, u)
    case SetsModes(name, u, command) =>
      var i := FindChan(chans, name);
      if i == |chans| then chans else chans[i := SetModes(chans[i], u, command)]
  }

  function DoAll(chans: seq<Chan>, acts: seq<Act>): seq<Chan> {
    if acts == [] then chans else Do(DoAll(chans, acts[..|acts| - 1]), acts[|acts| - 1])
  }

  lemma SameNamesTidy(chans: seq<Chan>, i: nat, d: Chan)
    requires Tidy(chans) && i < |chans| && d.name == chans[i].name && NoDuplicates(d.members)
    ensures Tidy(chans[i := d])
  {
  }

  lemma ModesKeepTidy(chans: seq<Chan>, i: nat, u: Actor, t: Command)
    requires Tidy(chans) && i < |chans|
    ensures Tidy(chans[i := SetModes(chans[i], u, t)])
  {
    hide UserInfo, SetModes, Tidy;
    var c, d := chans[i], SetModes(chans[i], u, t);
    SetModesFrame(c, u, t);
    assert NoDuplicates(c.members) by {
      TidyAt(chans, i);
    }
    forall j, k | 0 <= j < k < |d.members| ensures d.members[j].user != d.members[k].user {
      assert d.members[j].user == c.members[j].user && d.members[k].user == c.members[k].user;
    }
    SameNamesTidy(chans, i, d);
  }

  lemma TidyAt(chans: seq<Chan>, i: nat)
    requires Tidy(chans) && i < |chans|
    ensures NoDuplicates(chans[i].members)
  {
  }

  /** A mode string leaves the members in place, and the channel's name and fixed settings. */
  lemma {:induction false} ReadFrame(c: Chan, u: Actor, n: nat, t: Command)
    requires n <= |t.letters|
    ensures var d := Read(Start(c, u), u, n, t).chan;
      SameMembers(c, d) && d.name == c.name && d.stayopen == c.stayopen && d.onlyowner == c.onlyowner
  {
    hide UserInfo, RankOf, Letter, Allowed, Promoted;
    if n == 0 {
      Settles(c, u);
    } else {
      ReadFrame(c, u, n - 1, t);
      var s := Read(Start(c, u), u, n - 1, t);
      LetterEffect(s, u, t.letters[n - 1], t);
    }
  }

  lemma SetModesFrame(c: Chan, u: Actor, t: Command)
    ensures var d := SetModes(c, u, t);
      SameMembers(c, d) && d.name == c.name && d.stayopen == c.stayopen && d.onlyowner == c.onlyowner
  {
    ReadFrame(c, u, |t.letters|, t);
  }

  lemma RemoveOneTidy(c: Chan, u: User)
    requires On(c, u) && NoDuplicates(c.members)
    ensures NoDuplicates(RemoveOne(c, u).members)
  {
    hide UserInfo;
    var i, d := UserInfo(c.members, u), RemoveOne(c, u).members;
    assert forall k :: 0 <= k < |d| ==> d[k] == c.members[if k < i then k else k + 1];
  }

  lemma PartKeepsTidy(chans: seq<Chan>, name: string, u: User)
    requires Tidy(chans)
    ensures Tidy(Part(chans, name, u).0)
  {
    hide On, RemoveOne, NoDuplicates, FindChan;
    var i := FindChan(chans, name);
    if i < |chans| && On(chans[i], u) {
      RemoveOneTidy(chans[i], u);
      assert RemoveOne(chans[i], u).name == chans[i].name by {
        RemoveOneName(chans[i], u);
      }
      DropTidy(chans, i);
    }
  }

  lemma RemoveOneName(c: Chan, u: User)
    requires On(c, u)
    ensures RemoveOne(c, u).name == c.name
  {
  }

  lemma DropTidy(chans: seq<Chan>, i: nat)
    requires Tidy(chans) && i < |chans|
    ensures Tidy(chans[..i] + chans[i + 1..])
  {
    hide NoDuplicates;
    var d := chans[..i] + chans[i + 1..];
    assert forall k :: 0 <= k < |d| ==> d[k] == chans[if k < i then k else k + 1];
  }

  lemma LeaveOneTidy(c: Chan, u: User)
    requires NoDuplicates(c.members)
    ensures forall d :: d in LeaveOne(c, u) ==> d.name == c.name && NoDuplicates(d.members)
  {
    WithoutMembers(c.members, u);
  }

  lemma {:induction false} LeaveKeepsTidy(chans: seq<Chan>, u: User)
    requires Tidy(chans)
    ensures Tidy(Leave(chans, u)) && forall d :: d in Leave(chans, u) ==> exists c :: c in chans && c.name == d.name
    decreases |chans|
  {
    hide LeaveOne, NoDuplicates, Fold;
    if chans != [] {
      var rest := Leave(chans[1..], u);
      LeaveKeepsTidy(chans[1..], u);
      LeaveOneTidy(chans[0], u);
      LeaveOneMeans(chans[0], u);
      var l := LeaveOne(chans[0], u);
      forall k | 0 <= k < |rest| ensures Fold(rest[k].name) != Fold(chans[0].name) {
        var c :| c in chans[1..] && c.name == rest[k].name;
      }
      TidyJoined(l, rest, chans[0]);
    }
  }

  lemma TidyJoined(l: seq<Chan>, rest: seq<Chan>, c: Chan)
    requires |l| <= 1 && Tidy(l) && Tidy(rest) && (forall d :: d in l ==> d.name == c.name)
    requires forall k :: 0 <= k < |rest| ==> Fold(rest[k].name) != Fold(c.name)
    ensures Tidy(l + rest) && forall d :: d in l + rest ==> d in l || d in rest
  {
    hide NoDuplicates, Fold;
    assert |l| == 1 ==> l[0] in l;
  }

  /** In every run the channels stay tidy: no user is ever on a channel twice. */
  lemma {:induction false} RunStaysTidy(acts: seq<Act>)
    ensures Tidy(DoAll([], acts))
    decreases |acts|
  {
    hide Join, Part, Leave, SetModes;
    if acts != [] {
      RunStaysTidy(acts[..|acts| - 1]);
      StepStaysTidy(DoAll([], acts[..|acts| - 1]), acts[|acts| - 1]);
    }
  }

  lemma StepStaysTidy(chans: seq<Chan>, a: Act)
    requires Tidy(chans)
    ensures Tidy(Do(chans, a))
  {
    hide Part, Leave, SetModes, Tidy, FindChan, Admits, On, NumChans;
    match a
    case Joins(name, m, key, override) =>
      if Join(chans, name, m, key, override).1 {
        JoinMeans(chans, name, m, key, override);
      }
    case Parts(name, u) => PartKeepsTidy(chans, name, u);
    case Quits(u) => LeaveKeepsTidy(chans, u);
    case SetsModes(name, u, command) =>
      if FindChan(chans, name) < |chans| {
        ModesKeepTidy(chans, FindChan(chans, name), u, command);
      }
  }

  // ---------- On how many channels a user can be ----------

  function Here(c: Chan, u: User): nat {
    if On(c, u) then 1 else 0
  }

  lemma NumChansUpdate(chans: seq<Chan>, i: nat, d: Chan, u: User)
    requires i < |chans|
    ensures NumChans(chans[i := d], u) == NumChans(chans, u) - Here(chans[i], u) + Here(d, u)
    ensures NumChans(chans[..i] + chans[i + 1..], u) == NumChans(chans, u) - Here(chans[i], u)
  {
    hide On;
    var a, c, b := chans[..i], chans[i], chans[i + 1..];
    assert chans == a + ([c] + b) && chans[i := d] == a + ([d] + b);
    assert ([c] + b)[1..] == b && ([d] + b)[1..] == b;
    NumChansConcat(a, [c] + b, u);
    NumChansConcat(a, [d] + b, u);
    NumChansConcat(a, b, u);
  }

  lemma OnMeans(c: Chan, u: User)
    ensures On(c, u) <==> exists k :: 0 <= k < |c.members| && c.members[k].user == u
  {
  }

  /** Nobody comes on a channel by others leaving it, or by its modes. */
  lemma OnBefore(c: Chan, d: Chan, u: User)
    requires forall k :: 0 <= k < |d.members| ==> exists j :: 0 <= j < |c.members| && c.members[j].user == d.members[k].user
    ensures Here(d, u) <= Here(c, u)
  {
    hide UserInfo;
    OnMeans(c, u);
    OnMeans(d, u);
  }

  lemma OnAfterAdding(c: Chan, m: Member, u: User)
    ensures On(c.(members := c.members + [m]), u) <==> On(c, u) || m.user == u
  {
    hide UserInfo;
    var d := c.(members := c.members + [m]);
    OnMeans(c, u);
    OnMeans(d, u);
    assert d.members[|c.members|] == m;
    assert forall k :: 0 <= k < |c.members| ==> d.members[k] == c.members[k];
  }

  /** A join puts nobody else on a channel, and its user only while on at most 16. */
  lemma JoinCounts(chans: seq<Chan>, name: string, m: Member, key: Option<string>, override: bool, u: User)
    ensures var (joined, ok) := Join(chans, name, m, key, override);
      NumChans(joined, u) == NumChans(chans, u) + (if ok && m.user == u then 1 else 0) &&
      (ok ==> NumChans(chans, m.user) <= MAX_CHANS_PER_USER || override)
  {
    hide Admits, On, NumChans;
    var i := FindChan(chans, name);
    var c := if i < |chans| then chans[i] else NewChan(name);
    var d := c.(members := c.members + [m]);
    OnAfterAdding(c, m, u);
    if i < |chans| {
      NumChansUpdate(chans, i, d, u);
    } else {
      NumChansConcat(chans, [d], u);
      NumChansOne(d, u);
      OnMeans(c, u);
    }
  }

  lemma NumChansOne(c: Chan, u: User)
    ensures NumChans([c], u) == Here(c, u)
  {
  }

  lemma PartCounts(chans: seq<Chan>, name: string, v: User, u: User)
    ensures NumChans(Part(chans, name, v).0, u) <= NumChans(chans, u)
  {
    hide UserInfo, NumChans;
    var i := FindChan(chans, name);
    if i < |chans| && On(chans[i], v) {
      var c := RemoveOne(chans[i], v);
      assert forall k :: 0 <= k < |c.members| ==> c.members[k] == chans[i].members[if k < UserInfo(chans[i].members, v) then k else k + 1];
      OnBefore(chans[i], c, u);
      NumChansUpdate(chans, i, c, u);
    }
  }

  lemma {:induction false} LeaveCounts(chans: seq<Chan>, v: User, u: User)
    ensures NumChans(Leave(chans, v), u) <= NumChans(chans, u)
    decreases |chans|
  {
    hide LeaveOne, On;
    if chans != [] {
      LeaveCounts(chans[1..], v, u);
      var l := LeaveOne(chans[0], v);
      NumChansConcat(l, Leave(chans[1..], v), u);
      LeaveOneCounts(chans[0], v, u);
    }
  }

  lemma LeaveOneCounts(c: Chan, v: User, u: User)
    ensures NumChans(LeaveOne(c, v), u) <= Here(c, u)
  {
    hide On;
    var l := LeaveOne(c, v);
    if On(c, v) {
      WithoutMembers(c.members, v);
      var d := c.(members := Without(c.members, v));
      forall k | 0 <= k < |d.members| ensures exists j :: 0 <= j < |c.members| && c.members[j].user == d.members[k].user {
        assert d.members[k] in c.members;
      }
      OnBefore(c, d, u);
      NumChansOne(d, u);
    } else {
      NumChansOne(c, u);
    }
  }

  lemma SameHere(c: Chan, d: Chan, u: User)
    requires SameMembers(c, d)
    ensures Here(d, u) == Here(c, u)
  {
    SameUserInfo(c, d, u);
  }

  lemma ModesCount(chans: seq<Chan>, i: nat, v: Actor, t: Command, u: User)
    requires i < |chans|
    ensures NumChans(chans[i := SetModes(chans[i], v, t)], u) == NumChans(chans, u)
  {
    hide On, SetModes, NumChans, UserInfo;
    var c, d := chans[i], SetModes(chans[i], v, t);
    SetModesFrame(c, v, t);
    SameHere(c, d, u);
    NumChansUpdate(chans, i, d, u);
  }

  predicate NeverOverrides(a: Act, u: User) {
    a.Joins? && a.member.user == u ==> !a.override
  }

  predicate NoneOverrides(acts: seq<Act>, u: User) {
    forall k :: 0 <= k < |acts| ==> NeverOverrides(acts[k], u)
  }

  /** In every run a user without an override is on at most 17 channels: the test at a join
      counts those the user is on already, and lets 16 pass. */
  lemma {:induction false} AtMostSeventeen(acts: seq<Act>, u: User)
    requires NoneOverrides(acts, u)
    ensures NumChans(DoAll([], acts), u) <= MAX_CHANS_PER_USER + 1
    decreases |acts|
  {
    hide Join, Part, Leave, SetModes, FindChan, NumChans;
    if acts != [] {
      AtMostSeventeen(acts[..|acts| - 1], u);
      StepCounts(DoAll([], acts[..|acts| - 1]), acts[|acts| - 1], u);
    } else {
      NoChans(u);
    }
  }

  lemma NoChans(u: User)
    ensures NumChans([], u) == 0
  {
  }

  lemma StepCounts(chans: seq<Chan>, a: Act, u: User)
    requires NeverOverrides(a, u) && NumChans(chans, u) <= MAX_CHANS_PER_USER + 1
    ensures NumChans(Do(chans, a), u) <= MAX_CHANS_PER_USER + 1
  {
    hide Join, Part, Leave, SetModes, FindChan, NumChans;
    match a
    case Joins(name, m, key, override) => JoinCounts(chans, name, m, key, override, u);
    case Parts(name, v) => PartCounts(chans, name, v, u);
    case Quits(v) => LeaveCounts(chans, v, u);
    case SetsModes(name, v, command) =>
      if FindChan(chans, name) < |chans| {
        ModesCount(chans, FindChan(chans, name), v, command, u);
      }
  }

  /** Whoever is on 16 may open another channel. */
  lemma SeventeenthJoin(chans: seq<Chan>, name: string, m: Member, key: Option<string>, override: bool)
    requires NumChans(chans, m.user) == MAX_CHANS_PER_USER && FindChan(chans, name) == |chans|
    ensures NumChans(Join(chans, name, m, key, override).0, m.user) == MAX_CHANS_PER_USER + 1
  {
    hide NumChans, On;
    OnMeans(NewChan(name), m.user);
    JoinCounts(chans, name, m, key, override, m.user);
  }

  /** The channel a join is about: the one of that name, or a new one. */
  function Target(chans: seq<Chan>, name: string): Chan {
    var i := FindChan(chans, name);
    if i < |chans| then chans[i] else NewChan(name)
  }

  /** Who is on at most 16 channels is on at most 16 after a join exactly if it was fewer
      before, or the join fails for another reason than the number. */
  lemma SixteenIsKept(chans: seq<Chan>, name: string, m: Member, key: Option<string>, override: bool)
    requires NumChans(chans, m.user) <= MAX_CHANS_PER_USER
    ensures NumChans(Join(chans, name, m, key, override).0, m.user) <= MAX_CHANS_PER_USER <==>
            NumChans(chans, m.user) < MAX_CHANS_PER_USER || On(Target(chans, name), m.user) || !Admits(Target(chans, name), m, key)
  {
    hide NumChans, On, Admits, FindChan;
    JoinCounts(chans, name, m, key, override, m.user);
  }

  function Plain(u: User): Member {
    Member(u, Rank(false, false, false, false), false, false, false, false)
  }

  /** A client that opens n channels, one after the other. */
  function Opening(u: User, n: nat): seq<Act> {
    if n == 0 then [] else Opening(u, n - 1) + [Joins(seq(n, _ => '#'), Plain(u), None, false)]
  }

  ghost predicate NamesUpTo(chans: seq<Chan>, n: nat) {
    forall i :: 0 <= i < |chans| ==> |chans[i].name| <= n
  }

  lemma {:induction false} OpeningCounts(u: User, n: nat)
    requires n <= MAX_CHANS_PER_USER + 1
    ensures var chans := DoAll([], Opening(u, n)); NumChans(chans, u) == n && NamesUpTo(chans, n)
  {
    hide NumChans, Join, NamesUpTo, Plain;
    if n == 0 {
      NoChans(u);
      NoNames();
    } else {
      OpeningCounts(u, n - 1);
      assert Opening(u, n)[..|Opening(u, n)| - 1] == Opening(u, n - 1);
      OpenOne(DoAll([], Opening(u, n - 1)), u, n, seq(n, _ => '#'));
    }
  }

  lemma NoNames()
    ensures NamesUpTo([], 0)
  {
  }

  lemma OpenOne(chans: seq<Chan>, u: User, n: nat, name: string)
    requires 0 < n <= MAX_CHANS_PER_USER + 1 && |name| == n && NumChans(chans, u) == n - 1 && NamesUpTo(chans, n - 1)
    ensures var joined := Join(chans, name, Plain(u), None, false).0; NumChans(joined, u) == n && NamesUpTo(joined, n)
  {
    hide NumChans, On, FindChan;
    NoSuchName(chans, name);
    OnMeans(NewChan(name), u);
    JoinCounts(chans, name, Plain(u), None, false, u);
  }

  lemma NoSuchName(chans: seq<Chan>, name: string)
    requires forall i :: 0 <= i < |chans| ==> |chans[i].name| != |name|
    ensures FindChan(chans, name) == |chans|
  {
    var i := FindChan(chans, name);
    assert i < |chans| ==> |Fold(chans[i].name)| == |Fold(name)|;
  }

  /** And 17 channels are reached: from the start, by joins alone and without an override. */
  lemma SeventeenIsReached(u: User)
    ensures NumChans(DoAll([], Opening(u, MAX_CHANS_PER_USER + 1)), u) == MAX_CHANS_PER_USER + 1
    ensures NoneOverrides(Opening(u, MAX_CHANS_PER_USER + 1), u)
  {
    hide DoAll, NumChans, NamesUpTo;
    OpeningCounts(u, MAX_CHANS_PER_USER + 1);
    OpeningIsPlain(u, MAX_CHANS_PER_USER + 1);
  }

  lemma {:induction false} OpeningIsPlain(u: User, n: nat)
    ensures NoneOverrides(Opening(u, n), u)
  {
    if n > 0 {
      OpeningIsPlain(u, n - 1);
    }
  }
}
