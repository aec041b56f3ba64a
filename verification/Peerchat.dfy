/** The chat server's channels as objects that are updated in place. An entry of a channel's
    list is changed where it stands, so that setter and target of a mode may be the same. */
module Peerchat {
  import opened Text
  import opened Channels

  class Channel {
    const name: string
    var moderated: bool
    var inviteonly: bool
    var limit: int
    var stayopen: bool
    var nooutsidemsgs: bool
    var topicProtect: bool
    var priv: bool
    var secret: bool
    var onlyowner: bool
    var opsObeyLimit: bool
    var auditorium: int
    var key: string
    var userList: seq<Member>

    ghost function TheModes(): Modes
      reads this
    {
      Modes(moderated, inviteonly, nooutsidemsgs, topicProtect, priv, secret, opsObeyLimit, auditorium, limit, key)
    }

    ghost function Value(): Chan
      reads this
    {
      Chan(name, userList, TheModes(), stayopen, onlyowner)
    }

    constructor (name: string)
      ensures Value() == NewChan(name)
    {
      this.name := name;
      moderated, inviteonly, priv, secret, limit, stayopen := false, false, false, false, 0, false;
      nooutsidemsgs, topicProtect, opsObeyLimit, auditorium, key, onlyowner := false, false, false, 0, "", false;
      userList := [];
    }

    /** The place of a user's entry, or the length. */
    method GetUserInfo(user: User) returns (k: nat)
      ensures k == UserInfo(userList, user)
    {
      k := 0;
      while k < |userList|
        invariant k <= |userList| && forall j :: 0 <= j < k ==> userList[j].user != user
      {
        if userList[k].user == user {
          return;
        }
        k := k + 1;
      }
    }

    /** The rank that counts as the setter's: none for someone who is not on the channel. */
    function Info(info: nat): Rank
      reads this
    {
      if info < |userList| then userList[info].rank else Rank(false, false, false, false)
    }

    /** The test before most letters: the rank that it takes, or an override. */
    function May(setter: Actor, info: nat, rank: bool): bool
      reads this
    {
      rank || (setter.operOverride && !(onlyowner && !Info(info).owner))
    }

    lemma MayMeansAllowed(setter: Actor, info: nat, letter: char)
      requires info == UserInfo(userList, setter.user)
      ensures Allowed(Value(), setter, letter) == May(setter, info,
        if letter == 'o' || letter == 'O' then Info(info).owner
        else if letter == 'h' then Info(info).op
        else if letter == 'v' then Info(info).halfop || Info(info).op || Info(info).owner
        else Info(info).halfop)
      ensures RankOf(Value(), setter) == Info(info)
    {
    }

    method SetFlag(letter: char, on: bool)
      requires IsFlag(letter)
      modifies `moderated, `inviteonly, `nooutsidemsgs, `topicProtect, `priv, `secret, `opsObeyLimit, `auditorium
      ensures TheModes() == Flag(old(TheModes()), letter, on)
    {
      match letter {
        case 'e' => opsObeyLimit := on;
        case 'm' => moderated := on;
        case 'n' => nooutsidemsgs := on;
        case 'i' => inviteonly := on;
        case 't' => topicProtect := on;
        case 'p' => SetPrivate(on);
        case 's' => SetSecret(on);
        case 'q' => SetAuditorium(1, on);
        case 'u' => SetAuditorium(2, on);
      }
    }

    method SetPrivate(on: bool)
      modifies `priv, `secret
      ensures priv == on && secret == (old(secret) && !on)
    {
      if secret && on {
        secret := false;
      }
      priv := on;
    }

    method SetSecret(on: bool)
      modifies `priv, `secret
      ensures secret == on && priv == (old(priv) && !on)
    {
      if priv && on {
        priv := false;
      }
      secret := on;
    }

    method SetAuditorium(which: int, on: bool)
      requires which != 0
      modifies `auditorium
      ensures auditorium == if on then which else if old(auditorium) == which then 0 else old(auditorium)
    {
      if (on && auditorium == which) || (!on && auditorium != which) {
        return;
      }
      auditorium := if on then which else 0;
    }

    /** A member's new rank: the branches of o, O, h and v from where the target is known. */
    method Change(target: nat, letter: char, on: bool, byOwner: bool)
      requires IsForMembers(letter) && target < |userList|
      modifies `userList
      ensures userList == var m := old(userList[target]); old(userList)[target := m.(rank := Promoted(m.rank, letter, on, byOwner))]
    {
      var r := userList[target].rank;
      match letter {
        case 'o' =>
          if r.op == on {
            return;
          }
          if !on {
            r := r.(owner := on);
          }
          r := r.(op := on, halfop := on);
        case 'O' =>
          if r.owner == on {
            return;
          }
          r := r.(owner := on, op := on, halfop := on);
        case 'h' =>
          if r.halfop == on {
            return;
          }
          if r.op || (r.owner && !byOwner) {
            return;
          }
          r := r.(halfop := on);
        case 'v' =>
          if r.voice == on {
            return;
          }
          r := r.(voice := on);
      }
      userList := userList[target := userList[target].(rank := r)];
    }

    method SetForMember(setter: Actor, info: nat, letter: char, on: bool, target: Option<User>)
      requires info == UserInfo(userList, setter.user) && IsForMembers(letter)
      modifies `userList
      ensures Value() == ForMember(old(Value()), setter, letter, on, target)
    {
      hide UserInfo, Allowed, RankOf, Promoted;
      if target.Some? {
        var tclient := GetUserInfo(target.value);
        if tclient < |userList| {
          MayMeansAllowed(setter, info, 'v');
          var r := Info(info);
          var canVoice := r.halfop || r.op || r.owner || (setter.operOverride && (!onlyowner || r.owner));
          if letter == 'v' && !canVoice && (userList[tclient].user != setter.user || on) {
            return;
          }
          Change(tclient, letter, on, r.owner);
        }
      }
    }

    /** One letter of a mode string: the sign, the parameters used up, and whether to stop. */
    method OneLetter(setter: Actor, info: nat, letter: char, on_: bool, modep_: nat, t: Command)
      returns (on: bool, modep: nat, over: bool)
      requires info == UserInfo(userList, setter.user)
      modifies this
      ensures Reading(Value(), on, modep, over) == Letter(Reading(old(Value()), on_, modep_, false), setter, letter, t)
    {
      hide UserInfo, RankOf, Channels.ForNick, LimitOrKey, Flag, Allowed;
      on, modep, over := on_, modep_, false;
      MayMeansAllowed(setter, info, letter);
      if letter == '-' {
        on := false;
      } else if letter == '+' {
        on := true;
      } else if IsFlag(letter) {
        if May(setter, info, Info(info).halfop) {
          SetFlag(letter, on);
        }
      } else if letter == 'l' || letter == 'k' {
        if May(setter, info, Info(info).halfop) {
          modep, over := SetLimitOrKey(letter, on, modep, t);
        }
      } else if IsForMembers(letter) {
        var rank := if letter == 'h' then Info(info).op else Info(info).owner;
        if letter == 'v' || May(setter, info, rank) {
          modep, over := ForNick(setter, info, letter, on, modep, t);
        }
      } else if IsForLists(letter) {
        if May(setter, info, Info(info).halfop) || !t.hasParams {
          modep, over := ForList(info, letter, modep, t);
        }
      }
    }

    /** The branches b, I and E without the lists: a list is shown to a member only. */
    method ForList(info: nat, letter: char, modep_: nat, t: Command) returns (modep: nat, over: bool)
      requires IsForLists(letter)
      ensures if !t.hasParams then modep == modep_ && over == (info >= |userList|)
              else modep == modep_ + 1 && over == (t.param(modep_) == "")
    {
      modep, over := modep_, false;
      if !t.hasParams {
        return modep, info >= |userList|;
      }
      var text := t.param(modep);
      modep := modep + 1;
      if |text| < 1 {
        return modep, true;
      }
    }

    /** The branches o, O, h and v, for a setter who may. */
    method ForNick(setter: Actor, info: nat, letter: char, on: bool, modep_: nat, t: Command) returns (modep: nat, over: bool)
      requires info == UserInfo(userList, setter.user) && IsForMembers(letter)
      modifies `userList
      ensures Reading(Value(), on, modep, over) == Channels.ForNick(Reading(old(Value()), on, modep_, false), setter, letter, t)
    {
      hide ForMember, UserInfo;
      modep, over := modep_, false;
      if !t.hasParams {
        return modep, true;
      }
      var text := t.param(modep);
      modep := modep + 1;
      if |text| < 1 {
        return modep, true;
      }
      SetForMember(setter, info, letter, on, t.find(text));
    }

    /** The branches l and k, for a setter who may. */
    method SetLimitOrKey(letter: char, on: bool, modep_: nat, t: Command) returns (modep: nat, over: bool)
      requires letter == 'l' || letter == 'k'
      modifies `limit, `key
      ensures Reading(Value(), on, modep, over) == LimitOrKey(Reading(old(Value()), on, modep_, false), letter, t)
    {
      modep, over := modep_, false;
      var text := "";
      if on {
        if !t.hasParams {
          return modep, true;
        }
        text := t.param(modep);
        modep := modep + 1;
        if |text| < 1 {
          return modep, true;
        }
      }
      if letter == 'l' {
        var len := 0;
        if on {
          len := t.atoi(text);
          if len < 1 {
            return modep, true;
          }
        }
        limit := len;
      } else if on {
        key := text;
      } else {
        key := "";
      }
    }

    /** An owner counts as an op and an op as a halfop. */
    method SettleInfo(info: nat, ghost setter: Actor)
      requires info == UserInfo(userList, setter.user)
      modifies `userList
      ensures Value() == Settle(old(Value()), setter)
    {
      hide UserInfo;
      if info < |userList| {
        var r := userList[info].rank;
        if r.owner {
          r := r.(op := true);
        }
        if r.op {
          r := r.(halfop := true);
        }
        userList := userList[info := userList[info].(rank := r)];
      }
    }

    method SetModes(setter: Actor, t: Command)
      modifies this
      ensures Value() == Channels.SetModes(old(Value()), setter, t)
    {
      hide UserInfo, Letter, Settle, Settled, RankOf;
      ghost var c := Value();
      var info := GetUserInfo(setter.user);
      SettleInfo(info, setter);
      ReadFrame(c, setter, 0, t);
      SameUserInfo(c, Value(), setter.user);
      var on, modep: nat, i: nat, over := true, 0, 0, false;
      while i < |t.letters| && !over
        invariant i <= |t.letters| && info == UserInfo(userList, setter.user)
        invariant Reading(Value(), on, modep, over) == Read(Start(c, setter), setter, i, t)
      {
        on, modep, over := OneLetter(setter, info, t.letters[i], on, modep, t);
        i := i + 1;
        ReadFrame(c, setter, i, t);
        SameUserInfo(c, Value(), setter.user);
      }
      Stopped(Start(c, setter), setter, i, |t.letters|, t);
    }

    method UserOn(user: User) returns (on: bool)
      ensures on == On(Value(), user)
    {
      var k := GetUserInfo(user);
      on := k < |userList|;
    }

    /** How many are on the channel, or how many of them that are not invisible. */
    method GetNumUsers(showinvisible: bool) returns (num: nat)
      ensures num == if showinvisible then |userList| else Visible(userList)
    {
      num := 0;
      var k := 0;
      while k < |userList|
        invariant k <= |userList|
        invariant if showinvisible then num == k else num + Visible(userList[k..]) == Visible(userList)
      {
        assert userList[k..][1..] == userList[k + 1..];
        if !(userList[k].invisible && !showinvisible) {
          num := num + 1;
        }
        k := k + 1;
      }
    }

    /** addUser without its announcements. */
    method AddUser(user: Member)
      modifies `userList
      ensures userList == old(userList) + [user]
    {
      userList := userList + [user];
    }

    /** removeUser without its announcements; i is the channel's place on the server's list. */
    method RemoveUser(server: Server, user: User, ghost i: nat)
      requires server.Valid() && i < |server.chanList| && server.chanList[i] == this
      modifies `userList, server`chanList
      ensures server.Valid() && server.World() == Remove(old(server.World()), i, user)
      ensures forall k :: 0 <= k < |server.chanList| ==> server.chanList[k] in old(server.chanList)
    {
      hide Remove, UserInfo, RemoveOne, On, UserTakenOff, Visible;
      ghost var w := server.World();
      TakeOff(user);
      ghost var v := server.World();
      assert v == w[i := UserTakenOff(w[i], user)];
      RemoveBySteps(w, v, i, user);
      CloseIfEmpty(server, i);
    }

    /** Its last statement: the channel goes, if nobody is left on it and it may. */
    method CloseIfEmpty(server: Server, ghost i: nat)
      requires server.Valid() && i < |server.chanList| && server.chanList[i] == this
      modifies server`chanList
      ensures server.Valid() && forall k :: 0 <= k < |server.chanList| ==> server.chanList[k] in old(server.chanList)
      ensures var v := old(server.World());
        server.World() == if |v[i].members| < 1 && !v[i].stayopen then v[..i] + v[i + 1..] else v
    {
      hide Visible;
      var n := GetNumUsers(true);
      if n < 1 && !stayopen {
        server.DeleteChannel(this, i);
      }
    }

    /** The loop of removeUser: the first entry of the user is erased. */
    method TakeOff(user: User)
      modifies `userList
      ensures Value() == UserTakenOff(old(Value()), user)
    {
      var it: nat := 0;
      while it < |userList|
        invariant it <= |userList| && userList == old(userList) && forall j :: 0 <= j < it ==> userList[j].user != user
      {
        if userList[it].user == user {
          break;
        }
        it := it + 1;
      }
      assert it == UserInfo(userList, user);
      hide UserInfo;
      if it < |userList| {
        userList := userList[..it] + userList[it + 1..];
      }
    }
  }

  class Server {
    var chanList: seq<Channel>

    ghost predicate Valid()
      reads this
    {
      forall i, j :: 0 <= i < j < |chanList| ==> chanList[i] != chanList[j]
    }

    ghost function World(): (w: seq<Chan>)
      reads this, chanList
      ensures |w| == |chanList| && forall i :: 0 <= i < |chanList| ==> w[i] == chanList[i].Value()
    {
      seq(|chanList|, i requires 0 <= i < |chanList| reads this, chanList => chanList[i].Value())
    }

    constructor ()
      ensures Valid() && World() == []
    {
      chanList := [];
    }

    method FindChan(name: string) returns (chan: Channel?, ghost i: nat)
      ensures i == Channels.FindChan(World(), name)
      ensures if i == |chanList| then chan == null else chan == chanList[i]
    {
      var k := 0;
      while k < |chanList|
        invariant k <= |chanList| && forall j :: 0 <= j < k ==> Fold(chanList[j].name) != Fold(name)
      {
        if Fold(chanList[k].name) == Fold(name) {
          return chanList[k], k;
        }
        k := k + 1;
      }
      return null, k;
    }

    method DeleteChannel(client: Channel, ghost i: nat)
      requires Valid() && i < |chanList| && chanList[i] == client
      modifies `chanList
      ensures Valid() && chanList == old(chanList[..i] + chanList[i + 1..])
      ensures World() == old(World())[..i] + old(World())[i + 1..]
    {
      ghost var w := World();
      var k: nat := 0;
      ghost var gone := false;
      while k < |chanList|
        invariant if gone then k <= |chanList| && chanList == old(chanList[..i] + chanList[i + 1..]) else k <= i && chanList == old(chanList)
        decreases |chanList| - k
      {
        if chanList[k] == client {
          chanList := chanList[..k] + chanList[k + 1..];
          gone := true;
        } else {
          k := k + 1;
        }
      }
      assert World() == w[..i] + w[i + 1..];
    }

    /** After a removal the search starts again from the front. */
    method RemoveFromAllChans(user: User)
      requires Valid()
      modifies this, chanList
      ensures Valid() && World() == Leave(old(World()), user)
    {
      hide Leave, Remove, On, Size;
      ghost var w := World();
      var k: nat := 0;
      while k < |chanList|
        invariant Valid() && k <= |chanList| && (forall i :: 0 <= i < |chanList| ==> chanList[i] in old(chanList))
        invariant forall i :: 0 <= i < k ==> !On(World()[i], user)
        invariant Leave(World(), user) == Leave(w, user)
        decreases Size(World()), |chanList| - k
      {
        ghost var v := World();
        var on := chanList[k].UserOn(user);
        if on {
          RemoveLeaves(v, k, user);
          RemoveShrinks(v, k, user);
          chanList[k].RemoveUser(this, user, k);
          k := 0;
        } else {
          k := k + 1;
        }
      }
      LeaveAbsent(World(), user);
    }

    static method OnQueue(who: User, queue: seq<User>) returns (found: bool)
      ensures found <==> who in queue
    {
      var k := 0;
      while k < |queue|
        invariant k <= |queue| && who !in queue[..k]
      {
        if queue[k] == who {
          return true;
        }
        k := k + 1;
      }
      return false;
    }

    /** Whom a message of the source is sent to: everybody who may see the source on some
        channel, once. */
    method SendOnceAllChan(source: User, sendtosource: bool, sees: set<User>) returns (queue: seq<User>)
      ensures Distinct(queue)
      ensures forall v :: v in queue <==> Hears(World(), source, v, sees) && (sendtosource || v != source)
    {
      hide On, HearsAmong, HearsIn, Distinct;
      queue := [];
      assert Distinct(queue) by {
        NoneDistinct();
      }
      ghost var w := World();
      forall v ensures !HearsAmong(w, 0, source, v, sees) {
        HearsNobody(w, source, v, sees);
      }
      var k := 0;
      while k < |chanList|
        invariant k <= |chanList| && Distinct(queue) && World() == w
        invariant forall v :: v in queue <==> HearsAmong(w, k, source, v, sees) && (sendtosource || v != source)
      {
        ghost var was := queue;
        queue := QueueChan(chanList[k], source, sendtosource, sees, queue);
        forall v ensures v in queue <==> HearsAmong(w, k + 1, source, v, sees) && (sendtosource || v != source) {
          HearsOneMore(w, k, source, v, sees);
        }
        k := k + 1;
      }
    }

    /** One channel's part of the queue. */
    static method QueueChan(chan: Channel, source: User, sendtosource: bool, sees: set<User>, queue_: seq<User>) returns (queue: seq<User>)
      requires Distinct(queue_)
      ensures Distinct(queue)
      ensures forall v ::
                v in queue <==>
                v in queue_ ||
                (HearsIn(chan.Value(), |chan.userList|, source, v, sees) && (sendtosource || v != source))
    {
      hide On, HearsIn, UserInfo, Distinct;
      queue := queue_;
      var n := chan.GetUserInfo(source);
      ghost var c := chan.Value();
      forall v ensures !HearsIn(c, 0, source, v, sees) && (n == |c.members| ==> !HearsIn(c, |c.members|, source, v, sees)) {
        HearsNobodyOn(c, source, v, sees);
      }
      if n == |chan.userList| {
        return;
      }
      var currentUser := chan.userList[n];
      var it := 0;
      while it < |chan.userList|
        invariant it <= |chan.userList| && Distinct(queue) && chan.Value() == c
        invariant forall v :: v in queue <==> v in queue_ || (HearsIn(c, it, source, v, sees) && (sendtosource || v != source))
      {
        var client := chan.userList[it].user;
        ghost var was := queue;
        if sendtosource || client != source {
          if !currentUser.invisible || client in sees {
            queue := Enqueue(client, queue);
          }
        }
        forall v ensures v in queue <==> v in queue_ || (HearsIn(c, it + 1, source, v, sees) && (sendtosource || v != source)) {
          assert v in was <==> v in queue_ || (HearsIn(c, it, source, v, sees) && (sendtosource || v != source));
          OnIsFound(c, source);
          HearsOneMoreIn(c, it, source, v, sees);
        }
        it := it + 1;
      }
    }

    /** Puts a user on the queue who is not there yet. */
    static method Enqueue(who: User, queue_: seq<User>) returns (queue: seq<User>)
      requires Distinct(queue_)
      ensures Distinct(queue) && forall v :: v in queue <==> v in queue_ || v == who
    {
      queue := queue_;
      var found := OnQueue(who, queue);
      if !found {
        queue := queue + [who];
      }
    }

    /** quitUser: tells everybody who may know, then takes the user off every channel. The
        result is whom the QUIT is sent to. */
    method QuitUser(user: User, sees: set<User>) returns (told: seq<User>)
      requires Valid()
      modifies this, chanList
      ensures Valid() && World() == Leave(old(World()), user)
      ensures Distinct(told) && forall v :: v in told <==> Hears(old(World()), user, v, sees) && v != user
    {
      hide Leave, Hears, Distinct;
      told := SendOnceAllChan(user, false, sees);
      RemoveFromAllChans(user);
    }

    /** On how many channels a user is. */
    method NumberOfChans(user: User) returns (n: nat)
      ensures n == NumChans(World(), user)
    {
      hide On;
      ghost var w := World();
      n := 0;
      var k := 0;
      while k < |chanList|
        invariant k <= |chanList| && World() == w && n + NumChans(w[k..], user) == NumChans(w, user)
      {
        assert w[k..][1..] == w[k + 1..];
        var on := chanList[k].UserOn(user);
        if on {
          n := n + 1;
        }
        k := k + 1;
      }
    }

    method PartChan(name: string, user: User) returns (parted: bool)
      requires Valid()
      modifies this, chanList
      ensures Valid() && (World(), parted) == Part(old(World()), name, user)
    {
      hide Remove, On;
      var chan, i := FindChan(name);
      if chan == null {
        return false;
      }
      var on := chan.UserOn(user);
      if !on {
        return false;
      }
      chan.RemoveUser(this, user, i);
      return true;
    }

    /** The tests for invitation, limit and key. */
    static method Admitted(chan: Channel, userInfo: Member, key: Option<string>) returns (ok: bool)
      ensures ok == Admits(chan.Value(), userInfo, key)
    {
      hide Visible;
      var special := userInfo.invited || userInfo.rank.op || userInfo.rank.owner;
      if chan.inviteonly && !special {
        return false;
      }
      if chan.limit != 0 {
        var num := chan.GetNumUsers(false);
        if num >= chan.limit && (!special || chan.opsObeyLimit) {
          return false;
        }
      }
      if chan.key != "" && (key.None? || key.value != chan.key) && !special {
        return false;
      }
      return true;
    }

    /** All the tests of joinChan: whether the user is refused, and is on the channel already. */
    method Tests(chan: Channel, userInfo: Member, key: Option<string>, override: bool) returns (refused: bool, on: bool)
      requires chan in chanList
      ensures refused == (!Admits(chan.Value(), userInfo, key) ||
                          (NumChans(World(), userInfo.user) > MAX_CHANS_PER_USER && !override))
      ensures on == On(chan.Value(), userInfo.user)
    {
      hide Admits, On, NumChans;
      var ok := Admitted(chan, userInfo, key);
      var n := NumberOfChans(userInfo.user);
      on := chan.UserOn(userInfo.user);
      refused := !ok || (n > MAX_CHANS_PER_USER && !override);
    }

    method AddUserTo(chan: Channel, user: Member, ghost i: nat)
      requires Valid() && i < |chanList| && chanList[i] == chan
      modifies chan`userList
      ensures World() == old(World())[i := old(World())[i].(members := old(World())[i].members + [user])]
    {
      ghost var u := World();
      chan.AddUser(user);
      assert World() == u[i := chan.Value()];
    }

    /** The channel of a name, made if need be. */
    method FindOrCreateChan(name: string) returns (chan: Channel, createdChan: bool, ghost i: nat)
      requires Valid()
      modifies `chanList
      ensures Valid() && i == Channels.FindChan(old(World()), name) && createdChan == (i == |old(chanList)|)
      ensures chanList == old(chanList) + (if createdChan then [chan] else []) && chanList[i] == chan
      ensures World() == Opened(old(World()), name)
      ensures createdChan ==> fresh(chan)
    {
      ghost var w := World();
      var found: Channel?;
      found, i := FindChan(name);
      createdChan := found == null;
      if found != null {
        chan := found;
      } else {
        chan := new Channel(name);
        chanList := chanList + [chan];
        assert World() == w + [NewChan(name)];
      }
    }

    /** joinChan from the moment that the channel is looked up. A channel made for the
        occasion is deleted again if its maker is not let in. */
    method JoinChan(name: string, userInfo: Member, key: Option<string>, override: bool) returns (joined: bool)
      requires Valid()
      modifies this, chanList
      ensures Valid() && (World(), joined) == Join(old(World()), name, userInfo, key, override)
    {
      hide Admits, On, NumChans, Opened, Join;
      ghost var w := World();
      ghost var u := Opened(w, name);
      var chan, createdChan, i := FindOrCreateChan(name);
      JoinBySteps(w, name, userInfo, key, override);
      var refused, on := Tests(chan, userInfo, key, override);
      assert World() == u;
      if refused {
        if createdChan {
          DeleteChannel(chan, i);
        }
        return false;
      }
      if on {
        return false;
      }
      AddUserTo(chan, userInfo, i);
      return true;
    }
  }

  ghost function Opened(w: seq<Chan>, name: string): (u: seq<Chan>)
    ensures Channels.FindChan(w, name) < |u|
  {
    if Channels.FindChan(w, name) < |w| then w else w + [NewChan(name)]
  }

  lemma JoinBySteps(w: seq<Chan>, name: string, m: Member, key: Option<string>, override: bool)
    ensures var i, u := Channels.FindChan(w, name), Opened(w, name);
      (i < |w| ==> u == w) && (i == |w| ==> u[..i] + u[i + 1..] == w && !On(u[i], m.user)) &&
      Join(w, name, m, key, override) ==
        if !Admits(u[i], m, key) || (NumChans(u, m.user) > MAX_CHANS_PER_USER && !override) || On(u[i], m.user) then (w, false)
        else (u[i := u[i].(members := u[i].members + [m])], true)
  {
    hide Admits, NumChans;
    var i, u := Channels.FindChan(w, name), Opened(w, name);
    if i == |w| {
      NumChansNew(w, name, m.user);
      assert u[i := u[i].(members := u[i].members + [m])] == w + [u[i].(members := u[i].members + [m])];
    }
  }

  lemma NumChansNew(w: seq<Chan>, name: string, u: User)
    ensures NumChans(w + [NewChan(name)], u) == NumChans(w, u) && !On(NewChan(name), u)
  {
    NumChansConcat(w, [NewChan(name)], u);
  }

  lemma {:induction false} Stopped(r: Reading, u: Actor, i: nat, n: nat, t: Command)
    requires i <= n <= |t.letters| && (i < n ==> Read(r, u, i, t).over)
    ensures Read(r, u, n, t) == Read(r, u, i, t)
    decreases n
  {
    hide Letter;
    if i < n {
      Stopped(r, u, i, n - 1, t);
    }
  }

  function UserTakenOff(c: Chan, u: User): Chan {
    if On(c, u) then RemoveOne(c, u) else c
  }

  ghost predicate Distinct(queue: seq<User>) {
    forall i, j :: 0 <= i < j < |queue| ==> queue[i] != queue[j]
  }

  lemma NoneDistinct()
    ensures Distinct([])
  {
  }

  lemma HearsNobody(w: seq<Chan>, source: User, v: User, sees: set<User>)
    ensures !HearsAmong(w, 0, source, v, sees)
  {
  }

  lemma HearsNobodyOn(c: Chan, source: User, v: User, sees: set<User>)
    ensures !HearsIn(c, 0, source, v, sees) && (UserInfo(c.members, source) == |c.members| ==> !HearsIn(c, |c.members|, source, v, sees))
  {
    hide UserInfo;
  }

  lemma OnIsFound(c: Chan, u: User)
    ensures On(c, u) <==> UserInfo(c.members, u) < |c.members|
  {
    hide UserInfo;
  }

  lemma RemoveBySteps(w: seq<Chan>, v: seq<Chan>, i: nat, u: User)
    requires i < |w| && v == w[i := UserTakenOff(w[i], u)]
    ensures Remove(w, i, u) == if |v[i].members| < 1 && !v[i].stayopen then v[..i] + v[i + 1..] else v
  {
    hide RemoveOne, On;
    assert v[..i] == w[..i] && v[i + 1..] == w[i + 1..];
  }

  function Size(w: seq<Chan>): nat {
    if w == [] then 0 else |w[0].members| + Size(w[1..])
  }

  lemma {:induction false} SizeConcat(a: seq<Chan>, b: seq<Chan>)
    ensures Size(a + b) == Size(a) + Size(b)
    decreases |a|
  {
    if a == [] {
      assert a + b == b;
    } else {
      assert (a + b)[1..] == a[1..] + b;
      SizeConcat(a[1..], b);
    }
  }

  lemma RemoveShrinks(w: seq<Chan>, i: nat, u: User)
    requires i < |w| && On(w[i], u)
    ensures Size(Remove(w, i, u)) < Size(w)
  {
    hide On, Size, RemoveOne;
    var c, d, b := w[i], RemoveOne(w[i], u), w[i + 1..];
    RemoveOneSize(c, u);
    assert w == w[..i] + ([c] + b) && w[i := d] == w[..i] + ([d] + b);
    SizeConcat(w[..i], [c] + b);
    SizeConcat(w[..i], [d] + b);
    SizeConcat(w[..i], b);
    SizeCons(c, b);
    SizeCons(d, b);
  }

  lemma RemoveOneSize(c: Chan, u: User)
    requires On(c, u)
    ensures |RemoveOne(c, u).members| == |c.members| - 1
  {
    hide UserInfo;
  }

  lemma SizeCons(c: Chan, b: seq<Chan>)
    ensures Size([c] + b) == |c.members| + Size(b)
  {
    assert ([c] + b)[1..] == b;
  }
}
