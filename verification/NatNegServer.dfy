/** The NAT negotiation server as objects: records that are updated in place, on a list
    that grows and is swept. Each method takes the world of its server one step further. */
module NatNegServer {
  import opened Bits
  import opened NatNeg

  ghost function Values(list: seq<Client>): (values: seq<Record>)
    reads list
    ensures |values| == |list| && forall i :: 0 <= i < |list| ==> values[i] == list[i].Value()
  {
    seq(|list|, i requires 0 <= i < |list| reads list => list[i].Value())
  }

  class Client {
    ghost const id: nat
    const address: Address
    const instance: int
    const connecttime: int
    var lastPacket: int
    var sentconnecttime: int
    var cookie: int
    var cindex: int
    var connected: bool
    var gotInit: bool
    var gotConnectAck: bool

    ghost function Value(): Record
      reads this
    {
      Record(id, address, instance, connecttime, lastPacket, sentconnecttime, cookie, cindex, connected, gotInit, gotConnectAck)
    }

    /** The time of the last CONNECT keeps whatever was in memory. */
    constructor (ghost id: nat, peer: Address, instance: int, now: int, garbage: int)
      ensures Value() == Record(id, peer, instance, now, now, garbage, 0, 0, false, false, false)
    {
      this.id := id;
      connecttime := now;
      address := peer;
      lastPacket := now;
      sentconnecttime := garbage;
      cookie := 0;
      this.instance := instance;
      cindex := 0;
      connected := false;
      gotInit := false;
      gotConnectAck := false;
    }

    method HandleIncoming(server: Server, p: Packet, now: int, ghost i: nat)
      requires server.Holds(this, i)
      modifies server`sent, server.list
      ensures server.World() == Incoming(old(server.World()), i, p, now)
    {
      hide Incoming, NatNeg.TrySendConnect;
      ghost var w := server.World();
      IncomingIsNoted(w, i, p, now);
      if !p.magic {
        return;
      }
      lastPacket := now;
      if p.packettype == NN_INIT {
        assert Noted(server.World(), i, p, now) == Noted(w, i, p, now) by {
          assert Noted(server.World(), i, p, now).list == Noted(w, i, p, now).list;
        }
        HandleInitPacket(server, p, now, i);
        return;
      } else if p.packettype == NN_ADDRESS_CHECK {
        HandleAddressCheck(server);
      } else if p.packettype == NN_NATIFY_REQUEST {
        SendERTReply(server, p.porttype, p.socket);
      } else if p.packettype == NN_CONNECT_ACK {
        gotConnectAck := true;
      } else if p.packettype == NN_REPORT {
        HandleReport(server);
      }
      assert server.World().sent == Noted(w, i, p, now).sent;
      assert server.World().list == Noted(w, i, p, now).list;
    }

    method HandleReport(server: Server)
      modifies server`sent
      ensures server.sent == old(server.sent) + [Reply(id, address, NN_REPORT_ACK)]
    {
      server.sent := server.sent + [Reply(id, address, NN_REPORT_ACK)];
    }

    method HandleAddressCheck(server: Server)
      modifies server`sent
      ensures server.sent == old(server.sent) + [Reply(id, address, NN_ADDRESS_REPLY)]
    {
      server.sent := server.sent + [Reply(id, address, NN_ADDRESS_REPLY)];
    }

    /** Through the socket the packet came by, or through another one, if that can be had. */
    method SendERTReply(server: Server, porttype: byte, socket: bool)
      modifies server`sent
      ensures server.sent == old(server.sent) +
        if porttype == NN_PT_NN1 || socket then [Reply(id, address, NN_ERTTEST)] else []
    {
      if porttype == NN_PT_NN1 {
        server.sent := server.sent + [Reply(id, address, NN_ERTTEST)];
        return;
      }
      if !socket {
        return;
      }
      server.sent := server.sent + [Reply(id, address, NN_ERTTEST)];
    }

    method HandleInitPacket(server: Server, p: Packet, now: int, ghost i: nat)
      requires server.Holds(this, i) && p.magic && p.packettype == NN_INIT && lastPacket == now
      modifies server`sent, server.list
      ensures server.World() == NatNeg.TrySendConnect(Noted(old(server.World()), i, p, now), i, true, now)
    {
      hide NatNeg.TrySendConnect;
      ghost var w := server.World();
      cookie := p.cookie;
      cindex := Char(p.clientindex);
      server.sent := server.sent + [Reply(id, address, NN_INITACK)];
      gotInit := true;
      assert server.World() == Noted(w, i, p, now) by {
        assert server.World().list == Noted(w, i, p, now).list;
      }
      TrySendConnect(server, true, now, i);
    }

    method TrySendConnect(server: Server, sendToOther: bool, now: int, ghost i: nat)
      requires server.Holds(this, i)
      modifies server`sent, server.list
      ensures server.World() == NatNeg.TrySendConnect(old(server.World()), i, sendToOther, now)
    {
      hide SendConnect, IsPartner;
      if !gotConnectAck {
        var c, j := server.FindUserByCookieIndex(cookie, instance, if cindex == 1 then 0 else 1);
        if c != null && c != this {
          SendConnectPacket(server, c, sendToOther, now, i, j);
        }
      }
    }

    method SendConnectPacket(server: Server, user: Client, sendToOther: bool, now: int, ghost i: nat, ghost j: nat)
      requires server.Holds(this, i) && server.Holds(user, j) && i != j
      modifies server`sent, this, user
      ensures server.World() == SendConnect(old(server.World()), i, j, sendToOther, now)
    {
      ghost var w := server.World();
      if instance != 1 || gotConnectAck || user.gotConnectAck || !gotInit {
        return;
      }
      user.connected := true;
      connected := true;
      server.sent := server.sent + [Connect(id, address, user.id, user.address, cookie)];
      sentconnecttime := now;
      if sendToOther {
        user.sentconnecttime := now;
        server.sent := server.sent + [Connect(user.id, user.address, id, address, cookie)];
      }
      assert server.World().list == SendConnect(w, i, j, sendToOther, now).list;
    }

    method SendDeadBeatNotice(server: Server, ghost i: nat)
      requires server.Holds(this, i)
      modifies server`sent, this
      ensures server.World() ==
        var w := old(server.World());
        if instance != 1 then w
        else
          w.(list := w.list[i := w.list[i].(connected := true)],
          sent := w.sent + [Deadbeat(id, address, w.list[i].cookie)])
    {
      ghost var w := server.World();
      if instance != 1 {
        return;
      }
      connected := true;
      server.sent := server.sent + [Deadbeat(id, address, cookie)];
      assert server.World().list == w.list[i := w.list[i].(connected := true)];
    }
  }

  class Server {
    var list: seq<Client>
    ghost var nextId: nat
    ghost var sent: seq<Message>

    /** No object is on the list twice. */
    ghost predicate Valid()
      reads this
    {
      forall i, j :: 0 <= i < j < |list| ==> list[i] != list[j]
    }

    ghost predicate Holds(c: Client, i: nat)
      reads this
    {
      Valid() && i < |list| && list[i] == c
    }

    ghost function World(): World
      reads this, list
    {
      NatNeg.World.World(Values(list), nextId, sent)
    }

    constructor ()
      ensures Valid() && World() == START
    {
      list := [];
      nextId := 0;
      sent := [];
    }

    /** find_user without regard to the instance. */
    method FindUser(peer: Address) returns (user: Client?, ghost i: nat)
      ensures i == NatNeg.FindUser(World().list, peer)
      ensures if i == |list| then user == null else user == list[i]
      ensures if user == null then forall k :: 0 <= k < |list| ==> list[k].address != peer
              else user in list && user.address == peer
    {
      var k := 0;
      while k < |list|
        invariant k <= |list| && forall j :: 0 <= j < k ==> list[j].address != peer
      {
        if list[k].address == peer {
          return list[k], k;
        }
        k := k + 1;
      }
      return null, k;
    }

    method FindUserByCookieIndex(cookie: int, instance: int, index: int) returns (user: Client?, ghost i: nat)
      ensures i == FindPartner(World().list, cookie, instance, index)
      ensures if i == |list| then user == null else user == list[i]
      ensures if user == null then forall k :: 0 <= k < |list| ==> !IsPartner(list[k].Value(), cookie, instance, index)
              else user in list && IsPartner(user.Value(), cookie, instance, index)
    {
      var k := 0;
      while k < |list|
        invariant k <= |list| && forall j :: 0 <= j < k ==> !IsPartner(World().list[j], cookie, instance, index)
      {
        var c := list[k];
        if c.cookie == cookie && c.instance == instance && c.cindex == index {
          return c, k;
        }
        k := k + 1;
      }
      return null, k;
    }

    /** Erases the client wherever it is on the list, which is at i. */
    method DeleteClient(client: Client, ghost i: nat)
      requires Holds(client, i)
      modifies `list
      ensures Valid() && list == old(list[..i] + list[i + 1..])
    {
      var k: nat := 0;
      ghost var gone := false;
      while k < |list|
        invariant if gone then k <= |list| && list == old(list[..i] + list[i + 1..]) else k <= i && list == old(list)
        decreases |list| - k
      {
        if list[k] == client {
          list := list[..k] + list[k + 1..];
          gone := true;
        } else {
          k := k + 1;
        }
      }
    }

    /** The record of a peer, made if need be. */
    method FindOrCreate(peer: Address, instance: int, now: int, garbage: int) returns (user: Client, ghost i: nat)
      requires Valid()
      modifies `list, `nextId
      ensures i == NatNeg.FindUser(old(World()).list, peer) && Holds(user, i)
      ensures World() == if i == |old(World()).list| then Enroll(old(World()), peer, instance, now, garbage) else old(World())
      ensures forall k :: 0 <= k < |list| ==> list[k] in old(list) || fresh(list[k])
    {
      hide Enroll;
      ghost var w := World();
      var found: Client?;
      found, i := FindUser(peer);
      if found != null {
        user := found;
      } else {
        user := new Client(nextId, peer, instance, now, garbage);
        list := list + [user];
        nextId := nextId + 1;
        assert World().list == w.list + [user.Value()];
        EnrollIs(w, peer, instance, now, garbage);
      }
    }

    method HandleConnection(peer: Address, instance: int, p: Packet, now: int, garbage: int)
      requires Valid()
      modifies this, list
      ensures Valid() && World() == Receive(old(World()), peer, instance, p, now, garbage)
    {
      hide Incoming, Enroll, Receive;
      ghost var w := World();
      var user, i := FindOrCreate(peer, instance, now, garbage);
      ReceiveIs(w, peer, instance, p, now, garbage);
      user.HandleIncoming(this, p, now, i);
    }

    /** The first loop: after a deletion it starts again from the front. */
    method DeleteExpired(now: int)
      requires Valid()
      modifies `list
      ensures Valid() && (forall c :: c in list ==> c in old(list))
      ensures World() == old(World().(list := Unexpired(World().list, now)))
    {
      hide Unexpired;
      ghost var was := Values(list);
      var k: nat := 0;
      while k < |list|
        invariant Valid() && k <= |list| && (forall c :: c in list ==> c in old(list))
        invariant forall j :: 0 <= j < k ==> !Expired(Values(list)[j], now)
        invariant Unexpired(Values(list), now) == Unexpired(was, now)
        decreases |list|, |list| - k
      {
        var user := list[k];
        if now - PING_TIME > user.lastPacket {
          ghost var v := Values(list);
          DeleteClient(user, k);
          assert Values(list) == v[..k] + v[k + 1..];
          WithoutExpired(v, k, now);
          k := 0;
        } else {
          k := k + 1;
        }
      }
      AllUnexpired(Values(list), now);
    }

    /** The second loop: CONNECTs that were not acknowledged are sent again. */
    method SendAgain(now: int)
      requires Valid()
      modifies `sent, list
      ensures World() == ResendFrom(old(World()), 0, now)
    {
      hide NatNeg.TrySendConnect;
      ghost var w := World();
      var k: nat := 0;
      while k < |list|
        invariant k <= |list| && ResendFrom(World(), k, now) == ResendFrom(w, 0, now)
      {
        var user := list[k];
        ghost var v := World();
        if user.connected && !user.gotConnectAck && now - RETRY_TIME > user.sentconnecttime {
          user.TrySendConnect(this, false, now, k);
        }
        assert World() == Resend(v, k, now);
        k := k + 1;
      }
    }

    /** The third loop: whoever was never connected is told so. */
    method GiveUpWaiting(now: int)
      requires Valid()
      modifies `sent, list
      ensures World() == GiveUpFrom(old(World()), 0, now)
    {
      ghost var w := World();
      var k: nat := 0;
      while k < |list|
        invariant k <= |list| && GiveUpFrom(World(), k, now) == GiveUpFrom(w, 0, now)
      {
        var user := list[k];
        ghost var v := World();
        if now - DEADBEAT_TIME > user.connecttime && !user.connected {
          user.SendDeadBeatNotice(this, k);
        }
        assert World() == GiveUp(v, k, now);
        k := k + 1;
      }
    }

    method CheckTimeouts(now: int)
      requires Valid()
      modifies this, list
      ensures Valid() && World() == NatNeg.CheckTimeouts(old(World()), now)
    {
      hide Unexpired, ResendFrom, GiveUpFrom;
      DeleteExpired(now);
      assert forall i :: 0 <= i < |list| ==> list[i] in old(list);
      SendAgain(now);
      GiveUpWaiting(now);
    }
  }

  lemma ReceiveIs(w: World, peer: Address, instance: int, p: Packet, now: int, garbage: int)
    ensures var i := FindUser(w.list, peer);
      |Enroll(w, peer, instance, now, garbage).list| == |w.list| + 1 &&
      Receive(w, peer, instance, p, now, garbage) ==
        Incoming(if i == |w.list| then Enroll(w, peer, instance, now, garbage) else w, i, p, now)
  {
    hide Incoming;
  }

  lemma EnrollIs(w: World, peer: Address, instance: int, now: int, garbage: int)
    ensures Enroll(w, peer, instance, now, garbage) ==
            NatNeg.World.World(w.list + [Record(w.nextId, peer, instance, now, now, garbage, 0, 0, false, false, false)], w.nextId + 1, w.sent)
  {
  }

  lemma WithoutExpired(list: seq<Record>, k: nat, now: int)
    requires k < |list| && Expired(list[k], now)
    ensures Unexpired(list[..k] + list[k + 1..], now) == Unexpired(list, now)
  {
    UnexpiredConcat(list[..k], list[k + 1..], now);
    UnexpiredConcat(list[..k], list[k..], now);
    assert list == list[..k] + list[k..];
  }

  lemma {:induction false} AllUnexpired(list: seq<Record>, now: int)
    requires forall j :: 0 <= j < |list| ==> !Expired(list[j], now)
    ensures Unexpired(list, now) == list
    decreases |list|
  {
    if list != [] {
      AllUnexpired(list[1..], now);
    }
  }
}
