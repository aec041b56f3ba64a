/** The list protocol end to end: what the client reads is what the server listed. */
module ListRoundTrip {
  import opened Bits
  import opened Text
  import opened EnctypeX
  import opened ServerList
  import opened ListParser
  import opened ListEncoder
  import opened ListFormat

  /** The first list of a connection. The packets are those of Client.SendServers; they may
      reach the client cut in any other way, and it may call the decoder as often as it
      likes. When everything is there, its buffer behind the header parses to the listed
      addresses in order, and both ends hold the same key. */
  lemma FirstList(lib: Libc, fromip: word, game: Game, queryGame: Game, fieldlist: cstring, servers: seq<Server>,
                  challenge: seq<byte>, cryptchal: seq<byte>, servchal: seq<byte>, packets: seq<seq<byte>>,
                  s0: Stream, arrivals: seq<seq<byte>>)
    requires Consistent(fieldlist) && queryGame.queryport != 0xffff && game.secretkey != []
    requires |challenge| == CHALLENGELEN && |cryptchal| == CRYPTCHAL && |servchal| == SERVCHAL && s0.start == 0
    requires Flatten(packets) == CryptHeader(queryGame.backendflags, cryptchal, servchal) +
      Code(Encrypt, SessionKey(game.secretkey, challenge, servchal), Payload(lib, fromip, queryGame.queryport, fieldlist, servers)).out
    requires Flatten(arrivals) == Flatten(packets)
    ensures var r := Session(game.secretkey, challenge, s0, arrivals);
      r.0.start == CRYPTHEADER && |r.1| >= CRYPTHEADER &&
      Parse(r.1[CRYPTHEADER..]) == Servers(Addresses(lib, servers)) &&
      r.0.key == Code(Encrypt, SessionKey(game.secretkey, challenge, servchal), Payload(lib, fromip, queryGame.queryport, fieldlist, servers)).key
  {
    hide Consistent, CryptHeader, Code, SessionKey, Payload, Session, Parse, Flatten, Addresses;
    StreamDecrypted(game, queryGame, challenge, cryptchal, servchal,
                    Payload(lib, fromip, queryGame.queryport, fieldlist, servers), s0, arrivals);
    PayloadRead(lib, fromip, queryGame.queryport, fieldlist, servers);
  }

  /** Whatever the server encrypts behind its header, the client has it behind the header of
      its buffer when everything arrived, and the key that the server was left with. */
  lemma StreamDecrypted(game: Game, queryGame: Game, challenge: seq<byte>, cryptchal: seq<byte>, servchal: seq<byte>,
                        plain: seq<byte>, s0: Stream, arrivals: seq<seq<byte>>)
    requires game.secretkey != [] && s0.start == 0
    requires |challenge| == CHALLENGELEN && |cryptchal| == CRYPTCHAL && |servchal| == SERVCHAL
    requires Flatten(arrivals) == CryptHeader(queryGame.backendflags, cryptchal, servchal) +
      Code(Encrypt, SessionKey(game.secretkey, challenge, servchal), plain).out
    ensures var r := Session(game.secretkey, challenge, s0, arrivals);
      r.0.start == CRYPTHEADER && r.1 == CryptHeader(queryGame.backendflags, cryptchal, servchal) + plain &&
      r.1[CRYPTHEADER..] == plain && r.0.key == Code(Encrypt, SessionKey(game.secretkey, challenge, servchal), plain).key
  {
    hide CryptHeader, Code, SessionKey, Session, FrameOf, Flatten;
    var k := SessionKey(game.secretkey, challenge, servchal);
    var head, c := CryptHeader(queryGame.backendflags, cryptchal, servchal), Code(Encrypt, k, plain);
    CryptHeaderFrame(queryGame.backendflags, cryptchal, servchal, c.out);
    Behind(head + c.out, head, c.out);
    CodeInverse(Encrypt, k, plain);
    StreamIsOneShot(game.secretkey, challenge, s0, arrivals);
    Behind(head + plain, head, plain);
  }

  /** A later list of the same connection comes without a header, under the key that both
      ends were left with. */
  lemma LaterList(lib: Libc, fromip: word, queryport: short, fieldlist: cstring, servers: seq<Server>, k: xkey,
                  packets: seq<seq<byte>>, arrivals: seq<seq<byte>>)
    requires Consistent(fieldlist) && queryport != 0xffff
    requires Flatten(packets) == Code(Encrypt, k, Payload(lib, fromip, queryport, fieldlist, servers)).out
    requires Flatten(arrivals) == Flatten(packets)
    ensures var r := CodeChunks(Decrypt, k, arrivals);
      Parse(r.out) == Servers(Addresses(lib, servers)) &&
      r.key == Code(Encrypt, k, Payload(lib, fromip, queryport, fieldlist, servers)).key
  {
    hide Consistent, Code, Payload, Parse, Flatten, Addresses;
    CodeInverse(Encrypt, k, Payload(lib, fromip, queryport, fieldlist, servers));
    ChunksDoNotMatter(Decrypt, k, arrivals);
    PayloadRead(lib, fromip, queryport, fieldlist, servers);
  }

  // ---------- All lists of a connection ----------

  function Payloads(lib: Libc, fromip: word, queryport: short, fieldlist: cstring, lists: seq<seq<Server>>): (p: seq<seq<byte>>)
    ensures |p| == |lists| && forall i :: 0 <= i < |lists| ==> p[i] == Payload(lib, fromip, queryport, fieldlist, lists[i])
  {
    seq(|lists|, i requires 0 <= i < |lists| => Payload(lib, fromip, queryport, fieldlist, lists[i]))
  }

  /** Behind the payloads before it and the header, data holds a list that is read as its
      addresses. */
  ghost predicate ListAt(lib: Libc, data: seq<byte>, payloads: seq<seq<byte>>, i: nat, servers: seq<Server>)
    requires i < |payloads|
  {
    var p := CRYPTHEADER + |Flatten(payloads[..i])|;
    p <= |data| && Parse(data[p..]) == Servers(Addresses(lib, servers))
  }

  /** The server goes on with its key from list to list, the client with its session from
      arrival to arrival, which need not end where lists do. In the end the client's buffer
      is the header and all payloads one behind the other, each is read as its addresses, and
      both ends hold the same key. */
  lemma ManyLists(lib: Libc, fromip: word, game: Game, queryGame: Game, fieldlist: cstring, lists: seq<seq<Server>>,
                  challenge: seq<byte>, cryptchal: seq<byte>, servchal: seq<byte>, s0: Stream, arrivals: seq<seq<byte>>)
    requires Consistent(fieldlist) && queryGame.queryport != 0xffff && game.secretkey != []
    requires |challenge| == CHALLENGELEN && |cryptchal| == CRYPTCHAL && |servchal| == SERVCHAL && s0.start == 0
    requires Flatten(arrivals) == CryptHeader(queryGame.backendflags, cryptchal, servchal) +
      CodeChunks(Encrypt, SessionKey(game.secretkey, challenge, servchal), Payloads(lib, fromip, queryGame.queryport, fieldlist, lists)).out
    ensures var r, payloads := Session(game.secretkey, challenge, s0, arrivals), Payloads(lib, fromip, queryGame.queryport, fieldlist, lists);
      r.0.start == CRYPTHEADER && r.1 == CryptHeader(queryGame.backendflags, cryptchal, servchal) + Flatten(payloads) &&
      r.0.key == CodeChunks(Encrypt, SessionKey(game.secretkey, challenge, servchal), payloads).key &&
      forall i :: 0 <= i < |lists| ==> ListAt(lib, r.1, payloads, i, lists[i])
  {
    hide Consistent, CryptHeader, Code, CodeChunks, SessionKey, Session, Payloads, Payload, Parse, Flatten, Addresses;
    var payloads := Payloads(lib, fromip, queryGame.queryport, fieldlist, lists);
    var all := Flatten(payloads);
    ChunksDoNotMatter(Encrypt, SessionKey(game.secretkey, challenge, servchal), payloads);
    StreamDecrypted(game, queryGame, challenge, cryptchal, servchal, all, s0, arrivals);
    var data := Session(game.secretkey, challenge, s0, arrivals).1;
    forall i | 0 <= i < |lists| ensures ListAt(lib, data, payloads, i, lists[i]) {
      var p := |Flatten(payloads[..i])|;
      FlattenSplit(payloads, i);
      Behind(all, Flatten(payloads[..i]), payloads[i] + Flatten(payloads[i + 1..]));
      assert data[CRYPTHEADER + p..] == data[CRYPTHEADER..][p..];
      PayloadReadBefore(lib, fromip, queryGame.queryport, fieldlist, lists[i], Flatten(payloads[i + 1..]));
    }
  }

  lemma {:induction false} FlattenSplit(chunks: seq<seq<byte>>, i: nat)
    requires i < |chunks|
    ensures Flatten(chunks) == Flatten(chunks[..i]) + (chunks[i] + Flatten(chunks[i + 1..]))
    decreases i
  {
    if i == 0 {
      assert [] + (chunks[0] + Flatten(chunks[1..])) == chunks[0] + Flatten(chunks[1..]);
    } else {
      FlattenSplit(chunks[1..], i - 1);
      assert chunks[1..][..i - 1] == chunks[..i][1..] && chunks[1..][i..] == chunks[i + 1..];
      Associate(chunks[0], Flatten(chunks[..i][1..]), chunks[i] + Flatten(chunks[i + 1..]));
    }
  }

  // ---------- The methods of both ends, one after the other ----------

  /** The network: the stream in pieces of these sizes, as far as they go, and the rest. */
  method Cut(stream: seq<byte>, sizes: seq<nat>) returns (arrivals: seq<seq<byte>>)
    ensures Flatten(arrivals) == stream
  {
    arrivals := [];
    var p := 0;
    for i := 0 to |sizes|
      invariant p <= |stream| && Flatten(arrivals) == stream[..p]
    {
      var end := if p + sizes[i] <= |stream| then p + sizes[i] else |stream|;
      FlattenSnoc(arrivals, stream[p..end]);
      assert stream[..end] == stream[..p] + stream[p..end];
      arrivals := arrivals + [stream[p..end]];
      p := end;
    }
    FlattenSnoc(arrivals, stream[p..]);
    assert stream == stream[..p] + stream[p..];
    arrivals := arrivals + [stream[p..]];
  }

  lemma SessionMore(key: seq<byte>, validate: seq<byte>, s0: Stream, arrivals: seq<seq<byte>>, more: seq<byte>)
    requires key != [] && |validate| >= CHALLENGELEN && s0.start == 0
    ensures var before := Session(key, validate, s0, arrivals);
      Session(key, validate, s0, arrivals + [more]) == StreamStep(key, validate, before.0, before.1 + more)
  {
    hide StreamStep;
    assert (arrivals + [more])[..|arrivals|] == arrivals;
  }

  /** The client: append what arrives, and decode. */
  method Receive(client: EnctypexData, key: seq<byte>, validate: seq<byte>, arrivals: seq<seq<byte>>)
    returns (data: array<byte>, datalen: nat)
    requires client.encxkey.Length == KEYLEN && key != [] && |validate| >= CHALLENGELEN && client.start == 0
    modifies client, client.encxkey
    ensures fresh(data) && datalen <= data.Length
    ensures (client.State(), data[..datalen]) == Session(key, validate, old(client.State()), arrivals)
  {
    hide StreamStep;
    ghost var s0 := client.State();
    data := new byte[0];
    datalen := 0;
    assert arrivals[..0] == [];
    for i := 0 to |arrivals|
      invariant fresh(data) && datalen <= data.Length && data != client.encxkey
      invariant (client.State(), data[..datalen]) == Session(key, validate, s0, arrivals[..i])
    {
      ghost var before := data[..datalen];
      data, datalen := Append(data, datalen, arrivals[i]);
      SessionMore(key, validate, s0, arrivals[..i], arrivals[i]);
      assert arrivals[..i] + [arrivals[i]] == arrivals[..i + 1];
      var p := client.Decode(key, validate, data, datalen);
    }
    assert arrivals[..|arrivals|] == arrivals;
  }

  /** A larger buffer. */
  method Append(data: array<byte>, datalen: nat, more: seq<byte>) returns (larger: array<byte>, len: nat)
    requires datalen <= data.Length
    ensures fresh(larger) && len == larger.Length && larger[..len] == data[..datalen] + more
  {
    ghost var all := data[..datalen] + more;
    len := datalen + |more|;
    larger := new byte[len](i requires 0 <= i < len reads data => if i < datalen then data[i] else more[i - datalen]);
    assert larger[..len] == all;
  }

  /** The converter behind the start of the payload. */
  method Convert(data: array<byte>, start: nat, datalen: nat) returns (out: array<byte>, r: int)
    requires start <= datalen <= data.Length && Parse(data[..datalen][start..]).Servers?
    ensures var p := Parse(data[..datalen][start..]);
      fresh(out) && 0 <= r <= out.Length && out[..r] == p.out
  {
    hide Parse;
    var payload := new byte[datalen - start](i requires 0 <= i < datalen - start reads data => data[start + i]);
    assert payload[..payload.Length] == data[..datalen][start..];
    out := new byte[payload.Length / 5 * 6];
    r := ConvertToIpPort(payload, payload.Length, out);
  }

  /** A whole exchange: the server sends a list, the network cuts it as it likes, the client
      decodes what arrives and converts it. It has the addresses of the servers that were
      picked, and both ends hold the same key. */
  method Exchange(lib: Libc, server: Client, client: EnctypexData, servers: seq<Server>, numServers: nat,
           cryptchal: seq<byte>, servchal: seq<byte>, sizes: seq<nat>)
    returns (out: array<byte>, r: int)
    requires server.Valid() && server.game.Some? && server.queryGame.Some? && !server.cryptHeaderSent
    requires server.Roomy(lib, servers) && numServers >= |servers|
    requires Consistent(server.fieldlist) && server.queryGame.value.queryport != 0xffff
    requires |cryptchal| == CRYPTCHAL && |servchal| == SERVCHAL
    requires client.encxkey.Length == KEYLEN && client.start == 0
    requires client.encxkey != server.encxkeyb && client.encxkey != server.challenge
    modifies server`cryptHeaderSent, server`headerLen, server`deleted, server.challenge, server.encxkeyb
    modifies client, client.encxkey
    ensures fresh(out) && 0 <= r <= out.Length && out[..r] == Addresses(lib, Picked(servers, server.maxservers))
    ensures var picked := Picked(servers, server.maxservers);
      r == 6 * |picked| && forall i :: 0 <= i < |picked| ==> IsAddress(lib, picked[i], out[6 * i..6 * i + 6])
    ensures client.encxkey[..] == server.encxkeyb[..]
  {
    hide Consistent, CryptHeader, Code, SessionKey, Payload, Session, Parse, FrameOf, Flatten, Addresses, FitsFrom, Picked;
    var challenge := server.challenge[..CHALLENGELEN];
    var sent := server.SendServers(lib, servers, numServers, cryptchal, servchal);
    var packets := sent.value;
    var key, game := server.game.value.secretkey, server.queryGame.value;
    var arrivals := Cut(Flatten(packets), sizes);
    var data, datalen := Receive(client, key, challenge, arrivals);
    FirstList(lib, server.fromip, server.game.value, game, server.fieldlist, Picked(servers, server.maxservers),
              challenge, cryptchal, servchal, packets, old(client.State()), arrivals);
    out, r := Convert(data, CRYPTHEADER, datalen);
    hide IsAddress;
    ghost var picked, all := Picked(servers, server.maxservers), out[..r];
    AddressesLength(lib, picked);
    forall i | 0 <= i < |picked| ensures IsAddress(lib, picked[i], out[6 * i..6 * i + 6]) {
      AddressesAre(lib, picked, i);
      assert out[6 * i..6 * i + 6] == all[6 * i..6 * i + 6];
    }
  }

  function PickedLists(lists: seq<seq<Server>>, limits: seq<nat>): (picked: seq<seq<Server>>)
    requires |lists| == |limits|
    ensures |picked| == |lists| && forall i :: 0 <= i < |lists| ==> picked[i] == Picked(lists[i], limits[i])
  {
    seq(|lists|, i requires 0 <= i < |lists| => Picked(lists[i], limits[i]))
  }

  /** What a server that sent these payloads has sent, and the key it is left with. */
  ghost predicate SentSoFar(head: seq<byte>, k: xkey, payloads: seq<seq<byte>>, stream: seq<byte>, key: seq<byte>) {
    var c := CodeChunks(Encrypt, k, payloads);
    stream == head + c.out && key == c.key
  }

  lemma SentMore(head: seq<byte>, k: xkey, payloads: seq<seq<byte>>, stream: seq<byte>, key: xkey, more: seq<byte>)
    requires SentSoFar(head, k, payloads, stream, key)
    ensures var c := Code(Encrypt, key, more); SentSoFar(head, k, payloads + [more], stream + c.out, c.key)
  {
    hide Code, CodeChunks;
    ChunksSnoc(Encrypt, k, payloads, more);
    Associate(head, CodeChunks(Encrypt, k, payloads).out, Code(Encrypt, key, more).out);
  }

  lemma NothingSent(head: seq<byte>, k: xkey)
    ensures SentSoFar(head, k, [], head, k)
  {
  }

  lemma NextPayload(lib: Libc, fromip: word, queryport: short, fieldlist: cstring, lists: seq<seq<Server>>, i: nat)
    requires i < |lists|
    ensures Payloads(lib, fromip, queryport, fieldlist, lists[..i + 1]) ==
            Payloads(lib, fromip, queryport, fieldlist, lists[..i]) + [Payload(lib, fromip, queryport, fieldlist, lists[i])]
  {
    hide Payload;
  }

  /** List i of a connection stays inside the buffer; the first one shares it with the
      header. */
  ghost predicate ListFits(lib: Libc, fromip: word, queryport: short, fieldlist: cstring, i: nat, servers: seq<Server>) {
    FitsFrom(lib, queryport, fieldlist, (if i == 0 then CRYPTHEADER else 0) + |Intro(fromip, queryport, fieldlist)|, servers)
  }

  /** The server answers one request after the other, each with its own limit. */
  method Serve(lib: Libc, server: Client, lists: seq<seq<Server>>, limits: seq<nat>, cryptchal: seq<byte>, servchal: seq<byte>)
    returns (sent: Option<seq<byte>>)
    requires server.Valid() && server.game.Some? && server.queryGame.Some? && !server.cryptHeaderSent
    requires |lists| == |limits| > 0 && |cryptchal| == CRYPTCHAL && |servchal| == SERVCHAL
    modifies server`maxservers, server`cryptHeaderSent, server`headerLen, server`deleted, server.challenge, server.encxkeyb
    ensures server.Valid()
    ensures sent.Some? <==>
            forall i :: 0 <= i < |lists| ==>
              ListFits(lib, server.fromip, server.queryGame.value.queryport, server.fieldlist, i, PickedLists(lists, limits)[i])
    ensures sent.Some? ==>
              SentSoFar(CryptHeader(server.queryGame.value.backendflags, cryptchal, servchal),
                SessionKey(server.game.value.secretkey, old(server.challenge[..CHALLENGELEN]), servchal),
                Payloads(lib, server.fromip, server.queryGame.value.queryport, server.fieldlist, PickedLists(lists, limits)),
                sent.value, server.encxkeyb[..])
  {
    hide SentSoFar, CryptHeader, SessionKey, Code, Payloads, Payload, Flatten, Picked, FitsFrom, Intro;
    ghost var head := CryptHeader(server.queryGame.value.backendflags, cryptchal, servchal);
    ghost var k := SessionKey(server.game.value.secretkey, server.challenge[..CHALLENGELEN], servchal);
    ghost var port, picked := server.queryGame.value.queryport, PickedLists(lists, limits);
    NothingSent(head, k);
    NoPayloads(lib, server.fromip, port, server.fieldlist, picked);
    var stream: seq<byte> := [];
    for i := 0 to |lists|
      invariant server.Valid() && server.cryptHeaderSent == (i > 0)
      invariant i == 0 ==> stream == [] && server.challenge[..] == old(server.challenge[..])
      invariant forall j :: 0 <= j < i ==> ListFits(lib, server.fromip, port, server.fieldlist, j, picked[j])
      invariant SentSoFar(head, k, Payloads(lib, server.fromip, port, server.fieldlist, picked[..i]),
                  if i == 0 then head else stream, if i == 0 then k else server.encxkeyb[..])
    {
      ghost var key := if i == 0 then k else server.encxkeyb[..];
      ghost var payload := Payload(lib, server.fromip, port, server.fieldlist, picked[i]);
      server.maxservers := limits[i];
      var packets := server.SendServers(lib, lists[i], |lists[i]|, cryptchal, servchal);
      assert packets.Some? <==> ListFits(lib, server.fromip, port, server.fieldlist, i, picked[i]);
      if packets == None {
        return None;
      }
      SentMore(head, k, Payloads(lib, server.fromip, port, server.fieldlist, picked[..i]), if i == 0 then head else stream, key, payload);
      NextPayload(lib, server.fromip, port, server.fieldlist, picked, i);
      assert i > 0 ==> [] + Code(Encrypt, key, payload).out == Code(Encrypt, key, payload).out;
      assert i == 0 ==> [] + Flatten(packets.value) == Flatten(packets.value);
      stream := stream + Flatten(packets.value);
    }
    assert picked[..|lists|] == picked;
    return Some(stream);
  }

  lemma NoPayloads(lib: Libc, fromip: word, queryport: short, fieldlist: cstring, lists: seq<seq<Server>>)
    ensures Payloads(lib, fromip, queryport, fieldlist, lists[..0]) == []
  {
  }

  /** A whole connection: any number of lists, cut by the network across their borders. */
  method Connection(lib: Libc, server: Client, client: EnctypexData, lists: seq<seq<Server>>, limits: seq<nat>,
           cryptchal: seq<byte>, servchal: seq<byte>, sizes: seq<nat>)
    returns (data: array<byte>, datalen: nat, sent: bool)
    requires server.Valid() && server.game.Some? && server.queryGame.Some? && !server.cryptHeaderSent
    requires Consistent(server.fieldlist) && server.queryGame.value.queryport != 0xffff
    requires |lists| == |limits| > 0 && |cryptchal| == CRYPTCHAL && |servchal| == SERVCHAL
    requires client.encxkey.Length == KEYLEN && client.start == 0
    requires client.encxkey != server.encxkeyb && client.encxkey != server.challenge
    modifies server`maxservers, server`cryptHeaderSent, server`headerLen, server`deleted, server.challenge, server.encxkeyb
    modifies client, client.encxkey
    ensures datalen <= data.Length
    ensures sent <==>
            forall i :: 0 <= i < |lists| ==>
              ListFits(lib, server.fromip, server.queryGame.value.queryport, server.fieldlist, i, PickedLists(lists, limits)[i])
    ensures sent ==>
              var payloads := Payloads(lib, server.fromip, server.queryGame.value.queryport, server.fieldlist, PickedLists(lists, limits));
              data[..datalen] == CryptHeader(server.queryGame.value.backendflags, cryptchal, servchal) + Flatten(payloads) &&
              client.encxkey[..] == server.encxkeyb[..] &&
              forall i :: 0 <= i < |lists| ==> ListAt(lib, data[..datalen], payloads, i, Picked(lists[i], limits[i]))
  {
    hide Consistent, CryptHeader, CodeChunks, SessionKey, Payloads, Session, Flatten, ListAt, ListFits, Picked;
    var challenge := server.challenge[..CHALLENGELEN];
    var stream := Serve(lib, server, lists, limits, cryptchal, servchal);
    if stream == None {
      return new byte[0], 0, false;
    }
    var arrivals := Cut(stream.value, sizes);
    data, datalen := Receive(client, server.game.value.secretkey, challenge, arrivals);
    ManyLists(lib, server.fromip, server.game.value, server.queryGame.value, server.fieldlist, PickedLists(lists, limits),
              challenge, cryptchal, servchal, old(client.State()), arrivals);
    sent := true;
  }
}
