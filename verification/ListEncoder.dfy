/** The cursor writers, and the part of the server browser's client that sends a server
    list. */
module ListEncoder {
  import opened Bits
  import opened Text
  import opened EnctypeX
  import opened ServerList

  // ---------- Cursor writers: the cursor and the length move together ----------

  method BufferWriteByte(buffer: array<byte>, len: nat, value: byte) returns (end: nat)
    requires len < buffer.Length
    modifies buffer
    ensures end == len + 1 && buffer[..end] == old(buffer[..len]) + [value]
  {
    buffer[len] := value;
    end := len + 1;
  }

  method BufferWriteInt(buffer: array<byte>, len: nat, value: word) returns (end: nat)
    requires len + 4 <= buffer.Length
    modifies buffer
    ensures end == len + 4 && buffer[..end] == old(buffer[..len]) + Le32(value)
  {
    hide Lane;
    buffer[len], buffer[len + 1], buffer[len + 2], buffer[len + 3] := Lane(value, 0), Lane(value, 1), Lane(value, 2), Lane(value, 3);
    end := len + 4;
  }

  method BufferWriteShort(buffer: array<byte>, len: nat, value: short) returns (end: nat)
    requires len + 2 <= buffer.Length
    modifies buffer
    ensures end == len + 2 && buffer[..end] == old(buffer[..len]) + Le16(value)
  {
    buffer[len], buffer[len + 1] := value % 0x100, value / 0x100;
    end := len + 2;
  }

  method BufferWriteShortRE(buffer: array<byte>, len: nat, value: short) returns (end: nat)
    requires len + 2 <= buffer.Length
    modifies buffer
    ensures end == len + 2 && buffer[..end] == old(buffer[..len]) + Le16(Reverse16(value))
  {
    end := BufferWriteShort(buffer, len, Reverse16(value));
  }

  method BufferWriteData(buffer: array<byte>, len: nat, data: seq<byte>) returns (end: nat)
    requires len + |data| <= buffer.Length
    modifies buffer
    ensures end == len + |data| && buffer[..end] == old(buffer[..len]) + data
  {
    forall i | 0 <= i < |data| {
      buffer[len + i] := data[i];
    }
    end := len + |data|;
  }

  method BufferWriteNTS(buffer: array<byte>, len: nat, text: cstring) returns (end: nat)
    requires len + |text| + 1 <= buffer.Length
    modifies buffer
    ensures end == len + |text| + 1 && buffer[..end] == old(buffer[..len]) + Nts(text)
  {
    end := BufferWriteData(buffer, len, Nts(text));
  }

  // ---------- One server ----------

  method FindServerValue(name: cstring, keys: seq<(cstring, cstring)>) returns (value: Option<cstring>)
    ensures value == FindValue(keys, name)
  {
    var i := 0;
    assert keys[0..] == keys;
    while i < |keys|
      invariant i <= |keys| && FindValue(keys, name) == FindValue(keys[i..], name)
    {
      if keys[i].0 == name {
        return Some(keys[i].1);
      }
      assert keys[i..][1..] == keys[i + 1..];
      i := i + 1;
    }
    value := None;
  }

  /** The flags and ports of a record, as addServerBuff gathers them. */
  method GatherParts(lib: Libc, queryport: short, slist: Server)
    returns (flags: byte, hostport: short, privip: word, localport: short)
    ensures var p := PartsOf(lib, queryport, slist);
      flags == Flags(queryport, p) && hostport == p.hostport &&
      (p.privip.Some? ==> privip == p.privip.value) && (p.localport.Some? ==> localport == p.localport.value)
  {
    hide Reverse16;
    flags, hostport, privip, localport := 0, slist.port, 0, 0;
    var fdata := FindServerValue(NATNEG, slist.keys);
    if fdata.Some? && lib.atoi(fdata.value) != 0 {
      flags := flags + NEGOTIATE;
    }
    fdata := FindServerValue(LOCALIP0, slist.keys);
    if fdata.Some? {
      var addr := lib.inetAddr(fdata.value);
      if addr != slist.ip {
        flags := flags + PRIVATE_IP;
        privip := addr;
      }
    }
    fdata := FindServerValue(HOSTPORT, slist.keys);
    if fdata.Some? {
      hostport := NetPort(lib, fdata.value);
    }
    fdata := FindServerValue(LOCALPORT, slist.keys);
    if fdata.Some? {
      localport := NetPort(lib, fdata.value);
      if localport != Reverse16(queryport) {
        flags := flags + PRIVATE_PORT;
      }
    }
    if hostport != Reverse16(queryport) {
      flags := flags + PORT;
    }
    flags := flags + KEYS;
  }

  method AddServerBuff(lib: Libc, queryport: short, fieldlist: cstring, buff: array<byte>, len_: nat, slist: Server)
    returns (len: nat)
    requires len_ + |Record(lib, queryport, fieldlist, slist)| <= buff.Length
    modifies buff
    ensures len == len_ + |Record(lib, queryport, fieldlist, slist)|
    ensures buff[..len] == old(buff[..len_]) + Record(lib, queryport, fieldlist, slist)
  {
    hide PartsOf, Flags, Fields, Reverse16, Values;
    ghost var parts := PartsOf(lib, queryport, slist);
    ghost var fixed, values := Fixed(queryport, slist, parts), Values(lib, slist, Fields(fieldlist));
    ghost var before := buff[..len_];
    var flags, hostport, privip, localport := GatherParts(lib, queryport, slist);
    len := WriteFixed(queryport, buff, len_, slist, flags, hostport, privip, localport, parts);
    hide Fixed;
    len := WriteValues(lib, fieldlist, buff, len, slist);
    Associate(before, fixed, values);
  }

  /** The stores of addServerBuff before the values; the flags say which. */
  method WriteFixed(queryport: short, buff: array<byte>, len_: nat, slist: Server, flags: byte, hostport: short,
           privip: word, localport: short, ghost parts: Parts)
    returns (len: nat)
    requires len_ + |Fixed(queryport, slist, parts)| <= buff.Length
    requires flags == Flags(queryport, parts) && hostport == parts.hostport
    requires (parts.privip.Some? ==> privip == parts.privip.value) && (parts.localport.Some? ==> localport == parts.localport.value)
    modifies buff
    ensures len == len_ + |Fixed(queryport, slist, parts)| && buff[..len] == old(buff[..len_]) + Fixed(queryport, slist, parts)
  {
    FlagBits(queryport, parts);
    hide Flags, Has, Reverse16, Lane, Le16, Le32;
    ghost var before := buff[..len_];
    ghost var a := [flags] + Le32(slist.ip);
    ghost var b := if Has(flags, PORT) then Le16(hostport) else [];
    ghost var c := if Has(flags, PRIVATE_IP) then Le32(privip) else [];
    ghost var d := if Has(flags, PRIVATE_PORT) then Le16(localport) else [];
    assert Fixed(queryport, slist, parts) == a + b + c + d;
    hide Fixed;
    len := BufferWriteByte(buff, len_, flags);
    len := BufferWriteInt(buff, len, slist.ip);
    assert buff[..len] == before + a;
    if Has(flags, PORT) {
      len := BufferWriteShort(buff, len, hostport);
    }
    assert buff[..len] == before + (a + b);
    if Has(flags, PRIVATE_IP) {
      len := BufferWriteInt(buff, len, privip);
    }
    assert buff[..len] == before + (a + b + c);
    if Has(flags, PRIVATE_PORT) {
      len := BufferWriteShort(buff, len, localport);
    }
    assert buff[..len] == before + (a + b + c + d);
  }

  method WriteValues(lib: Libc, fieldlist: cstring, buff: array<byte>, len_: nat, slist: Server) returns (len: nat)
    requires len_ + |Values(lib, slist, Fields(fieldlist))| <= buff.Length
    modifies buff
    ensures len == len_ + |Values(lib, slist, Fields(fieldlist))|
    ensures buff[..len] == old(buff[..len_]) + Values(lib, slist, Fields(fieldlist))
  {
    hide Fields, FieldValue, Truncated;
    ghost var fields, before := Fields(fieldlist), buff[..len_];
    len := len_;
    var i := 0;
    var field := FindParam(i, fieldlist);
    i := i + 1;
    while field.Some?
      invariant 1 <= i <= |fields| + 1 && field == if i - 1 < |fields| then Some(Truncated(fields[i - 1])) else None
      invariant len == len_ + |Values(lib, slist, fields[..i - 1])| <= buff.Length
      invariant buff[..len] == before + Values(lib, slist, fields[..i - 1])
      decreases |fields| + 1 - i
    {
      MoreValues(lib, slist, fields, i);
      hide Values;
      len := WriteField(lib, buff, len, slist, field.value);
      Associate(before, Values(lib, slist, fields[..i - 1]), [0xff] + Nts(FieldValue(lib, slist, field.value)));
      field := FindParam(i, fieldlist);
      i := i + 1;
    }
    assert fields[..|fields|] == fields;
  }

  method WriteField(lib: Libc, buff: array<byte>, len_: nat, slist: Server, field: cstring) returns (len: nat)
    requires len_ + |FieldValue(lib, slist, field)| + 2 <= buff.Length
    modifies buff
    ensures len == len_ + |FieldValue(lib, slist, field)| + 2
    ensures buff[..len] == old(buff[..len_]) + ([0xff] + Nts(FieldValue(lib, slist, field)))
  {
    hide FieldValue;
    len := BufferWriteByte(buff, len_, 0xff);
    len := WriteValue(lib, buff, len, slist, field);
    Associate(old(buff[..len_]), [0xff], Nts(FieldValue(lib, slist, field)));
  }

  /** One more field, and room for its value. */
  lemma MoreValues(lib: Libc, s: Server, fields: seq<cstring>, i: nat)
    requires 1 <= i <= |fields|
    ensures Values(lib, s, fields[..i]) == Values(lib, s, fields[..i - 1]) + ([0xff] + Nts(FieldValue(lib, s, Truncated(fields[i - 1]))))
    ensures |Values(lib, s, fields[..i])| <= |Values(lib, s, fields)|
    decreases |fields|
  {
    hide FieldValue, Truncated;
    assert fields[..i][..i - 1] == fields[..i - 1];
    if i < |fields| {
      assert fields[..|fields| - 1][..i] == fields[..i] && fields[..|fields| - 1][..i - 1] == fields[..i - 1];
      MoreValues(lib, s, fields[..|fields| - 1], i);
    } else {
      assert fields[..i] == fields;
    }
  }

  method WriteValue(lib: Libc, buff: array<byte>, len_: nat, slist: Server, field: cstring) returns (len: nat)
    requires len_ + |FieldValue(lib, slist, field)| + 1 <= buff.Length
    modifies buff
    ensures len == len_ + |FieldValue(lib, slist, field)| + 1 && buff[..len] == old(buff[..len_]) + Nts(FieldValue(lib, slist, field))
  {
    hide FindValue, SameIgnoringCase;
    if SameIgnoringCase(field, COUNTRY) {
      len := BufferWriteNTS(buff, len_, slist.country);
    } else if SameIgnoringCase(field, REGION) {
      len := BufferWriteNTS(buff, len_, lib.decimal(slist.region));
    } else {
      var fdata := FindServerValue(field, slist.keys);
      if fdata.Some? {
        len := BufferWriteNTS(buff, len_, fdata.value);
      } else {
        len := BufferWriteByte(buff, len_, 0x00);
      }
    }
  }

  // ---------- The whole list ----------

  const CRYPTCHAL := 10
  const SERVCHAL := 25
  const CRYPTHEADER := 37

  datatype Game = Game(secretkey: cstring, queryport: short, backendflags: short)

  /** The header in the clear: a skipped challenge that starts with the flags, and the salt. */
  function CryptHeader(backendflags: short, cryptchal: seq<byte>, servchal: seq<byte>): (h: seq<byte>)
    requires |cryptchal| == CRYPTCHAL && |servchal| == SERVCHAL
    ensures |h| == CRYPTHEADER
  {
    [XorByte(CRYPTCHAL, 0xec)] + Le16(backendflags) + cryptchal[2..] + [XorByte(SERVCHAL, 0xea)] + servchal
  }

  lemma CryptHeaderFrame(backendflags: short, cryptchal: seq<byte>, servchal: seq<byte>, rest: seq<byte>)
    requires |cryptchal| == CRYPTCHAL && |servchal| == SERVCHAL
    ensures FrameOf(CryptHeader(backendflags, cryptchal, servchal) + rest) == Frame(servchal, CRYPTHEADER)
  {
    var d := CryptHeader(backendflags, cryptchal, servchal) + rest;
    XorByteCancel(CRYPTCHAL, 0xec);
    XorByteCancel(SERVCHAL, 0xea);
    hide XorByte, Le16;
    assert d[0] == XorByte(CRYPTCHAL, 0xec) && d[11] == XorByte(SERVCHAL, 0xea);
    assert d[12..37] == servchal;
    FrameByLengths(d);
  }

  lemma FrameByLengths(d: seq<byte>)
    requires |d| >= 37 && XorByte(d[0], 0xec) == 10 && XorByte(d[11], 0xea) == 25
    ensures FrameOf(d) == Frame(d[12..37], 37)
  {
    hide XorByte;
  }

  /** The servers a request with a limit gets. */
  function Picked(servers: seq<Server>, maxservers: nat): seq<Server> {
    if maxservers == 0 || maxservers >= |servers| then servers else servers[..maxservers]
  }

  const ERRORTEXT: seq<byte> := [  // with its terminator
    0x51, 0x75, 0x65, 0x72, 0x79, 0x20, 0x45, 0x72, 0x72, 0x6f, 0x72, 0x3a, 0x20, 0x49, 0x6e, 0x76, 0x61, 0x6c, 0x69, 0x64,
    0x20, 0x67, 0x61, 0x6d, 0x65, 0x6e, 0x61, 0x6d, 0x65, 0x20, 0x6f, 0x72, 0x20, 0x63, 0x6c, 0x69, 0x65, 0x6e, 0x74, 0x6e, 0x61, 0x6d, 0x65, 0x00]

  // ---------- What has been sent and what is waiting ----------

  /** Of the payload so far, the part done was sent encrypted from key k to key, behind
      the header; the part pending waits in the buffer, behind the part of the header
      that was not sent. */
  ghost predicate Progress(packets: seq<seq<byte>>, clear: seq<byte>, pending: seq<byte>, head: seq<byte>, k: xkey,
           key: xkey, done: seq<byte>, sofar: seq<byte>) {
    Code(Encrypt, k, done).key == key && done + pending == sofar &&
    Flatten(packets) + clear == head + Code(Encrypt, k, done).out
  }

  lemma Beginning(head: seq<byte>, k: xkey, intro: seq<byte>)
    ensures Progress([], head, intro, head, k, k, [], intro)
  {
    CodeEmpty(Encrypt, k);
  }

  lemma Growing(packets: seq<seq<byte>>, clear: seq<byte>, pending: seq<byte>, more: seq<byte>, head: seq<byte>,
           k: xkey, key: xkey, done: seq<byte>, sofar: seq<byte>)
    requires Progress(packets, clear, pending, head, k, key, done, sofar)
    ensures Progress(packets, clear, pending + more, head, k, key, done, sofar + more)
  {
    Associate(done, pending, more);
  }

  lemma Flushing(packets: seq<seq<byte>>, clear: seq<byte>, pending: seq<byte>, head: seq<byte>, k: xkey, key: xkey,
           done: seq<byte>, sofar: seq<byte>)
    requires Progress(packets, clear, pending, head, k, key, done, sofar)
    ensures var c := Code(Encrypt, key, pending);
      Progress(packets + [clear + c.out], [], [], head, k, c.key, sofar, sofar)
  {
    hide Code;
    var c := Code(Encrypt, key, pending);
    CodeConcat(Encrypt, k, done, pending);
    FlattenSnoc(packets, clear + c.out);
    Associate(Flatten(packets), clear, c.out);
    Associate(head, Code(Encrypt, k, done).out, c.out);
    hide Flatten;
    assert sofar + [] == sofar;
    assert Flatten(packets + [clear + c.out]) + [] == Flatten(packets + [clear + c.out]);
  }

  lemma Behind(all: seq<byte>, clear: seq<byte>, x: seq<byte>)
    requires all == clear + x
    ensures all[|clear|..] == x && all[..|clear|] == clear
  {
  }

  lemma Extended(all: seq<byte>, h: nat, before: seq<byte>, more: seq<byte>)
    requires h <= |before| && all == before + more
    ensures all[..h] == before[..h] && all[h..] == before[h..] + more
  {
  }

  lemma EndBytes()
    ensures [0] + Le32(0xffff_ffff) == END
  {
  }

  lemma NoRecords(lib: Libc, fromip: word, queryport: short, fieldlist: cstring, servers: seq<Server>)
    ensures Intro(fromip, queryport, fieldlist) == Intro(fromip, queryport, fieldlist) + Records(lib, queryport, fieldlist, servers[..0])
  {
    hide Intro;
    assert servers[..0] == [];
  }

  lemma OneMoreRecord(lib: Libc, fromip: word, queryport: short, fieldlist: cstring, servers: seq<Server>, i: nat)
    requires i < |servers|
    ensures Intro(fromip, queryport, fieldlist) + Records(lib, queryport, fieldlist, servers[..i + 1]) ==
      Intro(fromip, queryport, fieldlist) + Records(lib, queryport, fieldlist, servers[..i]) + Record(lib, queryport, fieldlist, servers[i])
  {
    hide Intro, Record;
    assert servers[..i + 1][..i] == servers[..i];
    Associate(Intro(fromip, queryport, fieldlist), Records(lib, queryport, fieldlist, servers[..i]), Record(lib, queryport, fieldlist, servers[i]));
  }

  /** The list stays inside the buffer of 2 * MAXOUT bytes, of which len are in use: no
      record and no end mark is written over its end, where a flush behind a record
      empties it. */
  ghost predicate FitsFrom(lib: Libc, queryport: short, fieldlist: cstring, len: nat, servers: seq<Server>)
    decreases |servers|
  {
    if servers == [] then len + |END| <= 2 * MAXOUT
    else
      var l := len + |Record(lib, queryport, fieldlist, servers[0])|;
      l <= 2 * MAXOUT && FitsFrom(lib, queryport, fieldlist, if l > MAXOUT then 0 else l, servers[1..])
  }

  lemma NoRoom(lib: Libc, queryport: short, fieldlist: cstring, len: nat, servers: seq<Server>)
    requires len > 2 * MAXOUT
    ensures !FitsFrom(lib, queryport, fieldlist, len, servers)
  {
    hide Record;
  }

  // ---------- Lists that do not fit ----------

  lemma {:induction false} ValuesLength(lib: Libc, s: Server, fields: seq<cstring>, f: cstring)
    requires |f| < MAXFIELD && forall i :: 0 <= i < |fields| ==> fields[i] == f
    ensures |Values(lib, s, fields)| == |fields| * (|FieldValue(lib, s, f)| + 2)
    decreases |fields|
  {
    hide FieldValue;
    var k := |FieldValue(lib, s, f)| + 2;
    if fields == [] {
      assert |fields| * k == 0;
    } else {
      var i := |fields| - 1;
      ValuesLength(lib, s, fields[..i], f);
      assert Truncated(fields[i]) == f;
      hide Truncated;
      assert |fields| * k == i * k + k;
    }
  }

  lemma {:induction false} FieldListLength(names: seq<cstring>, f: cstring)
    requires forall i :: 0 <= i < |names| ==> names[i] == f
    ensures |FieldList(names)| == |names| * (|f| + 1)
    decreases |names|
  {
    var k := |f| + 1;
    if names == [] {
      assert |names| * k == 0;
    } else {
      FieldListLength(names[1..], f);
      var i := |names| - 1;
      assert |names| * k == i * k + k;
    }
  }

  /** A list that the parser could read back and the buffer does not hold: one field asked
      for n times, whose values are longer together than the buffer. With 255 fields, seven
      bytes of a value are enough, in a list of 510 bytes. */
  lemma RepeatedFieldOverruns(lib: Libc, queryport: short, f: cstring, n: nat, s: Server, len: nat)
    requires 0 < n <= 255 && f != [] && BACKSLASH !in f && |f| < MAXFIELD
    requires n * (|FieldValue(lib, s, f)| + 2) > 2 * MAXOUT
    ensures var fieldlist := FieldList(seq<cstring>(n, _ => f));
      |fieldlist| == n * (|f| + 1) && Consistent(fieldlist) && !FitsFrom(lib, queryport, fieldlist, len, [s])
  {
    hide Consistent, FieldList, Fields, FieldValue, Values, Fixed;
    var names := seq<cstring>(n, _ => f);
    UsualListIsConsistent(names);
    FieldListLength(names, f);
    FieldsOf(names);
    ValuesLength(lib, s, names, f);
    assert [s][0] == s;
  }

  /** The seven bytes. */
  lemma SevenBytesOverrun(lib: Libc, queryport: short, f: byte, value: cstring, s: Server, len: nat)
    requires f != 0 && f != BACKSLASH && |value| >= 7 && s.keys == [([f], value)]
    ensures var fieldlist := FieldList(seq<cstring>(255, _ => [f]));
      |fieldlist| == 510 && Consistent(fieldlist) && !FitsFrom(lib, queryport, fieldlist, len, [s])
  {
    hide Consistent, FieldList, FitsFrom;
    assert FieldValue(lib, s, [f]) == value by {
      assert FindValue(s.keys, [f]) == Some(value);
    }
    hide FieldValue;
    assert 255 * (|value| + 2) > 2 * MAXOUT;
    RepeatedFieldOverruns(lib, queryport, [f], 255, s, len);
  }

  /** The table of fields behind the addresses of the requester and the default port. */
  method WriteIntro(buff: array<byte>, len_: nat, fromip: word, queryport: short, fieldlist: cstring) returns (len: nat)
    requires len_ + |Intro(fromip, queryport, fieldlist)| <= buff.Length
    modifies buff
    ensures len == len_ + |Intro(fromip, queryport, fieldlist)| && buff[..len] == old(buff[..len_]) + Intro(fromip, queryport, fieldlist)
  {
    hide Fields, Count, Truncated, Reverse16, Lane;
    ghost var fields, before := Fields(fieldlist), buff[..len_];
    var count := CountChar(fieldlist, BACKSLASH);
    var num_params: short := count % 0x1_0000;
    ghost var first := Le32(fromip) + Le16(Reverse16(queryport)) + Le16(num_params);
    assert Intro(fromip, queryport, fieldlist) == first + Names(fields, num_params);
    hide Intro, Le16, Le32;
    len := BufferWriteInt(buff, len_, fromip);
    len := BufferWriteShortRE(buff, len, queryport);
    len := BufferWriteShort(buff, len, num_params);
    assert buff[..len] == before + first;
    len := WriteNames(buff, len, fieldlist, num_params);
    Associate(before, first, Names(fields, num_params));
  }

  method WriteNames(buff: array<byte>, len_: nat, fieldlist: cstring, num_params: nat) returns (len: nat)
    requires len_ + |Names(Fields(fieldlist), num_params)| <= buff.Length
    modifies buff
    ensures len == len_ + |Names(Fields(fieldlist), num_params)| && buff[..len] == old(buff[..len_]) + Names(Fields(fieldlist), num_params)
  {
    hide Fields, Truncated;
    ghost var fields, before := Fields(fieldlist), buff[..len_];
    len := len_;
    for i := 0 to num_params
      invariant len == len_ + |Names(fields, i)| && len <= buff.Length && buff[..len] == before + Names(fields, i)
    {
      MoreNames(fields, i, num_params);
      hide Names;
      var field := FindParam(i, fieldlist);
      if field.Some? {
        ghost var sofar := before + Names(fields, i);
        len := BufferWriteNTS(buff, len, field.value);
        len := BufferWriteByte(buff, len, 0);
        Associate(sofar, Nts(field.value), [0]);
        Associate(before, Names(fields, i), Nts(field.value) + [0]);
      }
    }
  }

  lemma {:induction false} MoreNames(fields: seq<cstring>, i: nat, num: nat)
    requires i < num
    ensures |Names(fields, i + 1)| <= |Names(fields, num)|
    ensures Names(fields, i + 1) == Names(fields, i) + if i < |fields| then Nts(Truncated(fields[i])) + [0] else []
    decreases num
  {
    hide Truncated;
    if i + 1 < num {
      MoreNames(fields, i, num - 1);
    }
  }

  class Client {
    var fieldlist: cstring
    const challenge: array<byte>
    var maxservers: nat
    var fromip: word
    const encxkeyb: array<byte>
    var game: Option<Game>
    var queryGame: Option<Game>
    var cryptHeaderSent: bool
    var headerLen: nat
    var deleted: bool

    ghost predicate Valid()
      reads this
    {
      challenge.Length == CHALLENGELEN + 1 && encxkeyb.Length == KEYLEN && challenge != encxkeyb &&
      (game.Some? ==> game.value.secretkey != []) && (cryptHeaderSent ==> headerLen == 0)
    }

    constructor ()
      ensures Valid() && fresh(challenge) && fresh(encxkeyb) && !cryptHeaderSent
    {
      fieldlist, maxservers, fromip, game, queryGame := [], 0, 0, None, None;
      challenge := new byte[CHALLENGELEN + 1](_ => 0);
      encxkeyb := new byte[KEYLEN](_ => 0);
      cryptHeaderSent, headerLen, deleted := false, 0, false;
    }

    method SetupCryptHeader(dst: array<byte>, cryptchal_: seq<byte>, servchal: seq<byte>) returns (len: nat)
      requires Valid() && game.Some? && queryGame.Some? && !cryptHeaderSent
      requires dst.Length >= CRYPTHEADER && dst != challenge && dst != encxkeyb
      requires |cryptchal_| == CRYPTCHAL && |servchal| == SERVCHAL
      modifies this`headerLen, challenge, encxkeyb, dst
      ensures Valid() && headerLen == CRYPTHEADER && len == CRYPTHEADER
      ensures dst[..len] == CryptHeader(queryGame.value.backendflags, cryptchal_, servchal)
      ensures encxkeyb[..] == SessionKey(game.value.secretkey, old(challenge[..CHALLENGELEN]), servchal)
    {
      hide XorByte, SessionKey, MixChallenge;
      headerLen := SERVCHAL + CRYPTCHAL + 2;
      var cryptchal := Le16(queryGame.value.backendflags) + cryptchal_[2..];
      len := BufferWriteByte(dst, 0, XorByte(CRYPTCHAL, 0xec));
      len := BufferWriteData(dst, len, cryptchal);
      len := BufferWriteByte(dst, len, XorByte(SERVCHAL, 0xea));
      len := BufferWriteData(dst, len, servchal);
      Funcx(encxkeyb, game.value.secretkey, challenge, servchal);
    }

    /** The payload up to here is sent or waits in the buffer. */
    ghost predicate Sending(packets: seq<seq<byte>>, buff: array<byte>, len: nat, head: seq<byte>, k: xkey, sofar: seq<byte>)
      requires encxkeyb.Length == KEYLEN
      reads this, encxkeyb, buff
    {
      headerLen <= len <= buff.Length && headerLen <= CRYPTHEADER &&
      exists done :: Progress(packets, buff[..headerLen], buff[headerLen..len], head, k, encxkeyb[..], done, sofar)
    }

    method SendRecord(lib: Libc, queryport: short, buff: array<byte>, len_: nat, slist: Server,
             ghost packets: seq<seq<byte>>, ghost head: seq<byte>, ghost k: xkey, ghost sofar: seq<byte>)
      returns (len: nat)
      requires Valid() && buff != challenge && buff != encxkeyb && Sending(packets, buff, len_, head, k, sofar)
      requires len_ + |Record(lib, queryport, fieldlist, slist)| <= buff.Length
      modifies buff
      ensures len == len_ + |Record(lib, queryport, fieldlist, slist)|
      ensures Sending(packets, buff, len, head, k, sofar + Record(lib, queryport, fieldlist, slist))
    {
      hide Record, Progress;
      ghost var record := Record(lib, queryport, fieldlist, slist);
      ghost var done :| Progress(packets, buff[..headerLen], buff[headerLen..len_], head, k, encxkeyb[..], done, sofar);
      Growing(packets, buff[..headerLen], buff[headerLen..len_], record, head, k, encxkeyb[..], done, sofar);
      ghost var before := buff[..len_];
      assert before[..headerLen] == buff[..headerLen] && before[headerLen..] == buff[headerLen..len_];
      len := AddServerBuff(lib, queryport, fieldlist, buff, len_, slist);
      Extended(buff[..len], headerLen, before, record);
      assert buff[..len][..headerLen] == buff[..headerLen] && buff[..len][headerLen..] == buff[headerLen..len];
      assert Progress(packets, buff[..headerLen], buff[headerLen..len], head, k, encxkeyb[..], done, sofar + record);
    }

    method SendEnd(buff: array<byte>, len_: nat, ghost packets: seq<seq<byte>>, ghost head: seq<byte>, ghost k: xkey,
             ghost sofar: seq<byte>)
      returns (len: nat)
      requires Valid() && buff != challenge && buff != encxkeyb && Sending(packets, buff, len_, head, k, sofar)
      requires len_ + |END| <= buff.Length
      modifies buff
      ensures len == len_ + |END| && Sending(packets, buff, len, head, k, sofar + END)
    {
      hide Progress;
      ghost var done :| Progress(packets, buff[..headerLen], buff[headerLen..len_], head, k, encxkeyb[..], done, sofar);
      Growing(packets, buff[..headerLen], buff[headerLen..len_], END, head, k, encxkeyb[..], done, sofar);
      ghost var before := buff[..len_];
      assert before[..headerLen] == buff[..headerLen] && before[headerLen..] == buff[headerLen..len_];
      len := BufferWriteByte(buff, len_, 0x00);
      len := BufferWriteInt(buff, len, 0xffff_ffff);
      EndBytes();
      Associate(before, [0], Le32(0xffff_ffff));
      Extended(buff[..len], headerLen, before, END);
      assert buff[..len][..headerLen] == buff[..headerLen] && buff[..len][headerLen..] == buff[headerLen..len];
      assert Progress(packets, buff[..headerLen], buff[headerLen..len], head, k, encxkeyb[..], done, sofar + END);
    }

    /** Encrypt what is in the buffer behind the header, and send it all. */
    method Flush(buff: array<byte>, len: nat, ghost packets: seq<seq<byte>>, ghost head: seq<byte>, ghost k: xkey,
             ghost sofar: seq<byte>)
      returns (packet: seq<byte>)
      requires Valid() && buff != challenge && buff != encxkeyb && Sending(packets, buff, len, head, k, sofar)
      modifies this`cryptHeaderSent, this`headerLen, encxkeyb, buff
      ensures Valid() && cryptHeaderSent && Sending(packets + [packet], buff, 0, head, k, sofar)
    {
      hide Code, Progress;
      ghost var done :| Progress(packets, buff[..headerLen], buff[headerLen..len], head, k, encxkeyb[..], done, sofar);
      Flushing(packets, buff[..headerLen], buff[headerLen..len], head, k, encxkeyb[..], done, sofar);
      cryptHeaderSent := true;
      var n := Func6e(encxkeyb, buff, headerLen, len - headerLen);
      packet := buff[..len];
      assert packet == buff[..headerLen] + buff[headerLen..len];
      headerLen := 0;
      assert buff[..headerLen] == [] && buff[headerLen..0] == [];
      assert Progress(packets + [packet], buff[..headerLen], buff[headerLen..0], head, k, encxkeyb[..], sofar, sofar);
    }

    /** The records, the end mark and the flushes between and behind them, or None where a
        record or the end mark would be written over the end of the buffer. */
    method SendRecords(lib: Libc, queryport: short, servers: seq<Server>, numServers_: nat, buff: array<byte>,
             len_: nat, ghost head: seq<byte>, ghost k: xkey)
      returns (sent: Option<seq<seq<byte>>>)
      requires Valid() && buff != challenge && buff != encxkeyb && buff.Length == 2 * MAXOUT
      requires numServers_ >= |servers|
      requires Sending([], buff, len_, head, k, Intro(fromip, queryport, fieldlist))
      modifies this`cryptHeaderSent, this`headerLen, encxkeyb, buff
      ensures Valid() && (sent.Some? <==> FitsFrom(lib, queryport, fieldlist, len_, Picked(servers, maxservers)))
      ensures sent.Some? ==>
                cryptHeaderSent &&
                Sending(sent.value, buff, 0, head, k, Payload(lib, fromip, queryport, fieldlist, Picked(servers, maxservers)))
    {
      hide Intro, Record, Records, Sending;
      ghost var picked := Picked(servers, maxservers);
      var packets := [];
      var len: nat := len_;
      var hasMaxServers, maxservers := this.maxservers != 0, this.maxservers;
      var i, numServers := 0, numServers_;
      ghost var sofar := Intro(fromip, queryport, fieldlist);
      NoRecords(lib, fromip, queryport, fieldlist, servers);
      assert picked[0..] == picked;
      while i < |servers| && (!hasMaxServers || maxservers > 0) && numServers > 0
        invariant Valid() && i <= |picked| && numServers == numServers_ - i
        invariant hasMaxServers ==> 0 <= maxservers == this.maxservers - i
        invariant FitsFrom(lib, queryport, fieldlist, len_, picked) <==> FitsFrom(lib, queryport, fieldlist, len, picked[i..])
        invariant Sending(packets, buff, len, head, k, sofar)
        invariant sofar == Intro(fromip, queryport, fieldlist) + Records(lib, queryport, fieldlist, servers[..i])
      {
        maxservers := if hasMaxServers then maxservers - 1 else maxservers;
        numServers := numServers - 1;
        assert picked[i..][0] == servers[i] && picked[i..][1..] == picked[i + 1..];
        if len + |Record(lib, queryport, fieldlist, servers[i])| > buff.Length {
          return None;
        }
        len := SendRecord(lib, queryport, buff, len, servers[i], packets, head, k, sofar);
        OneMoreRecord(lib, fromip, queryport, fieldlist, servers, i);
        sofar := sofar + Record(lib, queryport, fieldlist, servers[i]);
        i := i + 1;
        if len > MAXOUT {
          var packet := Flush(buff, len, packets, head, k, sofar);
          packets := packets + [packet];
          len := 0;
        }
      }
      assert servers[..i] == picked && picked[i..] == [];
      if len + |END| > buff.Length {
        return None;
      }
      len := SendEnd(buff, len, packets, head, k, sofar);
      var packet := Flush(buff, len, packets, head, k, sofar + END);
      sent := Some(packets + [packet]);
    }

    lemma AllSent(packets: seq<seq<byte>>, buff: array<byte>, head: seq<byte>, k: xkey, all: seq<byte>)
      requires encxkeyb.Length == KEYLEN && Sending(packets, buff, 0, head, k, all)
      ensures Flatten(packets) == head + Code(Encrypt, k, all).out && encxkeyb[..] == Code(Encrypt, k, all).key
    {
      hide Code, Flatten;
      var done :| Progress(packets, buff[..headerLen], buff[headerLen..0], head, k, encxkeyb[..], done, all);
      assert buff[..0] == [] && done + [] == done;
      assert Flatten(packets) + [] == Flatten(packets);
    }

    /** The list that would be sent now stays inside the stack buffer. */
    ghost predicate Roomy(lib: Libc, servers: seq<Server>)
      requires queryGame.Some?
      reads this
    {
      var len := (if cryptHeaderSent then 0 else CRYPTHEADER) + |Intro(fromip, queryGame.value.queryport, fieldlist)|;
      FitsFrom(lib, queryGame.value.queryport, fieldlist, len, Picked(servers, maxservers))
    }

    /** The packets of one list, or None where the source writes over the end of its buffer. */
    method SendServers(lib: Libc, servers: seq<Server>, numServers: nat, cryptchal: seq<byte>, servchal: seq<byte>)
      returns (sent: Option<seq<seq<byte>>>)
      requires Valid() && |cryptchal| == CRYPTCHAL && |servchal| == SERVCHAL
      requires numServers >= |servers|  // it counts all servers known, listed or not
      modifies this`cryptHeaderSent, this`headerLen, this`deleted, challenge, encxkeyb
      ensures Valid() && (sent.None? <==> game.Some? && queryGame.Some? && !old(Roomy(lib, servers)))
      ensures game.None? || queryGame.None? ==>
        sent == Some([ERRORTEXT]) && deleted && encxkeyb[..] == old(encxkeyb[..]) && cryptHeaderSent == old(cryptHeaderSent)
      ensures game.Some? && queryGame.Some? && sent.Some? ==>
        deleted == old(deleted) && cryptHeaderSent &&
        var head := if old(cryptHeaderSent) then [] else CryptHeader(queryGame.value.backendflags, cryptchal, servchal);
        var k := if old(cryptHeaderSent) then old(encxkeyb[..]) else SessionKey(game.value.secretkey, old(challenge[..CHALLENGELEN]), servchal);
        var c := Code(Encrypt, k, Payload(lib, fromip, queryGame.value.queryport, fieldlist, Picked(servers, maxservers)));
        Flatten(sent.value) == head + c.out && encxkeyb[..] == c.key
    {
      hide CryptHeader, SessionKey, Code, Intro, Payload, Flatten, Picked, Progress, FitsFrom;
      if game.None? || queryGame.None? {
        deleted := true;
        return Some([ERRORTEXT]);
      }
      var queryport := queryGame.value.queryport;
      var buff := new byte[2 * MAXOUT](_ => 0);
      var len := 0;
      if !cryptHeaderSent {
        len := SetupCryptHeader(buff, cryptchal, servchal);
      }
      ghost var head, k := buff[..headerLen], encxkeyb[..];
      assert len == headerLen && (old(cryptHeaderSent) ==> head == []);
      if len + |Intro(fromip, queryport, fieldlist)| > buff.Length {
        NoRoom(lib, queryport, fieldlist, len + |Intro(fromip, queryport, fieldlist)|, Picked(servers, maxservers));
        return None;
      }
      len := WriteIntro(buff, len, fromip, queryport, fieldlist);
      Behind(buff[..len], head, Intro(fromip, queryport, fieldlist));
      assert buff[..len][headerLen..] == buff[headerLen..len] && buff[..len][..headerLen] == buff[..headerLen];
      Beginning(head, k, Intro(fromip, queryport, fieldlist));
      assert Progress([], buff[..headerLen], buff[headerLen..len], head, k, encxkeyb[..], [], Intro(fromip, queryport, fieldlist));
      sent := SendRecords(lib, queryport, servers, numServers, buff, len, head, k);
      if sent == None {
        return;
      }
      AllSent(sent.value, buff, head, k, Payload(lib, fromip, queryport, fieldlist, Picked(servers, maxservers)));
    }
  }
}
