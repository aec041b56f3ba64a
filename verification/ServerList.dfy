/** The server list on the wire: the encoder of the server browser and the parser of the
    list decoder. */
module ServerList {
  import opened Bits
  import opened Text

  const BACKSLASH: byte := 0x5c
  const MAXOUT := 1022  // MAX_OUTGOING_REQUEST_SIZE
  const MAXFIELD := 257  // sizeof(field)

  const PRIVATE_IP: byte := 2
  const NEGOTIATE: byte := 4
  const PORT: byte := 16
  const PRIVATE_PORT: byte := 32
  const KEYS: byte := 64

  type short = x: int | 0 <= x < 0x1_0000

  /** Memory bytes of integers on a little-endian machine. */
  function Le16(x: short): (s: seq<byte>)
    ensures |s| == 2
  {
    [x % 0x100, x / 0x100]
  }

  function Le32(x: word): (s: seq<byte>)
    ensures |s| == 4
  {
    [Lane(x, 0), Lane(x, 1), Lane(x, 2), Lane(x, 3)]
  }

  /** reverse_endian16, also htons */
  function Reverse16(x: short): short {
    x % 0x100 * 0x100 + x / 0x100
  }

  /** Library routines that the encoder calls on key values. */
  datatype Libc = Libc(atoi: cstring -> int, inetAddr: cstring -> word, decimal: word -> cstring)

  datatype Server = Server(ip: word, port: short, keys: seq<(cstring, cstring)>, country: cstring, region: word)

  // ---------- The field list ----------

  /** The pieces of a field list without its leading backslash; nothing follows a
      backslash at the end. */
  function Segments(s: cstring): seq<cstring>
    decreases |s|
  {
    if s == [] then []
    else
      var i := Find(s, BACKSLASH);
      if i == |s| then [s] else [s[..i]] + Segments(s[i + 1..])
  }

  function Fields(fieldlist: cstring): seq<cstring> {
    Segments(if fieldlist != [] && fieldlist[0] == BACKSLASH then fieldlist[1..] else fieldlist)
  }

  /** What strncpy leaves in a zeroed buffer of MAXFIELD bytes. */
  function Truncated(s: cstring): cstring {
    s[..|s| % MAXFIELD]
  }

  /** find_param by index */
  method FindParam(num: nat, buff: cstring) returns (dst: Option<cstring>)
    ensures dst == if num < |Fields(buff)| then Some(Truncated(Fields(buff)[num])) else None
  {
    ghost var fields := Fields(buff);
    var p := if buff != [] && buff[0] == BACKSLASH then 1 else 0;
    var i := 0;
    assert fields == Segments(buff[p..]) by { assert buff[0..] == buff; }
    NoSegments();
    hide Fields, Truncated, Find, Segments;
    while p < |buff|
      invariant p <= |buff| && i <= num && i <= |fields| && fields[i..] == Segments(buff[p..])
    {
      var rest: cstring := buff[p..];
      var loc := Find(rest, BACKSLASH);
      FirstSegment(rest);
      assert fields[i] == fields[i..][0] == rest[..loc];
      if i == num {
        return Some(Truncated(rest[..loc]));
      }
      assert fields[i + 1..] == fields[i..][1..];
      i := i + 1;
      if loc == |rest| {
        break;
      }
      assert rest[loc + 1..] == buff[p + loc + 1..];
      p := p + loc + 1;
    }
    dst := None;
  }

  lemma NoSegments()
    ensures Segments([]) == []
  {
  }

  lemma FirstSegment(s: cstring)
    requires s != []
    ensures var i := Find(s, BACKSLASH); var segs := Segments(s);
      segs != [] && segs[0] == s[..i] && segs[1..] == if i < |s| then Segments(s[i + 1..]) else []
  {
    hide Segments, Find;
    var i := Find(s, BACKSLASH);
    SegmentsUnfold(s);
    if i == |s| {
      assert s[..i] == s;
      Headed(s, []);
    } else {
      Headed(s[..i], Segments(s[i + 1..]));
    }
  }

  lemma SegmentsUnfold(s: cstring)
    requires s != []
    ensures var i := Find(s, BACKSLASH);
      Segments(s) == if i == |s| then [s] + [] else [s[..i]] + Segments(s[i + 1..])
  {
    hide Find;
  }

  lemma Headed<T>(x: T, rest: seq<T>)
    ensures ([x] + rest)[0] == x && ([x] + rest)[1..] == rest
  {
  }

  method CountChar(str: seq<byte>, ch: byte) returns (x: nat)
    ensures x == Count(str, ch)
  {
    x := 0;
    var i := 0;
    while i < |str|
      invariant i <= |str| && x + Count(str[i..], ch) == Count(str, ch)
    {
      if str[i] == ch {
        x := x + 1;
      }
      i := i + 1;
    }
  }

  // ---------- What the encoder writes ----------

  function Nts(s: cstring): (r: seq<byte>)
    ensures |r| == |s| + 1
  {
    s + [0]
  }

  /** The first value kept under a name. */
  function FindValue(keys: seq<(cstring, cstring)>, name: cstring): Option<cstring> {
    if keys == [] then None
    else if keys[0].0 == name then Some(keys[0].1)
    else FindValue(keys[1..], name)
  }

  /** strcasecmp found no difference. */
  predicate SameIgnoringCase(a: cstring, b: cstring) {
    |a| == |b| && forall i :: 0 <= i < |a| ==> Lower(a[i]) == Lower(b[i])
  }

  const NATNEG: cstring := [0x6e, 0x61, 0x74, 0x6e, 0x65, 0x67]
  const LOCALIP0: cstring := [0x6c, 0x6f, 0x63, 0x61, 0x6c, 0x69, 0x70, 0x30]
  const HOSTPORT: cstring := [0x68, 0x6f, 0x73, 0x74, 0x70, 0x6f, 0x72, 0x74]
  const LOCALPORT: cstring := [0x6c, 0x6f, 0x63, 0x61, 0x6c, 0x70, 0x6f, 0x72, 0x74]
  const COUNTRY: cstring := [0x63, 0x6f, 0x75, 0x6e, 0x74, 0x72, 0x79]
  const REGION: cstring := [0x72, 0x65, 0x67, 0x69, 0x6f, 0x6e]

  function FieldValue(lib: Libc, s: Server, field: cstring): cstring {
    if SameIgnoringCase(field, COUNTRY) then s.country
    else if SameIgnoringCase(field, REGION) then lib.decimal(s.region)
    else match FindValue(s.keys, field)
      case Some(v) => v
      case None => []
  }

  /** A port number read from a key, in network order. */
  function NetPort(lib: Libc, text: cstring): short {
    Reverse16(lib.atoi(text) % 0x1_0000)
  }

  /** The port a server is reached at, in network order. */
  function HostPort(lib: Libc, s: Server): short {
    match FindValue(s.keys, HOSTPORT)
    case Some(v) => NetPort(lib, v)
    case None => s.port
  }

  datatype Parts = Parts(natneg: bool, privip: Option<word>, hostport: short, localport: Option<short>)

  /** What a record says beside the address; the ports only where they are not the
      default. */
  function PartsOf(lib: Libc, queryport: short, s: Server): Parts {
    Parts(
      match FindValue(s.keys, NATNEG) case Some(v) => lib.atoi(v) != 0 case None => false,
      match FindValue(s.keys, LOCALIP0) case Some(v) => (if lib.inetAddr(v) != s.ip then Some(lib.inetAddr(v)) else None) case None => None,
      HostPort(lib, s),
      match FindValue(s.keys, LOCALPORT) case Some(v) => (if NetPort(lib, v) != Reverse16(queryport) then Some(NetPort(lib, v)) else None) case None => None)
  }

  /** Distinct bits: or-ing them in is adding. */
  function Flags(queryport: short, p: Parts): (f: byte)
    ensures f >= KEYS
  {
    KEYS + (if p.natneg then NEGOTIATE else 0) + (if p.privip.Some? then PRIVATE_IP else 0) +
    (if p.hostport != Reverse16(queryport) then PORT else 0) + (if p.localport.Some? then PRIVATE_PORT else 0)
  }

  function Values(lib: Libc, s: Server, fields: seq<cstring>): seq<byte> {
    if fields == [] then []
    else Values(lib, s, fields[..|fields| - 1]) + [0xff] + Nts(FieldValue(lib, s, Truncated(fields[|fields| - 1])))
  }

  function Fixed(queryport: short, s: Server, p: Parts): seq<byte> {
    [Flags(queryport, p)] + Le32(s.ip) +
    (if p.hostport != Reverse16(queryport) then Le16(p.hostport) else []) +
    (match p.privip case Some(v) => Le32(v) case None => []) +
    (match p.localport case Some(v) => Le16(v) case None => [])
  }

  function Record(lib: Libc, queryport: short, fieldlist: cstring, s: Server): seq<byte> {
    Fixed(queryport, s, PartsOf(lib, queryport, s)) + Values(lib, s, Fields(fieldlist))
  }

  function Records(lib: Libc, queryport: short, fieldlist: cstring, servers: seq<Server>): seq<byte> {
    if servers == [] then []
    else Records(lib, queryport, fieldlist, servers[..|servers| - 1]) + Record(lib, queryport, fieldlist, servers[|servers| - 1])
  }

  /** The first num names of the field table, each followed by two null bytes. */
  function Names(fields: seq<cstring>, num: nat): seq<byte> {
    if num == 0 then []
    else Names(fields, num - 1) + if num <= |fields| then Nts(Truncated(fields[num - 1])) + [0] else []
  }

  function Intro(fromip: word, queryport: short, fieldlist: cstring): seq<byte> {
    var num := Count(fieldlist, BACKSLASH) % 0x1_0000;
    Le32(fromip) + Le16(Reverse16(queryport)) + Le16(num) + Names(Fields(fieldlist), num)
  }

  const END: seq<byte> := [0, 0xff, 0xff, 0xff, 0xff]

  function Payload(lib: Libc, fromip: word, queryport: short, fieldlist: cstring, servers: seq<Server>): seq<byte> {
    Intro(fromip, queryport, fieldlist) + Records(lib, queryport, fieldlist, servers) + END
  }

  // ---------- What the parser reads ----------

  /** The list of addresses and ports in six bytes each, or why there is none. The last
      outcome is that of data that ends too early, where the source reads beyond it. */
  datatype Parsed = Servers(out: seq<byte>) | ServerError | TooShort | Overrun

  /** What follows a string and its terminator. */
  function AfterString(d: seq<byte>): (r: Option<seq<byte>>)
    ensures r.Some? ==> |r.value| < |d|
  {
    if d == [] then None else if d[0] == 0 then Some(d[1..]) else AfterString(d[1..])
  }

  /** n types and names; the types are kept. */
  function ReadTypes(d: seq<byte>, n: nat): (r: Option<(seq<byte>, seq<byte>)>)
    ensures r.Some? ==> |r.value.1| <= |d| && |r.value.0| <= n
    decreases n, |d|
  {
    if n == 0 || d == [] then Some(([], d))
    else match AfterString(d[1..])
      case None => None
      case Some(rest) =>
        match ReadTypes(rest, n - 1)
        case None => None
        case Some(r) => Some(([d[0]] + r.0, r.1))
  }

  function ReadStrings(d: seq<byte>, n: nat): (r: Option<seq<byte>>)
    ensures r.Some? ==> |r.value| <= |d|
    decreases n, |d|
  {
    if n == 0 || d == [] then Some(d)
    else match AfterString(d)
      case None => None
      case Some(rest) => ReadStrings(rest, n - 1)
  }

  /** One value for each of the types: a string if both say so. */
  function ReadValues(d: seq<byte>, types: seq<byte>): (r: Option<seq<byte>>)
    ensures r.Some? ==> |r.value| <= |d|
    decreases |types|
  {
    if types == [] || d == [] then Some(d)
    else if types[0] == 0 && d[0] == 0xff then
      match AfterString(d[1..])
      case None => None
      case Some(rest) => ReadValues(rest, types[1..])
    else ReadValues(d[1..], types[1..])
  }

  predicate Has(t: byte, flag: byte)
    requires flag > 0
  {
    t / flag % 2 == 1
  }

  /** The length of a record without its values, flags included. */
  function FixedLength(t: byte): (n: nat)
    ensures n >= 5
  {
    (if Has(t, PRIVATE_IP) then 9 else 5) + (if Has(t, 8) then 4 else 0) +
    (if Has(t, PORT) then 2 else 0) + (if Has(t, PRIVATE_PORT) then 2 else 0)
  }

  function Drop(d: seq<byte>, n: nat): seq<byte> {
    if n <= |d| then d[n..] else []
  }

  function Prepend(a: seq<byte>, p: Parsed): Parsed {
    match p
    case Servers(out) => Servers(a + out)
    case _ => p
  }

  lemma PrependTwice(a: seq<byte>, b: seq<byte>, p: Parsed)
    ensures Prepend(a, Prepend(b, p)) == Prepend(a + b, p) && Prepend([], p) == p
  {
    match p
    case Servers(out) => assert a + (b + out) == a + b + out && [] + out == out;
    case _ =>
  }

  function ReadServers(d: seq<byte>, types: seq<byte>, port: seq<byte>): Parsed
    requires |port| == 2
    decreases |d|
  {
    if d == [] then Servers([])
    else
      var t, r := d[0], d[1..];
      if |r| < (if Has(t, PORT) then 6 else 4) then Overrun
      else if t == 0 && r[..4] == END[1..] then Servers([])
      else
        var address := r[..4] + if Has(t, PORT) then r[4..6] else port;
        var rest := Drop(r, FixedLength(t) - 1);
        match if Has(t, KEYS) then ReadValues(rest, types) else Some(rest)
        case None => Overrun
        case Some(next) =>
          Prepend(address, ReadServers(next, types, port))
  }

  /** enctypex_decoder_convert_to_ipport with an output buffer. */
  function Parse(d: seq<byte>): Parsed {
    if |d| < 6 then TooShort
    else if d[4..6] == [0xff, 0xff] then ServerError
    else
      match if |d| == 6 then Some(([], [])) else ReadTypes(d[7..], d[6])
      case None => Overrun
      case Some(types) =>
        match if types.1 == [] then Some([]) else ReadStrings(types.1[1..], types.1[0])
        case None => Overrun
        case Some(rest) => ReadServers(rest, types.0, d[4..6])
  }

  // ---------- The round trip ----------

  /** The table of fields counts what it lists: the condition on the field list that
      makes the list readable. */
  predicate Consistent(fieldlist: cstring) {
    Count(fieldlist, BACKSLASH) == |Fields(fieldlist)| <= 255
  }

  /** The addresses and ports of servers, six bytes each. */
  function Addresses(lib: Libc, servers: seq<Server>): seq<byte> {
    if servers == [] then []
    else Addresses(lib, servers[..|servers| - 1]) + Le32(servers[|servers| - 1].ip) + Le16(HostPort(lib, servers[|servers| - 1]))
  }

  lemma {:induction false} AfterNts(s: cstring, rest: seq<byte>)
    ensures AfterString(Nts(s) + rest) == Some(rest)
    decreases |s|
  {
    var d := Nts(s) + rest;
    if s == [] {
      assert d[1..] == rest;
    } else {
      assert d[1..] == Nts(s[1..]) + rest;
      AfterNts(s[1..], rest);
    }
  }

  /** Values of n string fields are skipped one by one. */
  lemma {:induction false} ValuesRead(lib: Libc, s: Server, fields: seq<cstring>, rest: seq<byte>, types: seq<byte>)
    ensures ReadValues(Values(lib, s, fields) + rest, Zeros(|fields|) + types) == ReadValues(rest, types)
    decreases |fields|
  {
    hide FieldValue, Truncated, AfterString;
    if fields == [] {
      assert Values(lib, s, fields) + rest == rest && Zeros(0) + types == types;
    } else {
      var i := |fields| - 1;
      var v := FieldValue(lib, s, Truncated(fields[i]));
      var one := [0xff] + Nts(v) + rest;
      var ts := [0] + types;
      assert Values(lib, s, fields) + rest == Values(lib, s, fields[..i]) + one;
      assert Zeros(|fields|) + types == Zeros(i) + ts;
      ValuesRead(lib, s, fields[..i], one, ts);
      assert one[1..] == Nts(v) + rest && ts[1..] == types;
      AfterNts(v, rest);
    }
  }

  /** The null byte before a name is read as its type: the second null byte behind the
      previous name, or the high byte of the count. */
  lemma {:induction false} NamesRead(fields: seq<cstring>, n: nat, rest: seq<byte>, m: nat)
    requires n <= |fields|
    ensures ReadTypes([0] + Names(fields, n) + rest, n + m) ==
      match ReadTypes([0] + rest, m) case None => None case Some(r) => Some((Zeros(n) + r.0, r.1))
    decreases n
  {
    hide Truncated, ReadTypes;
    if n == 0 {
      assert [0] + Names(fields, 0) + rest == [0] + rest;
      match ReadTypes([0] + rest, m) {
        case None =>
        case Some(r) => assert Zeros(0) + r.0 == r.0;
      }
    } else {
      var name := Truncated(fields[n - 1]);
      var one := Nts(name) + [0] + rest;
      assert [0] + Names(fields, n) + rest == [0] + Names(fields, n - 1) + one;
      NamesRead(fields, n - 1, one, m + 1);
      OneName(name, rest, m);
      match ReadTypes([0] + rest, m) {
        case None =>
        case Some(r) => assert Zeros(n - 1) + ([0] + r.0) == Zeros(n) + r.0;
      }
    }
  }

  lemma OneName(name: cstring, rest: seq<byte>, m: nat)
    ensures ReadTypes([0] + (Nts(name) + [0] + rest), m + 1) ==
      match ReadTypes([0] + rest, m) case None => None case Some(r) => Some(([0] + r.0, r.1))
  {
    hide AfterString;
    assert ([0] + (Nts(name) + [0] + rest))[1..] == Nts(name) + ([0] + rest);
    AfterNts(name, [0] + rest);
  }

  lemma FlagBits(queryport: short, p: Parts)
    ensures var t := Flags(queryport, p);
      Has(t, KEYS) && !Has(t, 8) && t != 0 && (Has(t, PRIVATE_IP) <==> p.privip.Some?) &&
      (Has(t, PORT) <==> p.hostport != Reverse16(queryport)) && (Has(t, PRIVATE_PORT) <==> p.localport.Some?)
  {
  }

  lemma FixedLengthIs(queryport: short, p: Parts)
    ensures FixedLength(Flags(queryport, p)) == 5 + (if p.hostport != Reverse16(queryport) then 2 else 0) +
      (if p.privip.Some? then 4 else 0) + (if p.localport.Some? then 2 else 0)
  {
    FlagBits(queryport, p);
    hide Has, Flags, Reverse16;
  }

  lemma FixedRead(queryport: short, s: Server, p: Parts, rest: seq<byte>)
    ensures var t, r := Flags(queryport, p), (Fixed(queryport, s, p) + rest)[1..];
      (Fixed(queryport, s, p) + rest)[0] == t && |r| >= (if Has(t, PORT) then 6 else 4) &&
      r[..4] + (if Has(t, PORT) then r[4..6] else Le16(Reverse16(queryport))) == Le32(s.ip) + Le16(p.hostport) &&
      Drop(r, FixedLength(t) - 1) == rest
  {
    FlagBits(queryport, p);
    FixedLengthIs(queryport, p);
    hide Has, Flags, Reverse16, Lane, FixedLength, Le16, Le32;
    var b := if p.hostport != Reverse16(queryport) then Le16(p.hostport) else [];
    var c := match p.privip case Some(v) => Le32(v) case None => [];
    var d := match p.localport case Some(v) => Le16(v) case None => [];
    assert (Fixed(queryport, s, p) + rest)[1..] == Le32(s.ip) + b + c + d + rest;
    Pieces(Le32(s.ip), b, c, d, rest);
  }

  lemma Pieces<T>(a: seq<T>, b: seq<T>, c: seq<T>, d: seq<T>, rest: seq<T>)
    ensures var r := a + b + c + d + rest;
      r[..|a|] == a && r[|a|..|a| + |b|] == b && r[|a| + |b| + |c| + |d|..] == rest
  {
  }

  /** Reading one record yields its address and goes on behind its values. */
  lemma RecordRead(lib: Libc, queryport: short, s: Server, fields: seq<cstring>, rest: seq<byte>, types: seq<byte>,
           port: seq<byte>)
    requires types == Zeros(|fields|) && port == Le16(Reverse16(queryport))
    ensures ReadServers(Fixed(queryport, s, PartsOf(lib, queryport, s)) + (Values(lib, s, fields) + rest), types, port) ==
      Prepend(Le32(s.ip) + Le16(HostPort(lib, s)), ReadServers(rest, types, port))
  {
    hide Zeros;
    var p := PartsOf(lib, queryport, s);
    var vs := Values(lib, s, fields);
    var d := Fixed(queryport, s, p) + (vs + rest);
    FlagBits(queryport, p);
    FixedRead(queryport, s, p, vs + rest);
    assert p.hostport == HostPort(lib, s);
    hide PartsOf, Flags, Fixed, Values, Has, HostPort, Le16, Le32, Reverse16, FixedLength, Drop;
    assert types + [] == types;
    ValuesRead(lib, s, fields, rest, []);
    assert ReadValues(rest, []) == Some(rest);
    hide ReadValues;
    var t, r := Flags(queryport, p), d[1..];
    assert ReadServers(d, types, port) == Prepend(r[..4] + if Has(t, PORT) then r[4..6] else port, ReadServers(rest, types, port));
  }

  lemma {:induction false} RecordsRead(lib: Libc, queryport: short, fieldlist: cstring, servers: seq<Server>,
           rest: seq<byte>, types: seq<byte>, port: seq<byte>)
    requires types == Zeros(|Fields(fieldlist)|) && port == Le16(Reverse16(queryport))
    ensures ReadServers(Records(lib, queryport, fieldlist, servers) + rest, types, port) ==
      Prepend(Addresses(lib, servers), ReadServers(rest, types, port))
    decreases |servers|
  {
    hide Fields, Zeros, Record, Reverse16, HostPort, Lane, ReadServers, Prepend, Le16, Le32;
    PrependTwice([], [], ReadServers(rest, types, port));
    if servers == [] {
      assert Records(lib, queryport, fieldlist, servers) + rest == rest;
    } else {
      var i := |servers| - 1;
      var init, last := servers[..i], servers[i];
      var one := Record(lib, queryport, fieldlist, last) + rest;
      var a, b := Addresses(lib, init), Le32(last.ip) + Le16(HostPort(lib, last));
      assert Records(lib, queryport, fieldlist, servers) + rest == Records(lib, queryport, fieldlist, init) + one;
      RecordRest(lib, queryport, fieldlist, last, rest);
      assert Addresses(lib, servers) == a + b;
      hide Records, Addresses;
      RecordsRead(lib, queryport, fieldlist, init, one, types, port);
      RecordRead(lib, queryport, last, Fields(fieldlist), rest, types, port);
      PrependTwice(a, b, ReadServers(rest, types, port));
    }
  }

  lemma RecordRest(lib: Libc, queryport: short, fieldlist: cstring, s: Server, rest: seq<byte>)
    ensures Record(lib, queryport, fieldlist, s) + rest ==
      Fixed(queryport, s, PartsOf(lib, queryport, s)) + (Values(lib, s, Fields(fieldlist)) + rest)
  {
    hide Fixed, Values, Fields, PartsOf;
  }

  /** If the table lists as many names as it counts, the records begin where it ends. */
  lemma ParseRecords(fromip: word, queryport: short, fieldlist: cstring, n: byte, body: seq<byte>)
    requires n == Count(fieldlist, BACKSLASH) % 0x1_0000 && n <= |Fields(fieldlist)|
    ensures Parse(Intro(fromip, queryport, fieldlist) + body) ==
      if queryport == 0xffff then ServerError else ReadServers(body, Zeros(n), Le16(Reverse16(queryport)))
  {
    hide Reverse16, Fields, Count, ReadServers, Intro;
    var d, names := Intro(fromip, queryport, fieldlist) + body, Names(Fields(fieldlist), n);
    FirstBytes(fromip, queryport, fieldlist, n, body);
    PortBytes(queryport);
    NamesRead(Fields(fieldlist), n, body, 0);
    NoTypes([0] + body);
    hide Names, ReadTypes;
    assert ([0] + body)[1..] == body && Zeros(n) + [] == Zeros(n);
    assert ReadTypes(d[7..], n) == Some((Zeros(n), [0] + body));
    assert ReadStrings(body, 0) == Some(body);
    hide Zeros, ReadStrings, Le16;
  }

  /** Parsing a whole payload yields exactly the addresses of the servers in order, unless
      the default port reads as the error mark, in which case it is an error. */
  lemma PayloadRead(lib: Libc, fromip: word, queryport: short, fieldlist: cstring, servers: seq<Server>)
    requires Consistent(fieldlist)
    ensures Parse(Payload(lib, fromip, queryport, fieldlist, servers)) ==
      if queryport == 0xffff then ServerError else Servers(Addresses(lib, servers))
  {
    hide Consistent, Parse, Payload, Addresses;
    var p := Payload(lib, fromip, queryport, fieldlist, servers);
    PayloadReadBefore(lib, fromip, queryport, fieldlist, servers, []);
    assert p + [] == p;
  }

  /** So does parsing data that goes on behind the payload. */
  lemma PayloadReadBefore(lib: Libc, fromip: word, queryport: short, fieldlist: cstring, servers: seq<Server>, rest: seq<byte>)
    requires Consistent(fieldlist)
    ensures Parse(Payload(lib, fromip, queryport, fieldlist, servers) + rest) ==
      if queryport == 0xffff then ServerError else Servers(Addresses(lib, servers))
  {
    hide Reverse16, Fields, Count, Records, Addresses, Intro, Zeros, ReadServers, Parse, Prepend;
    var n, port, end := |Fields(fieldlist)|, Le16(Reverse16(queryport)), END + rest;
    var body := Records(lib, queryport, fieldlist, servers) + end;
    assert Payload(lib, fromip, queryport, fieldlist, servers) + rest == Intro(fromip, queryport, fieldlist) + body;
    ParseRecords(fromip, queryport, fieldlist, n, body);
    RecordsRead(lib, queryport, fieldlist, servers, end, Zeros(n), port);
    EndRead(rest, Zeros(n), port);
    PrependIs(Addresses(lib, servers));
  }

  lemma PrependIs(a: seq<byte>)
    ensures Prepend(a, Servers([])) == Servers(a)
  {
    assert a + [] == a;
  }

  lemma NoTypes(d: seq<byte>)
    ensures ReadTypes(d, 0) == Some(([], d))
  {
  }

  lemma EndRead(rest: seq<byte>, types: seq<byte>, port: seq<byte>)
    requires |port| == 2
    ensures ReadServers(END + rest, types, port) == Servers([])
  {
    assert (END + rest)[1..][..4] == END[1..];
  }

  lemma PortBytes(queryport: short)
    ensures Le16(Reverse16(queryport)) == [0xff, 0xff] <==> queryport == 0xffff
  {
  }

  // ---------- Which field lists can be read back ----------

  predicate EndsOpen(s: seq<byte>) {
    s != [] && s[|s| - 1] != BACKSLASH
  }

  /** There is one segment per backslash and one more after the last, unless nothing
      follows that. */
  lemma {:induction false} SegmentCount(s: cstring)
    ensures |Segments(s)| == Count(s, BACKSLASH) + if EndsOpen(s) then 1 else 0
    decreases |s|
  {
    hide Find;
    if s != [] {
      var i := Find(s, BACKSLASH);
      CountNone(s[..i], BACKSLASH);
      if i == |s| {
        assert s[..i] == s;
        assert s[|s| - 1] in s;
      } else {
        assert s == s[..i] + ([BACKSLASH] + s[i + 1..]);
        CountConcat(s[..i], [BACKSLASH] + s[i + 1..], BACKSLASH);
        assert ([BACKSLASH] + s[i + 1..])[1..] == s[i + 1..];
        SegmentCount(s[i + 1..]);
      }
    }
  }

  /** The guard that makes the two counts differ: a leading backslash without an open end,
      or the other way round. */
  lemma FieldCount(fieldlist: cstring)
    ensures var lead := fieldlist != [] && fieldlist[0] == BACKSLASH;
      var open := EndsOpen(if lead then fieldlist[1..] else fieldlist);
      |Fields(fieldlist)| == Count(fieldlist, BACKSLASH) + (if open then 1 else 0) - (if lead then 1 else 0)
  {
    hide Segments;
    SegmentCount(if fieldlist != [] && fieldlist[0] == BACKSLASH then fieldlist[1..] else fieldlist);
  }

  /** Every name with a backslash before it. */
  function FieldList(names: seq<cstring>): cstring {
    if names == [] then [] else [BACKSLASH] + names[0] + FieldList(names[1..])
  }

  lemma FieldListIs(names: seq<cstring>)
    ensures FieldList(names) == if names == [] then [] else [BACKSLASH] + (names[0] + FieldList(names[1..]))
  {
    if names != [] {
      Associate([BACKSLASH], names[0], FieldList(names[1..]));
    }
  }

  /** The fields of a list of the usual form are the names it was made of. */
  lemma {:induction false} FieldsOf(names: seq<cstring>)
    requires forall n :: n in names ==> n != [] && BACKSLASH !in n
    ensures Fields(FieldList(names)) == names
    decreases |names|
  {
    hide FieldList, Fields, Segments;
    FieldListIs(names);
    if names == [] {
      NoFields();
    } else {
      var n, rest := names[0], FieldList(names[1..]);
      assert n in names && forall m :: m in names[1..] ==> m in names;
      FieldsOf(names[1..]);
      FieldListIs(names[1..]);
      if names[1..] != [] {
        FieldsBehind(names[1] + FieldList(names[1..][1..]));
      }
      FieldsBehind(n + rest);
      OneMoreField(n, rest, names[1..]);
      assert names == [n] + names[1..];
    }
  }

  lemma NoFields()
    ensures Fields([]) == []
  {
  }

  lemma FieldsBehind(s: cstring)
    ensures Fields([BACKSLASH] + s) == Segments(s) && ([BACKSLASH] + s)[1..] == s
  {
    hide Segments;
    assert ([BACKSLASH] + s)[1..] == s;
  }

  lemma OneMoreField(n: cstring, rest: cstring, names: seq<cstring>)
    requires n != [] && BACKSLASH !in n
    requires if rest == [] then names == [] else rest[0] == BACKSLASH && Segments(rest[1..]) == names
    ensures Segments(n + rest) == [n] + names
  {
    hide Segments, Find;
    FirstBackslash(n, rest);
    SegmentsUnfold(n + rest);
    assert (n + rest)[..|n|] == n;
    if rest == [] {
      assert n + rest == n;
    } else {
      assert (n + rest)[|n| + 1..] == rest[1..];
    }
  }

  lemma {:induction false} FirstBackslash(n: seq<byte>, rest: seq<byte>)
    requires BACKSLASH !in n && (rest != [] ==> rest[0] == BACKSLASH)
    ensures Find(n + rest, BACKSLASH) == |n|
    decreases |n|
  {
    if n == [] {
      assert n + rest == rest;
    } else {
      assert (n + rest)[1..] == n[1..] + rest;
      FirstBackslash(n[1..], rest);
    }
  }

  /** Field lists of the usual form can be read back. */
  lemma UsualListIsConsistent(names: seq<cstring>)
    requires |names| <= 255 && forall n :: n in names ==> n != [] && BACKSLASH !in n
    ensures Consistent(FieldList(names))
  {
    hide Count, Fields;
    FieldListCount(names);
    FieldListIsOpen(names);
    FieldCount(FieldList(names));
  }

  lemma {:induction false} FieldListCount(names: seq<cstring>)
    requires forall n :: n in names ==> n != [] && BACKSLASH !in n
    ensures Count(FieldList(names), BACKSLASH) == |names|
    decreases |names|
  {
    hide Count, FieldList;
    FieldListIs(names);
    if names == [] {
      CountNone([], BACKSLASH);
    } else {
      var n, rest := names[0], FieldList(names[1..]);
      assert n in names && forall m :: m in names[1..] ==> m in names;
      FieldListCount(names[1..]);
      CountNone(n, BACKSLASH);
      CountConcat(n, rest, BACKSLASH);
      CountFirst(BACKSLASH, n + rest);
    }
  }

  lemma CountFirst(c: byte, s: seq<byte>)
    ensures Count([c] + s, c) == Count(s, c) + 1
  {
    assert ([c] + s)[1..] == s;
  }

  lemma {:induction false} FieldListIsOpen(names: seq<cstring>)
    requires forall n :: n in names ==> n != [] && BACKSLASH !in n
    ensures var s := FieldList(names); if names == [] then s == [] else s[0] == BACKSLASH && EndsOpen(s[1..])
    decreases |names|
  {
    hide FieldList, EndsOpen;
    FieldListIs(names);
    if names != [] {
      var n, rest := names[0], FieldList(names[1..]);
      assert n in names && forall m :: m in names[1..] ==> m in names;
      FieldListIsOpen(names[1..]);
      OpenEnd(n, rest);
      assert ([BACKSLASH] + (n + rest))[1..] == n + rest;
    }
  }

  lemma OpenEnd(n: seq<byte>, rest: seq<byte>)
    requires n != [] && BACKSLASH !in n && (rest != [] ==> EndsOpen(rest[1..]))
    ensures EndsOpen(n + rest)
  {
    if rest == [] {
      assert n + rest == n;
      assert n[|n| - 1] in n;
    } else {
      assert (n + rest)[|n + rest| - 1] == rest[|rest| - 1] == rest[1..][|rest| - 2];
    }
  }

  /** A list without the condition cannot be read back: whatever the servers look like,
      an empty list of servers or a list of one is parsed as something else. */
  lemma InconsistentIsUnreadable(lib: Libc, fromip: word, queryport: short, fieldlist: cstring, s: Server)
    returns (servers: seq<Server>)
    requires !Consistent(fieldlist)
    ensures servers == [] || servers == [s]
    ensures Parse(Payload(lib, fromip, queryport, fieldlist, servers)) != Servers(Addresses(lib, servers))
  {
    hide Parse, Payload, Count, Fields, Addresses;
    var n := Count(fieldlist, BACKSLASH) % 0x1_0000;
    FieldCount(fieldlist);
    hide EndsOpen;
    if n > 255 {
      servers := TableTooLong(lib, fromip, queryport, fieldlist, s);
    } else if |Fields(fieldlist)| < n {
      servers := [];
      TooFewNames(lib, fromip, queryport, fieldlist);
    } else {
      servers := [s];
      TooManyValues(lib, fromip, queryport, fieldlist, s);
    }
  }

  /** Exactly which lists are read back for all servers. */
  lemma ReadableExactly(lib: Libc, fromip: word, queryport: short, fieldlist: cstring, s: Server)
    ensures Consistent(fieldlist) && queryport != 0xffff <==>
            forall servers :: Parse(Payload(lib, fromip, queryport, fieldlist, servers)) == Servers(Addresses(lib, servers))
  {
    hide Consistent, Parse, Payload, Addresses;
    if Consistent(fieldlist) {
      forall servers ensures Parse(Payload(lib, fromip, queryport, fieldlist, servers)) ==
                             if queryport == 0xffff then ServerError else Servers(Addresses(lib, servers)) {
        PayloadRead(lib, fromip, queryport, fieldlist, servers);
      }
      assert queryport == 0xffff ==> Parse(Payload(lib, fromip, queryport, fieldlist, [])) == ServerError;
    } else {
      var servers := InconsistentIsUnreadable(lib, fromip, queryport, fieldlist, s);
    }
  }

  /** With a backslash at the end, the parser takes the end mark for a field. */
  lemma TooFewNames(lib: Libc, fromip: word, queryport: short, fieldlist: cstring)
    requires 1 <= Count(fieldlist, BACKSLASH) <= 255 && |Fields(fieldlist)| == Count(fieldlist, BACKSLASH) - 1
    ensures !Parse(Payload(lib, fromip, queryport, fieldlist, [])).Servers?
  {
    hide Lane, Reverse16, Fields, Count, ReadServers, Le32, Le16, Intro, AfterString, ReadTypes, ReadStrings, Records;
    var fields, n := Fields(fieldlist), Count(fieldlist, BACKSLASH);
    var d, names := Payload(lib, fromip, queryport, fieldlist, []), Names(fields, n - 1);
    assert Names(fields, n) == names;
    hide Names;
    FirstBytes(fromip, queryport, fieldlist, n, END);
    NoRecordsOf(lib, queryport, fieldlist);
    assert d == Intro(fromip, queryport, fieldlist) + END;
    hide Payload;
    NamesRead(fields, n - 1, END, 1);
    ReadEnd();
    assert n / 0x100 == 0;
    assert ReadTypes(d[7..], n).Some? && ReadTypes(d[7..], n).value.1 == [0xff, 0xff, 0xff, 0xff];
  }

  lemma NoRecordsOf(lib: Libc, queryport: short, fieldlist: cstring)
    ensures Records(lib, queryport, fieldlist, []) == []
  {
  }

  /** The end mark read as a type, a name and a number of strings. */
  lemma ReadEnd()
    ensures ReadTypes([0] + END, 1) == Some(([0], [0xff, 0xff, 0xff, 0xff]))
    ensures ReadStrings([0xff, 0xff, 0xff, 0xff][1..], 0xff) == None
  {
    var rest: seq<byte> := [0xff, 0xff, 0xff, 0xff];
    assert ([0] + END)[1..] == END;
    assert AfterString(END) == Some(rest) by { assert END[1..] == rest; }
    NoTypes(rest);
    assert [0] + [] == [0 as byte];
    assert rest[1..] == [0xff, 0xff, 0xff];
    assert AfterString(rest[1..]) == None by {
      assert [0xff as byte, 0xff, 0xff][1..] == [0xff, 0xff];
      assert [0xff as byte, 0xff][1..] == [0xff];
      assert [0xff as byte][1..] == [];
    }
  }

  /** Without a backslash at the start, a record has a value too many, which is read as
      another server. So it is for the values that a wrapped count does not cover. */
  lemma TooManyValues(lib: Libc, fromip: word, queryport: short, fieldlist: cstring, s: Server)
    requires Count(fieldlist, BACKSLASH) % 0x1_0000 <= 255 && |Fields(fieldlist)| > Count(fieldlist, BACKSLASH) % 0x1_0000
    ensures Parse(Payload(lib, fromip, queryport, fieldlist, [s])) != Servers(Addresses(lib, [s]))
  {
    hide Fields, Count, Records, Intro, Parse, ReadServers, Zeros, HostPort, PartsOf, Values, Addresses, Fixed, Reverse16;
    hide Le16, Le32, Payload;
    var fields, n := Fields(fieldlist), Count(fieldlist, BACKSLASH) % 0x1_0000;
    var port, types := Le16(Reverse16(queryport)), Zeros(n);
    OneRecord(lib, queryport, fieldlist, s);
    var extra := MissedValues(lib, s, fields, n);
    var fixed := Fixed(queryport, s, PartsOf(lib, queryport, s));
    var body := fixed + (Values(lib, s, fields[..n]) + (extra + END));
    assert Records(lib, queryport, fieldlist, [s]) + END == body;
    PayloadIs(lib, fromip, queryport, fieldlist, [s]);
    ParseRecords(fromip, queryport, fieldlist, n, body);
    RecordRead(lib, queryport, s, fields[..n], extra + END, types, port);
    ServerRead(extra + END, types, port);
  }

  /** The values behind the first n start with the mark of a string. */
  lemma {:induction false} MissedValues(lib: Libc, s: Server, fields: seq<cstring>, n: nat) returns (extra: seq<byte>)
    requires n < |fields|
    ensures Values(lib, s, fields) == Values(lib, s, fields[..n]) + extra && extra != [] && extra[0] == 0xff
    decreases |fields|
  {
    hide FieldValue, Truncated;
    var i := |fields| - 1;
    var last := [0xff] + Nts(FieldValue(lib, s, Truncated(fields[i])));
    assert Values(lib, s, fields) == Values(lib, s, fields[..i]) + last;
    hide Values;
    extra := last;
    if n < i {
      var more := MissedValues(lib, s, fields[..i], n);
      assert fields[..i][..n] == fields[..n];
      extra := more + last;
    }
  }

  /** A count that does not fit its byte: names are left where the first record should be,
      so that the list of servers either starts or ends there, whatever was listed. */
  lemma TableTooLong(lib: Libc, fromip: word, queryport: short, fieldlist: cstring, s: Server) returns (servers: seq<Server>)
    requires Count(fieldlist, BACKSLASH) % 0x1_0000 > 255
    ensures servers == [] || servers == [s]
    ensures Parse(Payload(lib, fromip, queryport, fieldlist, servers)) != Servers(Addresses(lib, servers))
  {
    hide Fields, Count, Records, Intro, Parse, ReadServers, Names, Payload, Addresses, EndsOpen, LeftOver, Reverse16, Le16;
    var n := Count(fieldlist, BACKSLASH) % 0x1_0000;
    var none, one := Records(lib, queryport, fieldlist, []) + END, Records(lib, queryport, fieldlist, [s]) + END;
    PayloadIs(lib, fromip, queryport, fieldlist, []);
    PayloadIs(lib, fromip, queryport, fieldlist, [s]);
    ParseLeft(fromip, queryport, fieldlist, n, none);
    ParseLeft(fromip, queryport, fieldlist, n, one);
    var left := LeftOver([n / 0x100] + Names(Fields(fieldlist), n), n % 0x100).value;
    EitherWay(left.0, none, one, left.1, Le16(Reverse16(queryport)));
    servers := if Parse(Payload(lib, fromip, queryport, fieldlist, [])) == Servers([]) then [s] else [];
    NoAddresses(lib);
    OneRecord(lib, queryport, fieldlist, s);
  }

  lemma NoAddresses(lib: Libc)
    ensures Addresses(lib, []) == []
  {
  }

  /** What is left of a table behind n types with their names and a number of strings, and
      the types. */
  function LeftOver(x: seq<byte>, n: nat): Option<(seq<byte>, seq<byte>)> {
    match ReadTypes(x, n)
    case None => None
    case Some(r) =>
      if r.1 == [] then None
      else
        match ReadStrings(r.1[1..], r.1[0])
        case None => None
        case Some(g) => Some((g, r.0))
  }

  lemma LeftOverStays(x: seq<byte>, n: byte, body: seq<byte>)
    requires Count(x, 0) >= 2 * n + 261
    ensures var left := LeftOver(x, n);
      left.Some? && |left.value.0| >= 5 && LeftOver(x + body, n) == Some((left.value.0 + body, left.value.1))
  {
    hide Count, ReadTypes, ReadStrings;
    TypesEnd(x, n, body);
    var r := ReadTypes(x, n).value.1;
    CountBound(r);
    CountBound(r[1..]);
    CountRest(r);
    assert (r + body)[1..] == r[1..] + body;
    StringsEnd(r[1..], r[0], body);
    CountBound(ReadStrings(r[1..], r[0]).value);
  }

  lemma CountBound(s: seq<byte>)
    ensures Count(s, 0) <= |s|
  {
  }

  lemma CountRest(s: seq<byte>)
    requires s != []
    ensures Count(s[1..], 0) >= Count(s, 0) - 1
  {
  }

  lemma ParseLeft(fromip: word, queryport: short, fieldlist: cstring, n: short, body: seq<byte>)
    requires n == Count(fieldlist, BACKSLASH) % 0x1_0000 && n > 255
    ensures var left := LeftOver([n / 0x100] + Names(Fields(fieldlist), n), n % 0x100);
      left.Some? && |left.value.0| >= 5 &&
      Parse(Intro(fromip, queryport, fieldlist) + body) ==
        if queryport == 0xffff then ServerError else ReadServers(left.value.0 + body, left.value.1, Le16(Reverse16(queryport)))
  {
    hide Fields, Count, ReadServers, Names, Intro, EndsOpen, Reverse16;
    var x, names := [n / 0x100] + Names(Fields(fieldlist), n), Names(Fields(fieldlist), n);
    FieldCount(fieldlist);
    NamesZeros(Fields(fieldlist), n);
    CountConcat([n / 0x100], names, 0);
    FirstBytes(fromip, queryport, fieldlist, n, body);
    PortBytes(queryport);
    LeftOverStays(x, n % 0x100, body);
    hide ReadTypes, ReadStrings, Le16;
  }

  lemma EitherWay(g: seq<byte>, a: seq<byte>, b: seq<byte>, types: seq<byte>, port: seq<byte>)
    requires |port| == 2 && |g| >= 5
    ensures ReadServers(g + a, types, port) == Servers([]) ==> ReadServers(g + b, types, port) == Servers([])
  {
    assert (g + a)[1..5] == g[1..5] == (g + b)[1..5];
    if g[0] == 0 && g[1..5] == END[1..] {
      assert (g + b)[1..][..4] == g[1..5];
      assert !Has(0, PORT);
    } else {
      ServerRead(g + a, types, port);
    }
  }

  /** At least two null bytes per name. */
  lemma {:induction false} NamesZeros(fields: seq<cstring>, n: nat)
    ensures Count(Names(fields, n), 0) >= 2 * if n <= |fields| then n else |fields|
    decreases n
  {
    hide Count, Truncated;
    if n > 0 {
      NamesZeros(fields, n - 1);
      if n <= |fields| {
        var name := Truncated(fields[n - 1]);
        CountConcat(Names(fields, n - 1), Nts(name) + [0], 0);
        CountConcat(name, [0] + [0], 0);
        assert Nts(name) + [0] == name + ([0] + [0]);
        assert Names(fields, n) == Names(fields, n - 1) + (Nts(name) + [0]);
        TwoZeros();
      } else {
        assert Names(fields, n) == Names(fields, n - 1) + [] == Names(fields, n - 1);
      }
    }
  }

  lemma TwoZeros()
    ensures Count([0] + [0], 0) == 2
  {
    CountFirst(0, [0]);
    CountFirst(0, []);
    assert [0] + [] == [0 as byte];
  }

  /** A string that ends in x does so whatever follows x. */
  lemma {:induction false} StringEnds(x: seq<byte>, body: seq<byte>)
    requires Count(x, 0) >= 1
    ensures var r := AfterString(x);
      r.Some? && Count(r.value, 0) == Count(x, 0) - 1 && AfterString(x + body) == Some(r.value + body)
    decreases |x|
  {
    assert (x + body)[1..] == x[1..] + body && (x + body)[0] == x[0];
    if x[0] == 0 {
      assert AfterString(x) == Some(x[1..]);
    } else {
      StringEnds(x[1..], body);
    }
  }

  /** So do types with their names, */
  lemma {:induction false} TypesEnd(x: seq<byte>, n: nat, body: seq<byte>)
    requires Count(x, 0) > 2 * n
    ensures var r := ReadTypes(x, n);
      r.Some? && Count(r.value.1, 0) >= Count(x, 0) - 2 * n && ReadTypes(x + body, n) == Some((r.value.0, r.value.1 + body))
    decreases n, |x|
  {
    hide AfterString, Count;
    CountBound(x);
    if n > 0 {
      assert (x + body)[1..] == x[1..] + body;
      CountRest(x);
      StringEnds(x[1..], body);
      TypesEnd(AfterString(x[1..]).value, n - 1, body);
    } else {
      NoTypes(x);
      NoTypes(x + body);
    }
  }

  /** and any number of strings. */
  lemma {:induction false} StringsEnd(x: seq<byte>, n: nat, body: seq<byte>)
    requires Count(x, 0) > n
    ensures var r := ReadStrings(x, n);
      r.Some? && Count(r.value, 0) >= Count(x, 0) - n && ReadStrings(x + body, n) == Some(r.value + body)
    decreases n, |x|
  {
    hide Count, AfterString;
    if n > 0 {
      StringEnds(x, body);
      StringsEnd(AfterString(x).value, n - 1, body);
    }
  }

  lemma PayloadIs(lib: Libc, fromip: word, queryport: short, fieldlist: cstring, servers: seq<Server>)
    ensures Payload(lib, fromip, queryport, fieldlist, servers) ==
            Intro(fromip, queryport, fieldlist) + (Records(lib, queryport, fieldlist, servers) + END)
  {
    hide Intro, Records;
  }

  lemma OneRecord(lib: Libc, queryport: short, fieldlist: cstring, s: Server)
    ensures Records(lib, queryport, fieldlist, [s]) == Fixed(queryport, s, PartsOf(lib, queryport, s)) + Values(lib, s, Fields(fieldlist))
    ensures |Addresses(lib, [s])| == 6
  {
    hide Fixed, Values, Fields, PartsOf, HostPort;
    assert [s][..0] == [];
  }

  lemma FirstBytes(fromip: word, queryport: short, fieldlist: cstring, n: short, body: seq<byte>)
    requires n == Count(fieldlist, BACKSLASH) % 0x1_0000
    ensures var d := Intro(fromip, queryport, fieldlist) + body;
      |d| > 7 && d[4..6] == Le16(Reverse16(queryport)) && d[6] == n % 0x100 &&
      d[7..] == [n / 0x100] + Names(Fields(fieldlist), n) + body
  {
    hide Lane, Reverse16, Names, Fields, Count;
    var names := Names(Fields(fieldlist), n);
    assert Intro(fromip, queryport, fieldlist) == Le32(fromip) + Le16(Reverse16(queryport)) + [n % 0x100] + ([n / 0x100] + names);
  }

  /** What does not start as an end mark does is read as at least one server. */
  lemma ServerRead(d: seq<byte>, types: seq<byte>, port: seq<byte>)
    requires |port| == 2 && d != [] && !(d[0] == 0 && |d| >= 5 && d[1..5] == END[1..])
    ensures match ReadServers(d, types, port) case Servers(out) => |out| >= 6 case _ => true
  {
    hide Has, ReadValues;
    var t, r := d[0], d[1..];
    if |r| >= (if Has(t, PORT) then 6 else 4) {
      assert r[..4] == d[1..5];
      var rest := Drop(r, FixedLength(t) - 1);
      var next := if Has(t, KEYS) then ReadValues(rest, types) else Some(rest);
      if next.Some? {
        var more := ReadServers(next.value, types, port);
        assert ReadServers(d, types, port) == Prepend(r[..4] + if Has(t, PORT) then r[4..6] else port, more);
      }
    }
  }
}
