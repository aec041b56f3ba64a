/** The bytes of a server list, laid out in plain terms: what is where, in which order of
    bytes, and from which key of a server it comes. */
module ListFormat {
  import opened Bits
  import opened Text
  import opened ServerList
  import opened ListEncoder
  import ListParser

  function Ascii(s: string): (b: seq<int>) {
    seq(|s|, i requires 0 <= i < |s| => s[i] as int)
  }

  /** The first value under a name is v, or there is none. */
  ghost predicate Kept(keys: seq<(cstring, cstring)>, name: seq<int>, v: Option<cstring>) {
    match v
    case None => forall i :: 0 <= i < |keys| ==> keys[i].0 != name
    case Some(text) => exists i :: FirstKey(keys, name, i) && keys[i].1 == text
  }

  ghost predicate FirstKey(keys: seq<(cstring, cstring)>, name: seq<int>, i: int) {
    0 <= i < |keys| && keys[i].0 == name && forall j :: 0 <= j < i ==> keys[j].0 != name
  }

  lemma {:induction false} FindValueIsKept(keys: seq<(cstring, cstring)>, name: cstring)
    ensures Kept(keys, name, FindValue(keys, name))
    decreases |keys|
  {
    if keys != [] {
      if keys[0].0 == name {
        assert FirstKey(keys, name, 0);
      } else {
        FindValueIsKept(keys[1..], name);
        var v := FindValue(keys[1..], name);
        if v.Some? {
          var i :| FirstKey(keys[1..], name, i) && keys[1..][i].1 == v.value;
          assert FirstKey(keys, name, i + 1) by {
            assert forall j :: 0 < j <= i ==> keys[j] == keys[1..][j - 1];
          }
        } else {
          assert forall j :: 0 < j < |keys| ==> keys[j] == keys[1..][j - 1];
        }
      }
    }
  }

  /** Addresses are kept in network order in memory that is written as it stands. */
  function Word4(x: word): seq<int> {
    [x % 0x100, x / 0x100 % 0x100, x / 0x1_0000 % 0x100, x / 0x100_0000]
  }

  /** A number on the wire: the high byte first. */
  function Number2(n: int): seq<int> {
    [n % 0x1_0000 / 0x100, n % 0x100]
  }

  /** The port of a server: the number under "hostport", or the one it was reported with,
      which is in network order already. */
  function HostPort2(lib: Libc, s: Server, hostport: Option<cstring>): seq<int> {
    match hostport
    case Some(v) => Number2(lib.atoi(v))
    case None => [s.port % 0x100, s.port / 0x100]
  }

  lemma NetPortIs(lib: Libc, v: cstring)
    ensures Le16(NetPort(lib, v)) == Number2(lib.atoi(v))
  {
    ReversedBytes(lib.atoi(v) % 0x1_0000);
    LowByte(lib.atoi(v));
  }

  lemma ReversedBytes(n: short)
    ensures Le16(Reverse16(n)) == [n / 0x100, n % 0x100]
  {
    DivUnique(Reverse16(n), 0x100, n % 0x100, n / 0x100);
  }

  lemma LowByte(n: int)
    ensures n % 0x1_0000 % 0x100 == n % 0x100
  {
    var q, r := n / 0x1_0000, n % 0x1_0000;
    Euclid(n, 0x1_0000);
    Euclid(r, 0x100);
    DivUnique(n, 0x100, 0x100 * q + r / 0x100, r % 0x100);
  }

  lemma Le16Decides(a: short, b: short)
    ensures Le16(a) == Le16(b) <==> a == b
  {
    Euclid(a, 0x100);
    Euclid(b, 0x100);
    assert Le16(a) == Le16(b) ==> Le16(a)[0] == Le16(b)[0] && Le16(a)[1] == Le16(b)[1];
  }

  // ---------- Addresses, as the client has them ----------

  /** Six bytes are the address and the port of a server. */
  ghost predicate IsAddress(lib: Libc, s: Server, a: seq<byte>) {
    exists hostport: Option<cstring> ::
      Kept(s.keys, Ascii("hostport"), hostport) && a == Word4(s.ip) + HostPort2(lib, s, hostport)
  }

  lemma KeyNames()
    ensures NATNEG == Ascii("natneg") && LOCALIP0 == Ascii("localip0")
    ensures HOSTPORT == Ascii("hostport") && LOCALPORT == Ascii("localport")
  {
  }

  lemma OneAddress(lib: Libc, s: Server)
    ensures IsAddress(lib, s, Le32(s.ip) + Le16(HostPort(lib, s)))
  {
    hide Kept, Reverse16;
    KeyNames();
    FindValueIsKept(s.keys, HOSTPORT);
    var v := FindValue(s.keys, HOSTPORT);
    if v.Some? {
      NetPortIs(lib, v.value);
    }
    hide FindValue, NetPort;
    assert Le32(s.ip) == Word4(s.ip);
    assert Le16(HostPort(lib, s)) == HostPort2(lib, s, v);
  }

  lemma {:induction false} AddressesAre(lib: Libc, servers: seq<Server>, i: nat)
    requires i < |servers|
    ensures |Addresses(lib, servers)| == 6 * |servers| && IsAddress(lib, servers[i], Addresses(lib, servers)[6 * i..6 * i + 6])
    decreases |servers|
  {
    hide IsAddress, HostPort, Le16, Le32;
    var n := |servers| - 1;
    var init, last := Addresses(lib, servers[..n]), Le32(servers[n].ip) + Le16(HostPort(lib, servers[n]));
    AddressesLength(lib, servers[..n]);
    assert Addresses(lib, servers) == init + last;
    hide Addresses;
    if i == n {
      OneAddress(lib, servers[n]);
      assert (init + last)[6 * n..6 * n + 6] == last;
    } else {
      AddressesAre(lib, servers[..n], i);
      assert (init + last)[6 * i..6 * i + 6] == init[6 * i..6 * i + 6];
    }
  }

  lemma {:induction false} AddressesLength(lib: Libc, servers: seq<Server>)
    ensures |Addresses(lib, servers)| == 6 * |servers|
    decreases |servers|
  {
    hide HostPort, Le16, Le32;
    if servers != [] {
      AddressesLength(lib, servers[..|servers| - 1]);
    }
  }

  // ---------- Records ----------

  /** A letter of a name, in lower or in upper case. */
  ghost predicate Spells(f: seq<int>, name: seq<int>) {
    |f| == |name| && forall i :: 0 <= i < |f| ==> f[i] == name[i] || f[i] == name[i] - 0x20
  }

  /** The text of a field: the country or the region, whatever the case of the field, or the
      first value kept under it, or nothing. */
  ghost predicate IsText(lib: Libc, s: Server, f: cstring, text: cstring) {
    if Spells(f, Ascii("country")) then text == s.country
    else if Spells(f, Ascii("region")) then text == lib.decimal(s.region)
    else exists v: Option<cstring> :: Kept(s.keys, f, v) && text == (if v.Some? then v.value else [])
  }

  lemma SpellsMeans(f: cstring)
    ensures SameIgnoringCase(f, COUNTRY) <==> Spells(f, Ascii("country"))
    ensures SameIgnoringCase(f, REGION) <==> Spells(f, Ascii("region"))
  {
    assert COUNTRY == Ascii("country") && REGION == Ascii("region");
    assert forall i :: 0 <= i < |COUNTRY| ==> 0x61 <= COUNTRY[i] <= 0x7a;
    assert forall i :: 0 <= i < |REGION| ==> 0x61 <= REGION[i] <= 0x7a;
  }

  lemma FieldValueIsText(lib: Libc, s: Server, f: cstring)
    ensures IsText(lib, s, f, FieldValue(lib, s, f))
  {
    SpellsMeans(f);
    FindValueIsKept(s.keys, f);
    hide Kept, Spells, SameIgnoringCase, FindValue;
    var v := FindValue(s.keys, f);
    assert Kept(s.keys, f, v);
  }

  ghost predicate AreTexts(lib: Libc, s: Server, names: seq<cstring>, texts: seq<cstring>) {
    |texts| == |names| && forall i :: 0 <= i < |names| ==> IsText(lib, s, names[i], texts[i])
  }

  /** The values of a record, each behind a mark and before a null byte. */
  ghost predicate AreValues(lib: Libc, s: Server, names: seq<cstring>, d: seq<byte>) {
    exists texts: seq<cstring> :: AreTexts(lib, s, names, texts) && d == Marked(texts)
  }

  function Marked(texts: seq<cstring>): seq<int> {
    if texts == [] then [] else [0xff] + texts[0] + [0] + Marked(texts[1..])
  }

  lemma {:induction false} MarkedSnoc(texts: seq<cstring>, text: cstring)
    ensures Marked(texts + [text]) == Marked(texts) + ([0xff] + text + [0])
    decreases |texts|
  {
    if texts == [] {
      assert (texts + [text])[1..] == [];
    } else {
      assert (texts + [text])[1..] == texts[1..] + [text];
      MarkedSnoc(texts[1..], text);
    }
  }

  /** The fields of a list as far as their buffer holds them. */
  ghost predicate AreCut(fields: seq<cstring>, names: seq<cstring>) {
    |names| == |fields| && forall i :: 0 <= i < |fields| ==> names[i] == fields[i][..|fields[i]| % 257]
  }

  lemma {:induction false} ValuesAre(lib: Libc, s: Server, fields: seq<cstring>, names: seq<cstring>) returns (texts: seq<cstring>)
    requires AreCut(fields, names)
    ensures AreTexts(lib, s, names, texts) && Values(lib, s, fields) == Marked(texts)
    decreases |fields|
  {
    hide IsText, FieldValue, Marked, AreTexts;
    if fields == [] {
      texts := [];
      NoTexts(lib, s);
    } else {
      var i := |fields| - 1;
      var before := ValuesAre(lib, s, fields[..i], names[..i]);
      var text := FieldValue(lib, s, names[i]);
      FieldValueIsText(lib, s, names[i]);
      MarkedSnoc(before, text);
      MoreTexts(lib, s, names, before, text);
      texts := before + [text];
      assert names[i] == Truncated(fields[i]);
      Associate(Values(lib, s, fields[..i]), [0xff], Nts(text));
      assert [0xff] + Nts(text) == [0xff] + text + [0];
    }
  }

  lemma NoTexts(lib: Libc, s: Server)
    ensures AreTexts(lib, s, [], []) && Marked([]) == []
  {
  }

  lemma MoreTexts(lib: Libc, s: Server, names: seq<cstring>, texts: seq<cstring>, text: cstring)
    requires names != [] && AreTexts(lib, s, names[..|names| - 1], texts) && IsText(lib, s, names[|names| - 1], text)
    ensures AreTexts(lib, s, names, texts + [text])
  {
    hide IsText;
    var i := |names| - 1;
    forall j | 0 <= j < |names| ensures IsText(lib, s, names[j], (texts + [text])[j]) {
      assert j < i ==> names[..i][j] == names[j];
    }
  }

  /** A record: the flags say what there is, then come the address, the port, the private
      address and the private port where they are not the default, and the values. */
  ghost predicate LaidOut(lib: Libc, queryport: short, s: Server, natneg: Option<cstring>, localip: Option<cstring>,
           hostport: Option<cstring>, localport: Option<cstring>, values: seq<byte>, d: seq<byte>) {
    var port := if HostPort2(lib, s, hostport) != Number2(queryport) then HostPort2(lib, s, hostport) else [];
    var privip := if localip.Some? && lib.inetAddr(localip.value) != s.ip then Word4(lib.inetAddr(localip.value)) else [];
    var privport := if localport.Some? && Number2(lib.atoi(localport.value)) != Number2(queryport) then Number2(lib.atoi(localport.value)) else [];
    var flags := 64 + (if privip != [] then 2 else 0) + (if natneg.Some? && lib.atoi(natneg.value) != 0 then 4 else 0) +
                 (if port != [] then 16 else 0) + (if privport != [] then 32 else 0);
    d == [flags] + Word4(s.ip) + port + privip + privport + values
  }

  /** It is made of the first values kept under four names and of the texts of the fields. */
  ghost predicate IsRecord(lib: Libc, queryport: short, names: seq<cstring>, s: Server, d: seq<byte>) {
    exists natneg: Option<cstring>, localip: Option<cstring>, hostport: Option<cstring>, localport: Option<cstring>, values: seq<byte> ::
      Kept(s.keys, Ascii("natneg"), natneg) && Kept(s.keys, Ascii("localip0"), localip) &&
      Kept(s.keys, Ascii("hostport"), hostport) && Kept(s.keys, Ascii("localport"), localport) &&
      AreValues(lib, s, names, values) && LaidOut(lib, queryport, s, natneg, localip, hostport, localport, values, d)
  }

  /** What is said of a port, in its own bytes, says the same of the number. */
  lemma PortsAre(lib: Libc, queryport: short, s: Server)
    ensures var v := FindValue(s.keys, HOSTPORT);
      Le16(HostPort(lib, s)) == HostPort2(lib, s, v) &&
      (HostPort2(lib, s, v) != Number2(queryport) <==> HostPort(lib, s) != Reverse16(queryport))
    ensures match FindValue(s.keys, LOCALPORT)
      case None => true
      case Some(v) =>
        Le16(NetPort(lib, v)) == Number2(lib.atoi(v)) &&
        (Number2(lib.atoi(v)) != Number2(queryport) <==> NetPort(lib, v) != Reverse16(queryport))
  {
    var h, l := FindValue(s.keys, HOSTPORT), FindValue(s.keys, LOCALPORT);
    hide FindValue, Reverse16;
    if h.Some? {
      NetPortIs(lib, h.value);
    }
    if l.Some? {
      NetPortIs(lib, l.value);
      Le16Decides(NetPort(lib, l.value), Reverse16(queryport));
    }
    hide NetPort;
    ReversedBytes(queryport);
    Small(queryport, 0x1_0000);
    Le16Decides(HostPort(lib, s), Reverse16(queryport));
  }

  lemma RecordIs(lib: Libc, queryport: short, fieldlist: cstring, names: seq<cstring>, s: Server)
    requires AreCut(Fields(fieldlist), names)
    ensures IsRecord(lib, queryport, names, s, Record(lib, queryport, fieldlist, s))
  {
    hide Kept, AreTexts, Values, Fields, PartsOf, Fixed, FindValue, AreCut, LaidOut;
    KeyNames();
    FindValueIsKept(s.keys, NATNEG);
    FindValueIsKept(s.keys, LOCALIP0);
    FindValueIsKept(s.keys, HOSTPORT);
    FindValueIsKept(s.keys, LOCALPORT);
    var texts := ValuesAre(lib, s, Fields(fieldlist), names);
    var values := Values(lib, s, Fields(fieldlist));
    assert AreValues(lib, s, names, values);
    hide AreValues;
    RecordIsLaidOut(lib, queryport, s, values);
  }

  lemma RecordIsLaidOut(lib: Libc, queryport: short, s: Server, values: seq<byte>)
    ensures LaidOut(lib, queryport, s, FindValue(s.keys, NATNEG), FindValue(s.keys, LOCALIP0), FindValue(s.keys, HOSTPORT),
      FindValue(s.keys, LOCALPORT), values, Fixed(queryport, s, PartsOf(lib, queryport, s)) + values)
  {
    PortsAre(lib, queryport, s);
    Number2Length(lib, s, FindValue(s.keys, HOSTPORT));
    var p := PartsOf(lib, queryport, s);
    assert Le32(s.ip) == Word4(s.ip);
    assert p.privip.Some? ==> Le32(p.privip.value) == Word4(p.privip.value);
    hide FindValue, Reverse16, Le16, Le32, Word4, NetPort, HostPort, HostPort2, Number2;
  }

  lemma Number2Length(lib: Libc, s: Server, hostport: Option<cstring>)
    ensures forall n: int :: Number2(n) != []
    ensures HostPort2(lib, s, hostport) != []
    ensures forall x: word :: Word4(x) != []
  {
  }

  // ---------- The whole payload ----------

  /** Names in the table, each before two null bytes. */
  function Doubled(names: seq<cstring>): seq<int> {
    if names == [] then [] else names[0] + [0, 0] + Doubled(names[1..])
  }

  lemma {:induction false} DoubledSnoc(names: seq<cstring>, name: cstring)
    ensures Doubled(names + [name]) == Doubled(names) + (name + [0, 0])
    decreases |names|
  {
    if names == [] {
      assert (names + [name])[1..] == [];
    } else {
      assert (names + [name])[1..] == names[1..] + [name];
      DoubledSnoc(names[1..], name);
    }
  }

  lemma {:induction false} NamesAre(fields: seq<cstring>, names: seq<cstring>, n: nat)
    requires AreCut(fields, names)
    ensures Names(fields, n) == Doubled(if n <= |names| then names[..n] else names)
    decreases n
  {
    hide Doubled, Truncated;
    if n == 0 {
      assert names[..0] == [] && Doubled([]) == [] by { NoNames(); }
    } else {
      NamesAre(fields, names, n - 1);
      if n <= |names| {
        assert names[..n] == names[..n - 1] + [names[n - 1]];
        DoubledSnoc(names[..n - 1], names[n - 1]);
        OneNameIs(fields, names, n - 1);
      } else {
        assert n == |names| + 1 ==> names[..n - 1] == names;
        assert Names(fields, n) == Names(fields, n - 1) + [] == Names(fields, n - 1);
      }
    }
  }

  lemma NoNames()
    ensures Doubled([]) == []
  {
  }

  lemma OneNameIs(fields: seq<cstring>, names: seq<cstring>, i: nat)
    requires AreCut(fields, names) && i < |names|
    ensures Nts(Truncated(fields[i])) + [0] == names[i] + [0, 0]
  {
    assert names[i] == Truncated(fields[i]);
    assert [0] + [0] == [0 as byte, 0];
    Associate(names[i], [0], [0]);
  }

  ghost predicate AreRecords(lib: Libc, queryport: short, names: seq<cstring>, servers: seq<Server>, records: seq<seq<byte>>) {
    |records| == |servers| && forall i :: 0 <= i < |servers| ==> IsRecord(lib, queryport, names, servers[i], records[i])
  }

  lemma {:induction false} RecordsAre(lib: Libc, queryport: short, fieldlist: cstring, names: seq<cstring>, servers: seq<Server>)
    returns (records: seq<seq<byte>>)
    requires AreCut(Fields(fieldlist), names)
    ensures AreRecords(lib, queryport, names, servers, records) && Records(lib, queryport, fieldlist, servers) == Flatten(records)
    decreases |servers|
  {
    hide AreCut, Fields, Record, IsRecord, Flatten;
    if servers == [] {
      records := [];
      NothingFlat();
    } else {
      var i := |servers| - 1;
      var before := RecordsAre(lib, queryport, fieldlist, names, servers[..i]);
      var record := Record(lib, queryport, fieldlist, servers[i]);
      RecordIs(lib, queryport, fieldlist, names, servers[i]);
      FlattenSnoc(before, record);
      records := before + [record];
      forall j | 0 <= j < |servers| ensures IsRecord(lib, queryport, names, servers[j], records[j]) {
        assert j < i ==> servers[..i][j] == servers[j];
      }
    }
  }

  lemma NothingFlat()
    ensures Flatten([]) == []
  {
  }

  /** A list: the address of the client, the default port, the number of fields with its low
      byte first, as many of their names as there are, the records, and the end mark. */
  ghost predicate IsList(lib: Libc, fromip: word, queryport: short, fieldlist: cstring, servers: seq<Server>, d: seq<byte>) {
    exists names: seq<cstring>, records: seq<seq<byte>> ::
      AreCut(Fields(fieldlist), names) && AreRecords(lib, queryport, names, servers, records) &&
      var n := Count(fieldlist, BACKSLASH) % 0x1_0000;
      d == Word4(fromip) + Number2(queryport) + [n % 0x100, n / 0x100] + Doubled(if n <= |names| then names[..n] else names) +
           Flatten(records) + [0, 0xff, 0xff, 0xff, 0xff]
  }

  function Cut(fields: seq<cstring>): (names: seq<cstring>)
    ensures AreCut(fields, names)
  {
    seq<cstring>(|fields|, i requires 0 <= i < |fields| => Truncated(fields[i]))
  }

  /** Whatever is asked for and whatever the servers say, the payload is that list. */
  lemma PayloadIsList(lib: Libc, fromip: word, queryport: short, fieldlist: cstring, servers: seq<Server>)
    ensures IsList(lib, fromip, queryport, fieldlist, servers, Payload(lib, fromip, queryport, fieldlist, servers))
  {
    hide AreCut, AreRecords, Fields, Count, Names, Records, Reverse16, Doubled, Flatten;
    var names, n := Cut(Fields(fieldlist)), Count(fieldlist, BACKSLASH) % 0x1_0000;
    var records := RecordsAre(lib, queryport, fieldlist, names, servers);
    NamesAre(Fields(fieldlist), names, n);
    ReversedBytes(queryport);
    Small(queryport, 0x1_0000);
    assert Le32(fromip) == Word4(fromip) && Le16(Reverse16(queryport)) == Number2(queryport);
    hide Le32, Word4, Number2;
    assert Le16(n) == [n % 0x100, n / 0x100];
    hide Le16;
  }

  /** For names with a backslash before each, these are the names of the table. */
  lemma NamesOfUsualList(names: seq<cstring>)
    requires forall n :: n in names ==> n != [] && BACKSLASH !in n && |n| < 257
    ensures AreCut(Fields(FieldList(names)), names)
  {
    hide Fields, FieldList;
    FieldsOf(names);
    forall i | 0 <= i < |names| ensures names[i] == names[i][..|names[i]| % 257] {
      assert names[i] in names;
    }
  }

  // ---------- The header ----------

  /** The two lengths of the header as they are on the wire. */
  lemma HeaderIs(backendflags: short, cryptchal: seq<byte>, servchal: seq<byte>)
    requires |cryptchal| == CRYPTCHAL && |servchal| == SERVCHAL
    ensures CryptHeader(backendflags, cryptchal, servchal) ==
      [0xe6, backendflags % 0x100, backendflags / 0x100] + cryptchal[2..] + [0xf3] + servchal
  {
    XorOfLengths();
    hide XorByte;
  }

  lemma XorOfLengths()
    ensures XorByte(10, 0xec) == 0xe6 && XorByte(25, 0xea) == 0xf3
  {
    hide Xor;
    XorUnfold(10, 0xec);
    XorUnfold(5, 0x76);
    XorUnfold(2, 0x3b);
    XorUnfold(1, 0x1d);
    XorZero(0x0e);
    XorUnfold(25, 0xea);
    XorUnfold(12, 0x75);
    XorUnfold(6, 0x3a);
    XorUnfold(3, 0x1d);
    XorUnfold(1, 0x0e);
    XorZero(7);
  }

  /** A request without a limit gets all servers, others at most as many as they say, the
      first ones. */
  lemma PickedIs(servers: seq<Server>, maxservers: nat)
    ensures var p := Picked(servers, maxservers);
      p <= servers && |p| == if 0 < maxservers < |servers| then maxservers else |servers|
  {
  }

  // ---------- What a client reads, from this or any other server ----------

  /** A value: a text in place, the number of a popular one, or a number. */
  datatype Value = Inline(text: cstring) | Popular(index: byte) | Number(n: byte)

  function OnWire(v: Value): seq<byte> {
    match v
    case Inline(text) => [0xff] + text + [0]
    case Popular(i) => [i]
    case Number(n) => [n]
  }

  /** Fields of type 0 are texts, in place or popular ones, of which 255 have a number; others
      are numbers. */
  predicate OfType(v: Value, t: byte) {
    if t == 0 then v.Inline? || (v.Popular? && v.index < 255) else v.Number?
  }

  function AllOnWire(values: seq<Value>): seq<byte> {
    if values == [] then [] else OnWire(values[0]) + AllOnWire(values[1..])
  }

  lemma {:induction false} AnyValuesRead(values: seq<Value>, types: seq<byte>, rest: seq<byte>)
    requires |values| == |types| && forall i :: 0 <= i < |values| ==> OfType(values[i], types[i])
    ensures ReadValues(AllOnWire(values) + rest, types) == Some(rest)
    decreases |values|
  {
    hide AfterString;
    if values == [] {
      assert AllOnWire(values) + rest == rest;
    } else {
      assert OfType(values[0], types[0]);
      AnyValuesRead(values[1..], types[1..], rest);
      var more := AllOnWire(values[1..]) + rest;
      assert AllOnWire(values) + rest == OnWire(values[0]) + more;
      OneValueRead(values[0], types, more);
    }
  }

  lemma OneValueRead(v: Value, types: seq<byte>, more: seq<byte>)
    requires types != [] && OfType(v, types[0])
    ensures ReadValues(OnWire(v) + more, types) == ReadValues(more, types[1..])
  {
    hide AfterString;
    var d := OnWire(v) + more;
    if v.Inline? {
      assert d[1..] == Nts(v.text) + more;
      AfterNts(v.text, more);
    } else {
      assert d[1..] == more;
    }
  }

  /** A record of any server: the bits of its flags say what follows the address: 16 a port,
      2 a private address, 8 four bytes more, 32 a private port, and 64 the values. */
  predicate IsAnyRecord(t: byte, ip: seq<byte>, port: seq<byte>, privip: seq<byte>, icmp: seq<byte>, privport: seq<byte>, values: seq<Value>) {
    |ip| == 4 && |port| == (if t / 16 % 2 == 1 then 2 else 0) && |privip| == (if t / 2 % 2 == 1 then 4 else 0) &&
    |icmp| == (if t / 8 % 2 == 1 then 4 else 0) && |privport| == (if t / 32 % 2 == 1 then 2 else 0) &&
    (t / 64 % 2 == 0 ==> values == []) && !(t == 0 && ip == [0xff, 0xff, 0xff, 0xff])
  }

  /** It is read as its address with its port or the default one, and reading goes on behind
      it. */
  lemma AnyRecordRead(t: byte, ip: seq<byte>, port: seq<byte>, privip: seq<byte>, icmp: seq<byte>, privport: seq<byte>,
           values: seq<Value>, types: seq<byte>, default_: seq<byte>, rest: seq<byte>)
    requires IsAnyRecord(t, ip, port, privip, icmp, privport, values) && |default_| == 2
    requires t / 64 % 2 == 1 ==> |values| == |types| && forall i :: 0 <= i < |values| ==> OfType(values[i], types[i])
    ensures ReadServers([t] + ip + port + (privip + icmp + privport) + AllOnWire(values) + rest, types, default_) ==
      Prepend(ip + if t / 16 % 2 == 1 then port else default_, ReadServers(rest, types, default_))
  {
    LengthOf(t);
    hide ReadServers, FixedLength, Has, Prepend, AllOnWire;
    AnyRecordByParts(t, ip, port, privip + icmp + privport, values, types, default_, rest);
  }

  /** The same with what the flags say taken for granted. */
  lemma AnyRecordByParts(t: byte, ip: seq<byte>, port: seq<byte>, others: seq<byte>, values: seq<Value>, types: seq<byte>,
           default_: seq<byte>, rest: seq<byte>)
    requires |default_| == 2 && |ip| == 4 && |port| == (if Has(t, PORT) then 2 else 0) && !(t == 0 && ip == [0xff, 0xff, 0xff, 0xff])
    requires FixedLength(t) == 5 + |port| + |others|
    requires if Has(t, KEYS) then |values| == |types| && forall i :: 0 <= i < |values| ==> OfType(values[i], types[i]) else values == []
    ensures ReadServers([t] + ip + port + others + AllOnWire(values) + rest, types, default_) ==
      Prepend(ip + if Has(t, PORT) then port else default_, ReadServers(rest, types, default_))
  {
    hide ReadValues, ReadServers, FixedLength, Has, Drop, Prepend, AllOnWire;
    var behind := AllOnWire(values) + rest;
    var d := [t] + ip + port + others + behind;
    PartsOfAny(t, ip, port, others, behind, FixedLength(t) - 1);
    Associate([t] + ip + port + others, AllOnWire(values), rest);
    if Has(t, KEYS) {
      AnyValuesRead(values, types, rest);
    } else {
      NoValues(rest);
    }
    assert ListParser.Following(d[1..], t, types) == Some(rest);
    AnyStep(d, t, ip, port, types, default_, rest);
  }

  lemma NoValues(rest: seq<byte>)
    ensures AllOnWire([]) + rest == rest
  {
  }

  lemma PartsOfAny(t: byte, ip: seq<byte>, port: seq<byte>, others: seq<byte>, behind: seq<byte>, n: nat)
    requires |ip| == 4 && n == 4 + |port| + |others|
    ensures var d := [t] + ip + port + others + behind;
      |d[1..]| >= 4 + |port| && d[0] == t && d[1..][..4] == ip && (|port| == 2 ==> d[1..][4..6] == port) && Drop(d[1..], n) == behind
  {
    var d := [t] + ip + port + others + behind;
    assert d[1..] == ip + port + others + [] + behind;
    Pieces(ip, port, others, [], behind);
    assert |port| == 2 ==> d[1..][4..6] == d[1..][|ip|..|ip| + |port|];
  }

  lemma AnyStep(d: seq<byte>, t: byte, ip: seq<byte>, port: seq<byte>, types: seq<byte>, default_: seq<byte>, rest: seq<byte>)
    requires |default_| == 2 && |ip| == 4 && |port| == (if Has(t, PORT) then 2 else 0) && d != [] && !(t == 0 && ip == [0xff, 0xff, 0xff, 0xff])
    requires |d[1..]| >= 4 + |port| && d[0] == t && d[1..][..4] == ip && (|port| == 2 ==> d[1..][4..6] == port)
    requires ListParser.Following(d[1..], t, types) == Some(rest)
    ensures ReadServers(d, types, default_) == Prepend(ip + if Has(t, PORT) then port else default_, ReadServers(rest, types, default_))
  {
    hide ReadServers, ListParser.Following, Has, Prepend;
    assert END[1..] == [0xff, 0xff, 0xff, 0xff];
    ListParser.RecordStep(d, types, default_, rest);
  }

  lemma LengthOf(t: byte)
    ensures FixedLength(t) == 5 + (if t / 16 % 2 == 1 then 2 else 0) +
      ((if t / 2 % 2 == 1 then 4 else 0) + (if t / 8 % 2 == 1 then 4 else 0) + (if t / 32 % 2 == 1 then 2 else 0))
    ensures (Has(t, PORT) <==> t / 16 % 2 == 1) && (Has(t, KEYS) <==> t / 64 % 2 == 1)
  {
  }

  function Types(table: seq<(byte, cstring)>): seq<byte> {
    seq(|table|, i requires 0 <= i < |table| => table[i].0)
  }

  function TableOnWire(table: seq<(byte, cstring)>): seq<byte> {
    if table == [] then [] else [table[0].0] + (Nts(table[0].1) + TableOnWire(table[1..]))
  }

  function TextsOnWire(texts: seq<cstring>): seq<byte> {
    if texts == [] then [] else Nts(texts[0]) + TextsOnWire(texts[1..])
  }

  lemma {:induction false} AnyTableRead(table: seq<(byte, cstring)>, rest: seq<byte>)
    ensures ReadTypes(TableOnWire(table) + rest, |table|) == Some((Types(table), rest))
    decreases |table|
  {
    hide ReadTypes;
    if table == [] {
      NoTypes(rest);
      assert TableOnWire(table) + rest == rest && Types(table) == [];
    } else {
      var more := TableOnWire(table[1..]) + rest;
      AnyTableRead(table[1..], rest);
      OneTypeRead(table[0].0, table[0].1, more, |table| - 1);
      assert TableOnWire(table) + rest == [table[0].0] + (Nts(table[0].1) + more);
      assert Types(table) == [table[0].0] + Types(table[1..]);
    }
  }

  lemma OneTypeRead(t: byte, name: cstring, more: seq<byte>, n: nat)
    ensures ReadTypes([t] + (Nts(name) + more), n + 1) ==
      match ReadTypes(more, n) case None => None case Some(r) => Some(([t] + r.0, r.1))
  {
    hide AfterString;
    assert ([t] + (Nts(name) + more))[1..] == Nts(name) + more;
    AfterNts(name, more);
  }

  lemma {:induction false} AnyTextsRead(texts: seq<cstring>, rest: seq<byte>)
    ensures ReadStrings(TextsOnWire(texts) + rest, |texts|) == Some(rest)
    decreases |texts|
  {
    hide AfterString;
    if texts == [] {
      assert TextsOnWire(texts) + rest == rest;
    } else {
      var more := TextsOnWire(texts[1..]) + rest;
      AnyTextsRead(texts[1..], rest);
      AfterNts(texts[0], more);
      assert TextsOnWire(texts) + rest == Nts(texts[0]) + more;
    }
  }

  /** A whole list of any server: four bytes, a default port that is no error mark, a table of
      types and names, popular texts, and then the records, which are read under the types. */
  lemma AnyListRead(from: seq<byte>, default_: seq<byte>, table: seq<(byte, cstring)>, texts: seq<cstring>, records: seq<byte>)
    requires |from| == 4 && |default_| == 2 && default_ != [0xff, 0xff] && |table| <= 255 && |texts| <= 255
    ensures Parse(from + default_ + [|table|] + (TableOnWire(table) + ([|texts|] + (TextsOnWire(texts) + records)))) ==
      ReadServers(records, Types(table), default_)
  {
    hide ReadTypes, ReadStrings, ReadServers, Types, TableOnWire, TextsOnWire;
    var behind := [|texts| as byte] + (TextsOnWire(texts) + records);
    var d := from + default_ + [|table| as byte] + (TableOnWire(table) + behind);
    AnyTableRead(table, behind);
    AnyTextsRead(texts, records);
    assert d[4..6] == default_ && d[6] == |table| && d[7..] == TableOnWire(table) + behind;
    assert behind[0] == |texts| && behind[1..] == TextsOnWire(texts) + records;
  }

  /** The end mark ends it, whatever follows. */
  lemma AnyEndRead(types: seq<byte>, default_: seq<byte>, rest: seq<byte>)
    requires |default_| == 2
    ensures ReadServers([0, 0xff, 0xff, 0xff, 0xff] + rest, types, default_) == Servers([])
  {
    EndRead(rest, types, default_);
  }
}
