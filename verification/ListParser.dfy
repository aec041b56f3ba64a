/** enctypex_decoder_convert_to_ipport with an output buffer, step by step. */
module ListParser {
  import opened Bits
  import opened Text
  import opened ServerList

  /** Where a string at p and its terminator end: p + strlen + 1. */
  method SkipString(data: array<byte>, p_: nat, datalen: nat) returns (p: Option<nat>)
    requires p_ <= datalen <= data.Length
    ensures match AfterString(data[p_..datalen])
      case None => p == None
      case Some(rest) => p.Some? && p_ < p.value <= datalen && rest == data[p.value..datalen]
  {
    var i := p_;
    while i < datalen && data[i] != 0
      invariant p_ <= i <= datalen && AfterString(data[p_..datalen]) == AfterString(data[i..datalen])
    {
      assert data[i..datalen][1..] == data[i + 1..datalen];
      i := i + 1;
    }
    if i == datalen {
      return None;
    }
    assert data[i..datalen][1..] == data[i + 1..datalen];
    return Some(i + 1);
  }

  function MoreTypes(types: seq<byte>, r: Option<(seq<byte>, seq<byte>)>): Option<(seq<byte>, seq<byte>)> {
    match r
    case None => None
    case Some(t) => Some((types + t.0, t.1))
  }

  lemma MoreTypesTwice(a: seq<byte>, b: seq<byte>, r: Option<(seq<byte>, seq<byte>)>)
    ensures MoreTypes(a, MoreTypes(b, r)) == MoreTypes(a + b, r) && MoreTypes([], r) == r
  {
    match r
    case None =>
    case Some(t) => assert a + (b + t.0) == a + b + t.0 && [] + t.0 == t.0;
  }

  /** The field table: the types of n fields. */
  method SkipNames(data: array<byte>, p_: nat, datalen: nat, pars: nat) returns (r: Option<nat>, types: seq<byte>)
    requires p_ <= datalen <= data.Length
    ensures match ReadTypes(data[p_..datalen], pars)
      case None => r == None
      case Some(t) => r.Some? && p_ <= r.value <= datalen && t == (types, data[r.value..datalen])
  {
    hide AfterString;
    types := [];
    var i, p := 0, p_;
    MoreTypesTwice([], [], ReadTypes(data[p_..datalen], pars));
    while i < pars && p < datalen
      invariant i <= pars && p_ <= p <= datalen
      invariant ReadTypes(data[p_..datalen], pars) == MoreTypes(types, ReadTypes(data[p..datalen], pars - i))
    {
      assert data[p..datalen][1..] == data[p + 1..datalen];
      var t := data[p];
      var next := SkipString(data, p + 1, datalen);
      if next == None {
        return None, [];
      }
      p := next.value;
      MoreTypesTwice(types, [t], ReadTypes(data[p..datalen], pars - (i + 1)));
      types := types + [t];
      i := i + 1;
    }
    assert types + [] == types;
    r := Some(p);
  }

  method SkipStrings(data: array<byte>, p_: nat, datalen: nat, vals: nat) returns (r: Option<nat>)
    requires p_ <= datalen <= data.Length
    ensures match ReadStrings(data[p_..datalen], vals)
      case None => r == None
      case Some(t) => r.Some? && p_ <= r.value <= datalen && t == data[r.value..datalen]
  {
    hide AfterString;
    var i, p := 0, p_;
    while i < vals && p < datalen
      invariant i <= vals && p_ <= p <= datalen
      invariant ReadStrings(data[p_..datalen], vals) == ReadStrings(data[p..datalen], vals - i)
    {
      r := SkipString(data, p, datalen);
      if r == None {
        return;
      }
      p := r.value;
      i := i + 1;
    }
    r := Some(p);
  }

  method SkipValues(data: array<byte>, p_: nat, datalen: nat, types: seq<byte>) returns (r: Option<nat>)
    requires p_ <= datalen <= data.Length
    ensures match ReadValues(data[p_..datalen], types)
      case None => r == None
      case Some(t) => r.Some? && p_ <= r.value <= datalen && t == data[r.value..datalen]
  {
    hide AfterString;
    var i, p := 0, p_;
    assert types[0..] == types;
    while i < |types| && p < datalen
      invariant i <= |types| && p_ <= p <= datalen
      invariant ReadValues(data[p_..datalen], types) == ReadValues(data[p..datalen], types[i..])
    {
      assert data[p..datalen][1..] == data[p + 1..datalen] && types[i..][1..] == types[i + 1..];
      var t := data[p];
      p := p + 1;
      if types[i] == 0 && t == 0xff {
        r := SkipString(data, p, datalen);
        if r == None {
          return;
        }
        p := r.value;
      }
      i := i + 1;
    }
    r := Some(p);
  }

  /** memcpy of six bytes */
  method PutAddress(out: array<byte>, o: nat, tmpip: seq<byte>) returns (next: nat)
    requires |tmpip| == 6 && o + 6 <= out.Length
    modifies out
    ensures next == o + 6 && out[..next] == old(out[..o]) + tmpip
  {
    forall j | 0 <= j < 6 {
      out[o + j] := tmpip[j];
    }
    next := o + 6;
  }

  lemma RecordStep(d: seq<byte>, types: seq<byte>, port: seq<byte>, next: seq<byte>)
    requires |port| == 2 && d != [] && |d[1..]| >= (if Has(d[0], PORT) then 6 else 4) && !(d[0] == 0 && d[1..][..4] == END[1..])
    requires Following(d[1..], d[0], types) == Some(next)
    ensures ReadServers(d, types, port) ==
      Prepend(d[1..][..4] + if Has(d[0], PORT) then d[1..][4..6] else port, ReadServers(next, types, port))
  {
    hide Has, FixedLength, Drop, ReadValues, Prepend;
  }

  datatype Outcome = Done | Bad | Found(address: seq<byte>, p: nat)

  /** One turn of the loop over the records. */
  method ReadRecord(data: array<byte>, p_: nat, datalen: nat, types: seq<byte>, port: seq<byte>) returns (r: Outcome)
    requires p_ < datalen <= data.Length && |port| == 2
    ensures r.Done? ==> ReadServers(data[p_..datalen], types, port) == Servers([])
    ensures r.Bad? ==> ReadServers(data[p_..datalen], types, port) == Overrun
    ensures r.Found? ==>
              p_ + 5 <= r.p <= datalen && |r.address| == 6 &&
              ReadServers(data[p_..datalen], types, port) == Prepend(r.address, ReadServers(data[r.p..datalen], types, port))
  {
    hide ReadServers, ReadValues, Prepend, Has, FixedLength, Drop;
    ghost var d := data[p_..datalen];
    Slices(data, p_, datalen);
    var t, p := data[p_], p_ + 1;
    if datalen - p < (if Has(t, PORT) then 6 else 4) {
      RecordEnds(d, types, port);
      return Bad;
    }
    if t == 0 && data[p..p + 4] == END[1..] {
      RecordEnds(d, types, port);
      return Done;
    }
    var tmpip := data[p..p + 4] + if Has(t, PORT) then data[p + 4..p + 6] else port;
    var next := SkipRest(data, p, datalen, t, types);
    if next == None {
      RecordEnds(d, types, port);
      return Bad;
    }
    RecordStep(d, types, port, data[next.value..datalen]);
    r := Found(tmpip, next.value);
  }

  /** The rest of a record behind its flags, as far as there is data. */
  method SkipRest(data: array<byte>, p_: nat, datalen: nat, t: byte, types: seq<byte>) returns (r: Option<nat>)
    requires p_ + 4 <= datalen <= data.Length
    ensures r.Some? ==> p_ + 4 <= r.value <= datalen
    ensures Following(data[p_..datalen], t, types) == match r case None => None case Some(p) => Some(data[p..datalen])
  {
    hide ReadValues, Has, FixedLength, Drop;
    var len := FixedLength(t);
    DropIs(data[p_..datalen], len - 1);
    var p := if p_ + len - 1 <= datalen then p_ + len - 1 else datalen;
    assert Drop(data[p_..datalen], len - 1) == data[p..datalen];
    r := Some(p);
    if Has(t, KEYS) {
      r := SkipValues(data, p, datalen, types);
    }
  }

  /** What follows a record with these flags. */
  function Following(d: seq<byte>, t: byte, types: seq<byte>): Option<seq<byte>> {
    var rest := Drop(d, FixedLength(t) - 1);
    if Has(t, KEYS) then ReadValues(rest, types) else Some(rest)
  }

  lemma Slices(data: array<byte>, p: nat, end: nat)
    requires p < end <= data.Length
    ensures var d := data[p..end];
      d[0] == data[p] && d[1..] == data[p + 1..end] && (|d| > 4 ==> d[1..][..4] == data[p + 1..p + 5]) &&
      (|d| > 6 ==> d[1..][4..6] == data[p + 5..p + 7])
  {
    var e := data[p + 1..end];
    assert data[p..end][1..] == e;
    assert |e| >= 4 ==> e[..4] == data[p + 1..p + 5];
    if |e| >= 6 {
      assert e[4] == data[p + 5] && e[5] == data[p + 6];
      assert e[4..6] == [e[4], e[5]] == data[p + 5..p + 7];
    }
  }

  /** The three ways in which a record is the last. */
  lemma RecordEnds(d: seq<byte>, types: seq<byte>, port: seq<byte>)
    requires |port| == 2 && d != []
    ensures |d[1..]| < (if Has(d[0], PORT) then 6 else 4) ==> ReadServers(d, types, port) == Overrun
    ensures |d[1..]| >= (if Has(d[0], PORT) then 6 else 4) && d[0] == 0 && d[1..][..4] == END[1..] ==> ReadServers(d, types, port) == Servers([])
    ensures |d[1..]| >= (if Has(d[0], PORT) then 6 else 4) && !(d[0] == 0 && d[1..][..4] == END[1..]) && Following(d[1..], d[0], types) == None ==>
              ReadServers(d, types, port) == Overrun
  {
    hide Has, FixedLength, Drop, ReadValues, Prepend;
  }

  /** The records: what it wrote to out, or None where the source would read beyond the
      data. */
  method ReadRecords(data: array<byte>, p_: nat, datalen: nat, types: seq<byte>, port: seq<byte>, out: array<byte>)
    returns (r: Option<nat>)
    requires p_ <= datalen <= data.Length && |port| == 2 && data != out && out.Length >= (datalen - p_) / 5 * 6
    modifies out
    ensures match ReadServers(data[p_..datalen], types, port)
      case Servers(s) => r == Some(|s|) && |s| <= out.Length && out[..|s|] == s
      case _ => r == None
  {
    hide Prepend;
    var p, o := p_, 0;
    ghost var k := 0;
    PrependTwice([], [], ReadServers(data[p_..datalen], types, port));
    while p < datalen
      invariant p_ + 5 * k <= p <= datalen && o == 6 * k <= out.Length
      invariant ReadServers(data[p_..datalen], types, port) == Prepend(out[..o], ReadServers(data[p..datalen], types, port))
    {
      hide ReadServers;
      var one := ReadRecord(data, p, datalen, types, port);
      match one {
        case Done =>
          break;
        case Bad =>
          NoServers(out[..o]);
          return None;
        case Found(address, next) =>
          PrependTwice(out[..o], address, ReadServers(data[next..datalen], types, port));
          Room(datalen, p_, next, k, out.Length);
          o := PutAddress(out, o, address);
          p := next;
          k := k + 1;
      }
    }
    EndOfServers(out[..o]);
    r := Some(o);
  }

  lemma DropIs(d: seq<byte>, n: nat)
    ensures Drop(d, n) == if n <= |d| then d[n..] else []
  {
  }

  lemma NoServers(a: seq<byte>)
    ensures !Prepend(a, Overrun).Servers?
  {
  }

  lemma EndOfServers(a: seq<byte>)
    ensures Prepend(a, Servers([])) == Servers(a)
  {
    PrependIs(a);
  }

  lemma Room(datalen: nat, from: nat, p: nat, k: nat, room: nat)
    requires from + 5 * (k + 1) <= p <= datalen && room >= (datalen - from) / 5 * 6
    ensures 6 * (k + 1) <= room
  {
  }

  /** The value -2 stands for the outcome that the source does not define. */
  method ConvertToIpPort(data: array<byte>, datalen: nat, out: array<byte>) returns (r: int)
    requires datalen <= data.Length && data != out && out.Length >= datalen / 5 * 6
    modifies out
    ensures match Parse(data[..datalen])
      case Servers(s) => r == |s| && |s| <= out.Length && out[..|s|] == s
      case ServerError => r == -1
      case TooShort => r == 0
      case Overrun => r == -2
  {
    hide ReadTypes, ReadStrings, ReadServers;
    ghost var d := data[..datalen];
    if datalen < 6 {
      return 0;
    }
    var port := data[4..6];
    assert d[4..6] == port;
    if port == [0xff, 0xff] {
      return -1;
    }
    var p, types := 6, [];
    if p < datalen {
      var pars := data[p];
      assert d[7..] == data[7..datalen];
      var next;
      next, types := SkipNames(data, p + 1, datalen, pars);
      if next == None {
        return -2;
      }
      p := next.value;
    }
    if p < datalen {
      var vals := data[p];
      assert data[p..datalen][1..] == data[p + 1..datalen];
      var next := SkipStrings(data, p + 1, datalen, vals);
      if next == None {
        return -2;
      }
      p := next.value;
    }
    ServersOrOverrun(data[p..datalen], types, port);
    var n := ReadRecords(data, p, datalen, types, port, out);
    r := match n case None => -2 case Some(o) => o;
  }

  lemma {:induction false} ServersOrOverrun(d: seq<byte>, types: seq<byte>, port: seq<byte>)
    requires |port| == 2
    ensures ReadServers(d, types, port).Servers? || ReadServers(d, types, port) == Overrun
    decreases |d|
  {
    hide ReadValues, FixedLength, Has;
    if d != [] {
      var t, r := d[0], d[1..];
      var rest := Drop(r, FixedLength(t) - 1);
      match if Has(t, KEYS) then ReadValues(rest, types) else Some(rest)
      case None =>
      case Some(next) => ServersOrOverrun(next, types, port);
    }
  }
}
