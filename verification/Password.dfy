/** The password scrambler: a modular generator computed in 32-bit words, the mask made
    from it, and the base64 dialect that carries it. */
module Password {
  import opened Bits
  import opened Text

  // ---------- gslame: one step of the generator ----------

  const MODULUS := 0x7fff_ffff
  const FACTOR := 0x41a7
  const SEED := 0x7970_7367  // "gspy"

  type int32 = x: int | -0x8000_0000 <= x < 0x8000_0000

  /** Two's complement wrap-around. */
  function Wrap(x: int): int32 {
    (x + 0x8000_0000) % 0x1_0000_0000 - 0x8000_0000
  }

  /** What masking the sign bit and adding one does to a sum that wrapped around. */
  function Fold(s: nat): nat {
    if s < 0x8000_0000 then s else s - 0x8000_0000 + 1
  }

  /** The bits of a 32-bit integer read without its sign. */
  function Unsigned(x: int32): nat {
    if x < 0 then x + 0x1_0000_0000 else x
  }

  /** Shifts of a negative number bring in copies of its sign, which the mask takes away. */
  lemma Halves(num: int32)
    ensures num / 0x1_0000 % 0x1_0000 == Unsigned(num) / 0x1_0000 < 0x1_0000 && num % 0x1_0000 == Unsigned(num) % 0x1_0000
  {
    var h := num / 0x1_0000;
    assert num == 0x1_0000 * h + num % 0x1_0000 && -0x8000 <= h < 0x8000;
    if num < 0 {
      DivUnique(num + 0x1_0000_0000, 0x1_0000, h + 0x1_0000, num % 0x1_0000);
      DivUnique(h, 0x1_0000, -1, h + 0x1_0000);
    }
  }

  method Gslame(num: int32) returns (r: int32)
    ensures r == GslameOf(Unsigned(num))
  {
    hide Wrap, Fold, Unsigned;
    Halves(num);
    var c := num / 0x1_0000 % 0x1_0000;
    var a := num % 0x1_0000;
    WrapSmall(c * 0x41a7);
    c := Wrap(c * 0x41a7);
    WrapSmall(a * 0x41a7);
    a := Wrap(a * 0x41a7);
    r := AddFolded(a, c);
  }

  method AddFolded(a_: int32, c: int32) returns (a: int32)
    requires 0 <= a_ <= 0xffff * 0x41a7 && 0 <= c <= 0xffff * 0x41a7
    ensures a == Fold(Fold(a_ + c % 0x8000 * 0x1_0000) + c / 0x8000)
  {
    hide Wrap, Fold;
    a := a_;
    FoldSmall(a + c % 0x8000 * 0x1_0000);
    WrapFold(a + c % 0x8000 * 0x1_0000);
    a := Wrap(a + c % 0x8000 * 0x1_0000);
    if a < 0 {
      a := a % 0x8000_0000;
      a := Wrap(a + 1);
    }
    WrapFold(a + c / 0x8000);
    a := Wrap(a + c / 0x8000);
    if a < 0 {
      a := a % 0x8000_0000;
      a := Wrap(a + 1);
    }
  }

  lemma FoldSmall(s: nat)
    requires s < 0x1_0000_0000 - 1
    ensures Fold(s) < 0x8000_0000
  {
  }

  lemma WrapSmall(x: nat)
    requires x < 0x8000_0000
    ensures Wrap(x) == x
  {
  }

  /** The sign test finds the sums that wrapped around, and the two statements behind it
      fold them. */
  lemma WrapFold(s: nat)
    requires s < 0x1_0000_0000 - 1
    ensures if Wrap(s) < 0 then Wrap(Wrap(s) % 0x8000_0000 + 1) == Fold(s) else Wrap(s) == Fold(s)
  {
    if s >= 0x8000_0000 {
      assert s + 0x8000_0000 == 0x1_0000_0000 + (s - 0x8000_0000);
      DivUnique(s + 0x8000_0000, 0x1_0000_0000, 1, s - 0x8000_0000);
      assert Wrap(s) == s - 0x1_0000_0000;
      hide Wrap;
      DivUnique(s - 0x1_0000_0000, 0x8000_0000, -1, s - 0x8000_0000);
      WrapSmall(s - 0x8000_0000 + 1);
    } else {
      WrapSmall(s);
    }
  }

  /** The generator on the two halves of its argument, without wrap-around. */
  function GslameOf(num: nat): nat {
    var c := num / 0x1_0000 * FACTOR;
    Fold(Fold(num % 0x1_0000 * FACTOR + c % 0x8000 * 0x1_0000) + c / 0x8000)
  }

  lemma FoldIsModular(s: nat)
    requires s < 0x1_0000_0000
    ensures exists q: int :: q >= 0 && s == Fold(s) + q * MODULUS && Fold(s) <= 0x8000_0000
  {
    if s < 0x8000_0000 {
      assert s == Fold(s) + 0 * MODULUS;
    } else {
      assert s == Fold(s) + 1 * MODULUS;
    }
  }

  lemma ModularEq(a: nat, b: nat, q: int)
    requires a == b + q * MODULUS
    ensures a % MODULUS == b % MODULUS
  {
    var k := b / MODULUS;
    Euclid(b, MODULUS);
    assert a == MODULUS * (k + q) + b % MODULUS;
    DivUnique(a, MODULUS, k + q, b % MODULUS);
  }

  /** The folds make it multiplication modulo the modulus. */
  lemma GslameIsModular(num: nat)
    requires num < 0x1_0000_0000
    ensures GslameOf(num) < 0x8000_0000 && GslameOf(num) % MODULUS == (FACTOR * num) % MODULUS
  {
    var hi, lo := num / 0x1_0000, num % 0x1_0000;
    var c := hi * FACTOR;
    var ch, cl := c / 0x8000, c % 0x8000;
    assert hi < 0x1_0000 && c == 0x8000 * ch + cl && ch <= 2 * FACTOR;
    var s1 := lo * FACTOR + cl * 0x1_0000;
    FoldIsModular(s1);
    var q1 :| q1 >= 0 && s1 == Fold(s1) + q1 * MODULUS;
    var s2 := Fold(s1) + ch;
    FoldIsModular(s2);
    var q2 :| q2 >= 0 && s2 == Fold(s2) + q2 * MODULUS;
    assert FACTOR * num == c * 0x1_0000 + lo * FACTOR;
    assert FACTOR * num == s1 + ch * 0x8000_0000 == s1 + ch + ch * MODULUS;
    ModularEq(FACTOR * num, Fold(s2), q1 + q2 + ch);
  }

  /** The factor has an inverse, so no argument in range is sent to zero. */
  lemma GslameStaysInRange(num: nat)
    requires 0 < num < MODULUS
    ensures GslameOf(num) == (FACTOR * num) % MODULUS && 0 < GslameOf(num) < MODULUS
  {
    GslameIsModular(num);
    var g := GslameOf(num);
    hide GslameOf;
    var k := FACTOR * num / MODULUS;
    NotMultiple(num, k);
    Euclid(FACTOR * num, MODULUS);
    InRange(g);
  }

  lemma InRange(g: nat)
    requires g <= MODULUS && g % MODULUS != 0
    ensures 0 < g < MODULUS && g % MODULUS == g
  {
  }

  lemma NotMultiple(num: nat, k: int)
    requires 0 < num < MODULUS
    ensures FACTOR * num != k * MODULUS
  {
    var inverse := 1407677000;
    assert num + MODULUS * (11017 * num - inverse * k) == inverse * (FACTOR * num - k * MODULUS);
  }

  // ---------- gspassenc: mask a password in place ----------

  function Generated(i: nat): nat {
    if i == 0 then SEED else GslameOf(Generated(i - 1))
  }

  function Power(b: nat, n: nat): nat {
    if n == 0 then 1 else b * Power(b, n - 1)
  }

  lemma ModTimes(f: nat, x: nat, m: nat)
    requires m > 0
    ensures (f * (x % m)) % m == (f * x) % m
  {
    Euclid(x, m);
    var q := x / m;
    assert f * x == f * (m * q) + f * (x % m) == m * (f * q) + f * (x % m);
    Euclid(f * (x % m), m);
    var k := f * (x % m) / m;
    assert f * x == m * (f * q + k) + (f * (x % m)) % m;
    DivUnique(f * x, m, f * q + k, (f * (x % m)) % m);
  }

  /** The closed form of the generator, which never leaves its range. */
  lemma {:induction false} GeneratedClosedForm(i: nat)
    ensures Generated(i) == (Power(FACTOR, i) * SEED) % MODULUS && 0 < Generated(i) < MODULUS
    decreases i
  {
    if i > 0 {
      GeneratedClosedForm(i - 1);
      var before := Generated(i - 1);
      GslameStaysInRange(before);
      hide GslameOf, Generated;
      var p := Power(FACTOR, i - 1) * SEED;
      ModTimes(FACTOR, p, MODULUS);
      assert Power(FACTOR, i) * SEED == FACTOR * p;
    }
  }

  function MaskByte(i: nat): (m: byte)
    ensures m < 0xff
  {
    Generated(i + 1) % 0xff
  }

  /** Byte i of the mask, counted from 0. */
  lemma MaskClosedForm(i: nat)
    ensures MaskByte(i) == (Power(FACTOR, i + 1) * SEED) % MODULUS % 0xff
  {
    hide Power, Generated;
    GeneratedClosedForm(i + 1);
  }

  /** The same in numbers. */
  lemma MaskIs(i: nat)
    ensures MaskByte(i) == (Power(16807, i + 1) * 0x7970_7367) % 0x7fff_ffff % 255
  {
    hide Power;
    MaskClosedForm(i);
  }

  function Scrambled(s: seq<byte>): (r: seq<byte>)
    ensures |r| == |s|
  {
    seq<byte>(|s|, i requires 0 <= i < |s| => XorByte(s[i], MaskByte(i)))
  }

  /** The C string at the start of a buffer that holds a terminator. */
  function CString(buf: seq<byte>): cstring {
    buf[..Find(buf, 0)]
  }

  method Gspassenc(pass: array<byte>) returns (passlen: nat)
    requires 0 in pass[..]
    modifies pass
    ensures passlen == |CString(old(pass[..]))|
    ensures pass[..] == Scrambled(CString(old(pass[..]))) + old(pass[..])[passlen..]
  {
    hide XorByte, GslameOf, MaskByte;
    ghost var was := pass[..];
    passlen := StrLen(pass);
    var num: int32 := SEED % 0x8000_0000;
    for i := 0 to passlen
      invariant num == Generated(i)
      invariant forall j :: 0 <= j < pass.Length ==> pass[j] == if j < i then XorByte(was[j], MaskByte(j)) else was[j]
    {
      hide Generated;
      GeneratedClosedForm(i);
      GslameStaysInRange(num);
      NextGenerated(i);
      num := Gslame(num);
      pass[i] := XorByte(pass[i], num % 0xff);
    }
  }

  lemma NextGenerated(i: nat)
    ensures Generated(i + 1) == GslameOf(Generated(i)) && MaskByte(i) == Generated(i + 1) % 0xff
  {
    hide GslameOf;
  }

  method StrLen(s: array<byte>) returns (i: nat)
    requires 0 in s[..]
    ensures i == Find(s[..], 0) < s.Length
  {
    i := 0;
    assert s[0..] == s[..];
    while s[i] != 0
      invariant i < s.Length && i + Find(s[i..], 0) == Find(s[..], 0)
      invariant 0 in s[i..]
      decreases s.Length - i
    {
      assert s[i..][1..] == s[i + 1..] && s[i..] == [s[i]] + s[i + 1..];
      i := i + 1;
    }
  }

  /** Scrambling a stored password twice restores it exactly if no byte of it equals its
      mask byte: an equal byte turns into a terminator, at which the second pass stops. */
  lemma ScrambleTwice(p: cstring)
    ensures var once := Scrambled(p) + [0];
      Scrambled(CString(once)) + once[|CString(once)|..] == p + [0] <==> forall i :: 0 <= i < |p| ==> p[i] != MaskByte(i)
  {
    hide XorByte, MaskByte, Find;
    var once := Scrambled(p) + [0];
    var n := Find(once, 0);
    assert once[|p|] == 0;
    assert n <= |p|;
    var twice := Scrambled(CString(once)) + once[n..];
    forall i | 0 <= i < |p| ensures Scrambled(p)[i] == 0 <==> p[i] == MaskByte(i) {
      XorIsZero(p[i], MaskByte(i));
    }
    if n < |p| {
      assert once[n] == 0 && p[n] == MaskByte(n);
      assert twice[n] == 0 && p[n] in p;
    } else {
      assert once[..n] == Scrambled(p) && once[n..] == [0];
      forall i | 0 <= i < |p| ensures twice[i] == p[i] && p[i] != MaskByte(i) {
        XorByteCancel(p[i], MaskByte(i));
        assert once[i] == once[..n][i] && once[i] in once[..n];
      }
      assert twice == p + [0];
    }
  }

  lemma XorIsZero(a: byte, b: byte)
    ensures XorByte(a, b) == 0 <==> a == b
  {
    XorSelf(a);
    XorByteCancel(a, b);
    XorZero(b);
  }

  // ---------- base64, with brackets and underscores ----------

  const PAD: byte := 0x5f

  function Digit(v: byte): byte
    requires v < 64
  {
    if v < 26 then 0x41 + v
    else if v < 52 then 0x61 + (v - 26)
    else if v < 62 then 0x30 + (v - 52)
    else if v == 62 then 0x5b
    else 0x5d
  }

  /** The decoder's table of 128 entries. */
  function Value(c: byte): (v: byte)
    ensures v < 64
  {
    if c == 0x2b || c == 0x5b then 62
    else if c == 0x2f || c == 0x5d then 63
    else if 0x30 <= c <= 0x39 then 52 + (c - 0x30)
    else if 0x41 <= c <= 0x5a then c - 0x41
    else if 0x61 <= c <= 0x7a then 26 + (c - 0x61)
    else 0
  }

  lemma DigitValue(v: byte)
    requires v < 64
    ensures Value(Digit(v)) == v && 0x20 < Digit(v) < 0x7f && Digit(v) != PAD && Digit(v) != 0x3d
  {
  }

  function Quad(a: byte, b: byte, c: byte): (q: seq<byte>)
    ensures |q| == 4
  {
    [Digit(a / 4), Digit(a % 4 * 16 + b / 16), Digit(b % 16 * 4 + c / 64), Digit(c % 64)]
  }

  /** How many bytes are read for len of them: whole groups, at least one. */
  function Reach(len: nat): (n: nat)
    ensures n >= len && n >= 3 && n % 3 == 0
  {
    if len <= 3 then 3 else 3 + Reach(len - 3)
  }

  /** The text of the first len bytes of mem; what lies behind them is read for the last
      group but does not show. */
  function Encoded(mem: seq<byte>, len: nat): (t: seq<byte>)
    requires |mem| >= Reach(len)
    ensures |t| == Reach(len) / 3 * 4
    decreases len
  {
    var q := Quad(mem[0], mem[1], mem[2]);
    if len > 3 then q + Encoded(mem[3..], len - 3)
    else q[..1 + len] + [PAD, PAD, PAD][..3 - len]
  }

  /** The next character that counts, and what follows it. */
  function NextChar(d: seq<byte>): (r: Option<(byte, seq<byte>)>)
    ensures r.Some? ==> |r.value.1| < |d|
  {
    if d == [] || d[0] == 0 || d[0] == 0x3d || d[0] == PAD then None
    else if d[0] <= 0x20 || d[0] > 0x7f then NextChar(d[1..])
    else Some((d[0], d[1..]))
  }

  /** The bytes of a text, where v is the value of the character before it. */
  function Decoded(d: seq<byte>, step: nat, v: byte): seq<byte>
    requires step < 4 && v < 64
    decreases |d|
  {
    match NextChar(d)
    case None => []
    case Some(n) =>
      var w := Value(n.0);
      if step == 0 then Decoded(n.1, 1, w)
      else if step == 1 then [v * 4 + w / 16] + Decoded(n.1, 2, w)
      else if step == 2 then [v % 16 * 16 + w / 4] + Decoded(n.1, 3, w)
      else [v % 4 * 64 + w] + Decoded(n.1, 0, 0)
  }

  lemma NextDigit(v: byte, rest: seq<byte>)
    requires v < 64
    ensures NextChar([Digit(v)] + rest) == Some((Digit(v), rest))
  {
    DigitValue(v);
    hide Digit;
    assert ([Digit(v)] + rest)[1..] == rest;
  }

  lemma Stops(rest: seq<byte>)
    ensures NextChar([PAD] + rest) == None
  {
  }

  /** One digit decoded, in each of the four positions. */
  lemma DecodeDigit(v: byte, rest: seq<byte>, step: nat, before: byte)
    requires v < 64 && step < 4 && before < 64
    ensures Decoded([Digit(v)] + rest, step, before) ==
      if step == 0 then Decoded(rest, 1, v)
      else if step == 1 then [before * 4 + v / 16] + Decoded(rest, 2, v)
      else if step == 2 then [before % 16 * 16 + v / 4] + Decoded(rest, 3, v)
      else [before % 4 * 64 + v] + Decoded(rest, 0, 0)
  {
    NextDigit(v, rest);
    DigitValue(v);
    hide Digit, Value, NextChar;
  }

  lemma DecodePad(rest: seq<byte>, step: nat, before: byte)
    requires step < 4 && before < 64
    ensures Decoded([PAD] + rest, step, before) == []
  {
    Stops(rest);
    hide NextChar;
  }

  /** The first digits of a group, decoded one after the other. */
  lemma DecodeDigits(v0: byte, v1: byte, v2: byte, v3: byte, rest: seq<byte>)
    requires v0 < 64 && v1 < 64 && v2 < 64 && v3 < 64
    ensures var d0, d1, d2, d3 := [Digit(v0)], [Digit(v1)], [Digit(v2)], [Digit(v3)];
      Decoded(d0 + rest, 0, 0) == Decoded(rest, 1, v0) &&
      Decoded(d0 + (d1 + rest), 0, 0) == [v0 * 4 + v1 / 16] + Decoded(rest, 2, v1) &&
      Decoded(d0 + (d1 + (d2 + rest)), 0, 0) == [v0 * 4 + v1 / 16] + ([v1 % 16 * 16 + v2 / 4] + Decoded(rest, 3, v2)) &&
      Decoded(d0 + (d1 + (d2 + (d3 + rest))), 0, 0) ==
        [v0 * 4 + v1 / 16] + ([v1 % 16 * 16 + v2 / 4] + ([v2 % 4 * 64 + v3] + Decoded(rest, 0, 0)))
  {
    hide Digit, Decoded;
    var d1, d2, d3 := [Digit(v1)], [Digit(v2)], [Digit(v3)];
    DecodeDigit(v0, rest, 0, 0);
    DecodeDigit(v0, d1 + rest, 0, 0);
    DecodeDigit(v1, rest, 1, v0);
    DecodeDigit(v0, d1 + (d2 + rest), 0, 0);
    DecodeDigit(v1, d2 + rest, 1, v0);
    DecodeDigit(v2, rest, 2, v1);
    DecodeDigit(v0, d1 + (d2 + (d3 + rest)), 0, 0);
    DecodeDigit(v1, d2 + (d3 + rest), 1, v0);
    DecodeDigit(v2, d3 + rest, 2, v1);
    DecodeDigit(v3, rest, 3, v2);
  }

  lemma QuadBytes(a: byte, b: byte, c: byte)
    ensures a / 4 * 4 + (a % 4 * 16 + b / 16) / 16 == a
    ensures (a % 4 * 16 + b / 16) % 16 * 16 + (b % 16 * 4 + c / 64) / 4 == b
    ensures (b % 16 * 4 + c / 64) % 4 * 64 + c % 64 == c
  {
  }

  /** Decoding undoes encoding, for every number of bytes and whatever lies behind them. */
  lemma {:induction false} DecodeEncoded(mem: seq<byte>, len: nat)
    requires |mem| >= Reach(len)
    ensures Decoded(Encoded(mem, len), 0, 0) == mem[..len]
    decreases len
  {
    hide Quad, Decoded, Encoded, Reach;
    ReachFront(len);
    if len <= 3 {
      DecodeLast(mem, len);
    } else {
      var rest := Encoded(mem[3..], len - 3);
      DecodeGroup(mem[0], mem[1], mem[2], rest);
      DecodeEncoded(mem[3..], len - 3);
      EncodedFront(mem, len);
      assert mem[..len] == [mem[0]] + ([mem[1]] + ([mem[2]] + mem[3..][..len - 3]));
    }
  }

  lemma DecodeGroup(a: byte, b: byte, c: byte, rest: seq<byte>)
    ensures Decoded(Quad(a, b, c) + rest, 0, 0) == [a] + ([b] + ([c] + Decoded(rest, 0, 0)))
  {
    hide Digit, Decoded;
    var v0, v1, v2, v3 := a / 4, a % 4 * 16 + b / 16, b % 16 * 4 + c / 64, c % 64;
    QuadBytes(a, b, c);
    DecodeDigits(v0, v1, v2, v3, rest);
    assert Quad(a, b, c) + rest == [Digit(v0)] + ([Digit(v1)] + ([Digit(v2)] + ([Digit(v3)] + rest)));
  }

  lemma DecodeLast(mem: seq<byte>, len: nat)
    requires |mem| >= 3 && len <= 3
    ensures Decoded(Encoded(mem, len), 0, 0) == mem[..len]
  {
    hide Digit, Decoded;
    var a, b, c := mem[0], mem[1], mem[2];
    LastText(mem, len);
    DecodeLastDigits(a / 4, a % 4 * 16 + b / 16, b % 16 * 4 + c / 64, c % 64, len);
    QuadBytes(a, b, c);
    hide Encoded;
    assert mem[..len] == [a, b, c][..len];
  }

  /** The last group: as many bytes as it has digits after the first. */
  lemma DecodeLastDigits(v0: byte, v1: byte, v2: byte, v3: byte, len: nat)
    requires v0 < 64 && v1 < 64 && v2 < 64 && v3 < 64 && len <= 3
    ensures Decoded(LastGroup(v0, v1, v2, v3, len), 0, 0) == [v0 * 4 + v1 / 16, v1 % 16 * 16 + v2 / 4, v2 % 4 * 64 + v3][..len]
  {
    hide Digit, Decoded;
    var pads: seq<byte> := [PAD, PAD, PAD][..3 - len];
    DecodeDigits(v0, v1, v2, v3, pads);
    if len < 3 {
      assert pads == [PAD] + pads[1..];
      DecodePad(pads[1..], len + 1, if len == 0 then v0 else if len == 1 then v1 else v2);
    } else {
      DecodeNothing();
    }
  }

  function LastGroup(v0: byte, v1: byte, v2: byte, v3: byte, len: nat): seq<byte>
    requires v0 < 64 && v1 < 64 && v2 < 64 && v3 < 64 && len <= 3
  {
    var d0, d1, d2, d3 := [Digit(v0)], [Digit(v1)], [Digit(v2)], [Digit(v3)];
    var pads: seq<byte> := [PAD, PAD, PAD][..3 - len];
    if len == 0 then d0 + pads
    else if len == 1 then d0 + (d1 + pads)
    else if len == 2 then d0 + (d1 + (d2 + pads))
    else d0 + (d1 + (d2 + (d3 + pads)))
  }

  lemma LastText(mem: seq<byte>, len: nat)
    requires |mem| >= 3 && len <= 3
    ensures var a, b, c := mem[0], mem[1], mem[2];
      Encoded(mem, len) == LastGroup(a / 4, a % 4 * 16 + b / 16, b % 16 * 4 + c / 64, c % 64, len)
  {
    hide Digit;
  }

  lemma DecodeNothing()
    ensures Decoded([], 0, 0) == []
  {
  }

  /** The groups of the first n bytes, before any padding. */
  function Raw(mem: seq<byte>, n: nat): (t: seq<byte>)
    requires n % 3 == 0 && n <= |mem|
    ensures |t| == n / 3 * 4
  {
    if n == 0 then [] else Raw(mem, n - 3) + Quad(mem[n - 3], mem[n - 2], mem[n - 1])
  }

  lemma {:induction false} RawFromFront(mem: seq<byte>, n: nat)
    requires n % 3 == 0 && 3 <= n <= |mem|
    ensures Raw(mem, n) == Quad(mem[0], mem[1], mem[2]) + Raw(mem[3..], n - 3)
    decreases n
  {
    hide Quad;
    if n > 3 {
      RawFromFront(mem, n - 3);
    }
  }

  /** Padding overwrites what the bytes behind the text left in the last group. */
  lemma {:induction false} EncodedIsRaw(mem: seq<byte>, len: nat)
    requires |mem| >= Reach(len)
    ensures var raw := Raw(mem, Reach(len)); var pads := Reach(len) - len;
      pads <= 3 && Encoded(mem, len) == raw[..|raw| - pads] + [PAD, PAD, PAD][..pads]
    decreases len
  {
    hide Encoded, Reach, Quad, Raw;
    ReachFront(len);
    if len <= 3 {
      LastIsRaw(mem, len);
    } else {
      RawFromFront(mem, Reach(len));
      EncodedIsRaw(mem[3..], len - 3);
      var q, raw, pads := Quad(mem[0], mem[1], mem[2]), Raw(mem[3..], Reach(len - 3)), Reach(len) - len;
      EncodedFront(mem, len);
      PadBehind(q, raw, pads, Encoded(mem[3..], len - 3), Raw(mem, Reach(len)));
    }
  }

  lemma ReachFront(len: nat)
    ensures if len <= 3 then Reach(len) == 3 else Reach(len) == Reach(len - 3) + 3
  {
  }

  lemma EncodedFront(mem: seq<byte>, len: nat)
    requires |mem| >= Reach(len) && len > 3
    ensures Encoded(mem, len) == Quad(mem[0], mem[1], mem[2]) + Encoded(mem[3..], len - 3)
  {
    hide Quad, Raw;
  }

  lemma PadBehind(q: seq<byte>, raw: seq<byte>, pads: nat, e: seq<byte>, whole: seq<byte>)
    requires pads <= 3 && pads <= |raw| && e == raw[..|raw| - pads] + [PAD, PAD, PAD][..pads] && whole == q + raw
    ensures q + e == whole[..|whole| - pads] + [PAD, PAD, PAD][..pads]
  {
    CutBehind(q, raw, pads);
    Associate(q, raw[..|raw| - pads], [PAD, PAD, PAD][..pads]);
  }

  lemma LastIsRaw(mem: seq<byte>, len: nat)
    requires |mem| >= 3 && len <= 3
    ensures Encoded(mem, len) == Raw(mem, 3)[..1 + len] + [PAD, PAD, PAD][..3 - len]
  {
    hide Quad;
    assert Raw(mem, 0) == [];
  }

  lemma CutBehind(q: seq<byte>, raw: seq<byte>, pads: nat)
    requires pads <= |raw|
    ensures (q + raw)[..|q + raw| - pads] == q + raw[..|raw| - pads]
  {
  }

  lemma {:induction false} ReachIs(len: nat)
    ensures Reach(len) == if len == 0 then 3 else (len + 2) / 3 * 3
    decreases len
  {
    if len > 3 {
      ReachIs(len - 3);
    }
  }

  /** The first loop: whole groups, at least one. */
  method PutGroups(data: array<byte>, size: nat, buff: array<byte>) returns (p: nat, len: int)
    requires data.Length >= Reach(size) && buff.Length == size / 3 * 4 + 6 && buff != data
    modifies buff
    ensures p == Reach(size) / 3 * 4 < buff.Length && len == size - Reach(size) && buff[..p] == Raw(data[..], Reach(size))
  {
    hide Quad, Raw, Reach;
    ReachIs(size);
    NoRaw(data[..]);
    var q: nat;
    p, q, len := 0, 0, size;
    while true
      invariant q % 3 == 0 && q / 3 * 4 == p && q + 3 <= Reach(size) && len == size - q
      invariant buff[..p] == Raw(data[..], q)
      decreases Reach(size) - q
    {
      PutQuad(buff, p, data[q], data[q + 1], data[q + 2]);
      NextRaw(data[..], q);
      p := p + 4;
      q := q + 3;
      len := len - 3;
      if len <= 0 { break; }
    }
    assert q == Reach(size);
  }

  method Base64Encode(data: array<byte>, size: nat) returns (buff: array<byte>, n: nat)
    requires data.Length >= Reach(size)  // the last group is read whole
    ensures fresh(buff) && n < buff.Length && buff[n] == 0 && buff[..n] == Encoded(data[..], size)
  {
    hide Encoded, Raw, Reach;
    buff := new byte[size / 3 * 4 + 6](_ => 0);
    var len;
    n, len := PutGroups(data, size, buff);
    buff[n] := 0;
    ghost var raw := buff[..n];
    EncodedIsRaw(data[..], size);
    Pad(buff, n, len);
    assert raw[..n + len] == raw[..|raw| - (Reach(size) - size)];
  }

  lemma NoRaw(mem: seq<byte>)
    ensures Raw(mem, 0) == []
  {
  }

  lemma NextRaw(mem: seq<byte>, q: nat)
    requires q % 3 == 0 && q + 3 <= |mem|
    ensures Raw(mem, q + 3) == Raw(mem, q) + Quad(mem[q], mem[q + 1], mem[q + 2])
  {
    hide Quad;
  }

  /** The last loop: len is not positive. */
  method Pad(buff: array<byte>, p: nat, len: int)
    requires -3 <= len <= 0 && p + len >= 0 && p < buff.Length
    modifies buff
    ensures buff[..p] == old(buff[..p + len]) + [PAD, PAD, PAD][..-len] && buff[p..] == old(buff[p..])
  {
    var i := len;
    while i < 0
      invariant len <= i <= 0
      invariant forall j :: 0 <= j < buff.Length ==> buff[j] == if p + len <= j < p + i then PAD else old(buff[j])
    {
      buff[p + i] := PAD;
      i := i + 1;
    }
  }

  method PutQuad(buff: array<byte>, p: nat, a: byte, b: byte, c: byte)
    requires p + 4 <= buff.Length
    modifies buff
    ensures buff[..p + 4] == old(buff[..p]) + Quad(a, b, c)
  {
    var d0, d1, d2, d3 := a / 4 % 64, (a % 4 * 16 + b / 16 % 16) % 64, (b % 16 * 4 + c / 64 % 4) % 64, c % 64;
    assert Quad(a, b, c) == [Digit(d0), Digit(d1), Digit(d2), Digit(d3)] by {
      QuadDigits(a, b, c);
    }
    hide Digit, Quad;
    buff[p], buff[p + 1], buff[p + 2], buff[p + 3] := Digit(d0), Digit(d1), Digit(d2), Digit(d3);
  }

  /** The masks of the source change nothing. */
  lemma QuadDigits(a: byte, b: byte, c: byte)
    ensures a / 4 % 64 == a / 4 && (a % 4 * 16 + b / 16 % 16) % 64 == a % 4 * 16 + b / 16
    ensures (b % 16 * 4 + c / 64 % 4) % 64 == b % 16 * 4 + c / 64
  {
    Small(a / 4, 64);
    Small(b / 16, 16);
    Small(c / 64, 4);
    Small(a % 4 * 16 + b / 16, 64);
    Small(b % 16 * 4 + c / 64, 64);
  }

  /** The buffer is made for three bytes of each whole group and a terminator. The length
      is None where the source writes behind it. */
  method Base64Decode(data: array<byte>, size: nat) returns (buff: array<byte>, len: Option<nat>)
    requires size <= data.Length
    ensures fresh(buff) && (len.Some? <==> Yield(Counted(data[..size])) <= size / 4 * 3)
    ensures len.Some? ==>
              len.value < buff.Length && buff[len.value] == 0 && buff[..len.value] == Decoded(data[..size], 0, 0)
  {
    hide Value, NextChar, Decoded, Bytes, Carried, Yield, Counted;
    NothingCarried();
    DecodedLength(data[..size]);
    buff := new byte[size / 4 * 3 + 1](_ => 0);
    var p: nat, q: nat, step: nat := 0, 0, 0;
    var a: byte, b: byte := 0, 0;
    assert data[0..size] == data[..size] && buff[..0] == [];
    while true
      invariant q <= size && a < 64 && b < 64 && p <= buff.Length
      invariant Decoded(data[..size], 0, 0) == buff[..p] + Decoded(data[q..size], step % 4, Carried(step % 4, a, b))
      decreases size - q
    {
      ghost var rest, s := data[q..size], step % 4;
      ghost var v, before := Carried(s, a, b), buff[..p];
      NextStep(step);
      var c;
      c, q := Next(data, q, size);
      if c == 0 {
        EndOfText(rest, s, v);
        break;
      }
      DecodeStep(rest, s, v, c, data[q..size]);
      if step % 4 != 0 && p == buff.Length {
        return buff, None;
      }
      p, a, b := PutChar(buff, p, step % 4, a, b, c);
      Associate(before, Bytes(s, v, Value(c)), Decoded(data[q..size], (s + 1) % 4, Carried((s + 1) % 4, a, b)));
      step := step + 1;
    }
    if p == buff.Length {
      return buff, None;
    }
    buff[p] := 0;
    len := Some(p);
  }

  lemma NothingCarried()
    ensures Carried(0, 0, 0) == 0
  {
  }

  lemma NextStep(step: nat)
    ensures (step % 4 + 1) % 4 == (step + 1) % 4
  {
  }

  /** Bytes of a text of n characters that all count. */
  function Yield(n: nat): nat {
    n / 4 * 3 + if n % 4 == 0 then 0 else n % 4 - 1
  }

  /** How many characters count before the text ends. */
  function Counted(d: seq<byte>): nat
    decreases |d|
  {
    match NextChar(d)
    case None => 0
    case Some(n) => 1 + Counted(n.1)
  }

  lemma {:induction false} DecodedFrom(d: seq<byte>, step: nat, v: byte)
    requires step < 4 && v < 64
    ensures |Decoded(d, step, v)| == Yield(step + Counted(d)) - Yield(step)
    decreases |d|
  {
    hide Value, Decoded, NextChar, Yield, Bytes;
    var n := NextChar(d);
    if n == None {
      EndOfText(d, step, v);
    } else {
      var c, rest := n.value.0, n.value.1;
      YieldStep(step, Counted(rest));
      DecodedFrom(rest, (step + 1) % 4, if step == 3 then 0 else Value(c));
      DecodeStep(d, step, v, c, rest);
    }
  }

  /** The characters that count decide the number of bytes, and so whether they fit. */
  lemma DecodedLength(d: seq<byte>)
    ensures |Decoded(d, 0, 0)| == Yield(Counted(d))
  {
    hide Decoded, Counted;
    DecodedFrom(d, 0, 0);
  }

  lemma {:induction false} YieldsMore(m: nat, n: nat)
    requires m <= n
    ensures Yield(m) <= Yield(n)
    decreases n - m
  {
    if m < n {
      YieldsMore(m + 1, n);
    }
  }

  lemma YieldStep(step: nat, n: nat)
    requires step < 4
    ensures Yield((step + 1) % 4 + n) - Yield((step + 1) % 4) + (if step == 0 then 0 else 1) == Yield(step + 1 + n) - Yield(step)
  {
    YieldSmall();
    hide Yield;
    if step == 3 {
      YieldGroup(n);
    }
  }

  lemma YieldSmall()
    ensures Yield(0) == Yield(1) == 0 && Yield(2) == 1 && Yield(3) == 2
  {
  }

  lemma YieldGroup(n: nat)
    ensures Yield(4 + n) == Yield(n) + 3
  {
    Euclid(n, 4);
    DivUnique(4 + n, 4, n / 4 + 1, n % 4);
  }

  /** The decoded bytes leave room for a terminator in the buffer. */
  predicate Fits(d: seq<byte>) {
    |Decoded(d, 0, 0)| <= |d| / 4 * 3
  }

  /** No character ends the text or is skipped. */
  predicate AllCount(d: seq<byte>) {
    forall i :: 0 <= i < |d| ==> 0x20 < d[i] <= 0x7f && d[i] != 0x3d && d[i] != PAD
  }

  lemma {:induction false} CountedBound(d: seq<byte>)
    ensures Counted(d) <= |d| && (AllCount(d) ==> Counted(d) == |d|)
    decreases |d|
  {
    hide AllCount;
    var n := NextChar(d);
    if n.Some? {
      CountedBound(n.value.1);
    }
    if AllCount(d) && d != [] {
      FirstCounts(d);
    }
  }

  lemma FirstCounts(d: seq<byte>)
    requires AllCount(d) && d != []
    ensures NextChar(d) == Some((d[0], d[1..])) && AllCount(d[1..])
  {
  }

  /** Where all characters count, it fits exactly if at most one is over whole groups. */
  lemma PlainTextFits(d: seq<byte>)
    requires AllCount(d)
    ensures Fits(d) <==> |d| % 4 <= 1
  {
    hide Decoded, AllCount, Counted;
    DecodedLength(d);
    CountedBound(d);
  }

  /** The lengths for which every text fits. */
  lemma LengthDecides(n: nat)
    ensures (forall d: seq<byte> :: |d| == n ==> Fits(d)) <==> n % 4 <= 1
  {
    hide Decoded, Counted;
    if n % 4 <= 1 {
      forall d: seq<byte> | |d| == n ensures Fits(d) {
        DecodedLength(d);
        CountedBound(d);
        YieldsMore(Counted(d), n);
      }
    } else {
      var d: seq<byte> := seq(n, _ => 0x41);
      PlainTextFits(d);
    }
  }

  /** Two characters decode to a byte, and the buffer holds a terminator only. */
  lemma TwoCharactersOverrun()
    ensures var d: seq<byte> := [0x41, 0x41]; Decoded(d, 0, 0) == [0] && |d| / 4 * 3 == 0
  {
    var d: seq<byte> := [0x41, 0x41];
    assert d[1..] == [0x41] && d[1..][1..] == [];
    assert Decoded(d[1..][1..], 2, 0) == [];
    assert Decoded(d[1..], 1, 0) == [0] + Decoded(d[1..][1..], 2, 0);
  }

  /** Which of the two variables the next character needs, if any. */
  function Carried(step: nat, a: byte, b: byte): (v: byte)
    requires a < 64 && b < 64
    ensures v < 64
  {
    if step == 0 then 0 else if step == 2 then b else a
  }

  /** What a character of value w adds to the bytes. */
  function Bytes(step: nat, v: byte, w: byte): (s: seq<byte>)
    requires step < 4 && v < 64 && w < 64
    ensures |s| == if step == 0 then 0 else 1
  {
    if step == 0 then [] else if step == 1 then [v * 4 + w / 16] else if step == 2 then [v % 16 * 16 + w / 4] else [v % 4 * 64 + w]
  }

  /** The switch of base64_decode. */
  method PutChar(buff: array<byte>, p_: nat, step: nat, a_: byte, b_: byte, c: byte) returns (p: nat, a: byte, b: byte)
    requires step < 4 && a_ < 64 && b_ < 64 && p_ + (if step == 0 then 0 else 1) <= buff.Length
    modifies buff
    ensures a < 64 && b < 64 && p == p_ + if step == 0 then 0 else 1
    ensures buff[..p] == old(buff[..p_]) + Bytes(step, Carried(step, a_, b_), Value(c))
    ensures Carried((step + 1) % 4, a, b) == if step == 3 then 0 else Value(c)
  {
    hide Value;
    p, a, b := p_, a_, b_;
    match step {
      case 0 =>
        a := Value(c);
      case 1 =>
        b := Value(c);
        p := PutByte(buff, p, a * 4 + b / 16);
      case 2 =>
        a := Value(c);
        p := PutByte(buff, p, b % 16 * 16 + a / 4);
      case _ =>
        p := PutByte(buff, p, a % 4 * 64 + Value(c));
    }
  }

  method PutByte(buff: array<byte>, p: nat, x: byte) returns (end: nat)
    requires p < buff.Length
    modifies buff
    ensures end == p + 1 && buff[..end] == old(buff[..p]) + [x]
  {
    buff[p] := x;
    end := p + 1;
  }

  lemma Tail(a: array<byte>, i: nat, j: nat)
    requires i < j <= a.Length
    ensures a[i..j][0] == a[i] && a[i..j][1..] == a[i + 1..j]
  {
  }

  /** The inner loop: the next character that counts, or 0. */
  method Next(data: array<byte>, q_: nat, size: nat) returns (c: byte, q: nat)
    requires q_ <= size <= data.Length
    ensures q_ <= q <= size
    ensures match NextChar(data[q_..size])
      case None => c == 0
      case Some(n) => c != 0 && q_ < q && n == (c, data[q..size])
  {
    q := q_;
    while true
      invariant q_ <= q <= size && NextChar(data[q_..size]) == NextChar(data[q..size])
      decreases size - q
    {
      if q >= size {
        return 0, q;
      }
      ghost var rest := data[q..size];
      Tail(data, q, size);
      c := data[q];
      q := q + 1;
      if c == 0x3d || c == PAD {
        return 0, q;
      }
      if !(c != 0 && (c <= 0x20 || c > 0x7f)) {
        return;
      }
    }
  }

  lemma EndOfText(d: seq<byte>, step: nat, v: byte)
    requires step < 4 && v < 64 && NextChar(d) == None
    ensures Decoded(d, step, v) == []
  {
  }

  lemma DecodeStep(d: seq<byte>, step: nat, v: byte, c: byte, rest: seq<byte>)
    requires step < 4 && v < 64 && NextChar(d) == Some((c, rest))
    ensures Decoded(d, step, v) ==
      Bytes(step, v, Value(c)) + Decoded(rest, (step + 1) % 4, if step == 3 then 0 else Value(c))
  {
    hide NextChar, Value;
    if step == 0 {
      assert [] + Decoded(rest, 1, Value(c)) == Decoded(rest, 1, Value(c));
    }
  }

  // ---------- The dialect ----------

  const ALPHABET: string := "ABCDEFGHIJKLMNOPQRSTUVWXYZ" + ("abcdefghijklmnopqrstuvwxyz" + "0123456789[]")

  /** The digits are these characters in this order. */
  lemma DigitIs(v: byte)
    requires v < 64
    ensures |ALPHABET| == 64 && Digit(v) == ALPHABET[v] as int
  {
    if v < 26 {
      UpperLetter(v);
    } else if v < 52 {
      LowerLetter(v - 26);
    } else {
      OtherDigit(v - 52);
    }
  }

  lemma UpperLetter(v: nat)
    requires v < 26
    ensures "ABCDEFGHIJKLMNOPQRSTUVWXYZ"[v] as int == 0x41 + v
  {
  }

  lemma LowerLetter(v: nat)
    requires v < 26
    ensures "abcdefghijklmnopqrstuvwxyz"[v] as int == 0x61 + v
  {
  }

  lemma OtherDigit(v: nat)
    requires v < 12
    ensures "0123456789[]"[v] as int == if v < 10 then 0x30 + v else if v == 10 then 0x5b else 0x5d
  {
  }

  /** A digit is worth its place, plus and slash are the last two as well, and everything
      else is worth nothing. */
  lemma ValueIs(c: byte)
    ensures forall v :: 0 <= v < 64 && ALPHABET[v] as int == c ==> Value(c) == v
    ensures c == 0x2b ==> Value(c) == 62
    ensures c == 0x2f ==> Value(c) == 63
  {
    forall v | 0 <= v < 64 && ALPHABET[v] as int == c ensures Value(c) == v {
      DigitIs(v);
      DigitValue(v);
    }
  }

  /** Four digits are the number that three bytes are. */
  lemma QuadNumber(a: byte, b: byte, c: byte)
    ensures var q := Quad(a, b, c);
      ((Value(q[0]) as int * 64 + Value(q[1])) * 64 + Value(q[2])) * 64 + Value(q[3]) == (a as int * 256 + b) * 256 + c
  {
    var v0, v1, v2, v3 := a / 4, a % 4 * 16 + b / 16, b % 16 * 4 + c / 64, c % 64;
    DigitValue(v0);
    DigitValue(v1);
    DigitValue(v2);
    DigitValue(v3);
    hide Digit, Value;
  }

  /** The digits of the bytes from 3 * g on, with as many underscores as bytes are missing. */
  function GroupOf(mem: seq<byte>, len: nat, g: nat): (d: seq<byte>)
    requires |mem| >= 3 * g + 3 && len >= 3 * g
  {
    var q, n := Quad(mem[3 * g], mem[3 * g + 1], mem[3 * g + 2]), len - 3 * g;
    if n >= 3 then q else q[..1 + n] + [0x5f, 0x5f, 0x5f][..3 - n]
  }

  /** A text is made of these groups. */
  lemma {:induction false} EncodedGroup(mem: seq<byte>, len: nat, g: nat)
    requires |mem| >= Reach(len) && 3 * g <= len && (3 * g < len || g == 0)
    ensures |mem| >= 3 * g + 3 && |Encoded(mem, len)| >= 4 * g + 4 && Encoded(mem, len)[4 * g..4 * g + 4] == GroupOf(mem, len, g)
    decreases len
  {
    hide Quad, Encoded, Reach, GroupOf;
    ReachFront(len);
    if len <= 3 {
      LastGroupIs(mem, len);
    } else {
      EncodedFront(mem, len);
      var q, rest := Quad(mem[0], mem[1], mem[2]), Encoded(mem[3..], len - 3);
      if g == 0 {
        assert (q + rest)[0..4] == q;
        FirstGroup(mem, len);
      } else {
        EncodedGroup(mem[3..], len - 3, g - 1);
        Behind4(q, rest, g);
        LaterGroup(mem, len, g);
      }
    }
  }

  lemma FirstGroup(mem: seq<byte>, len: nat)
    requires |mem| >= 3 && len >= 3
    ensures GroupOf(mem, len, 0) == Quad(mem[0], mem[1], mem[2])
  {
    hide Quad;
  }

  lemma LaterGroup(mem: seq<byte>, len: nat, g: nat)
    requires g > 0 && |mem| >= 3 * g + 3 && len >= 3 * g
    ensures GroupOf(mem[3..], len - 3, g - 1) == GroupOf(mem, len, g)
  {
    hide Quad;
    var rest, k := mem[3..], 3 * (g - 1);
    assert rest[k] == mem[3 * g] && rest[k + 1] == mem[3 * g + 1] && rest[k + 2] == mem[3 * g + 2];
  }

  lemma LastGroupIs(mem: seq<byte>, len: nat)
    requires |mem| >= 3 && len <= 3
    ensures |Encoded(mem, len)| == 4 && Encoded(mem, len)[0..4] == GroupOf(mem, len, 0)
  {
    hide Quad;
    var t := Encoded(mem, len);
    assert t[0..4] == t;
  }

  lemma Behind4(q: seq<byte>, rest: seq<byte>, g: nat)
    requires |q| == 4 && g > 0 && |rest| >= 4 * g
    ensures (q + rest)[4 * g..4 * g + 4] == rest[4 * (g - 1)..4 * (g - 1) + 4]
  {
  }

  predicate Skips(c: byte) {
    0 < c <= 0x20 || c > 0x7f
  }

  predicate Ends(c: byte) {
    c == 0 || c == 0x3d || c == 0x5f
  }

  /** Reading goes on behind what is skipped, up to a character that counts or one that ends
      the text; an equals sign, an underscore and a null byte do. */
  lemma {:induction false} NextIs(d: seq<byte>, i: nat)
    requires i <= |d| && forall j :: 0 <= j < i ==> Skips(d[j])
    ensures i == |d| || Ends(d[i]) ==> NextChar(d) == None
    ensures i < |d| && !Ends(d[i]) && !Skips(d[i]) ==> NextChar(d) == Some((d[i], d[i + 1..]))
    decreases i
  {
    if i > 0 {
      NextIs(d[1..], i - 1);
    }
  }

  // ---------- A password on its way ----------

  /** Scrambled, encoded, decoded and scrambled again, a password comes back exactly if no
      byte of it equals its mask byte; mem is the sender's memory, which starts with the
      scrambled password. */
  lemma PasswordRoundTrip(p: cstring, mem: seq<byte>)
    requires |mem| >= Reach(|p|) && mem[..|p|] == Scrambled(p)
    ensures var got := Decoded(Encoded(mem, |p|), 0, 0) + [0];
      Scrambled(CString(got)) + got[|CString(got)|..] == p + [0] <==> forall i :: 0 <= i < |p| ==> p[i] != MaskByte(i)
  {
    hide Decoded, Encoded, Scrambled, MaskByte, CString;
    DecodeEncoded(mem, |p|);
    ScrambleTwice(p);
  }

  /** Encoded texts consist of whole groups, and so fit when they are decoded. */
  lemma EncodedFits(mem: seq<byte>, len: nat)
    requires |mem| >= Reach(len)
    ensures Yield(Counted(Encoded(mem, len))) <= |Encoded(mem, len)| / 4 * 3
  {
    hide Encoded, Decoded, Counted, Yield;
    var n := |Encoded(mem, len)|;
    DivUnique(n, 4, Reach(len) / 3, 0);
    LengthDecides(n);
    assert Fits(Encoded(mem, len));
    DecodedLength(Encoded(mem, len));
  }

  lemma CStringOfPrefix(buf: seq<byte>, n: nat)
    requires n < |buf| && buf[n] == 0
    ensures CString(buf) == CString(buf[..n + 1]) && |CString(buf)| <= n
  {
    hide Find;
    FindInPrefix(buf, n);
  }

  lemma {:induction false} FindInPrefix(buf: seq<byte>, n: nat)
    requires n < |buf| && buf[n] == 0
    ensures Find(buf, 0) == Find(buf[..n + 1], 0) <= n
    decreases n
  {
    if n > 0 && buf[0] != 0 {
      assert buf[..n + 1][1..] == buf[1..][..n];
      FindInPrefix(buf[1..], n - 1);
    }
  }

  /** The four steps in sequence: what comes out is the password exactly if no byte of it
      equals its mask byte. */
  method SendPassword(pass: array<byte>) returns (got: array<byte>)
    requires 0 in pass[..] && pass.Length >= Reach(|CString(pass[..])|)
    modifies pass
    ensures var p := CString(old(pass[..]));
      |p| < got.Length && (got[..|p| + 1] == p + [0] <==> forall i :: 0 <= i < |p| ==> p[i] != MaskByte(i))
  {
    hide Scrambled, Encoded, Decoded, Reach, CString, MaskByte, Counted, Yield;
    ghost var p := CString(pass[..]);
    var size := Gspassenc(pass);
    assert pass[..][..size] == Scrambled(p);
    var text, n := Base64Encode(pass, size);
    EncodedFits(pass[..], size);
    var len;
    got, len := Base64Decode(text, n);
    DecodeEncoded(pass[..], size);
    ghost var all, once := got[..], got[..size + 1];
    assert once == Scrambled(p) + [0];
    CStringOfPrefix(all, size);
    var again := Gspassenc(got);
    assert got[..size + 1] == Scrambled(CString(once)) + once[again..];
    PasswordRoundTrip(p, pass[..]);
  }
}
