/** The MD5 message digest as RFC 1321 defines it, and HMAC-MD5 as RFC 2104 does. */
module Md5 {
  import opened Bits

  const MODULUS := 0x1_0000_0000

  // ---------- Words ----------

  function And(a: nat, b: nat): nat
    decreases a + b
  {
    if a == 0 && b == 0 then 0 else (if a % 2 == 1 && b % 2 == 1 then 1 else 0) + 2 * And(a / 2, b / 2)
  }

  function Or(a: nat, b: nat): nat
    decreases a + b
  {
    if a == 0 && b == 0 then 0 else (if a % 2 == 1 || b % 2 == 1 then 1 else 0) + 2 * Or(a / 2, b / 2)
  }

  lemma {:induction false} AndOrBound(a: nat, b: nat, n: nat)
    requires a < Pow2(n) && b < Pow2(n)
    ensures And(a, b) < Pow2(n) && Or(a, b) < Pow2(n)
    decreases n
  {
    if n > 0 {
      AndOrBound(a / 2, b / 2, n - 1);
    }
  }

  lemma Pow8()
    ensures Pow2(8) == 0x100
  {
  }

  lemma Pow32()
    ensures Pow2(32) == MODULUS && Pow2(64) == MODULUS * MODULUS
  {
    hide Pow2;
    assert Pow2(8) == 0x100 by {
      Pow8();
    }
    Pow2Product(8, 8);
    Pow2Product(16, 16);
    Pow2Product(32, 32);
  }

  function AndWord(a: word, b: word): word {
    Pow32();
    AndOrBound(a, b, 32);
    And(a, b)
  }

  function OrWord(a: word, b: word): word {
    Pow32();
    AndOrBound(a, b, 32);
    Or(a, b)
  }

  function Sum(a: nat, b: nat): word {
    (a + b) % MODULUS
  }

  type bit = x: int | 0 <= x < 2

  function AndBit(a: bit, b: bit): bit {
    if a == 1 && b == 1 then 1 else 0
  }

  function OrBit(a: bit, b: bit): bit {
    if a == 1 || b == 1 then 1 else 0
  }

  function XorBit(a: bit, b: bit): bit {
    if a == b then 0 else 1
  }

  lemma OrCons(a: nat, b: nat, i: bit, j: bit)
    ensures Or(2 * a + i, 2 * b + j) == 2 * Or(a, b) + OrBit(i, j)
  {
    DivUnique(2 * a + i, 2, a, i);
    DivUnique(2 * b + j, 2, b, j);
  }

  lemma {:induction false} OrZero(a: nat)
    ensures Or(a, 0) == a
    decreases a
  {
    if a > 0 {
      OrZero(a / 2);
    }
  }

  /** Where two numbers share no bit, bitwise or is a sum. */
  lemma {:induction false} OrIsSum(u: nat, v: nat, s: nat)
    requires v < Pow2(s)
    ensures Or(u * Pow2(s), v) == u * Pow2(s) + v
    decreases s
  {
    hide Or;
    if s == 0 {
      OrZero(u);
    } else {
      var p := u * Pow2(s - 1);
      assert u * Pow2(s) == 2 * p;
      OrIsSum(u, v / 2, s - 1);
      OrCons(p, v / 2, 0, v % 2);
    }
  }

  /** Circular shift to the left */
  function Rotated(x: word, s: nat): nat
    requires 0 < s < 32
  {
    Or(Shifted(x, s), Around(x, s))
  }

  function Shifted(x: nat, s: nat): nat {
    x * Pow2(s) % MODULUS
  }

  function Around(x: nat, s: nat): nat
    requires s < 32
  {
    QuotientIsNat(x, Pow2(32 - s));
    x / Pow2(32 - s)
  }

  /** What is shifted is a multiple of 2^s, and what comes round is less than 2^s. */
  lemma RotationFits(x: word, s: nat)
    requires 0 < s < 32
    ensures Rotated(x, s) == Shifted(x, s) + Around(x, s) < MODULUS && Around(x, s) < Pow2(s)
  {
    hide Pow2, Or;
    var p, q := Pow2(s), Pow2(32 - s);
    Pow2Product(s, 32 - s);
    Pow32();
    Euclid(x, q);
    assert x / q < p by {
      if x / q >= p {
        Monotone(q, p, x / q);
      }
    }
    ShiftedIsMultiple(MODULUS, x, p, q);
    OrIsSum(x % q, x / q, s);
  }

  lemma {:induction false} Pow2Product(m: nat, n: nat)
    ensures Pow2(m) * Pow2(n) == Pow2(m + n)
  {
    hide Pow2;
    if m == 0 {
      Pow2Zero();
    } else {
      Pow2Product(m - 1, n);
      Pow2Succ(m - 1);
      Pow2Succ(m - 1 + n);
      Doubled(Pow2(m - 1), Pow2(n));
    }
  }

  lemma Doubled(p: int, q: int)
    ensures (2 * p) * q == 2 * (p * q)
  {
  }

  lemma ShiftedIsMultiple(m: nat, x: nat, p: nat, q: nat)
    requires p > 0 && q > 0 && p * q == m
    ensures x * p % m == x % q * p && x % q * p <= m - p
  {
    Euclid(x, q);
    var d, r := x / q, x % q;
    assert x * p == m * d + r * p by {
      assert x * p == (q * d + r) * p == (p * q) * d + r * p;
    }
    assert r * p <= (q - 1) * p == m - p by {
      Monotone(p, r, q - 1);
    }
    DivUnique(x * p, m, d, r * p);
  }

  // ---------- The compression function (section 3.4 of RFC 1321) ----------

  datatype State = State(a: word, b: word, c: word, d: word)

  const INIT := State(0x6745_2301, 0xefcd_ab89, 0x98ba_dcfe, 0x1032_5476)

  /** The functions F, G, H and I of the four rounds */
  function Mix(round: nat, x: word, y: word, z: word): word
    requires round < 4
  {
    if round == 0 then OrWord(AndWord(x, y), AndWord(NotWord(x), z))
    else if round == 1 then OrWord(AndWord(x, z), AndWord(y, NotWord(z)))
    else if round == 2 then XorWord(XorWord(x, y), z)
    else XorWord(y, OrWord(x, NotWord(z)))
  }

  /** Which word of the block step i takes */
  function K(i: nat): nat {
    if i < 16 then i else if i < 32 then (5 * i + 1) % 16 else if i < 48 then (3 * i + 5) % 16 else 7 * i % 16
  }

  /** How far step i rotates */
  function S(i: nat): (s: nat)
    ensures 0 < s < 32
  {
    if i < 16 then [7, 12, 17, 22][i % 4]
    else if i < 32 then [5, 9, 14, 20][i % 4]
    else if i < 48 then [4, 11, 16, 23][i % 4]
    else [6, 10, 15, 21][i % 4]
  }

  /** The table of sines, of which step i takes entry i */
  function T(i: nat): word {
    if i < 16 then T1(i) else if i < 32 then T2(i) else if i < 48 then T3(i) else T4(i)
  }

  function T1(i: nat): word {
    match i
    case 0 => 0xd76a_a478
    case 1 => 0xe8c7_b756
    case 2 => 0x2420_70db
    case 3 => 0xc1bd_ceee
    case 4 => 0xf57c_0faf
    case 5 => 0x4787_c62a
    case 6 => 0xa830_4613
    case 7 => 0xfd46_9501
    case 8 => 0x6980_98d8
    case 9 => 0x8b44_f7af
    case 10 => 0xffff_5bb1
    case 11 => 0x895c_d7be
    case 12 => 0x6b90_1122
    case 13 => 0xfd98_7193
    case 14 => 0xa679_438e
    case _ => 0x49b4_0821
  }

  function T2(i: nat): word {
    match i
    case 16 => 0xf61e_2562
    case 17 => 0xc040_b340
    case 18 => 0x265e_5a51
    case 19 => 0xe9b6_c7aa
    case 20 => 0xd62f_105d
    case 21 => 0x0244_1453
    case 22 => 0xd8a1_e681
    case 23 => 0xe7d3_fbc8
    case 24 => 0x21e1_cde6
    case 25 => 0xc337_07d6
    case 26 => 0xf4d5_0d87
    case 27 => 0x455a_14ed
    case 28 => 0xa9e3_e905
    case 29 => 0xfcef_a3f8
    case 30 => 0x676f_02d9
    case _ => 0x8d2a_4c8a
  }

  function T3(i: nat): word {
    match i
    case 32 => 0xfffa_3942
    case 33 => 0x8771_f681
    case 34 => 0x6d9d_6122
    case 35 => 0xfde5_380c
    case 36 => 0xa4be_ea44
    case 37 => 0x4bde_cfa9
    case 38 => 0xf6bb_4b60
    case 39 => 0xbebf_bc70
    case 40 => 0x289b_7ec6
    case 41 => 0xeaa1_27fa
    case 42 => 0xd4ef_3085
    case 43 => 0x0488_1d05
    case 44 => 0xd9d4_d039
    case 45 => 0xe6db_99e5
    case 46 => 0x1fa2_7cf8
    case _ => 0xc4ac_5665
  }

  function T4(i: nat): word {
    match i
    case 48 => 0xf429_2244
    case 49 => 0x432a_ff97
    case 50 => 0xab94_23a7
    case 51 => 0xfc93_a039
    case 52 => 0x655b_59c3
    case 53 => 0x8f0c_cc92
    case 54 => 0xffef_f47d
    case 55 => 0x8584_5dd1
    case 56 => 0x6fa8_7e4f
    case 57 => 0xfe2c_e6e0
    case 58 => 0xa301_4314
    case 59 => 0x4e08_11a1
    case 60 => 0xf753_7e82
    case 61 => 0xbd3a_f235
    case 62 => 0x2ad7_d2bb
    case _ => 0xeb86_d391
  }

  /** One step: the register that comes first is replaced, and the registers move round. */
  function Step(x: seq<word>, s: State, i: nat): State
    requires |x| == 16 && i < 64
  {
    State(s.d, Replaced(i / 16, s, x[K(i)], S(i), T(i)), s.b, s.c)
  }

  function Replaced(round: nat, s: State, x: word, shift: nat, t: word): word
    requires round < 4 && 0 < shift < 32
  {
    Sum(Rotated(Sum(Sum(Sum(s.a, Mix(round, s.b, s.c, s.d)), x), t), shift), s.b)
  }

  /** The first n steps. */
  function Steps(x: seq<word>, s: State, n: nat): State
    requires |x| == 16 && n <= 64
  {
    if n == 0 then s else Step(x, Steps(x, s, n - 1), n - 1)
  }

  /** Four bytes as a word, the least significant one first */
  function WordOf(b: seq<byte>): word
    requires |b| == 4
  {
    (b[0] as int) + (b[1] as int) * 0x100 + (b[2] as int) * 0x1_0000 + (b[3] as int) * 0x100_0000
  }

  function BytesOf(w: word): (b: seq<byte>)
    ensures |b| == 4
  {
    [Lane(w, 0), Lane(w, 1), Lane(w, 2), Lane(w, 3)]
  }

  function Words(block: seq<byte>): (x: seq<word>)
    requires |block| == 64
    ensures |x| == 16 && forall i :: 0 <= i < 16 ==> x[i] == WordOf(block[4 * i..4 * i + 4])
  {
    seq(16, i requires 0 <= i < 16 => WordOf(block[4 * i..4 * i + 4]))
  }

  function Compress(s: State, block: seq<byte>): State
    requires |block| == 64
  {
    var r := Steps(Words(block), s, 64);
    State(Sum(s.a, r.a), Sum(s.b, r.b), Sum(s.c, r.c), Sum(s.d, r.d))
  }

  // ---------- The digest ----------

  /** Section 3.4: block after block. */
  function HashBlocks(s: State, data: seq<byte>): State
    requires |data| % 64 == 0
    decreases |data|
  {
    if data == [] then s
    else
      OneBlockLess(|data|);
      HashBlocks(Compress(s, data[..64]), data[64..])
  }

  lemma OneBlockLess(n: nat)
    requires n % 64 == 0 && n > 0
    ensures n >= 64 && (n - 64) % 64 == 0
  {
  }

  /** The same for data of any length: what does not fill a block is left aside. */
  function Hash(s: State, data: seq<byte>): State
    decreases |data|
  {
    if |data| < 64 then s else Hash(Compress(s, data[..64]), data[64..])
  }

  /** Sections 3.1 and 3.2: a one bit, as many zero bits as it takes to come to 448 bits
      modulo 512, and the length in bits modulo 2^64, its low word first. */
  function Padded(m: seq<byte>): seq<byte> {
    m + [0x80] + Zeros((55 - |m|) % 64) + BytesOf(8 * |m| % MODULUS) + BytesOf(8 * |m| / MODULUS % MODULUS)
  }

  lemma PaddedLength(m: seq<byte>)
    ensures |Padded(m)| % 64 == 0
  {
    hide BytesOf;
    var k := (55 - |m|) % 64;
    Euclid(55 - |m|, 64);
    assert |Padded(m)| == |m| + k + 9;
    DivUnique(|m| + k + 9, 64, 1 - (55 - |m|) / 64, 0);
  }

  function Output(s: State): (out: seq<byte>)
    ensures |out| == 16
  {
    BytesOf(s.a) + BytesOf(s.b) + BytesOf(s.c) + BytesOf(s.d)
  }

  function Digest(m: seq<byte>): (out: seq<byte>)
    ensures |out| == 16
  {
    PaddedLength(m);
    Output(HashBlocks(INIT, Padded(m)))
  }

  // ---------- HMAC (section 2 of RFC 2104) ----------

  /** The key filled up with zeros to a block, or its digest if it is longer than that */
  function BlockKey(key: seq<byte>): (k: seq<byte>)
    ensures |k| == 64
  {
    if |key| > 64 then Digest(key) + Zeros(48) else key + Zeros(64 - |key|)
  }

  function XorAll(k: seq<byte>, pad: byte): (x: seq<byte>)
    ensures |x| == |k| && forall i :: 0 <= i < |k| ==> x[i] == XorByte(k[i], pad)
  {
    seq(|k|, i requires 0 <= i < |k| => XorByte(k[i], pad))
  }

  function Hmac(key: seq<byte>, text: seq<byte>): seq<byte> {
    Digest(XorAll(BlockKey(key), 0x5c) + Digest(XorAll(BlockKey(key), 0x36) + text))
  }

  // ---------- Hashing in pieces ----------

  lemma {:induction false} HashAppend(s: State, a: seq<byte>, b: seq<byte>)
    requires |a| % 64 == 0
    ensures Hash(s, a + b) == Hash(Hash(s, a), b)
    decreases |a|
  {
    hide Compress;
    if a == [] {
      assert a + b == b;
    } else {
      assert (a + b)[..64] == a[..64] && (a + b)[64..] == a[64..] + b;
      HashAppend(Compress(s, a[..64]), a[64..], b);
    }
  }

  lemma {:induction false} HashIsBlocks(s: State, data: seq<byte>)
    requires |data| % 64 == 0
    ensures Hash(s, data) == HashBlocks(s, data)
    decreases |data|
  {
    hide Compress;
    if data != [] {
      HashIsBlocks(Compress(s, data[..64]), data[64..]);
    }
  }

  lemma HashBlock(s: State, block: seq<byte>)
    requires |block| == 64
    ensures Hash(s, block) == Compress(s, block)
  {
    hide Compress;
    assert block[..64] == block && block[64..] == [];
  }
}
