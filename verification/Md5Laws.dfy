/** The message digest and HMAC once more, in the terms of their standards: bit by bit, byte by
    byte and as a run of states; and the table of sines, computed. */
module Md5Laws {
  import opened Bits
  import opened Md5

  // ---------- Bits ----------

  /** Bit k of a number. */
  function BitOf(x: nat, k: nat): (b: bool)
    decreases k
  {
    if k == 0 then x % 2 == 1 else BitOf(x / 2, k - 1)
  }

  lemma {:induction false} BitsAre(a: nat, b: nat, k: nat)
    ensures BitOf(And(a, b), k) == (BitOf(a, k) && BitOf(b, k))
    ensures BitOf(Or(a, b), k) == (BitOf(a, k) || BitOf(b, k))
    ensures BitOf(Xor(a, b), k) == (BitOf(a, k) != BitOf(b, k))
    decreases k
  {
    HalfOf(a, b);
    hide And, Or, Xor;
    if k > 0 {
      BitsAre(a / 2, b / 2, k - 1);
    }
  }

  /** The lowest bit and the others. */
  lemma HalfOf(a: nat, b: nat)
    ensures And(a, b) / 2 == And(a / 2, b / 2) && (And(a, b) % 2 == 1 <==> a % 2 == 1 && b % 2 == 1)
    ensures Or(a, b) / 2 == Or(a / 2, b / 2) && (Or(a, b) % 2 == 1 <==> a % 2 == 1 || b % 2 == 1)
    ensures Xor(a, b) / 2 == Xor(a / 2, b / 2) && (Xor(a, b) % 2 == 1 <==> (a % 2 == 1 <==> b % 2 != 1))
  {
    AndHalf(a, b);
    OrHalf(a, b);
    XorHalf(a, b);
  }

  lemma AndHalf(a: nat, b: nat)
    ensures And(a, b) / 2 == And(a / 2, b / 2) && (And(a, b) % 2 == 1 <==> a % 2 == 1 && b % 2 == 1)
  {
    var bit := if a % 2 == 1 && b % 2 == 1 then 1 else 0;
    assert And(a, b) == bit + 2 * And(a / 2, b / 2);
    hide And;
    DivUnique(And(a, b), 2, And(a / 2, b / 2), bit);
  }

  lemma OrHalf(a: nat, b: nat)
    ensures Or(a, b) / 2 == Or(a / 2, b / 2) && (Or(a, b) % 2 == 1 <==> a % 2 == 1 || b % 2 == 1)
  {
    var bit := if a % 2 == 1 || b % 2 == 1 then 1 else 0;
    assert Or(a, b) == bit + 2 * Or(a / 2, b / 2);
    hide Or;
    DivUnique(Or(a, b), 2, Or(a / 2, b / 2), bit);
  }

  lemma XorHalf(a: nat, b: nat)
    ensures Xor(a, b) / 2 == Xor(a / 2, b / 2) && (Xor(a, b) % 2 == 1 <==> (a % 2 == 1 <==> b % 2 != 1))
  {
    XorUnfold(a, b);
    hide Xor;
    DivUnique(Xor(a, b), 2, Xor(a / 2, b / 2), (a + b) % 2);
    ParityOfSum(a, b);
  }

  lemma ParityOfSum(a: nat, b: nat)
    ensures (a + b) % 2 == 1 <==> (a % 2 == 1 <==> b % 2 != 1)
  {
  }

  lemma {:induction false} NotBits(x: nat, n: nat, k: nat)
    requires x < Pow2(n) && k < n
    ensures BitOf(Pow2(n) - 1 - x, k) == !BitOf(x, k)
    decreases n
  {
    Pow2Succ(n - 1);
    NotHalf(x, Pow2(n - 1));
    hide Pow2;
    if k > 0 {
      NotBits(x / 2, n - 1, k - 1);
    }
  }

  lemma NotHalf(x: nat, p: nat)
    requires x < 2 * p
    ensures x / 2 < p && (2 * p - 1 - x) / 2 == p - 1 - x / 2 && ((2 * p - 1 - x) % 2 == 1 <==> x % 2 != 1)
  {
    Euclid(x, 2);
    DivUnique(2 * p - 1 - x, 2, p - 1 - x / 2, 1 - x % 2);
  }

  /** The functions of the four rounds, for every bit: x chooses between y and z, z chooses
      between x and y, an odd number of the three, and y against x or not z. */
  lemma MixIs(round: nat, x: word, y: word, z: word, k: nat)
    requires round < 4 && k < 32
    ensures var b, p, q, r := BitOf(Mix(round, x, y, z), k), BitOf(x, k), BitOf(y, k), BitOf(z, k);
      match round
      case 0 => b == if p then q else r
      case 1 => b == if r then p else q
      case 2 => b == (p != (q != r))
      case _ => b == (q != (p || !r))
  {
    hide And, Or, Xor, BitOf;
    Pow32();
    hide Pow2;
    NotBits(x, 32, k);
    NotBits(z, 32, k);
    BitsAre(x, y, k);
    BitsAre(NotWord(x), z, k);
    BitsAre(And(x, y), And(NotWord(x), z), k);
    BitsAre(x, z, k);
    BitsAre(y, NotWord(z), k);
    BitsAre(And(x, z), And(y, NotWord(z)), k);
    BitsAre(Xor(x, y), z, k);
    BitsAre(x, NotWord(z), k);
    BitsAre(y, Or(x, NotWord(z)), k);
  }

  /** A circular shift: what leaves above comes in below. */
  lemma RotatedIs(x: word, s: nat)
    requires 0 < s < 32
    ensures Rotated(x, s) == Turned(x, Pow2(s), Pow2(32 - s))
  {
    hide Pow2, Or;
    RotationFits(x, s);
  }

  function Turned(x: nat, up: nat, down: nat): int
    requires down > 0
  {
    x * up % 0x1_0000_0000 + x / down
  }

  // ---------- Steps ----------

  // The words that the operations of the four rounds take.
  const WORDS0: seq<nat> := [0, 1, 2, 3, 4, 5, 6, 7, 8, 9, 10, 11, 12, 13, 14, 15]
  const WORDS1: seq<nat> := [1, 6, 11, 0, 5, 10, 15, 4, 9, 14, 3, 8, 13, 2, 7, 12]
  const WORDS2: seq<nat> := [5, 8, 11, 14, 1, 4, 7, 10, 13, 0, 3, 6, 9, 12, 15, 2]
  const WORDS3: seq<nat> := [0, 7, 14, 5, 12, 3, 10, 1, 8, 15, 6, 13, 4, 11, 2, 9]

  lemma WordsOf0(j: nat)
    requires j < 16
    ensures K(j) == WORDS0[j]
  {
  }

  lemma WordsOf1(j: nat)
    requires j < 16
    ensures K(16 + j) == WORDS1[j]
  {
  }

  lemma WordsOf2(j: nat)
    requires j < 16
    ensures K(32 + j) == WORDS2[j]
  {
  }

  lemma WordsOf3(j: nat)
    requires j < 16
    ensures K(48 + j) == WORDS3[j]
  {
  }

  lemma WordsAre(j: nat)
    requires j < 16
    ensures K(j) == WORDS0[j] && K(16 + j) == WORDS1[j] && K(32 + j) == WORDS2[j] && K(48 + j) == WORDS3[j]
  {
    hide K;
    WordsOf0(j);
    WordsOf1(j);
    WordsOf2(j);
    WordsOf3(j);
  }

  /** The shifts of the four rounds, over and over. */
  lemma ShiftsAre(j: nat)
    requires j < 16
    ensures S(j) == [7, 12, 17, 22][j % 4] && S(16 + j) == [5, 9, 14, 20][j % 4]
    ensures S(32 + j) == [4, 11, 16, 23][j % 4] && S(48 + j) == [6, 10, 15, 21][j % 4]
  {
    assert (16 + j) % 4 == (32 + j) % 4 == (48 + j) % 4 == j % 4;
  }

  function Word(i: nat): (k: nat)
    requires i < 64
    ensures k < 16 && k == K(i)
  {
    K(i)
  }

  /** One operation: a := b + ((a + F(b, c, d) + X[k] + T[i]) <<< s), with the registers
      renamed. */
  lemma StepIs(x: seq<word>, s: State, i: nat)
    requires |x| == 16 && i < 64
    ensures var sum := (s.a as int + Mix(i / 16, s.b, s.c, s.d) + x[Word(i)] + T(i)) % 0x1_0000_0000;
      Step(x, s, i) == State(s.d, (s.b as int + Rotated(sum, S(i))) % 0x1_0000_0000, s.b, s.c)
  {
    hide Mix, T, S, K, Rotated;
    SumOfFour(s.a, Mix(i / 16, s.b, s.c, s.d), x[Word(i)], T(i));
  }

  lemma SumOfFour(a: word, b: word, c: word, d: word)
    ensures Sum(Sum(Sum(a, b), c), d) == (a as int + b + c + d) % 0x1_0000_0000
  {
    var m := 0x1_0000_0000;
    var u := a as int + b;
    var v := u % m + c;
    Euclid(u, m);
    Euclid(v, m);
    Wraps(u + c, v, u / m);
    Wraps(u + c + d, v % m + d, u / m + v / m);
  }

  /** Four bytes as a number, the lowest one first. */
  function FromBytes(b0: int, b1: int, b2: int, b3: int): int {
    b0 + 0x100 * b1 + 0x1_0000 * b2 + 0x100_0000 * b3
  }

  /** A block: its bytes are sixteen words, least significant byte first, sixty-four steps
      follow each other, and the outcome is added to what was there before. */
  ghost predicate BlockLaw(s: State, block: seq<byte>, r: State) {
    |block| == 64 && exists x: seq<word>, states: seq<State> ::
      |x| == 16 && |states| == 65 && states[0] == s &&
      (forall i :: 0 <= i < 16 ==> x[i] == FromBytes(block[4 * i], block[4 * i + 1], block[4 * i + 2], block[4 * i + 3])) &&
      (forall i :: 0 <= i < 64 ==> states[i + 1] == Step(x, states[i], i)) &&
      var e := states[64];
      r == State((s.a as int + e.a) % 0x1_0000_0000, (s.b as int + e.b) % 0x1_0000_0000,
                 (s.c as int + e.c) % 0x1_0000_0000, (s.d as int + e.d) % 0x1_0000_0000)
  }

  lemma {:induction false} StepsAre(x: seq<word>, s: State, n: nat) returns (states: seq<State>)
    requires |x| == 16 && n <= 64
    ensures |states| == n + 1 && states[0] == s && states[n] == Steps(x, s, n)
    ensures forall i :: 0 <= i < n ==> states[i + 1] == Step(x, states[i], i)
    decreases n
  {
    hide Step;
    if n == 0 {
      states := [s];
    } else {
      states := StepsAre(x, s, n - 1);
      states := states + [Step(x, states[n - 1], n - 1)];
    }
  }

  lemma BlockIsLawful(s: State, block: seq<byte>)
    requires |block| == 64
    ensures BlockLaw(s, block, Compress(s, block))
  {
    hide Step, Steps, Words, FromBytes;
    var x := Words(block);
    var states := StepsAre(x, s, 64);
    WordsOfBlock(block);
    Witnessed(s, block, x, states);
  }

  lemma Witnessed(s: State, block: seq<byte>, x: seq<word>, states: seq<State>)
    requires |block| == 64 && |x| == 16 && |states| == 65 && states[0] == s
    requires forall i :: 0 <= i < 16 ==> x[i] == FromBytes(block[4 * i], block[4 * i + 1], block[4 * i + 2], block[4 * i + 3])
    requires forall i :: 0 <= i < 64 ==> states[i + 1] == Step(x, states[i], i)
    ensures var e := states[64]; BlockLaw(s, block, State(Sum(s.a, e.a), Sum(s.b, e.b), Sum(s.c, e.c), Sum(s.d, e.d)))
  {
    hide Step, FromBytes;
  }

  lemma WordsOfBlock(block: seq<byte>)
    requires |block| == 64
    ensures forall i :: 0 <= i < 16 ==> Words(block)[i] == FromBytes(block[4 * i], block[4 * i + 1], block[4 * i + 2], block[4 * i + 3])
  {
    hide FromBytes, WordOf;
    forall i | 0 <= i < 16 ensures Words(block)[i] == FromBytes(block[4 * i], block[4 * i + 1], block[4 * i + 2], block[4 * i + 3]) {
      FourBytes(block, 4 * i);
    }
  }

  lemma FourBytes(block: seq<byte>, i: nat)
    requires i + 4 <= |block|
    ensures WordOf(block[i..i + 4]) == FromBytes(block[i], block[i + 1], block[i + 2], block[i + 3])
  {
  }

  // ---------- The whole message ----------

  /** What is hashed: the message, a one bit, as few zeros as fill the last block but for
      eight bytes, and the length in bits, least significant byte first. */
  ghost predicate PaddedLaw(m: seq<byte>, d: seq<byte>) {
    exists zeros: nat, length: seq<byte> ::
      zeros < 64 && (|m| + 1 + zeros) % 64 == 56 && d == m + [0x80] + Zeros(zeros) + length && LengthLaw(8 * |m|, length)
  }

  ghost predicate LengthLaw(n: nat, d: seq<byte>) {
    |d| == 8 && forall j :: 0 <= j < 8 ==> d[j] == ByteNo(n, j)
  }

  /** Byte j of a number, the lowest one first. */
  function ByteNo(n: nat, j: nat): int
    decreases j
  {
    if j == 0 then n % 0x100 else ByteNo(n / 0x100, j - 1)
  }

  lemma PaddedIsLawful(m: seq<byte>)
    ensures PaddedLaw(m, Padded(m))
  {
    var zeros, length := (55 - |m|) % 64, BytesOf(8 * |m| % MODULUS) + BytesOf(8 * |m| / MODULUS % MODULUS);
    LengthIsLawful(8 * |m|);
    Euclid(55 - |m|, 64);
    DivUnique(|m| + 1 + zeros, 64, -((55 - |m|) / 64), 56);
    hide BytesOf, LengthLaw, Zeros;
    assert Padded(m) == m + [0x80] + Zeros(zeros) + length;
  }

  lemma LengthIsLawful(n: nat)
    ensures LengthLaw(n, BytesOf(n % MODULUS) + BytesOf(n / MODULUS % MODULUS))
  {
    var lo, hi := n % MODULUS, n / MODULUS % MODULUS;
    LowBytes(n);
    LowBytes(n / MODULUS);
    HighBytes(n);
    hide Lane, ByteNo;
    var d := BytesOf(lo) + BytesOf(hi);
    assert d == [Lane(lo, 0), Lane(lo, 1), Lane(lo, 2), Lane(lo, 3), Lane(hi, 0), Lane(hi, 1), Lane(hi, 2), Lane(hi, 3)];
  }

  /** The lowest four bytes are those of the low word. */
  lemma LowBytes(n: nat)
    ensures var w := n % MODULUS;
      Lane(w, 0) == ByteNo(n, 0) && Lane(w, 1) == ByteNo(n, 1) && Lane(w, 2) == ByteNo(n, 2) && Lane(w, 3) == ByteNo(n, 3)
  {
    var n1, b0 := n / 0x100, n % 0x100;
    var n2, b1 := n1 / 0x100, n1 % 0x100;
    var n3, b2 := n2 / 0x100, n2 % 0x100;
    var n4, b3 := n3 / 0x100, n3 % 0x100;
    Euclid(n, 0x100);
    Euclid(n1, 0x100);
    Euclid(n2, 0x100);
    Euclid(n3, 0x100);
    var w := ((b3 * 0x100 + b2) * 0x100 + b1) * 0x100 + b0;
    DivUnique(n, MODULUS, n4, w);
    LanesOf(b3, b2, b1, b0);
    assert ByteNo(n, 0) == b0 && ByteNo(n, 1) == b1;
    assert ByteNo(n, 2) == ByteNo(n1, 1) == b2;
    assert ByteNo(n, 3) == ByteNo(n1, 2) == ByteNo(n2, 1) == b3;
  }

  lemma LanesOf(b3: byte, b2: byte, b1: byte, b0: byte)
    ensures var w: word := ((b3 as int * 0x100 + b2) * 0x100 + b1) * 0x100 + b0;
      Lane(w, 0) == b0 && Lane(w, 1) == b1 && Lane(w, 2) == b2 && Lane(w, 3) == b3
  {
    var w2: int := b3 as int * 0x100 + b2;
    var w1: int := w2 * 0x100 + b1;
    var w: word := w1 * 0x100 + b0;
    DivUnique(w, 0x100, w1, b0);
    DivUnique(w1, 0x100, w2, b1);
    DivUnique(w2, 0x100, b3, b2);
    DivUnique(w, 0x1_0000, w2, 0x100 * b1 as int + b0);
    DivUnique(w, 0x100_0000, b3, 0x1_0000 * b2 as int + 0x100 * b1 as int + b0);
  }

  lemma HighBytes(n: nat)
    ensures forall j :: 0 <= j < 4 ==> ByteNo(n, j + 4) == ByteNo(n / MODULUS, j)
  {
    var n1 := n / 0x100;
    var n2 := n1 / 0x100;
    var n3 := n2 / 0x100;
    FourUp(n);
    assert n3 / 0x100 == n / MODULUS;
    forall j | 0 <= j < 4 ensures ByteNo(n, j + 4) == ByteNo(n / MODULUS, j) {
      assert ByteNo(n, j + 4) == ByteNo(n1, j + 3) == ByteNo(n2, j + 2) == ByteNo(n3, j + 1) == ByteNo(n3 / 0x100, j);
    }
  }

  lemma FourUp(n: nat)
    ensures n / 0x100 / 0x100 / 0x100 / 0x100 == n / MODULUS
  {
    var n1, n2 := n / 0x100, n / 0x100 / 0x100;
    var n3 := n2 / 0x100;
    Euclid(n, 0x100);
    Euclid(n1, 0x100);
    Euclid(n2, 0x100);
    Euclid(n3, 0x100);
    DivUnique(n, MODULUS, n3 / 0x100, n - MODULUS * (n3 / 0x100));
  }

  /** The digest: the states from block to block of the padded message, from the four words
      of the standard on, and the bytes of the last one. */
  ghost predicate DigestLaw(m: seq<byte>, out: seq<byte>) {
    exists d: seq<byte>, states: seq<State> ::
      PaddedLaw(m, d) && |d| == 64 * (|states| - 1) && states != [] &&
      states[0] == State(0x67452301, 0xefcdab89, 0x98badcfe, 0x10325476) &&
      (forall i :: 0 <= i < |states| - 1 ==> BlockLaw(states[i], d[64 * i..64 * i + 64], states[i + 1])) &&
      OutputLaw(states[|states| - 1], out)
  }

  ghost predicate OutputLaw(s: State, out: seq<byte>) {
    |out| == 16 && forall j :: 0 <= j < 4 ==>
      out[j] == ByteNo(s.a, j) && out[4 + j] == ByteNo(s.b, j) && out[8 + j] == ByteNo(s.c, j) && out[12 + j] == ByteNo(s.d, j)
  }

  lemma OutputIsLawful(s: State)
    ensures OutputLaw(s, Output(s))
  {
    LowBytes(s.a);
    LowBytes(s.b);
    LowBytes(s.c);
    LowBytes(s.d);
    Small(s.a, MODULUS);
    Small(s.b, MODULUS);
    Small(s.c, MODULUS);
    Small(s.d, MODULUS);
    hide Lane, ByteNo;
  }

  lemma {:induction false} BlocksAre(s: State, d: seq<byte>) returns (states: seq<State>)
    requires |d| % 64 == 0
    ensures states != [] && |d| == 64 * (|states| - 1) && states[0] == s && states[|states| - 1] == HashBlocks(s, d)
    ensures forall i :: 0 <= i < |states| - 1 ==> BlockLaw(states[i], d[64 * i..64 * i + 64], states[i + 1])
    decreases |d|
  {
    hide Compress, BlockLaw;
    if d == [] {
      states := [s];
    } else {
      OneBlockLess(|d|);
      var rest := BlocksAre(Compress(s, d[..64]), d[64..]);
      states := [s] + rest;
      BlockIsLawful(s, d[..64]);
      forall i | 0 <= i < |states| - 1 ensures BlockLaw(states[i], d[64 * i..64 * i + 64], states[i + 1]) {
        if i > 0 {
          assert d[64..][64 * (i - 1)..64 * (i - 1) + 64] == d[64 * i..64 * i + 64];
          assert states[i] == rest[i - 1] && states[i + 1] == rest[i];
        }
      }
    }
  }

  lemma DigestIsLawful(m: seq<byte>)
    ensures DigestLaw(m, Digest(m))
  {
    hide HashBlocks, Padded, PaddedLaw, BlockLaw, OutputLaw, Output;
    PaddedIsLawful(m);
    PaddedLength(m);
    var states := BlocksAre(INIT, Padded(m));
    OutputIsLawful(HashBlocks(INIT, Padded(m)));
  }

  // ---------- HMAC ----------

  /** A key is filled with zeros to a block, a longer one is digested before. The digest of
      the text behind one pad of it is digested behind the other. */
  lemma HmacIs(key: seq<byte>, text: seq<byte>) returns (k: seq<byte>, inner: seq<byte>, outer: seq<byte>)
    ensures |k| == |inner| == |outer| == 64 && forall i :: 0 <= i < 64 ==> inner[i] == XorByte(k[i], 0x36) && outer[i] == XorByte(k[i], 0x5c)
    ensures var short := if |key| <= 64 then key else Digest(key);
      forall i :: 0 <= i < 64 ==> k[i] == if i < |short| then short[i] else 0
    ensures Hmac(key, text) == Digest(outer + Digest(inner + text))
  {
    hide Digest, XorByte;
    k, inner, outer := BlockKey(key), XorAll(BlockKey(key), 0x36), XorAll(BlockKey(key), 0x5c);
  }

  // ---------- The table of sines ----------

  const SCALE := 1_000_000_000_000_000

  /** The sine of n + 2 comes from those of n and n + 1 by the addition theorem, with twice
      the cosine of one to fifteen places; what is behind these places is cut off. */
  predicate NextSine(a: int, b: int, c: int) {
    0 <= 1_080_604_611_736_279 * b - SCALE * (c + a) < SCALE
  }

  /** The integer part of 2^32 times the absolute value. */
  predicate EntryOf(sine: int, t: word) {
    var x := if sine < 0 then -sine else sine;
    SCALE * t <= 0x1_0000_0000 * x < SCALE * (t + 1)
  }

  const SINES0: seq<int> := [
    0, 841_470_984_807_896, 909_297_426_825_680, 141_120_008_059_865, -756_802_495_307_930, -958_924_274_663_138,
    -279_415_498_198_924, 656_986_598_718_790, 989_358_246_623_380, 412_118_485_241_753, -544_021_110_889_373,
    -999_990_206_550_704, -536_572_918_000_432, 420_167_036_826_644, 990_607_355_694_870, 650_287_840_157_113,
    -287_903_316_665_070, -961_397_491_879_558]

  const SINES1: seq<int> := [
    -287_903_316_665_070, -961_397_491_879_558, -750_987_246_771_673, 149_877_209_662_957, 912_945_250_727_629,
    836_655_638_536_052, -8_851_309_290_410, -846_220_404_175_174, -905_578_362_006_621, -132_351_750_097_767,
    762_558_450_479_606, 956_375_928_404_500, 270_905_788_307_862, -663_633_884_212_973, -988_031_624_092_861,
    -404_037_645_323_059, 551_426_681_241_696, 999_911_860_107_266]

  const SINES2: seq<int> := [
    551_426_681_241_696, 999_911_860_107_266, 529_082_686_120_016, -428_182_669_496_159, -991_778_853_443_117,
    -643_538_133_356_993, 296_368_578_709_393, 963_795_386_284_089, 745_113_160_479_342, -158_622_668_804_718,
    -916_521_547_915_637, -831_774_742_628_593, 17_701_925_105_422, 850_903_524_534_122, 901_788_347_648_804,
    123_573_122_745_214, -768_254_661_323_673, -953_752_652_759_469]

  const SINES3: seq<int> := [
    -768_254_661_323_673, -953_752_652_759_469, -262_374_853_703_920, 670_229_175_843_381, 986_627_592_040_482,
    395_925_150_181_823, -558_789_048_851_626, -999_755_173_358_619, -521_551_002_086_901, 436_164_755_247_836,
    992_872_648_084_537, 636_738_007_139_126, -304_810_621_102_230, -966_117_770_008_396, -739_180_696_649_213,
    167_355_700_302_820, 920_026_038_196_794, 826_828_679_490_093]

  lemma SinesOf0(j: nat)
    requires j < 16
    ensures NextSine(SINES0[j], SINES0[j + 1], SINES0[j + 2]) && EntryOf(SINES0[j + 1], T(0 + j))
  {
  }

  lemma SinesOf1(j: nat)
    requires j < 16
    ensures NextSine(SINES1[j], SINES1[j + 1], SINES1[j + 2]) && EntryOf(SINES1[j + 1], T(16 + j))
  {
  }

  lemma SinesOf2(j: nat)
    requires j < 16
    ensures NextSine(SINES2[j], SINES2[j + 1], SINES2[j + 2]) && EntryOf(SINES2[j + 1], T(32 + j))
  {
  }

  lemma SinesOf3(j: nat)
    requires j < 16
    ensures NextSine(SINES3[j], SINES3[j + 1], SINES3[j + 2]) && EntryOf(SINES3[j + 1], T(48 + j))
  {
  }

  /** The table is that of the sines of 1 to 64, from the sine of one to fifteen places. */
  lemma TableOfSines() returns (sines: seq<int>)
    ensures |sines| == 66 && sines[0] == 0 && sines[1] == 841_470_984_807_896
    ensures forall i :: 0 <= i < 64 ==> NextSine(sines[i], sines[i + 1], sines[i + 2]) && EntryOf(sines[i + 1], T(i))
  {
    hide NextSine, EntryOf, T;
    sines := SINES0[..16] + (SINES1[..16] + (SINES2[..16] + SINES3));
    assert SINES0[16] == SINES1[0] && SINES0[17] == SINES1[1];
    assert SINES1[16] == SINES2[0] && SINES1[17] == SINES2[1];
    assert SINES2[16] == SINES3[0] && SINES2[17] == SINES3[1];
    forall i | 0 <= i < 64 ensures NextSine(sines[i], sines[i + 1], sines[i + 2]) && EntryOf(sines[i + 1], T(i)) {
      if i < 16 {
        SinesOf0(i);
      } else if i < 32 {
        SinesOf1(i - 16);
      } else if i < 48 {
        SinesOf2(i - 32);
      } else {
        SinesOf3(i - 48);
      }
    }
  }
}
