/** Bytes and 32-bit machine words as bounded integers, with the operators of the
    source written out: addition wraps, exclusive or works bit by bit. And runs of bytes. */
module Bits {
  type byte = x: int | 0 <= x < 0x100
  type word = x: int | 0 <= x < 0x1_0000_0000

  function Pow2(n: nat): (p: nat)
    ensures p > 0
  {
    if n == 0 then 1 else 2 * Pow2(n - 1)
  }

  lemma Pow2Zero()
    ensures Pow2(0) == 1
  {
  }

  lemma Pow2Succ(n: nat)
    ensures Pow2(n + 1) == 2 * Pow2(n)
  {
  }

  /** Bitwise exclusive or, least significant bit first. */
  function Xor(a: nat, b: nat): nat
    decreases a + b
  {
    if a == 0 && b == 0 then 0 else (a + b) % 2 + 2 * Xor(a / 2, b / 2)
  }

  lemma {:induction false} XorBound(a: nat, b: nat, n: nat)
    requires a < Pow2(n) && b < Pow2(n)
    ensures Xor(a, b) < Pow2(n)
    decreases n
  {
    if n > 0 {
      XorBound(a / 2, b / 2, n - 1);
    }
  }

  lemma {:induction false} XorAssoc(a: nat, b: nat, c: nat)
    ensures Xor(Xor(a, b), c) == Xor(a, Xor(b, c))
    decreases a + b + c
  {
    if a + b + c > 0 {
      XorAssoc(a / 2, b / 2, c / 2);
      XorStep(a, b);
      XorStep(b, c);
      XorAssocStep(a, b, c, Xor(a, b), Xor(b, c));
    }
  }

  lemma {:induction false} XorStep(a: nat, b: nat)
    ensures Xor(a, b) % 2 == (a + b) % 2 && Xor(a, b) / 2 == Xor(a / 2, b / 2)
  {
    if a + b > 0 {
      var rest := Xor(a / 2, b / 2);
      assert Xor(a, b) == (a + b) % 2 + 2 * rest;
    }
  }

  /** The induction step of XorAssoc, with the two inner results named. */
  lemma {:induction false} XorAssocStep(a: nat, b: nat, c: nat, ab: nat, bc: nat)
    requires ab % 2 == (a + b) % 2 && bc % 2 == (b + c) % 2
    requires Xor(ab / 2, c / 2) == Xor(a / 2, bc / 2)
    ensures Xor(ab, c) == Xor(a, bc)
  {
    hide Xor;
    XorStep(ab, c);
    XorStep(a, bc);
    SameParity(a, b, c, ab, bc);
    SameHalves(Xor(ab, c), Xor(a, bc));
  }

  lemma SameParity(a: nat, b: nat, c: nat, ab: nat, bc: nat)
    requires ab % 2 == (a + b) % 2 && bc % 2 == (b + c) % 2
    ensures (ab + c) % 2 == (a + bc) % 2
  {
  }

  lemma SameHalves(l: nat, r: nat)
    requires l % 2 == r % 2 && l / 2 == r / 2
    ensures l == r
  {
  }

  lemma {:induction false} XorZero(a: nat)
    ensures Xor(a, 0) == a && Xor(0, a) == a
    decreases a
  {
    if a > 0 {
      XorZero(a / 2);
    }
  }

  lemma {:induction false} XorSelf(a: nat)
    ensures Xor(a, a) == 0
    decreases a
  {
    if a > 0 {
      XorSelf(a / 2);
    }
  }

  lemma XorUnfold(a: nat, b: nat)
    ensures Xor(a, b) == (a + b) % 2 + 2 * Xor(a / 2, b / 2)
  {
  }

  lemma {:induction false} XorCommutes(a: nat, b: nat)
    ensures Xor(a, b) == Xor(b, a)
    decreases a + b
  {
    if a + b > 0 {
      XorCommutes(a / 2, b / 2);
    }
  }

  /** Masking twice with the same value changes nothing. */
  lemma XorCancel(a: nat, m: nat)
    ensures Xor(Xor(a, m), m) == a
  {
    XorAssoc(a, m, m);
    XorSelf(m);
    XorZero(a);
  }

  /** Shift right by n bits. */
  function Shr(x: nat, n: nat): nat {
    if n == 0 then x else Shr(x / 2, n - 1)
  }

  /** A mask of n low bits leaves the bits above them alone. */
  lemma {:induction false} XorHigh(a: nat, m: nat, n: nat)
    requires m < Pow2(n)
    ensures Shr(Xor(a, m), n) == Shr(a, n)
    decreases n
  {
    if n == 0 {
      XorZero(a);
    } else {
      XorStep(a, m);
      XorHigh(a / 2, m / 2, n - 1);
    }
  }

  function XorByte(a: byte, b: byte): byte {
    assert Pow2(8) == 0x100;
    XorBound(a, b, 8);
    Xor(a, b)
  }

  lemma XorByteCancel(a: byte, m: byte)
    ensures XorByte(XorByte(a, m), m) == a
  {
    XorCancel(a, m);
  }

  function XorWord(a: word, b: word): word {
    assert Pow2(32) == 0x1_0000_0000 by {
      assert Pow2(8) == 0x100 && Pow2(16) == 0x1_0000 && Pow2(24) == 0x100_0000;
    }
    XorBound(a, b, 32);
    Xor(a, b)
  }

  function AddWord(a: word, b: word): word {
    if a + b < 0x1_0000_0000 then a + b else a + b - 0x1_0000_0000
  }

  function DecrementWord(a: word): word {
    if a == 0 then 0xffff_ffff else a - 1
  }

  function NotWord(a: word): word {
    0xffff_ffff - a
  }

  /** Rotations by eight bits: the two shifted halves share no bit, so their
      bitwise or is a sum. */
  function Ror8(a: word): word {
    (a % 0x100) * 0x100_0000 + a / 0x100
  }

  function Rol8(a: word): word {
    (a % 0x100_0000) * 0x100 + a / 0x100_0000
  }

  /** Byte k of a word, counted from the least significant one. */
  function Lane(w: word, k: nat): byte
    requires k < 4
  {
    if k == 0 then w % 0x100
    else if k == 1 then w / 0x100 % 0x100
    else if k == 2 then w / 0x1_0000 % 0x100
    else w / 0x100_0000
  }

  /** Xor with a byte changes only lane 0 of a word. */
  lemma XorKeepsUpperLanes(w: word, m: byte, k: nat)
    requires 1 <= k < 4
    ensures Lane(XorWord(w, m), k) == Lane(w, k)
  {
    assert Pow2(8) == 0x100;
    XorHigh(w, m, 8);
    Shr8(w);
    Shr8(XorWord(w, m));
    UpperLane(w, k);
    UpperLane(XorWord(w, m), k);
  }

  lemma Shr8(x: nat)
    ensures Shr(x, 8) == x / 0x100
  {
    assert Shr(x, 8) == Shr(x / 4, 6);
    assert Shr(x / 4, 6) == Shr(x / 16, 4);
    assert Shr(x / 16, 4) == Shr(x / 64, 2);
    assert Shr(x / 64, 2) == Shr(x / 0x100, 0);
  }

  lemma UpperLane(w: word, k: nat)
    requires 1 <= k < 4
    ensures Lane(w, k) == if k == 3 then w / 0x100 / 0x1_0000 else if k == 2 then w / 0x100 / 0x100 % 0x100 else w / 0x100 % 0x100
  {
  }

  // ---------- Runs of bytes ----------

  function Zeros(n: nat): (s: seq<byte>)
    ensures |s| == n && forall i :: 0 <= i < n ==> s[i] == 0
  {
    if n == 0 then [] else Zeros(n - 1) + [0]
  }

  lemma Associate<T>(a: seq<T>, b: seq<T>, c: seq<T>)
    ensures a + b + c == a + (b + c)
  {
  }

  function Flatten(chunks: seq<seq<byte>>): seq<byte> {
    if chunks == [] then [] else chunks[0] + Flatten(chunks[1..])
  }

  lemma {:induction false} FlattenSnoc(packets: seq<seq<byte>>, p: seq<byte>)
    ensures Flatten(packets + [p]) == Flatten(packets) + p
    decreases |packets|
  {
    if packets == [] {
      assert [p][1..] == [] && p + [] == [] + p;
    } else {
      assert (packets + [p])[1..] == packets[1..] + [p];
      FlattenSnoc(packets[1..], p);
    }
  }

  // ---------- Division ----------

  lemma NoMultipleBetween(d: int, k: int)
    requires d > 0 && -d < d * k < d
    ensures k == 0
  {
  }

  lemma Distribute(d: int, a: int, b: int)
    ensures d * (a - b) == d * a - d * b
  {
  }

  lemma DivUnique(x: int, d: int, q: int, r: int)
    requires d > 0 && 0 <= r < d && x == d * q + r
    ensures x / d == q && x % d == r
  {
    var q', r' := x / d, x % d;
    Euclid(x, d);
    Unique(d, q, r, q', r');
  }

  lemma Euclid(x: int, d: int)
    requires d > 0
    ensures x == d * (x / d) + x % d && 0 <= x % d < d
  {
  }

  lemma Unique(d: int, q: int, r: int, q': int, r': int)
    requires d > 0 && 0 <= r < d && 0 <= r' < d && d * q + r == d * q' + r'
    ensures q == q' && r == r'
  {
    Distribute(d, q, q');
    NoMultipleBetween(d, q - q');
  }

  lemma DivHalf(x: int, i: int)
    requires i > 0
    ensures (x / i) / 2 == x / (2 * i)
  {
    var a, b := x / i, (x / i) / 2;
    Euclid(x, i);
    Euclid(a, 2);
    Halved(x, i, a, b, a % 2, x % i);
    DivUnique(x, 2 * i, b, (if a % 2 == 0 then 0 else i) + x % i);
  }

  lemma Halved(x: int, i: int, a: int, b: int, e: int, r: int)
    requires x == i * a + r && a == 2 * b + e && 0 <= e < 2
    ensures x == (2 * i) * b + ((if e == 0 then 0 else i) + r)
  {
    Assoc(i, b, e);
  }

  lemma Assoc(i: int, b: int, c: int)
    ensures i * (2 * b + c) == (2 * i) * b + i * c
  {
  }

  lemma ModDouble(q: int, p: int, bit: int)
    requires p > 0 && 0 <= bit < 2
    ensures (2 * q + bit) % (2 * p) == 2 * (q % p) + bit
  {
    Euclid(q, p);
    Assoc(2, q, bit);
    DivUnique(2 * q + bit, 2 * p, q / p, 2 * (q % p) + bit);
  }

  lemma Monotone(q: nat, a: int, b: int)
    requires a <= b
    ensures q * a <= q * b
  {
  }

  lemma QuotientIsNat(x: nat, d: nat)
    requires d > 0
    ensures x / d >= 0
  {
    Euclid(x, d);
    if x / d < 0 {
      Monotone(d, x / d, -1);
    }
  }

  lemma Wraps(x: nat, y: nat, q: int)
    requires x == y + q * 0x1_0000_0000
    ensures x % 0x1_0000_0000 == y % 0x1_0000_0000
  {
    Euclid(y, 0x1_0000_0000);
    DivUnique(x, 0x1_0000_0000, y / 0x1_0000_0000 + q, y % 0x1_0000_0000);
  }

  lemma Small(x: nat, m: nat)
    requires x < m
    ensures x % m == x
  {
  }
}
