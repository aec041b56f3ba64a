/** The words of md5.c, whose unsigned long has 64 bits, against the 32-bit words of the
    standard: all that is done to them agrees in the low halves. */
module Md5Words {
  import opened Bits
  import opened Md5

  type ulong = x: int | 0 <= x < 0x1_0000_0000_0000_0000

  function Low(x: nat): word {
    x % MODULUS
  }

  function Wrap(x: nat): ulong {
    x % 0x1_0000_0000_0000_0000
  }

  lemma LowWrap(x: nat)
    ensures Low(Wrap(x)) == Low(x)
  {
  }

  lemma SameMod(n: nat, k: nat)
    ensures (n + MODULUS * k) % MODULUS == n % MODULUS
  {
    Euclid(n, MODULUS);
    DivUnique(n + MODULUS * k, MODULUS, n / MODULUS + k, n % MODULUS);
  }

  lemma LowSum(x: nat, y: nat)
    ensures Low(x + y) == Sum(Low(x), Low(y)) == Low(Low(x) + y)
  {
    Euclid(x, MODULUS);
    Euclid(y, MODULUS);
    SameMod(Low(x) + y, x / MODULUS);
    SameMod(Low(x) + Low(y), y / MODULUS);
  }

  function AndLong(a: ulong, b: ulong): ulong {
    Pow32();
    AndOrBound(a, b, 64);
    And(a, b)
  }

  function OrLong(a: ulong, b: ulong): ulong {
    Pow32();
    AndOrBound(a, b, 64);
    Or(a, b)
  }

  function XorLong(a: ulong, b: ulong): ulong {
    Pow32();
    XorBound(a, b, 64);
    Xor(a, b)
  }

  function NotLong(a: ulong): ulong {
    0xffff_ffff_ffff_ffff - a
  }

  // ---------- Bit by bit ----------

  lemma AndCons(a: nat, b: nat, i: bit, j: bit)
    ensures And(2 * a + i, 2 * b + j) == 2 * And(a, b) + AndBit(i, j)
  {
    DivUnique(2 * a + i, 2, a, i);
    DivUnique(2 * b + j, 2, b, j);
  }

  lemma XorCons(a: nat, b: nat, i: bit, j: bit)
    ensures Xor(2 * a + i, 2 * b + j) == 2 * Xor(a, b) + XorBit(i, j)
  {
    hide Xor;
    DivUnique(2 * a + i, 2, a, i);
    DivUnique(2 * b + j, 2, b, j);
    XorUnfold(2 * a + i, 2 * b + j);
    DivUnique(2 * a + i + (2 * b + j), 2, a + b + (i + j - XorBit(i, j)) / 2, XorBit(i, j));
  }

  lemma {:induction false} AndMod(a: nat, b: nat, n: nat)
    ensures And(a, b) % Pow2(n) == And(a % Pow2(n), b % Pow2(n))
    decreases n
  {
    if n > 0 {
      AndMod(a / 2, b / 2, n - 1);
      AndModStep(a / 2, b / 2, a % 2, b % 2, Pow2(n - 1));
    }
  }

  lemma AndModStep(a: nat, b: nat, i: bit, j: bit, p: nat)
    requires p > 0 && And(a, b) % p == And(a % p, b % p)
    ensures And(2 * a + i, 2 * b + j) % (2 * p) == And((2 * a + i) % (2 * p), (2 * b + j) % (2 * p))
  {
    hide And;
    AndCons(a, b, i, j);
    AndCons(a % p, b % p, i, j);
    ModDouble(a, p, i);
    ModDouble(b, p, j);
    ModDouble(And(a, b), p, AndBit(i, j));
  }

  lemma {:induction false} OrMod(a: nat, b: nat, n: nat)
    ensures Or(a, b) % Pow2(n) == Or(a % Pow2(n), b % Pow2(n))
    decreases n
  {
    if n > 0 {
      OrMod(a / 2, b / 2, n - 1);
      OrModStep(a / 2, b / 2, a % 2, b % 2, Pow2(n - 1));
    }
  }

  lemma OrModStep(a: nat, b: nat, i: bit, j: bit, p: nat)
    requires p > 0 && Or(a, b) % p == Or(a % p, b % p)
    ensures Or(2 * a + i, 2 * b + j) % (2 * p) == Or((2 * a + i) % (2 * p), (2 * b + j) % (2 * p))
  {
    hide Or;
    OrCons(a, b, i, j);
    OrCons(a % p, b % p, i, j);
    ModDouble(a, p, i);
    ModDouble(b, p, j);
    ModDouble(Or(a, b), p, OrBit(i, j));
  }

  lemma {:induction false} XorMod(a: nat, b: nat, n: nat)
    ensures Xor(a, b) % Pow2(n) == Xor(a % Pow2(n), b % Pow2(n))
    decreases n
  {
    if n > 0 {
      XorMod(a / 2, b / 2, n - 1);
      XorModStep(a / 2, b / 2, a % 2, b % 2, Pow2(n - 1));
    }
  }

  lemma XorModStep(a: nat, b: nat, i: bit, j: bit, p: nat)
    requires p > 0 && Xor(a, b) % p == Xor(a % p, b % p)
    ensures Xor(2 * a + i, 2 * b + j) % (2 * p) == Xor((2 * a + i) % (2 * p), (2 * b + j) % (2 * p))
  {
    hide Xor;
    XorCons(a, b, i, j);
    XorCons(a % p, b % p, i, j);
    ModDouble(a, p, i);
    ModDouble(b, p, j);
    ModDouble(Xor(a, b), p, XorBit(i, j));
  }

  lemma {:induction false} AndCommutes(a: nat, b: nat)
    ensures And(a, b) == And(b, a)
    decreases a + b
  {
    if a + b > 0 {
      AndCommutes(a / 2, b / 2);
    }
  }

  /** A choice between y and z by the bits of x, with one operation less */
  lemma {:induction false} Choice(x: nat, y: nat, z: nat, n: nat)
    requires x < Pow2(n) && y < Pow2(n) && z < Pow2(n)
    ensures Xor(z, And(x, Xor(y, z))) == Or(And(x, y), And(Pow2(n) - 1 - x, z))
    decreases n
  {
    hide Xor, And, Or;
    if n == 0 {
      ChoiceOfNothing();
    } else {
      var x' := Pow2(n - 1) - 1 - x / 2;
      Choice(x / 2, y / 2, z / 2, n - 1);
      ChoiceStep(x / 2, y / 2, z / 2, x', x % 2, y % 2, z % 2);
      assert Pow2(n) - 1 - x == 2 * x' + (1 - x % 2);
    }
  }

  lemma ChoiceOfNothing()
    ensures Xor(0, And(0, Xor(0, 0))) == Or(And(0, 0), And(0, 0))
  {
  }

  lemma ChoiceStep(x: nat, y: nat, z: nat, x': nat, i: bit, j: bit, k: bit)
    requires Xor(z, And(x, Xor(y, z))) == Or(And(x, y), And(x', z))
    ensures Xor(2 * z + k, And(2 * x + i, Xor(2 * y + j, 2 * z + k))) ==
            Or(And(2 * x + i, 2 * y + j), And(2 * x' + (1 - i), 2 * z + k))
  {
    hide Xor, And, Or;
    var p, u, v := XorBit(j, k), AndBit(i, j), AndBit(1 - i, k);
    XorCons(y, z, j, k);
    AndCons(x, Xor(y, z), i, p);
    XorCons(z, And(x, Xor(y, z)), k, AndBit(i, p));
    AndCons(x, y, i, j);
    AndCons(x', z, 1 - i, k);
    OrCons(And(x, y), And(x', z), u, v);
  }

  // ---------- The macros F, S and P ----------

  /** F of each round, in the forms with fewer operations */
  function MixLong(round: nat, x: ulong, y: ulong, z: ulong): ulong
    requires round < 4
  {
    if round == 0 then XorLong(z, AndLong(x, XorLong(y, z)))
    else if round == 1 then XorLong(y, AndLong(z, XorLong(x, y)))
    else if round == 2 then XorLong(XorLong(x, y), z)
    else XorLong(y, OrLong(x, NotLong(z)))
  }

  /** S: all bits of the word are shifted, but only the low half comes round. */
  function RotatedLong(x: ulong, s: nat): nat
    requires 0 < s < 32
  {
    Or(Wrap(x * Pow2(s)), Around(Low(x), s))
  }

  lemma RotatedLongIsSum(x: ulong, s: nat)
    requires 0 < s < 32
    ensures RotatedLong(x, s) == Wrap(x * Pow2(s)) + Around(Low(x), s)
  {
    hide Pow2, Or, Around;
    var p, q := Pow2(s), Pow2(64 - s);
    Pow2Product(s, 64 - s);
    Pow32();
    ShiftedIsMultiple(MODULUS * MODULUS, x, p, q);
    RotationFits(Low(x), s);
    OrIsSum(x % q, Around(Low(x), s), s);
  }

  /** P: the new value of register a */
  function ReplacedLong(round: nat, a: ulong, b: ulong, c: ulong, d: ulong, x: ulong, s: nat, t: word): ulong
    requires round < 4 && 0 < s < 32
  {
    Wrap(RotatedLong(Wrap(a + MixLong(round, b, c, d) + x + t), s) + b)
  }

  lemma LowAnd(a: ulong, b: ulong)
    ensures Low(AndLong(a, b)) == AndWord(Low(a), Low(b))
  {
    hide And, Pow2;
    Pow32();
    AndMod(a, b, 32);
  }

  lemma LowOr(a: ulong, b: ulong)
    ensures Low(OrLong(a, b)) == OrWord(Low(a), Low(b))
  {
    hide Or, Pow2;
    Pow32();
    OrMod(a, b, 32);
  }

  lemma LowXor(a: ulong, b: ulong)
    ensures Low(XorLong(a, b)) == XorWord(Low(a), Low(b))
  {
    hide Xor, Pow2;
    Pow32();
    XorMod(a, b, 32);
  }

  lemma LowNot(a: ulong)
    ensures Low(NotLong(a)) == NotWord(Low(a))
  {
  }

  lemma ChoiceWord(x: word, y: word, z: word)
    ensures XorWord(z, AndWord(x, XorWord(y, z))) == OrWord(AndWord(x, y), AndWord(NotWord(x), z))
    ensures AndWord(x, y) == AndWord(y, x)
  {
    hide Xor, And, Or, Pow2;
    Pow32();
    Choice(x, y, z, 32);
    AndCommutes(x, y);
  }

  lemma LowMix(round: nat, x: ulong, y: ulong, z: ulong)
    requires round < 4
    ensures Low(MixLong(round, x, y, z)) == Mix(round, Low(x), Low(y), Low(z))
  {
    hide XorLong, AndLong, OrLong, NotLong, XorWord, AndWord, OrWord, NotWord, Low;
    if round == 0 {
      LowXor(y, z);
      LowAnd(x, XorLong(y, z));
      LowXor(z, AndLong(x, XorLong(y, z)));
      ChoiceWord(Low(x), Low(y), Low(z));
    } else if round == 1 {
      LowXor(x, y);
      LowAnd(z, XorLong(x, y));
      LowXor(y, AndLong(z, XorLong(x, y)));
      ChoiceWord(Low(z), Low(x), Low(y));
      ChoiceWord(Low(x), Low(z), Low(y));
      ChoiceWord(NotWord(Low(z)), Low(y), Low(y));
    } else if round == 2 {
      LowXor(x, y);
      LowXor(XorLong(x, y), z);
    } else {
      LowNot(z);
      LowOr(x, NotLong(z));
      LowXor(y, OrLong(x, NotLong(z)));
    }
  }

  lemma LowProduct(x: nat, p: nat)
    ensures Low(x * p) == Low(x) * p % MODULUS
  {
    Euclid(x, MODULUS);
    var q, r := x / MODULUS, x % MODULUS;
    Euclid(r * p, MODULUS);
    assert x * p == MODULUS * (q * p + r * p / MODULUS) + r * p % MODULUS by {
      assert x * p == MODULUS * (q * p) + r * p;
    }
    DivUnique(x * p, MODULUS, q * p + r * p / MODULUS, r * p % MODULUS);
  }

  lemma LowRotated(x: ulong, s: nat)
    requires 0 < s < 32
    ensures Low(RotatedLong(x, s)) == Rotated(Low(x), s)
  {
    hide Pow2, Around, Or, Low, Wrap, Rotated, RotatedLong;
    var v := Around(Low(x), s);
    RotationFits(Low(x), s);
    RotatedLongIsSum(x, s);
    LowProduct(x, Pow2(s));
    LowWrap(x * Pow2(s));
    LowSum(Wrap(x * Pow2(s)), v);
    LowSmall(Shifted(Low(x), s) + v);
  }

  lemma LowSmall(x: nat)
    requires x < MODULUS
    ensures Low(x) == x
  {
  }

  lemma LowReplaced(round: nat, a: ulong, b: ulong, c: ulong, d: ulong, x: ulong, s: nat, t: word)
    requires round < 4 && 0 < s < 32
    ensures Low(ReplacedLong(round, a, b, c, d, x, s, t)) ==
            Replaced(round, State(Low(a), Low(b), Low(c), Low(d)), Low(x), s, t)
  {
    hide MixLong, Mix, RotatedLong, Rotated, Low, Sum, Wrap;
    var f := MixLong(round, b, c, d);
    var v := Wrap(a + f + x + t);
    LowMix(round, b, c, d);
    LowSum4(a, f, x, t);
    LowRotated(v, s);
    LowSum2(RotatedLong(v, s), b);
  }

  lemma LowSum4(a: ulong, f: ulong, x: ulong, t: word)
    ensures Low(Wrap(a + f + x + t)) == Sum(Sum(Sum(Low(a), Low(f)), Low(x)), t)
  {
    LowWrap(a + f + x + t);
    LowSum(a, f);
    LowSum(a + f, x);
    LowSum(a + f + x, t);
  }

  lemma LowSum2(r: nat, b: ulong)
    ensures Low(Wrap(r + b)) == Sum(Low(r), Low(b))
  {
    LowWrap(r + b);
    LowSum(r, b);
  }
}
