/** The enctype 2 generator and its key set-up once more, as conditions on what is there
    before and after each step, in plain arithmetic. */
module Enctype2Laws {
  import opened Bits
  import opened Permutation
  import opened Enctype2

  // ---------- A word of the keystream ----------

  /** A word is laid over with the table's entry for its lowest byte. */
  ghost predicate LookedUp(t: table, w: word, r: word) {
    r == XorWord(w, t[w % 0x100])
  }

  /** The lowest byte of r is the highest one of w, the others move up. */
  ghost predicate TurnedUp(w: word, r: word) {
    r % 0x100 == w / 0x100_0000 && r / 0x100 == w % 0x100_0000
  }

  /** Two look-ups, each followed by a turn. */
  ghost predicate Upward(t: table, w: word, r: word) {
    exists x1: word, x2: word, x3: word :: LookedUp(t, w, x1) && TurnedUp(x1, x2) && LookedUp(t, x2, x3) && TurnedUp(x3, r)
  }

  /** Two turns the other way, each followed by a look-up. */
  ghost predicate Downward(t: table, w: word, r: word) {
    exists x1: word, x2: word, x3: word :: TurnedUp(x1, w) && LookedUp(t, x1, x2) && TurnedUp(x3, x2) && LookedUp(t, x3, r)
  }

  /** The registers as they are saved at a node, whose number is added in. */
  ghost predicate Saved(s: Regs, node: nat, m: Regs) {
    m.b == (s.b as int + s.a + node) % 0x1_0000_0000 && m.a == (s.b as int + 2 * (s.a as int + node)) % 0x1_0000_0000
  }

  /** One step down from a node. To the right the registers change their parts, and the
      first is negated before. */
  ghost predicate StepDown(t: table, s: Regs, node: nat, right: bool, r: Regs) {
    exists m: Regs ::
      Saved(s, node, m) &&
      if right then Downward(t, 0xffff_ffff - m.a, r.a) && Upward(t, m.b, r.b)
      else Upward(t, m.a, r.a) && Downward(t, m.b, r.b)
  }

  lemma MixIs(s: Regs, k: word)
    ensures Saved(s, k, Mix(s, k))
  {
    var a, b := AddWord(s.a, k), AddWord(s.b, AddWord(s.a, k));
    AddWordIs(s.a, k);
    AddWordIs(s.b, a);
    AddWordIs(a, b);
    hide AddWord;
    var w := 0x1_0000_0000;
    Euclid(s.a as int + k, w);
    Wraps(s.b as int + s.a + k, s.b as int + a, (s.a as int + k) / w);
    Euclid(s.b as int + a, w);
    Wraps(s.b as int + 2 * (s.a as int + k), a as int + b, 2 * ((s.a as int + k) / w) + (s.b as int + a) / w);
  }

  lemma AddWordIs(a: word, b: word)
    ensures AddWord(a, b) == (a as int + b) % 0x1_0000_0000
  {
  }

  lemma RolIs(w: word)
    ensures TurnedUp(w, Rol8(w))
  {
    DivUnique(Rol8(w), 0x100, w % 0x100_0000, w / 0x100_0000);
  }

  lemma RorIs(w: word)
    ensures TurnedUp(Ror8(w), w)
  {
    DivUnique(Ror8(w), 0x100_0000, w % 0x100, w / 0x100);
  }

  lemma UpwardIs(t: table, w: word)
    ensures Upward(t, w, Rol8(Sub(t, Rol8(Sub(t, w)))))
  {
    hide XorWord, Rol8, TurnedUp;
    var x1 := Sub(t, w);
    var x2 := Rol8(x1);
    var x3 := Sub(t, x2);
    RolIs(x1);
    RolIs(x3);
    assert LookedUp(t, w, x1) && LookedUp(t, x2, x3);
  }

  lemma DownwardIs(t: table, w: word)
    ensures Downward(t, w, Sub(t, Ror8(Sub(t, Ror8(w)))))
  {
    hide XorWord, Ror8, TurnedUp;
    var x1 := Ror8(w);
    var x2 := Sub(t, x1);
    var x3 := Ror8(x2);
    RorIs(w);
    RorIs(x2);
    assert LookedUp(t, x1, x2) && LookedUp(t, x3, Sub(t, x3));
  }

  lemma StepsAreLawful(t: table, s: Regs, k: word)
    ensures StepDown(t, s, k, false, LeftRegs(t, Mix(s, k)))
    ensures StepDown(t, s, k, true, RightRegs(t, Mix(s, k)))
  {
    hide Mix, Sub, Rol8, Ror8, Upward, Downward, Saved;
    var m := Mix(s, k);
    MixIs(s, k);
    UpwardIs(t, m.a);
    DownwardIs(t, m.b);
    UpwardIs(t, m.b);
    DownwardIs(t, NotWord(m.a));
  }

  /** A number without its last e bits. */
  function Prefix(n: nat, e: nat): nat {
    QuotientIsNat(n, Pow2(e));
    n / Pow2(e)
  }

  /** The registers on the way from the root to p: node d of it has the number of p without
      its last Depth(p) - d bits, and the bit behind these says where to go. */
  lemma {:induction false} PathIsLawful(t: table, n1: word, p: Path) returns (s: seq<Regs>)
    requires Depth(p) <= HEIGHT
    ensures var h := Depth(p);
      |s| == h + 1 && s[0] == Regs(n1, 0) && s[h] == ArrivalRegs(t, n1, p) &&
      forall d :: 0 <= d < h ==> StepDown(t, s[d], Prefix(Num(p), h - d), Prefix(Num(p), h - d - 1) % 2 == 1, s[d + 1])
  {
    hide StepDown, Num, Pow2, Prefix, Mix, LeftRegs, RightRegs;
    var h := Depth(p);
    if p.Root? {
      s := [Regs(n1, 0)];
    } else {
      var u := p.up;
      var before := PathIsLawful(t, n1, u);
      s := before + [ArrivalRegs(t, n1, p)];
      NumBounds(p);
      ToTheChild(t, n1, p, s);
      forall d | 0 <= d < h ensures StepDown(t, s[d], Prefix(Num(p), h - d), Prefix(Num(p), h - d - 1) % 2 == 1, s[d + 1]) {
        if d < h - 1 {
          assert s[d] == before[d] && s[d + 1] == before[d + 1];
          Shorter(Num(p), Num(u), h - d - 1);
          Shorter(Num(p), Num(u), h - d - 2);
        }
      }
    }
  }

  lemma ToTheChild(t: table, n1: word, p: Path, s: seq<Regs>)
    requires !p.Root? && 0 < Depth(p) <= HEIGHT && |s| == Depth(p) + 1
    requires s[Depth(p) - 1] == ArrivalRegs(t, n1, p.up) && s[Depth(p)] == ArrivalRegs(t, n1, p)
    ensures var h := Depth(p); StepDown(t, s[h - 1], Prefix(Num(p), 1), Prefix(Num(p), 0) % 2 == 1, s[h])
  {
    hide StepDown, Num, Pow2, Prefix, Mix, LeftRegs, RightRegs;
    NumBounds(p);
    StepsAreLawful(t, ArrivalRegs(t, n1, p.up), Num(p.up));
    Shorter(Num(p), Num(p.up), 0);
    NoBits(Num(p));
    NoBits(Num(p.up));
    DivUnique(Num(p), 2, Num(p.up), if p.Left? then 0 else 1);
  }

  lemma NoBits(n: nat)
    ensures Prefix(n, 0) == n
  {
    Pow2Zero();
  }

  lemma Shorter(n: nat, m: nat, e: nat)
    requires n == 2 * m || n == 2 * m + 1
    ensures Prefix(n, e + 1) == Prefix(m, e)
  {
    hide Pow2;
    Pow2Succ(e);
    HalfFirst(n, Pow2(e));
    DivUnique(n, 2, m, n - 2 * m);
  }

  lemma HalfFirst(n: nat, p: nat)
    requires p > 0
    ensures n / (2 * p) == n / 2 / p
  {
    var h := n / 2;
    Euclid(n, 2);
    Euclid(h, p);
    Assoc(p, h / p, 0);
    DivUnique(n, 2 * p, h / p, 2 * (h % p) + n % 2);
  }

  /** Word i of the keystream comes from sixteen steps down, one for each bit of i, the
      highest first, from the seed and a zero; its two last registers are laid over each
      other. */
  lemma KeyWordIsPath(t: table, n1: word, i: nat) returns (s: seq<Regs>)
    requires i < LEAVES
    ensures |s| == 17 && s[0] == Regs(n1, 0) && KeyWord(t, n1, i) == XorWord(s[16].b, s[16].a)
    ensures forall d :: 0 <= d < 16 ==>
              StepDown(t, s[d], Prefix(65536 + i, 16 - d), Prefix(65536 + i, 15 - d) % 2 == 1, s[d + 1])
  {
    hide StepDown, Pow2, Prefix, Num, ArrivalRegs, XorWord, Leaf;
    LeafNum(i);
    s := PathIsLawful(t, n1, Leaf(i));
  }

  /** Byte p of block b of masked data is laid over with byte p of the sixteen words that the
      block begins at, least significant byte first. */
  lemma MaskedByteIs(data: seq<byte>, t: table, n1: word, pos: nat, b: nat, p: nat)
    requires p < 63 && 63 * b + p < |data|
    ensures var w := KeyWord(t, n1, pos + 16 * b + p / 4);
      Masked(data, t, n1, pos)[63 * b + p] == XorByte(data[63 * b + p], ByteNo(w, p % 4))
  {
    hide KeyWord, XorByte;
    KeyByteAt(t, n1, pos, b, p);
  }

  function ByteNo(w: word, k: nat): byte
    requires k < 4
  {
    var shifted := if k == 0 then w else if k == 1 then w / 0x100 else if k == 2 then w / 0x1_0000 else w / 0x100_0000;
    shifted % 0x100
  }

  // ---------- The table of a key ----------

  /** One exchange: the position moves on by the entry and a byte of the key, and the entry
      changes places with the one it points at. */
  ghost predicate Exchanged(src: seq<byte>, a: table, b: table, i: nat, from: byte, to: byte)
    requires |src| > 0 && i < 256
  {
    to == (from as int + a[i] + src[i % |src|]) % 256 && b == a[i := a[to]][to := a[i]]
  }

  /** One pass over all entries. */
  ghost predicate Pass(src: seq<byte>, a: table, from: byte, b: table, to: byte)
    requires |src| > 0
  {
    exists ts: seq<table>, ps: seq<byte> ::
      |ts| == |ps| == 257 && ts[0] == a && ps[0] == from && ts[256] == b && ps[256] == to &&
      forall i :: 0 <= i < 256 ==> Exchanged(src, ts[i], ts[i + 1], i, ps[i], ps[i + 1])
  }

  lemma {:induction false} ShuffleIsLawful(src: seq<byte>, t: table, pos: byte, i: nat) returns (ts: seq<table>, ps: seq<byte>)
    requires |src| > 0 && i <= 256
    ensures var r := Shuffle(src, t, pos, i); var n := 256 - i;
      |ts| == |ps| == n + 1 && ts[0] == t && ps[0] == pos && ts[n] == r.0 && ps[n] == r.1 &&
      forall k :: 0 <= k < n ==> Exchanged(src, ts[k], ts[k + 1], i + k, ps[k], ps[k + 1])
    decreases 256 - i
  {
    hide Exchanged;
    if i == 256 {
      ts, ps := [t], [pos];
    } else {
      var next := (pos + t[i] + src[i % |src|]) % 0x100;
      ExchangeIsLawful(src, t, i, pos, next);
      var ts', ps' := ShuffleIsLawful(src, Exchange(t, i, next), next, i + 1);
      ts, ps := [t] + ts', [pos] + ps';
      forall k | 0 <= k < 256 - i ensures Exchanged(src, ts[k], ts[k + 1], i + k, ps[k], ps[k + 1]) {
        assert k > 0 ==> Exchanged(src, ts'[k - 1], ts'[k], i + 1 + (k - 1), ps'[k - 1], ps'[k]);
      }
    }
  }

  lemma ExchangeIsLawful(src: seq<byte>, t: table, i: nat, pos: byte, next: byte)
    requires |src| > 0 && i < 256 && next == (pos as int + t[i] + src[i % |src|]) % 0x100
    ensures Exchanged(src, t, Exchange(t, i, next), i, pos, next)
  {
  }

  lemma ShuffleIsPass(src: seq<byte>, t: table, pos: byte)
    requires |src| > 0
    ensures var r := Shuffle(src, t, pos, 0); Pass(src, t, pos, r.0, r.1)
  {
    hide Shuffle, Exchanged;
    var ts, ps := ShuffleIsLawful(src, t, pos, 0);
  }

  /** Round y: the three lower bytes of every word move up and its number comes in below,
      and two passes go on from position y. */
  ghost predicate RoundLaw(src: seq<byte>, a: table, b: table, y: byte)
    requires |src| > 0
  {
    exists raised: table, mid: table, p: byte, q: byte ::
      (forall i :: 0 <= i < 256 ==> raised[i] == a[i] % 0x100_0000 * 0x100 + i) &&
      Pass(src, raised, y, mid, p) && Pass(src, mid, p, b, q)
  }

  lemma RoundIsLawful(src: seq<byte>, y: byte)
    requires |src| > 0 && y < 4
    ensures RoundLaw(src, Rounds(src, y), Rounds(src, y + 1), y)
  {
    hide Shuffle, Rounds, Pass;
    var a := Rounds(src, y);
    OneMoreRound(src, y);
    var first := Shuffle(src, Raise(a), y, 0);
    ShuffleIsPass(src, Raise(a), y);
    ShuffleIsPass(src, first.0, first.1);
  }

  /** The table of a key comes from zeros in four rounds, and each word is laid over with its
      number in the end. */
  lemma KeyTableIsShuffled(src: seq<byte>) returns (ts: seq<table>)
    requires |src| > 0
    ensures |ts| == 5 && (forall i :: 0 <= i < 256 ==> ts[0][i] == 0) && (forall y :: 0 <= y < 4 ==> RoundLaw(src, ts[y], ts[y + 1], y))
    ensures forall i :: 0 <= i < 256 ==> KeyTable(src)[i] == XorWord(ts[4][i], i)
  {
    hide Rounds, RoundLaw, XorWord;
    ts := [Rounds(src, 0), Rounds(src, 1), Rounds(src, 2), Rounds(src, 3), Rounds(src, 4)];
    NoRounds(src);
    forall y | 0 <= y < 4 ensures RoundLaw(src, ts[y], ts[y + 1], y) {
      RoundIsLawful(src, y);
    }
  }
}
