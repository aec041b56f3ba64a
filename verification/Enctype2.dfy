/** The enctype 2 keystream generator: a walk over the leaves of a binary tree of
    registers, its seek operation, the cipher built on it and the set-up of its table. */
module Enctype2 {
  import opened Bits
  import opened Permutation

  // ---------- The specification: registers at the nodes of a binary tree ----------

  /** The substitution table: the first 256 words of the generator's buffer. */
  type table = t: seq<word> | |t| == 256 witness seq(256, _ => 0)

  /** A node of the tree, as the way to it from the root. */
  datatype Path = Root | Left(up: Path) | Right(up: Path)

  datatype Regs = Regs(a: word, b: word)

  const HEIGHT := 16
  const LEAVES := 65536

  function Depth(p: Path): nat {
    if p.Root? then 0 else Depth(p.up) + 1
  }

  /** Nodes are numbered as in a heap, in machine words. */
  function Num(p: Path): word {
    match p
    case Root => 1
    case Left(u) => AddWord(Num(u), Num(u))
    case Right(u) => AddWord(AddWord(Num(u), Num(u)), 1)
  }

  /** The next node of the same level, from left to right. */
  function Next(p: Path): Path {
    match p
    case Root => Root
    case Left(u) => Right(u)
    case Right(u) => Left(Next(u))
  }

  /** The first node of level d below p. */
  function FirstAt(p: Path, d: nat): Path
    decreases d - Depth(p)
  {
    if Depth(p) >= d then p else FirstAt(Left(p), d)
  }

  /** The leaves from left to right. */
  function Leaf(i: nat): Path {
    if i == 0 then FirstAt(Root, HEIGHT) else Next(Leaf(i - 1))
  }

  /** What happens at the node numbered k before a child of it is entered. */
  function Mix(s: Regs, k: word): Regs {
    var a := AddWord(s.a, k);
    var b := AddWord(s.b, a);
    Regs(AddWord(a, b), b)
  }

  function Sub(t: table, w: word): word {
    XorWord(w, t[w % 0x100])
  }

  /** The registers of the left child, from the mixed registers of its parent. */
  function LeftRegs(t: table, m: Regs): Regs {
    Regs(Rol8(Sub(t, Rol8(Sub(t, m.a)))), Sub(t, Ror8(Sub(t, Ror8(m.b)))))
  }

  /** The registers of the right child, from the mixed registers of its parent. */
  function RightRegs(t: table, m: Regs): Regs {
    Regs(Sub(t, Ror8(Sub(t, Ror8(NotWord(m.a))))), Rol8(Sub(t, Rol8(Sub(t, m.b)))))
  }

  /** The registers on arrival at node p, for a generator seeded with n1. */
  function ArrivalRegs(t: table, n1: word, p: Path): Regs
    decreases p, 0
  {
    match p
    case Root => Regs(n1, 0)
    case Left(u) => LeftRegs(t, MixedRegs(t, n1, u))
    case Right(u) => RightRegs(t, MixedRegs(t, n1, u))
  }

  /** The registers saved when node p is left for its left child. */
  function MixedRegs(t: table, n1: word, p: Path): Regs
    decreases p, 1
  {
    Mix(ArrivalRegs(t, n1, p), Num(p))
  }

  /** Word i of the keystream: the two registers at leaf i. */
  function KeyWord(t: table, n1: word, i: nat): word {
    var s := ArrivalRegs(t, n1, Leaf(i));
    XorWord(s.b, s.a)
  }

  // ---------- Facts about the tree ----------

  /** The ancestors at which the path from the root to p turns left, outermost first. */
  function LeftTurns(p: Path): (turns: seq<Path>)
    ensures |turns| <= Depth(p)
  {
    match p
    case Root => []
    case Left(u) => LeftTurns(u) + [u]
    case Right(u) => LeftTurns(u)
  }

  /** The first leaf below node p. */
  function FirstLeaf(p: Path): Path {
    FirstAt(p, HEIGHT)
  }

  lemma {:induction false} NumBounds(p: Path)
    requires Depth(p) <= HEIGHT
    ensures Pow2(Depth(p)) <= Num(p) < Pow2(Depth(p) + 1)
    ensures p.Left? ==> Num(p) == 2 * Num(p.up)
    ensures p.Right? ==> Num(p) == 2 * Num(p.up) + 1
  {
    hide Pow2, Num;
    Pow2Zero();
    Pow2Succ(Depth(p));
    Pow2Leaves();
    NumChild(p);
    if !p.Root? {
      NumBounds(p.up);
      Pow2Succ(Depth(p.up));
      Pow2Monotone(Depth(p), HEIGHT);
    }
  }

  lemma NumChild(p: Path)
    ensures p.Root? ==> Num(p) == 1
    ensures p.Left? && Num(p.up) < 0x8000_0000 ==> Num(p) == 2 * Num(p.up)
    ensures p.Right? && Num(p.up) < 0x8000_0000 ==> Num(p) == 2 * Num(p.up) + 1
  {
  }

  lemma DepthOfChild(p: Path)
    ensures Depth(Left(p)) == Depth(Right(p)) == Depth(p) + 1
  {
  }

  lemma {:induction false} Pow2Monotone(a: nat, b: nat)
    requires a <= b
    ensures Pow2(a) <= Pow2(b)
    decreases b - a
  {
    if a < b {
      Pow2Monotone(a, b - 1);
    }
  }

  lemma Pow2Leaves()
    ensures Pow2(HEIGHT) == LEAVES && Pow2(HEIGHT + 1) == 2 * LEAVES
  {
    assert Pow2(8) == 0x100;
  }

  /** The test on the node number is a test on the depth. */
  lemma LeafNumber(p: Path)
    requires Depth(p) <= HEIGHT
    ensures 1 <= Num(p) < 2 * LEAVES && (Num(p) < LEAVES <==> Depth(p) < HEIGHT)
  {
    hide Pow2, Num;
    Pow2Leaves();
    NumBounds(p);
    Pow2Monotone(Depth(p) + 1, if Depth(p) < HEIGHT then HEIGHT else HEIGHT + 1);
  }

  lemma {:induction false} FirstAtDepth(p: Path, d: nat)
    requires Depth(p) <= d
    ensures Depth(FirstAt(p, d)) == d
    decreases d - Depth(p)
  {
    if Depth(p) < d {
      FirstAtDepth(Left(p), d);
    }
  }

  lemma {:induction false} FirstNum(p: Path, d: nat)
    requires Depth(p) <= d <= HEIGHT && Num(p) == Pow2(Depth(p))
    ensures Num(FirstAt(p, d)) == Pow2(d)
    decreases d - Depth(p)
  {
    if Depth(p) < d {
      NumBounds(Left(p));
      DoubledNum(p);
      FirstNum(Left(p), d);
    }
  }

  lemma DoubledNum(p: Path)
    requires Num(p) == Pow2(Depth(p)) && Num(Left(p)) == 2 * Num(p)
    ensures Num(Left(p)) == Pow2(Depth(Left(p)))
  {
    hide Num;
    assert Depth(Left(p)) == Depth(p) + 1;
  }

  lemma {:induction false} NextNum(p: Path)
    requires Depth(p) <= HEIGHT && Num(p) + 1 < Pow2(Depth(p) + 1)
    ensures Depth(Next(p)) == Depth(p) && Num(Next(p)) == Num(p) + 1 && LeftTurns(p) != []
  {
    match p
    case Root =>
      NumBounds(p);
    case Left(u) =>
      hide Num, Pow2;
      NumBounds(p);
      NumBounds(Right(u));
    case Right(u) =>
      hide Num, Pow2;
      NumBounds(p);
      DepthOfChild(u);
      Pow2Succ(Depth(p));
      NextNum(u);
      NextOfRight(u);
  }

  lemma NextOfRight(u: Path)
    requires Depth(u) < HEIGHT && Depth(Next(u)) == Depth(u) && Num(Next(u)) == Num(u) + 1
    ensures Depth(Next(Right(u))) == Depth(u) + 1 && Num(Next(Right(u))) == Num(Right(u)) + 1
  {
    hide Num;
    NumBounds(Right(u));
    NumBounds(Left(Next(u)));
  }

  lemma {:induction false} NumInjective(p: Path, q: Path)
    requires Depth(p) == Depth(q) <= HEIGHT && Num(p) == Num(q)
    ensures p == q
  {
    NumBounds(p);
    NumBounds(q);
    if !p.Root? {
      NumInjective(p.up, q.up);
    }
  }

  /** Leaf i is the node numbered 65536 + i. */
  lemma {:induction false} LeafNum(i: nat)
    requires i < LEAVES
    ensures Depth(Leaf(i)) == HEIGHT && Num(Leaf(i)) == LEAVES + i
    ensures i + 1 < LEAVES ==> LeftTurns(Leaf(i)) != []
  {
    Pow2Leaves();
    if i == 0 {
      FirstAtDepth(Root, HEIGHT);
      FirstNum(Root, HEIGHT);
    } else {
      LeafNum(i - 1);
      NextNum(Leaf(i - 1));
    }
    if i + 1 < LEAVES {
      NextNum(Leaf(i));
    }
  }

  /** Backtracking from a node to the right child of its last left turn is moving on to
      the first leaf that follows those below the node. */
  lemma {:induction false} Backtrack(p: Path)
    requires LeftTurns(p) != [] && Depth(p) <= HEIGHT
    ensures var turns := LeftTurns(p); var r := Right(turns[|turns| - 1]);
      LeftTurns(r) == turns[..|turns| - 1] && Depth(r) <= Depth(p) && FirstLeaf(r) == FirstLeaf(Next(p)) && Depth(Next(p)) == Depth(p)
  {
    match p
    case Left(u) =>
    case Right(u) =>
      Backtrack(u);
      assert FirstLeaf(Next(u)) == FirstLeaf(Left(Next(u)));
  }

  /** A plain recursive traversal of the tree below p. */
  function Walk(t: table, n1: word, p: Path): (ws: seq<word>)
    decreases HEIGHT - Depth(p)
  {
    if Depth(p) >= HEIGHT then
      var s := ArrivalRegs(t, n1, p);
      [XorWord(s.b, s.a)]
    else Walk(t, n1, Left(p)) + Walk(t, n1, Right(p))
  }

  function KeyWords(t: table, n1: word, pos: nat, len: nat): (ws: seq<word>)
    ensures |ws| == len && forall i :: 0 <= i < len ==> ws[i] == KeyWord(t, n1, pos + i)
  {
    seq<word>(len, i requires 0 <= i < len => KeyWord(t, n1, pos + i))
  }

  lemma KeyWordsJoin(t: table, n1: word, pos: nat, a: nat, b: nat)
    ensures KeyWords(t, n1, pos, a) + KeyWords(t, n1, pos + a, b) == KeyWords(t, n1, pos, a + b)
  {
    hide KeyWord;
    var l, r, w := KeyWords(t, n1, pos, a), KeyWords(t, n1, pos + a, b), KeyWords(t, n1, pos, a + b);
    hide KeyWords;
    forall i | 0 <= i < a + b ensures (l + r)[i] == w[i] {
      if i >= a {
        assert (l + r)[i] == r[i - a];
        assert pos + a + (i - a) == pos + i;
      }
    }
  }

  /** The traversal below p takes the leaves as they come. */
  lemma {:induction false} WalkBelow(t: table, n1: word, p: Path, first: nat)
    requires Depth(p) <= HEIGHT && LEAVES + first == Num(p) * Pow2(HEIGHT - Depth(p))
    ensures Walk(t, n1, p) == KeyWords(t, n1, first, Pow2(HEIGHT - Depth(p)))
    decreases HEIGHT - Depth(p)
  {
    hide Pow2, Walk, KeyWords, Num;
    var d := HEIGHT - Depth(p);
    if d == 0 {
      Pow2Zero();
      WalkLeaf(t, n1, p, first);
    } else {
      NumBounds(Left(p));
      NumBounds(Right(p));
      DepthOfChild(p);
      Pow2Succ(d - 1);
      HalfWay(Num(p), Pow2(d - 1), LEAVES + first);
      assert HEIGHT - Depth(Left(p)) == HEIGHT - Depth(Right(p)) == d - 1;
      hide Depth;
      WalkBelow(t, n1, Left(p), first);
      WalkBelow(t, n1, Right(p), first + Pow2(d - 1));
      WalkHalves(t, n1, p);
      KeyWordsJoin(t, n1, first, Pow2(d - 1), Pow2(d - 1));
    }
  }

  lemma WalkLeaf(t: table, n1: word, p: Path, first: nat)
    requires Depth(p) == HEIGHT && LEAVES + first == Num(p)
    ensures Walk(t, n1, p) == KeyWords(t, n1, first, 1)
  {
    hide Num, Leaf, ArrivalRegs, XorWord;
    LeafNumber(p);
    LeafNum(first);
    NumInjective(p, Leaf(first));
  }

  lemma HalfWay(n: nat, half: nat, start: nat)
    requires start == n * (2 * half)
    ensures start == (2 * n) * half && start + half == (2 * n + 1) * half
  {
  }

  lemma WalkHalves(t: table, n1: word, p: Path)
    requires Depth(p) < HEIGHT
    ensures Walk(t, n1, p) == Walk(t, n1, Left(p)) + Walk(t, n1, Right(p))
  {
  }

  /** The keystream is the depth-first traversal of the whole tree. */
  lemma KeystreamIsWalk(t: table, n1: word)
    ensures Walk(t, n1, Root) == KeyWords(t, n1, 0, LEAVES)
  {
    Pow2Leaves();
    hide Pow2, Walk, KeyWord;
    WalkBelow(t, n1, Root, 0);
  }

  // ---------- The generator's state ----------

  /** Stack entry j holds the mixed registers m of the node numbered k. */
  ghost predicate Holds(mem: seq<word>, j: nat, m: Regs, k: word)
    requires |mem| >= 309 && j < 16
  {
    mem[256 + j] == m.a && mem[272 + j] == m.b && mem[288 + j] == k
  }

  /** The three stacks at slots 256, 272 and 288 hold the left turns. */
  ghost predicate Stacked(mem: seq<word>, t: table, n1: word, turns: seq<Path>)
    requires |mem| >= 309
  {
    |turns| <= 16 && forall j :: 0 <= j < |turns| ==> Holds(mem, j, MixedRegs(t, n1, turns[j]), Num(turns[j]))
  }

  ghost predicate HasTable(mem: seq<word>, t: table) {
    |mem| >= 309 && forall i :: 0 <= i < 256 ==> mem[i] == t[i]
  }

  /** The registers t1, t2, t3, t5 are those on arrival at node p, with the left turns
      towards it on the stacks. */
  ghost predicate Arrived(mem: seq<word>, t: table, n1: word, p: Path, t1: word, t2: word, t3: word, t5: word) {
    HasTable(mem, t) && Depth(p) <= HEIGHT && t5 == Num(p) && t2 == |LeftTurns(p)| &&
    Regs(t1, t3) == ArrivalRegs(t, n1, p) && Stacked(mem, t, n1, LeftTurns(p))
  }

  /** With its registers in slots 304 .. 307, the generator seeded with n1 is about to
      emit word pos. */
  ghost predicate At(mem: seq<word>, t: table, n1: word, pos: nat) {
    |mem| >= 309 &&
    exists p :: Arrived(mem, t, n1, p, mem[305], mem[304], mem[306], mem[307]) && FirstLeaf(p) == Leaf(pos)
  }

  lemma Parked(mem: seq<word>, t: table, n1: word, p: Path, pos: nat)
    requires |mem| >= 309 && Arrived(mem, t, n1, p, mem[305], mem[304], mem[306], mem[307]) && FirstLeaf(p) == Leaf(pos)
    ensures At(mem, t, n1, pos)
  {
  }

  /** Outside the stacks nothing differs. */
  ghost predicate SameButStacks(mem: seq<word>, before: seq<word>) {
    |mem| == |before| && forall i :: 0 <= i < |mem| && !(256 <= i < 304) ==> mem[i] == before[i]
  }

  lemma Push(mem: seq<word>, before: seq<word>, t: table, n1: word, turns: seq<Path>, p: Path)
    requires |mem| >= 309 && |mem| == |before| && |turns| < 16 && Stacked(before, t, n1, turns)
    requires forall i :: 256 <= i < 304 && i != 256 + |turns| && i != 272 + |turns| && i != 288 + |turns| ==> mem[i] == before[i]
    requires Holds(mem, |turns|, MixedRegs(t, n1, p), Num(p))
    ensures Stacked(mem, t, n1, turns + [p])
  {
    forall j | 0 <= j < |turns| ensures Holds(mem, j, MixedRegs(t, n1, turns[j]), Num(turns[j])) {
      assert Holds(before, j, MixedRegs(t, n1, turns[j]), Num(turns[j]));
    }
  }

  lemma KeepStacks(mem: seq<word>, before: seq<word>, t: table, n1: word, turns: seq<Path>)
    requires |mem| >= 309 && |mem| == |before| && Stacked(before, t, n1, turns)
    requires forall i :: 256 <= i < 304 ==> mem[i] == before[i]
    ensures Stacked(mem, t, n1, turns)
  {
    forall j | 0 <= j < |turns| ensures Holds(mem, j, MixedRegs(t, n1, turns[j]), Num(turns[j])) {
      assert Holds(before, j, MixedRegs(t, n1, turns[j]), Num(turns[j]));
    }
  }

  /** What the stacks say about the node r to resume at when leaf i is done. */
  lemma Resume(mem: seq<word>, t: table, n1: word, i: nat) returns (r: Path)
    requires |mem| >= 309 && i + 1 < LEAVES && Stacked(mem, t, n1, LeftTurns(Leaf(i)))
    ensures var d := |LeftTurns(Leaf(i))| - 1;
      0 <= d < 16 &&
      Num(r) == AddWord(AddWord(mem[288 + d], mem[288 + d]), 1) && Depth(r) <= HEIGHT &&
      |LeftTurns(r)| == d && FirstLeaf(r) == Leaf(i + 1) &&
      Stacked(mem, t, n1, LeftTurns(r)) && ArrivalRegs(t, n1, r) == RightRegs(t, Regs(mem[256 + d], mem[272 + d]))
  {
    LeafNum(i);
    Backtrack(Leaf(i));
    var turns := LeftTurns(Leaf(i));
    var d := |turns| - 1;
    r := Right(turns[d]);
    assert Holds(mem, d, MixedRegs(t, n1, turns[d]), Num(turns[d]));
  }

  // ---------- encshare2: emit words ----------

  /** The table look-ups of the inner loop of encshare2. */
  method Substitute(tbuff: array<word>, t1_: word, t3_: word, ghost t: table) returns (t1: word, t3: word)
    requires HasTable(tbuff[..], t)
    ensures Regs(t1, t3) == LeftRegs(t, Regs(t1_, t3_))
  {
    t1, t3 := t1_, t3_;
    var t4 := Ror8(t3);
    t1 := XorWord(t1, tbuff[t1 % 0x100]);
    t4 := XorWord(t4, tbuff[t4 % 0x100]);
    t3 := Ror8(t4);
    t4 := Rol8(t1);
    t4 := XorWord(t4, tbuff[t4 % 0x100]);
    t3 := XorWord(t3, tbuff[t3 % 0x100]);
    t1 := Rol8(t4);
  }

  /** The table look-ups of the backtracking step of encshare2. */
  method SubstituteRight(tbuff: array<word>, t1_: word, t5_: word, ghost t: table) returns (t1: word, t3: word)
    requires HasTable(tbuff[..], t)
    ensures Regs(t1, t3) == RightRegs(t, Regs(t1_, t5_))
  {
    var t5 := t5_;
    t1 := NotWord(t1_);
    t3 := Ror8(t1);
    t3 := XorWord(t3, tbuff[t3 % 0x100]);
    t5 := XorWord(t5, tbuff[t5 % 0x100]);
    t1 := Ror8(t3);
    var t4 := Rol8(t5);
    t1 := XorWord(t1, tbuff[t1 % 0x100]);
    t4 := XorWord(t4, tbuff[t4 % 0x100]);
    t3 := Rol8(t4);
  }

  /** The inner loop of encshare2: down the left edge to a leaf. */
  method Descend(tbuff: array<word>, t1_: word, t2_: word, t3_: word, t5_: word, ghost t: table, ghost n1: word, ghost p_: Path)
    returns (t1: word, t2: word, t3: word, t5: word)
    requires Arrived(tbuff[..], t, n1, p_, t1_, t2_, t3_, t5_)
    modifies tbuff
    ensures Arrived(tbuff[..], t, n1, FirstLeaf(p_), t1, t2, t3, t5)
    ensures SameButStacks(tbuff[..], old(tbuff[..]))
  {
    hide LeftRegs, RightRegs, Next, Leaf, Stacked, Pow2;
    t1, t2, t3, t5 := t1_, t2_, t3_, t5_;
    var p := t2 + 272;
    ghost var node := p_;
    LeafNumber(node);
    while t5 < 65536
      invariant FirstLeaf(node) == FirstLeaf(p_) && p == t2 + 272
      invariant Arrived(tbuff[..], t, n1, node, t1, t2, t3, t5)
      invariant t5 < LEAVES <==> Depth(node) < HEIGHT
      invariant SameButStacks(tbuff[..], old(tbuff[..]))
      decreases HEIGHT - Depth(node)
    {
      ghost var before := tbuff[..];
      t1 := AddWord(t1, t5);
      p := p + 1;
      t3 := AddWord(t3, t1);
      t1 := AddWord(t1, t3);
      tbuff[p - 17] := t1;
      tbuff[p - 1] := t3;
      tbuff[p + 15] := t5;
      assert Holds(tbuff[..], t2, MixedRegs(t, n1, node), Num(node));
      Push(tbuff[..], before, t, n1, LeftTurns(node), node);
      t5 := AddWord(t5, t5);
      t2 := t2 + 1;
      t1, t3 := Substitute(tbuff, t1, t3, t);
      node := Left(node);
      LeafNumber(node);
    }
  }

  /** The end of encshare2's outer loop: back to the right child of the last left turn. */
  method Pop(tbuff: array<word>, t2_: word, ghost t: table, ghost n1: word, ghost i: nat)
    returns (t1: word, t2: word, t3: word, t5: word, ghost r: Path)
    requires HasTable(tbuff[..], t)
    requires t2_ == |LeftTurns(Leaf(i))| && Stacked(tbuff[..], t, n1, LeftTurns(Leaf(i)))
    ensures i + 1 < LEAVES ==> Arrived(tbuff[..], t, n1, r, t1, t2, t3, t5) && FirstLeaf(r) == Leaf(i + 1)
  {
    r := Root;
    if i + 1 < LEAVES {
      r := Resume(tbuff[..], t, n1, i);
    }
    t2 := DecrementWord(t2_);
    t1 := tbuff[AddWord(t2, 256)];
    t5 := tbuff[AddWord(t2, 272)];
    t1, t3 := SubstituteRight(tbuff, t1, t5, t);
    t5 := tbuff[AddWord(t2, 288)];
    t5 := AddWord(AddWord(t5, t5), 1);
  }

  method Encshare2(tbuff: array<word>, tbuffp_: nat, len: nat, ghost t: table, ghost n1: word, ghost pos: nat)
    requires At(tbuff[..], t, n1, pos) && pos + len <= LEAVES
    requires 309 <= tbuffp_ && tbuffp_ + len <= tbuff.Length
    modifies tbuff
    ensures HasTable(tbuff[..], t)
    ensures forall j :: tbuffp_ <= j < tbuffp_ + len ==> tbuff[j] == KeyWord(t, n1, pos - tbuffp_ + j)
    ensures forall i :: 308 <= i < tbuff.Length && !(tbuffp_ <= i < tbuffp_ + len) ==> tbuff[i] == old(tbuff[i])
    ensures pos + len < LEAVES ==> At(tbuff[..], t, n1, pos + len)
  {
    hide ArrivalRegs, MixedRegs, Stacked, XorWord, Num, Next, Leaf, FirstAt, LeftTurns, AddWord;
    var t2, t1, t3, t5 := tbuff[304], tbuff[305], tbuff[306], tbuff[307];
    var tbuffp, limit := tbuffp_, tbuffp_ + len;
    ghost var p :| Arrived(tbuff[..], t, n1, p, t1, t2, t3, t5) && FirstLeaf(p) == Leaf(pos);
    ghost var i := pos;
    while tbuffp < limit
      invariant tbuffp_ <= tbuffp <= limit && i == pos + (tbuffp - tbuffp_)
      invariant i < LEAVES ==> Arrived(tbuff[..], t, n1, p, t1, t2, t3, t5) && FirstLeaf(p) == Leaf(i)
      invariant HasTable(tbuff[..], t)
      invariant forall j :: tbuffp_ <= j < tbuffp ==> tbuff[j] == KeyWord(t, n1, pos - tbuffp_ + j)
      invariant forall i :: 308 <= i < tbuff.Length && !(tbuffp_ <= i < tbuffp) ==> tbuff[i] == old(tbuff[i])
    {
      t1, t2, t3, t5 := Descend(tbuff, t1, t2, t3, t5, t, n1, p);
      ghost var before := tbuff[..];
      t3 := XorWord(t3, t1);
      assert t3 == KeyWord(t, n1, i);
      tbuff[tbuffp] := t3;
      tbuffp := tbuffp + 1;
      KeepStacks(tbuff[..], before, t, n1, LeftTurns(Leaf(i)));
      t1, t2, t3, t5, p := Pop(tbuff, t2, t, n1, i);
      i := i + 1;
    }
    ghost var before := tbuff[..];
    tbuff[304] := t2;
    tbuff[305] := t1;
    tbuff[306] := t3;
    tbuff[307] := t5;
    if pos + len < LEAVES {
      ghost var mem := tbuff[..];
      assert mem[304] == t2 && mem[305] == t1 && mem[306] == t3 && mem[307] == t5;
      KeepStacks(mem, before, t, n1, LeftTurns(p));
      Parked(mem, t, n1, p, pos + len);
    }
  }

  // ---------- encshare3: seek to a word ----------

  /** After d tests, the d bits of n2 seen so far number the node reached. */
  ghost predicate Seeking(p: Path, n2: int, d: nat) {
    d <= HEIGHT && Depth(p) == d && Num(p) == Pow2(d) + (n2 / Pow2(HEIGHT - d)) % Pow2(d)
  }

  lemma SeekStep(p: Path, n2: int, i: nat, d: nat)
    requires d < HEIGHT && Seeking(p, n2, d) && 2 * i == Pow2(HEIGHT - d)
    ensures i > 0 && Seeking(if (n2 / i) % 2 == 1 then Right(p) else Left(p), n2, d + 1)
    ensures if d + 1 == HEIGHT then i / 2 == 0 else 2 * (i / 2) == Pow2(HEIGHT - (d + 1))
  {
    var c := if (n2 / i) % 2 == 1 then Right(p) else Left(p);
    NumBounds(c);
    SeekPowers(i, d);
    DepthOfChild(p);
    hide Pow2, Num, Depth;
    SeekArith(Num(p), n2, i, Pow2(d));
  }

  lemma SeekArith(num: nat, n2: int, i: nat, p: nat)
    requires i > 0 && p > 0 && num == p + (n2 / (2 * i)) % p
    ensures 2 * num + (n2 / i) % 2 == 2 * p + (n2 / i) % (2 * p)
  {
    var hi, bit := n2 / (2 * i), (n2 / i) % 2;
    DivHalf(n2, i);
    assert n2 / i == 2 * hi + bit;
    ModDouble(hi, p, bit);
  }

  lemma SeekPowers(i: nat, d: nat)
    requires d < HEIGHT && 2 * i == Pow2(HEIGHT - d)
    ensures i > 0 && Pow2(d + 1) == 2 * Pow2(d) && i == Pow2(HEIGHT - (d + 1))
    ensures if d + 1 == HEIGHT then i / 2 == 0 else 2 * (i / 2) == Pow2(HEIGHT - (d + 1))
  {
    hide Pow2;
    var left := HEIGHT - (d + 1);
    Pow2Succ(left);
    Pow2Succ(d);
    Pow2Zero();
    if left > 0 {
      Pow2Succ(left - 1);
    }
    assert HEIGHT - d == left + 1;
  }

  lemma StartSeek(n2: int)
    ensures Seeking(Root, n2, 0) && 2 * 32768 == Pow2(HEIGHT)
  {
    Pow2Leaves();
  }

  lemma ArriveAtLeaf(p: Path, n2: int)
    requires Seeking(p, n2, HEIGHT)
    ensures p == Leaf(n2 % LEAVES) && FirstLeaf(p) == p
  {
    Pow2Leaves();
    LeafNum(n2 % LEAVES);
    assert Pow2(0) == 1 && n2 / 1 == n2;
    NumInjective(p, Leaf(n2 % LEAVES));
  }

  lemma EnterLeft(mem: seq<word>, t: table, n1: word, p: Path, t1: word, t2: word, t3: word, t5: word)
    requires HasTable(mem, t) && Depth(p) < HEIGHT && t5 == AddWord(Num(p), Num(p)) && t2 == |LeftTurns(p)| + 1
    requires Regs(t1, t3) == LeftRegs(t, MixedRegs(t, n1, p)) && Stacked(mem, t, n1, LeftTurns(p) + [p])
    ensures Arrived(mem, t, n1, Left(p), t1, t2, t3, t5)
  {
  }

  lemma EnterRight(mem: seq<word>, t: table, n1: word, p: Path, t1: word, t2: word, t3: word, t5: word)
    requires HasTable(mem, t) && Depth(p) < HEIGHT && t5 == AddWord(AddWord(Num(p), Num(p)), 1) && t2 == |LeftTurns(p)|
    requires Regs(t1, t3) == RightRegs(t, MixedRegs(t, n1, p)) && Stacked(mem, t, n1, LeftTurns(p))
    ensures Arrived(mem, t, n1, Right(p), t1, t2, t3, t5)
  {
  }

  /** The stores of a left turn of encshare3. */
  method Save(data: array<word>, t2: word, t1: word, t4: word, ghost t: table, ghost n1: word, ghost p: Path)
    requires HasTable(data[..], t) && Depth(p) < HEIGHT && Regs(t2, t1) == MixedRegs(t, n1, p) && t4 == Num(p)
    requires data[304] == |LeftTurns(p)| && Stacked(data[..], t, n1, LeftTurns(p))
    modifies data
    ensures HasTable(data[..], t) && data[304] == |LeftTurns(p)| + 1 && Stacked(data[..], t, n1, LeftTurns(p) + [p])
    ensures forall i :: 0 <= i < data.Length && !(256 <= i < 305) ==> data[i] == old(data[i])
  {
    hide MixedRegs, LeftTurns, Num, Stacked;
    ghost var before := data[..];
    data[data[304] + 256] := t2;
    data[data[304] + 272] := t1;
    data[data[304] + 288] := t4;
    Push(data[..], before, t, n1, LeftTurns(p), p);
    before := data[..];
    data[304] := data[304] + 1;
    KeepStacks(data[..], before, t, n1, LeftTurns(p) + [p]);
  }

  method Encshare3(data: array<word>, n1: word, n2: int, ghost t: table)
    requires HasTable(data[..], t)
    modifies data
    ensures At(data[..], t, n1, n2 % LEAVES)
    ensures data[308] == n1
    ensures forall i :: 0 <= i < data.Length && !(256 <= i < 309) ==> data[i] == old(data[i])
  {
    hide LeftRegs, RightRegs, Stacked, Pow2, Leaf, Next, FirstAt;
    var t2, t1: word, t4: word := n1, 0, 1;
    ghost var p, d: nat := Root, 0;
    data[304] := 0;
    var i := 32768;
    StartSeek(n2);
    NoTurns(data[..], t, n1);
    while i > 0
      invariant Seeking(p, n2, d) && if d == HEIGHT then i == 0 else 2 * i == Pow2(HEIGHT - d)
      invariant Arrived(data[..], t, n1, p, t2, data[304], t1, t4)
      invariant forall i :: 0 <= i < data.Length && !(256 <= i < 309) ==> data[i] == old(data[i])
    {
      SeekStep(p, n2, i, d);
      assert Regs(t2, t1) == ArrivalRegs(t, n1, p);
      t2 := AddWord(t2, t4);
      t1 := AddWord(t1, t2);
      t2 := AddWord(t2, t1);
      assert Regs(t2, t1) == MixedRegs(t, n1, p);
      hide ArrivalRegs, MixedRegs, AddWord, Seeking, Num;
      if (n2 / i) % 2 == 1 {
        t4 := AddWord(AddWord(t4, t4), 1);
        t2, t1 := SubstituteRight(data, t2, t1, t);
        EnterRight(data[..], t, n1, p, t2, data[304], t1, t4);
        p := Right(p);
      } else {
        Save(data, t2, t1, t4, t, n1, p);
        t2, t1 := Substitute(data, t2, t1, t);
        t4 := AddWord(t4, t4);
        EnterLeft(data[..], t, n1, p, t2, data[304], t1, t4);
        p := Left(p);
      }
      d := d + 1;
      i := i / 2;
    }
    Park(data, t2, t1, t4, n1, t, p, n2);
  }

  /** The last stores of encshare3, at a leaf. */
  method Park(data: array<word>, t2: word, t1: word, t4: word, n1: word, ghost t: table, ghost p: Path, ghost n2: int)
    requires Seeking(p, n2, HEIGHT) && data.Length >= 309 && Arrived(data[..], t, n1, p, t2, data[304], t1, t4)
    modifies data
    ensures At(data[..], t, n1, n2 % LEAVES) && data[308] == n1
    ensures forall i :: 0 <= i < data.Length && !(305 <= i < 309) ==> data[i] == old(data[i])
  {
    hide ArrivalRegs, Stacked, LeftTurns, Leaf, Num, FirstAt;
    ghost var before := data[..];
    data[305] := t2;
    data[306] := t1;
    data[307] := t4;
    data[308] := n1;
    ArriveAtLeaf(p, n2);
    KeepStacks(data[..], before, t, n1, LeftTurns(p));
    Parked(data[..], t, n1, p, n2 % LEAVES);
  }

  lemma NoTurns(mem: seq<word>, t: table, n1: word)
    requires |mem| >= 309
    ensures Stacked(mem, t, n1, [])
  {
  }

  /** Seeking to word n2 is skipping n2 words. */
  method SeekOrSkip(a: array<word>, b: array<word>, n1: word, n2: nat, len: nat, ghost t: table)
    requires a != b && HasTable(a[..], t) && HasTable(b[..], t)
    requires n2 + len <= LEAVES && n2 < LEAVES && 309 + n2 + len <= a.Length && 309 + len <= b.Length
    modifies a, b
    ensures a[309 + n2..309 + n2 + len] == b[309..309 + len]
  {
    hide At, KeyWord;
    Encshare3(a, n1, 0, t);
    Encshare2(a, 309, n2, t, n1, 0);
    Encshare2(a, 309 + n2, len, t, n1, n2);
    Encshare3(b, n1, n2, t);
    Encshare2(b, 309, len, t, n1, n2);
    ghost var x, y := a[309 + n2..309 + n2 + len], b[309..309 + len];
    forall k | 0 <= k < len ensures x[k] == y[k] {
      var i, j := 309 + n2 + k, 309 + k;
      assert a[i] == KeyWord(t, n1, n2 - (309 + n2) + i) && b[j] == KeyWord(t, n1, n2 - 309 + j);
    }
  }

  // ---------- encshare1: mask data with the keystream ----------

  /** The mask of byte i: the keystream in blocks of sixteen words, least significant
      byte first, of which the last byte of each block is never used. */
  function KeyByte(t: table, n1: word, pos: nat, i: nat): byte {
    Lane(KeyWord(t, n1, pos + 16 * (i / 63) + i % 63 / 4), i % 63 % 4)
  }

  lemma KeyByteAt(t: table, n1: word, pos: nat, b: nat, p: nat)
    requires p < 63
    ensures KeyByte(t, n1, pos, 63 * b + p) == Lane(KeyWord(t, n1, pos + 16 * b + p / 4), p % 4)
  {
    hide KeyWord, Lane;
    assert (63 * b + p) / 63 == b && (63 * b + p) % 63 == p;
  }

  function Masked(data: seq<byte>, t: table, n1: word, pos: nat): (out: seq<byte>)
    ensures |out| == |data|
  {
    seq(|data|, i requires 0 <= i < |data| => XorByte(data[i], KeyByte(t, n1, pos, i)))
  }

  /** Sixteen words of the keystream, where encshare1 puts them. */
  ghost predicate HoldsBlock(mem: seq<word>, t: table, n1: word, pos: nat) {
    |mem| >= 325 && forall j :: 309 <= j < 325 ==> mem[j] == KeyWord(t, n1, pos + (j - 309))
  }

  lemma BlockHeld(mem: seq<word>, t: table, n1: word, pos: nat)
    requires |mem| >= 325 && forall j :: 309 <= j < 325 ==> mem[j] == KeyWord(t, n1, pos - 309 + j)
    ensures HoldsBlock(mem, t, n1, pos)
  {
    hide KeyWord;
  }

  lemma BlockWord(mem: seq<word>, t: table, n1: word, pos: nat, k: nat)
    requires HoldsBlock(mem, t, n1, pos) && k < 16
    ensures |mem| >= 325 && mem[309 + k] == KeyWord(t, n1, pos + k)
  {
    hide KeyWord;
  }

  /** How many blocks of the keystream len bytes use up. */
  function Blocks(len: nat): (b: nat)
    ensures b >= 1
  {
    if len == 0 then 1 else 1 + (len - 1) / 63
  }

  /** After b full blocks and p bytes of the next one. */
  lemma BlocksUsed(len: nat, b: nat, p: nat)
    requires p <= 63 && (p == 0 ==> b == 0)
    ensures 1 <= Blocks(len) && (63 * b + p < len && p == 63 ==> b + 2 <= Blocks(len))
    ensures 63 * b + p == len ==> Blocks(len) == b + 1 && p == Used(len)
  {
  }

  /** Decryption is encryption from the same position. */
  lemma MaskedTwice(data: seq<byte>, t: table, n1: word, pos: nat)
    ensures Masked(Masked(data, t, n1, pos), t, n1, pos) == data
  {
    hide KeyByte;
    forall i | 0 <= i < |data| ensures Masked(Masked(data, t, n1, pos), t, n1, pos)[i] == data[i] {
      XorCancel(data[i], KeyByte(t, n1, pos, i));
    }
  }

  /** encshare1 without a key pointer: starts a block. The result is how far it got
      into the last block. */
  method Encshare1(tbuff: array<word>, datap: array<byte>, len: nat, ghost t: table, ghost n1: word, ghost pos: nat)
    returns (p: nat)
    requires At(tbuff[..], t, n1, pos) && tbuff.Length >= 325 && len <= datap.Length
    requires pos + 16 * Blocks(len) <= LEAVES
    modifies tbuff, datap
    ensures p == Used(len)
    ensures datap[..len] == Masked(old(datap[..len]), t, n1, pos) && datap[len..] == old(datap[len..])
    ensures HasTable(tbuff[..], t)
    ensures pos + 16 * Blocks(len) < LEAVES ==> At(tbuff[..], t, n1, pos + 16 * Blocks(len))
    ensures HoldsBlock(tbuff[..], t, n1, pos + 16 * (Blocks(len) - 1))
    ensures tbuff[325..] == old(tbuff[325..])
  {
    hide At, KeyWord, KeyByte, XorByte, Lane, HasTable, Blocks, HoldsBlock;
    BlocksUsed(len, 0, 0);
    var s := 309;
    p := 0;
    Encshare2(tbuff, s, 16, t, n1, pos);
    BlockHeld(tbuff[..], t, n1, pos);
    ghost var b := 0;
    var i := 0;
    while i < len
      invariant i <= len && i == 63 * b + p && p <= 63 && (p == 0 ==> i == 0)
      invariant HasTable(tbuff[..], t) && b + 1 <= Blocks(len)
      invariant pos + 16 * (b + 1) < LEAVES ==> At(tbuff[..], t, n1, pos + 16 * (b + 1))
      invariant HoldsBlock(tbuff[..], t, n1, pos + 16 * b) && tbuff[325..] == old(tbuff[325..])
      invariant forall j :: 0 <= j < i ==> datap[j] == XorByte(old(datap[j]), KeyByte(t, n1, pos, j))
      invariant forall j :: i <= j < datap.Length ==> datap[j] == old(datap[j])
    {
      hide Masked;
      BlocksUsed(len, b, p);
      if p == 63 {
        p := 0;
        b := b + 1;
        Encshare2(tbuff, s, 16, t, n1, pos + 16 * b);
        BlockHeld(tbuff[..], t, n1, pos + 16 * b);
      }
      BlockWord(tbuff[..], t, n1, pos + 16 * b, p / 4);
      KeyByteAt(t, n1, pos, b, p);
      datap[i] := XorByte(datap[i], Lane(tbuff[s + p / 4], p % 4));
      i := i + 1;
      p := p + 1;
    }
    BlocksUsed(len, b, p);
  }

  /** encshare1 with a key pointer, the byte keyptr of the block: no place of memory is 63
      bytes from null, so the source goes on in memory and never starts a new block. */
  method Encshare1From(tbuff: array<word>, datap: array<byte>, len: nat, keyptr: nat) returns (p: nat)
    requires len <= datap.Length && 4 * 309 + keyptr + len <= 4 * tbuff.Length
    modifies datap
    ensures p == keyptr + len && datap[len..] == old(datap[len..])
    ensures forall j :: 0 <= j < len ==> datap[j] == XorByte(old(datap[j]), ByteOf(tbuff[..], 4 * 309 + keyptr + j))
  {
    hide XorByte, Lane;
    p := keyptr;
    var i := 0;
    while i < len
      invariant i <= len && p == keyptr + i
      invariant forall j :: 0 <= j < i ==> datap[j] == XorByte(old(datap[j]), ByteOf(tbuff[..], 4 * 309 + keyptr + j))
      invariant forall j :: i <= j < datap.Length ==> datap[j] == old(datap[j])
    {
      datap[i] := XorByte(datap[i], Lane(tbuff[309 + p / 4], p % 4));
      i := i + 1;
      p := p + 1;
    }
  }

  function ByteOf(mem: seq<word>, k: nat): byte
    requires k < 4 * |mem|
  {
    Lane(mem[k / 4], k % 4)
  }

  /** How far a call has got into its last block. */
  function Used(len: nat): (u: nat)
    ensures u <= 63
  {
    if len == 0 then 0 else (len - 1) % 63 + 1
  }

  /** Byte j of a call that goes on behind len1 bytes is masked with byte used + j of the
      block, or of the memory mem in which the block lies. */
  ghost predicate GoesOn(before: byte, after: byte, t: table, n1: word, pos: nat, len1: nat, j: nat, mem: seq<word>)
    requires 4 * 309 + Used(len1) + j < 4 * |mem|
  {
    (Used(len1) + j < 63 ==> after == XorByte(before, KeyByte(t, n1, pos, len1 + j))) &&
    (Used(len1) + j == 63 ==> after == XorByte(before, Lane(KeyWord(t, n1, pos + 16 * Blocks(len1) - 1), 3))) &&
    (Used(len1) + j >= 64 ==> after == XorByte(before, ByteOf(mem, 4 * 309 + Used(len1) + j)))
  }

  /** Going on with the pointer that the first call returned masks as one call would as long
      as the block lasts. The byte behind that is masked with the one that a single call
      skips, and the others with the memory behind the block. */
  method MaskInTwo(tbuff: array<word>, d1: array<byte>, len1: nat, d2: array<byte>, len2: nat,
           ghost t: table, ghost n1: word, ghost pos: nat)
    requires At(tbuff[..], t, n1, pos) && tbuff.Length >= 325 && len1 <= d1.Length && len2 <= d2.Length && d1 != d2
    requires pos + 16 * Blocks(len1) <= LEAVES
    requires 4 * 309 + Used(len1) + len2 <= 4 * tbuff.Length
    modifies tbuff, d1, d2
    ensures forall j :: 0 <= j < len2 ==> GoesOn(old(d2[j]), d2[j], t, n1, pos, len1, j, old(tbuff[..]))
    ensures d1[..len1] == Masked(old(d1[..len1]), t, n1, pos)
  {
    hide At, KeyWord, KeyByte, XorByte, Lane, HasTable, Masked;
    var p := Encshare1(tbuff, d1, len1, t, n1, pos);
    ghost var b := Blocks(len1) - 1;
    assert len1 == 63 * b + p && p == Used(len1);
    hide Blocks;
    var end := Encshare1From(tbuff, d2, len2, p);
    forall j | 0 <= j < len2 ensures GoesOn(old(d2[j]), d2[j], t, n1, pos, len1, j, old(tbuff[..])) {
      if p + j >= 64 {
        BehindBlock(p + j);
        assert tbuff[325..][(4 * 309 + p + j) / 4 - 325] == old(tbuff[325..])[(4 * 309 + p + j) / 4 - 325];
      } else {
        InBlock(p + j);
        assert ByteOf(tbuff[..], 4 * 309 + p + j) == Lane(KeyWord(t, n1, pos + 16 * b + (p + j) / 4), (p + j) % 4);
        if p + j < 63 {
          KeyByteAt(t, n1, pos, b, p + j);
        }
      }
    }
  }

  lemma BehindBlock(k: nat)
    requires k >= 64
    ensures (4 * 309 + k) / 4 >= 325
  {
  }

  lemma InBlock(k: nat)
    requires k < 64
    ensures 309 <= (4 * 309 + k) / 4 == 309 + k / 4 < 325 && (4 * 309 + k) % 4 == k % 4
  {
  }

  // ---------- encshare4: the table of a key ----------

  function ZeroTable(): table {
    seq<word>(256, _ => 0)
  }

  /** Every word moves up one lane, the lowest lane counts from 0 to 255. */
  function Raise(t: table): (r: table) {
    seq<word>(256, i requires 0 <= i < 256 => RaiseWord(t[i], i))
  }

  function RaiseWord(w: word, i: byte): word {
    (w % 0x100_0000) * 0x100 + i
  }

  function Exchange(t: table, i: byte, j: byte): table {
    Swap(t, i, j)
  }

  /** From entry i on, exchange each entry with the one that the running position, the
      entry and the key point at. */
  function Shuffle(src: seq<byte>, t: table, pos: byte, i: nat): (r: (table, byte))
    requires |src| > 0 && i <= 256
    decreases 256 - i
  {
    if i == 256 then (t, pos)
    else
      var next := (pos + t[i] + src[i % |src|]) % 0x100;
      Shuffle(src, Exchange(t, i, next), next, i + 1)
  }

  /** The table after y of the four rounds. */
  function Rounds(src: seq<byte>, y: byte): table
    requires |src| > 0
  {
    if y == 0 then ZeroTable()
    else
      var first := Shuffle(src, Raise(Rounds(src, y - 1)), y - 1, 0);
      Shuffle(src, first.0, first.1, 0).0
  }

  function KeyTable(src: seq<byte>): table
    requires |src| > 0
  {
    Numbered(Rounds(src, 4))
  }

  function Numbered(t: table): table {
    seq<word>(256, i requires 0 <= i < 256 => XorWord(t[i], i))
  }

  function LaneOf(t: table, k: nat): (s: seq<byte>)
    requires k < 4
    ensures |s| == 256
  {
    seq<byte>(256, i requires 0 <= i < 256 => Lane(t[i], k))
  }

  lemma RaiseLanes(t: table)
    ensures LaneOf(Raise(t), 0) == Identity()
    ensures forall k :: 0 <= k < 3 ==> LaneOf(Raise(t), k + 1) == LaneOf(t, k)
  {
    forall i | 0 <= i < 256 ensures LaneOf(Raise(t), 0)[i] == i {
      RaisedLane(t[i], i, 0);
    }
    forall k | 0 <= k < 3 ensures LaneOf(Raise(t), k + 1) == LaneOf(t, k) {
      forall i | 0 <= i < 256 ensures LaneOf(Raise(t), k + 1)[i] == LaneOf(t, k)[i] {
        RaisedLane(t[i], i, k);
      }
    }
  }

  lemma RaisedLane(w: word, i: byte, k: nat)
    requires k < 3
    ensures Lane(RaiseWord(w, i), 0) == i && Lane(RaiseWord(w, i), k + 1) == Lane(w, k)
  {
    var b0, w1 := w % 0x100, w / 0x100;
    var b1, w2 := w1 % 0x100, w1 / 0x100;
    var b2, b3 := w2 % 0x100, w2 / 0x100;
    FromLanes(b3, b2, b1, b0);
    FromLanes(b2, b1, b0, i);
    RaisedFromLanes(b3, b2, b1, b0, i);
  }

  lemma FromLanes(b3: byte, b2: byte, b1: byte, b0: byte)
    ensures var w: word := ((b3 * 0x100 + b2) * 0x100 + b1) * 0x100 + b0;
      Lane(w, 0) == b0 && Lane(w, 1) == b1 && Lane(w, 2) == b2 && Lane(w, 3) == b3
  {
    var w1 := (b3 * 0x100 + b2) * 0x100 + b1;
    var w: word := w1 * 0x100 + b0;
    assert w / 0x100 == w1 && w1 / 0x100 == b3 * 0x100 + b2;
    assert w / 0x1_0000 == b3 * 0x100 + b2;
    assert w / 0x100_0000 == b3;
  }

  lemma RaisedFromLanes(b3: byte, b2: byte, b1: byte, b0: byte, i: byte)
    ensures RaiseWord(((b3 * 0x100 + b2) * 0x100 + b1) * 0x100 + b0, i) == ((b2 * 0x100 + b1) * 0x100 + b0) * 0x100 + i
  {
    var rest := (b2 * 0x100 + b1) * 0x100 + b0;
    var w: word := ((b3 * 0x100 + b2) * 0x100 + b1) * 0x100 + b0;
    assert w == 0x100_0000 * b3 + rest;
    DivUnique(w, 0x100_0000, b3, rest);
  }

  /** Shuffling permutes whole words, so each lane stays the permutation it was. */
  lemma {:induction false} ShuffleLane(src: seq<byte>, t: table, pos: byte, i: nat, k: nat)
    requires |src| > 0 && i <= 256 && k < 4 && IsPermutation(LaneOf(t, k))
    ensures IsPermutation(LaneOf(Shuffle(src, t, pos, i).0, k))
    decreases 256 - i
  {
    hide Lane, IsPermutation;
    if i < 256 {
      var next := (pos + t[i] + src[i % |src|]) % 0x100;
      var swapped := Exchange(t, i, next);
      assert LaneOf(swapped, k) == Swap(LaneOf(t, k), i, next);
      SwapIsPermutation(LaneOf(t, k), i, next);
      ShuffleLane(src, swapped, next, i + 1, k);
    }
  }

  lemma {:induction false} RoundsLane(src: seq<byte>, y: byte, k: nat)
    requires |src| > 0 && k < 4 && k < y
    ensures IsPermutation(LaneOf(Rounds(src, y), k))
    decreases y
  {
    hide IsPermutation, LaneOf, Lane, Shuffle, Raise;
    var before := Rounds(src, y - 1);
    RaiseLanes(before);
    IdentityIsPermutation();
    if k > 0 {
      RoundsLane(src, y - 1, k - 1);
      assert LaneOf(Raise(before), k - 1 + 1) == LaneOf(before, k - 1);
    }
    var first := Shuffle(src, Raise(before), y - 1, 0);
    ShuffleLane(src, Raise(before), y - 1, 0, k);
    ShuffleLane(src, first.0, first.1, 0, k);
  }

  /** Whatever the key, before the last step each byte lane of the table is a permutation
      of the byte values, and the three upper ones still are after it. */
  lemma KeyTableLanes(src: seq<byte>, k: nat)
    requires |src| > 0 && k < 4
    ensures IsPermutation(LaneOf(Rounds(src, 4), k))
    ensures k > 0 ==> IsPermutation(LaneOf(KeyTable(src), k))
  {
    hide Rounds, IsPermutation, Lane, XorWord;
    RoundsLane(src, 4, k);
    if k > 0 {
      var t := Rounds(src, 4);
      forall i | 0 <= i < 256 ensures LaneOf(KeyTable(src), k)[i] == LaneOf(t, k)[i] {
        XorKeepsUpperLanes(t[i], i, k);
      }
      assert LaneOf(KeyTable(src), k) == LaneOf(t, k);
    }
  }

  /** So no two words of a key table have a byte in common in one of these places. */
  lemma KeyTableIsOneToOne(src: seq<byte>, k: nat, i: nat, j: nat)
    requires |src| > 0 && 1 <= k < 4 && i < j < 256
    ensures Lane(KeyTable(src)[i], k) != Lane(KeyTable(src)[j], k)
  {
    hide KeyTable, IsPermutation, Lane;
    KeyTableLanes(src, k);
    PermutationIsInjective(LaneOf(KeyTable(src), k), i, j);
  }

  method Encshare4(src: seq<byte>, dest: array<word>)
    requires |src| > 0 && dest.Length >= 309
    modifies dest
    ensures At(dest[..], KeyTable(src), 0, 0)
  {
    hide Shuffle, Rounds, At, XorWord;
    for i := 0 to 256
      invariant forall j :: 0 <= j < i ==> dest[j] == 0
    {
      dest[i] := 0;
    }
    NoRounds(src);
    var y := 0;
    while y < 4
      invariant y <= 4 && HasTable(dest[..], Rounds(src, y))
    {
      ghost var t := Rounds(src, y);
      for i := 0 to 256
        invariant forall j :: 0 <= j < 256 ==> dest[j] == if j < i then Raise(t)[j] else t[j]
      {
        dest[i] := (dest[i] % 0x100_0000) * 0x100 + i;  // the shift drops the top lane
      }
      var pos: byte := y;
      ghost var first := Shuffle(src, Raise(t), pos, 0);
      pos := ShufflePass(src, dest, pos, Raise(t));
      pos := ShufflePass(src, dest, pos, first.0);
      OneMoreRound(src, y);
      y := y + 1;
    }
    ghost var t := Rounds(src, 4);
    for i := 0 to 256
      invariant forall j :: 0 <= j < 256 ==> dest[j] == if j < i then Numbered(t)[j] else t[j]
    {
      dest[i] := XorWord(dest[i], i);
    }
    Encshare3(dest, 0, 0, KeyTable(src));
  }

  lemma NoRounds(src: seq<byte>)
    requires |src| > 0
    ensures Rounds(src, 0) == ZeroTable()
  {
  }

  lemma OneMoreRound(src: seq<byte>, y: byte)
    requires |src| > 0 && y < 4
    ensures var first := Shuffle(src, Raise(Rounds(src, y)), y, 0);
      Rounds(src, y + 1) == Shuffle(src, first.0, first.1, 0).0
  {
    hide Shuffle, Raise;
  }

  lemma ExchangeAt(t: table, i: byte, j: byte)
    ensures forall k :: 0 <= k < 256 ==> Exchange(t, i, j)[k] == if k == j then t[i] else if k == i then t[j] else t[k]
  {
  }

  /** One of the two exchanging passes of a round. */
  method ShufflePass(src: seq<byte>, dest: array<word>, pos_: byte, ghost t: table) returns (pos: byte)
    requires |src| > 0 && HasTable(dest[..], t)
    modifies dest
    ensures HasTable(dest[..], Shuffle(src, t, pos_, 0).0) && pos == Shuffle(src, t, pos_, 0).1
  {
    hide Exchange;
    pos := pos_;
    ghost var now := t;
    for i := 0 to 256
      invariant HasTable(dest[..], now) && Shuffle(src, now, pos, i) == Shuffle(src, t, pos_, 0)
    {
      var tmp := dest[i];
      ghost var before := pos;
      pos := (pos + tmp + src[i % |src|]) % 0x100;
      ghost var was := now;
      now := Exchange(was, i, pos);
      ExchangeAt(was, i, pos);
      assert Shuffle(src, was, before, i) == Shuffle(src, now, pos, i + 1);
      hide Shuffle;
      dest[i] := dest[pos];
      dest[pos] := tmp;
    }
  }
}
