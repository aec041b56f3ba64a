/** The wildcard matcher for nick, host and channel masks. */
module Wildcard {
  import opened Bits
  import opened Text

  const STAR: byte := 0x2a
  const QUERY: byte := 0x3f
  const UNDERSCORE: byte := 0x5f
  const SPACE: byte := 0x20
  const BANG: byte := 0x21
  const AT: byte := 0x40

  // ---------- The meaning of a mask ----------

  predicate Accepts(m: byte, n: byte) {
    m == QUERY || Lower(m) == Lower(n) || (m == UNDERSCORE && n == SPACE)
  }

  /** A star stands for any run of characters, every other mask character for one that it
      accepts. */
  predicate Matches(mask: cstring, name: cstring)
    decreases |mask| + |name|
  {
    if mask == [] then name == []
    else if mask[0] == STAR then Matches(mask[1..], name) || (name != [] && Matches(mask, name[1..]))
    else name != [] && Accepts(mask[0], name[0]) && Matches(mask[1..], name[1..])
  }

  /** A match from some place of the name on. */
  predicate Somewhere(mask: cstring, name: cstring)
    decreases |name|
  {
    Matches(mask, name) || (name != [] && Somewhere(mask, name[1..]))
  }

  lemma {:induction false} StarIsSomewhere(mask: cstring, name: cstring)
    requires mask != [] && mask[0] == STAR
    ensures Matches(mask, name) <==> Somewhere(mask[1..], name)
    decreases |name|
  {
    if name != [] {
      StarIsSomewhere(mask, name[1..]);
    }
  }

  lemma {:induction false} SomewhereIsExists(mask: cstring, name: cstring)
    ensures Somewhere(mask, name) <==> exists j :: 0 <= j <= |name| && Matches(mask, name[j..])
    decreases |name|
  {
    hide Matches;
    assert name[0..] == name;
    if name != [] {
      SomewhereIsExists(mask, name[1..]);
      forall j | 0 <= j <= |name| && Matches(mask, name[j..]) ensures Somewhere(mask, name) {
        if j > 0 {
          assert name[1..][j - 1..] == name[j..];
        }
      }
      if Somewhere(mask, name[1..]) {
        var j :| 0 <= j <= |name[1..]| && Matches(mask, name[1..][j..]);
        assert name[1..][j..] == name[j + 1..];
      }
    }
  }

  lemma {:induction false} SomewhereLater(mask: cstring, name: cstring, j: nat)
    requires j <= |name| && Somewhere(mask, name[j..])
    ensures Somewhere(mask, name)
    decreases j
  {
    hide Matches;
    if j == 0 {
      assert name[0..] == name;
    } else {
      assert name[1..][j - 1..] == name[j..];
      SomewhereLater(mask, name[1..], j - 1);
    }
  }

  // ---------- The same without recursion ----------

  /** A character of a mask and one of a name: a question mark takes any, a letter takes
      itself in either case, an underscore also a space, and everything else itself. */
  predicate Takes(m: byte, n: byte) {
    m == 0x3f || m == n || (0x41 <= m <= 0x5a && n == m + 0x20) || (0x41 <= n <= 0x5a && m == n + 0x20) || (m == 0x5f && n == 0x20)
  }

  /** The name cut into one piece for each character of the mask: pieces of any length for
      stars, and of one character that is taken for others. */
  predicate IsCut(mask: cstring, name: cstring, cut: seq<nat>) {
    |cut| == |mask| + 1 && cut[0] == 0 && cut[|mask|] == |name| &&
    (forall i :: 0 <= i < |cut| ==> cut[i] <= |name|) && forall i :: 0 <= i < |mask| ==> Piece(mask[i], name, cut[i], cut[i + 1])
  }

  predicate Piece(m: byte, name: cstring, from: nat, to: nat)
    requires from <= |name| && to <= |name|
  {
    from <= to && (m != 0x2a ==> to == from + 1 && Takes(m, name[from]))
  }

  lemma TakesIs(m: byte, n: byte)
    ensures Takes(m, n) <==> Accepts(m, n)
  {
  }

  /** The pieces behind a first one of that width, cut from the name behind that. */
  function Shifted(cut: seq<nat>, width: nat): seq<nat> {
    seq(|cut|, i requires 0 <= i < |cut| => cut[i] + width)
  }

  lemma CutMore(m: byte, mask: cstring, name: cstring, cut: seq<nat>, width: nat)
    requires width <= |name| && IsCut(mask, name[width..], cut) && m != 0 && Piece(m, name, 0, width)
    ensures IsCut([m] + mask, name, [0] + Shifted(cut, width))
  {
    var all, rest := [0] + Shifted(cut, width), name[width..];
    forall i | 0 <= i < |mask| + 1 ensures Piece(([m] + mask)[i], name, all[i], all[i + 1]) {
      assert i > 0 ==> Piece(mask[i - 1], rest, cut[i - 1], cut[i]);
    }
  }

  lemma {:induction false} MatchIsCut(mask: cstring, name: cstring) returns (cut: seq<nat>)
    requires Matches(mask, name)
    ensures IsCut(mask, name, cut)
    decreases |mask| + |name|
  {
    hide Accepts, Takes, IsCut;
    if mask == [] {
      cut := [0];
      EmptyCut();
    } else {
      assert mask == [mask[0]] + mask[1..] && name[0..] == name;
      if mask[0] == STAR && !Matches(mask[1..], name) {
        var rest := MatchIsCut(mask, name[1..]);
        cut := WiderStar(mask, name, rest);
      } else {
        var width := if mask[0] == STAR then 0 else 1;
        if width == 1 {
          TakesIs(mask[0], name[0]);
        }
        var rest := MatchIsCut(mask[1..], name[width..]);
        CutMore(mask[0], mask[1..], name, rest, width);
        cut := [0] + Shifted(rest, width);
      }
    }
  }

  lemma EmptyCut()
    ensures IsCut([], [], [0])
  {
  }

  /** The piece of a star takes one more character in front. */
  lemma WiderStar(mask: cstring, name: cstring, cut: seq<nat>) returns (wider: seq<nat>)
    requires mask != [] && mask[0] == STAR && name != [] && IsCut(mask, name[1..], cut)
    ensures IsCut(mask, name, wider)
  {
    hide Takes;
    wider := Shifted(cut, 1)[0 := 0];
    forall i | 0 <= i < |mask| ensures Piece(mask[i], name, wider[i], wider[i + 1]) {
      assert Piece(mask[i], name[1..], cut[i], cut[i + 1]);
    }
  }

  lemma {:induction false} CutIsMatch(mask: cstring, name: cstring, cut: seq<nat>)
    requires IsCut(mask, name, cut)
    ensures Matches(mask, name)
    decreases |mask| + |name|
  {
    hide Accepts, Takes;
    if mask != [] {
      assert Piece(mask[0], name, cut[0], cut[1]);
      if mask[0] == STAR && cut[1] > 0 {
        Rising(mask, name, cut);
        var less := Lowered(cut)[0 := 0];
        forall i | 0 <= i < |mask| ensures Piece(mask[i], name[1..], less[i], less[i + 1]) {
          assert Piece(mask[i], name, cut[i], cut[i + 1]);
        }
        CutIsMatch(mask, name[1..], less);
      } else {
        var width := cut[1];
        if mask[0] != STAR {
          TakesIs(mask[0], name[0]);
        }
        Rising(mask, name, cut);
        var rest: seq<nat> := seq(|mask|, i requires 0 <= i < |mask| => cut[i + 1] - width);
        forall i | 0 <= i < |mask| - 1 ensures Piece(mask[1..][i], name[width..], rest[i], rest[i + 1]) {
          assert Piece(mask[i + 1], name, cut[i + 1], cut[i + 2]);
        }
        CutIsMatch(mask[1..], name[width..], rest);
      }
    }
  }

  function Lowered(cut: seq<nat>): seq<nat> {
    seq(|cut|, i requires 0 <= i < |cut| => if cut[i] > 0 then cut[i] - 1 else 0)
  }

  lemma {:induction false} Rising(mask: cstring, name: cstring, cut: seq<nat>)
    requires IsCut(mask, name, cut) && mask != []
    ensures forall i :: 1 <= i < |cut| ==> cut[1] <= cut[i]
  {
    hide Takes;
    var i := 1;
    while i < |mask|
      invariant 1 <= i <= |mask| && forall j :: 1 <= j <= i ==> cut[1] <= cut[j]
    {
      assert Piece(mask[i], name, cut[i], cut[i + 1]);
      i := i + 1;
    }
  }

  /** A mask matches exactly if the name can be cut so. */
  lemma MatchesIsCut(mask: cstring, name: cstring)
    ensures Matches(mask, name) <==> exists cut :: IsCut(mask, name, cut)
  {
    hide Matches, IsCut;
    if Matches(mask, name) {
      var cut := MatchIsCut(mask, name);
    }
    if cut :| IsCut(mask, name, cut) {
      CutIsMatch(mask, name, cut);
    }
  }

  /** seg accepts the first characters of name, one by one. */
  predicate Fits(seg: cstring, name: cstring) {
    |seg| <= |name| && STAR !in seg && forall i :: 0 <= i < |seg| ==> Accepts(seg[i], name[i])
  }

  /** A mask that starts without stars matches exactly if that part fits and the rest
      matches the rest. */
  lemma {:induction false} SegmentMatches(seg: cstring, rest: cstring, name: cstring)
    requires STAR !in seg
    ensures Matches(seg + rest, name) <==> Fits(seg, name) && Matches(rest, name[|seg|..])
    decreases |seg|
  {
    hide Accepts;
    if seg == [] {
      assert seg + rest == rest && name[0..] == name;
    } else {
      assert seg[0] in seg && (seg + rest)[0] == seg[0];
      assert (seg + rest)[1..] == seg[1..] + rest;
      if name != [] {
        SegmentMatches(seg[1..], rest, name[1..]);
        if |seg| <= |name| {
          assert name[1..][|seg[1..]|..] == name[|seg|..];
        }
        FitsTail(seg, name);
      }
    }
  }

  lemma FitsTail(seg: cstring, name: cstring)
    requires STAR !in seg && seg != [] && name != []
    ensures Fits(seg, name) <==> Accepts(seg[0], name[0]) && Fits(seg[1..], name[1..])
  {
    hide Accepts;
    if Fits(seg[1..], name[1..]) && Accepts(seg[0], name[0]) {
      forall i | 0 <= i < |seg| ensures Accepts(seg[i], name[i]) {
        if i > 0 {
          assert Accepts(seg[1..][i - 1], name[1..][i - 1]);
        }
      }
    }
    if Fits(seg, name) {
      forall i | 0 <= i < |seg| - 1 ensures Accepts(seg[1..][i], name[1..][i]) {
        assert Accepts(seg[i + 1], name[i + 1]);
      }
    }
  }

  function Stars(n: nat): cstring {
    if n == 0 then [] else [STAR] + Stars(n - 1)
  }

  lemma {:induction false} StarsCollapse(n: nat, rest: cstring, name: cstring)
    requires n > 0
    ensures Matches(Stars(n) + rest, name) <==> Somewhere(rest, name)
    decreases n, |name|
  {
    var mask := Stars(n) + rest;
    assert mask[0] == STAR && mask[1..] == Stars(n - 1) + rest;
    StarIsSomewhere(mask, name);
    if n == 1 {
      assert mask[1..] == rest;
    } else {
      StarsCollapse(n - 1, rest, name);
      if name != [] {
        StarIsSomewhere(mask, name[1..]);
        StarsCollapse(n, rest, name[1..]);
      }
    }
  }

  function Solids(mask: cstring): nat {
    if mask == [] then 0 else Solids(mask[1..]) + if mask[0] == STAR then 0 else 1
  }

  /** Every mask character that is not a star takes one character of the name. */
  lemma {:induction false} MatchLength(mask: cstring, name: cstring)
    requires Matches(mask, name)
    ensures |name| >= Solids(mask)
    decreases |mask| + |name|
  {
    hide Accepts;
    if mask != [] {
      if mask[0] != STAR || Matches(mask[1..], name) {
        MatchLength(mask[1..], if mask[0] == STAR then name else name[1..]);
      } else {
        MatchLength(mask, name[1..]);
      }
    }
  }

  lemma {:induction false} SomewhereLength(mask: cstring, name: cstring)
    requires Somewhere(mask, name)
    ensures |name| >= Solids(mask)
    decreases |name|
  {
    hide Matches, Solids;
    if Matches(mask, name) {
      MatchLength(mask, name);
    } else {
      SomewhereLength(mask, name[1..]);
    }
  }

  lemma {:induction false} SolidsOfSegment(seg: cstring, rest: cstring)
    requires STAR !in seg
    ensures Solids(seg + rest) == |seg| + Solids(rest)
    decreases |seg|
  {
    if seg == [] {
      assert seg + rest == rest;
    } else {
      assert seg[0] in seg && (seg + rest)[1..] == seg[1..] + rest;
      SolidsOfSegment(seg[1..], rest);
    }
  }

  // ---------- What the state of match2 means ----------

  /** Before the first star: what is left of mask and name decides. */
  ghost predicate Plain(mask: cstring, name: cstring, m: nat, n: nat) {
    m <= |mask| && n <= |name| && (Matches(mask, name) <==> Matches(mask[m..], name[n..]))
  }

  /** After a star that ends before ma: the mask from ma on must match the name from some
      place from na on; so far it fits from na on. */
  ghost predicate Starred(mask: cstring, name: cstring, m: nat, n: nat, ma: nat, na: nat) {
    1 <= ma <= m <= |mask| && na <= n <= |name| && m - ma == n - na &&
    mask[ma - 1] == STAR && (ma < |mask| ==> mask[ma] != STAR) &&
    Fits(mask[ma..m], name[na..]) && (Matches(mask, name) <==> Somewhere(mask[ma..], name[na..]))
  }

  lemma PlainStep(mask: cstring, name: cstring, m: nat, n: nat)
    requires Plain(mask, name, m, n) && m < |mask| && n < |name| && mask[m] != STAR
    ensures if Accepts(mask[m], name[n]) then Plain(mask, name, m + 1, n + 1) else !Matches(mask, name)
  {
    hide Accepts;
    assert mask[m..][1..] == mask[m + 1..] && name[n..][1..] == name[n + 1..];
  }

  lemma StarredStep(mask: cstring, name: cstring, m: nat, n: nat, ma: nat, na: nat)
    requires Starred(mask, name, m, n, ma, na) && m < |mask| && n < |name| && mask[m] != STAR
    ensures if Accepts(mask[m], name[n]) then Starred(mask, name, m + 1, n + 1, ma, na) else Starred(mask, name, ma, na + 1, ma, na + 1)
  {
    hide Accepts, Matches;
    var seg, s := mask[ma..m], name[na..];
    assert mask[ma..m + 1] == seg + [mask[m]] && s[n - na] == name[n];
    if !Accepts(mask[m], name[n]) {
      assert mask[ma..] == mask[ma..m + 1] + mask[m + 1..];
      SegmentMatches(mask[ma..m + 1], mask[m + 1..], s);
      assert mask[ma..m + 1][m - ma] == mask[m];
      NextPlace(mask, name, ma, na);
    }
  }

  /** If the mask does not match from na on, the next place is na + 1. */
  lemma NextPlace(mask: cstring, name: cstring, ma: nat, na: nat)
    requires 1 <= ma <= |mask| && na < |name| && mask[ma - 1] == STAR && (ma < |mask| ==> mask[ma] != STAR)
    requires !Matches(mask[ma..], name[na..]) && (Matches(mask, name) <==> Somewhere(mask[ma..], name[na..]))
    ensures Starred(mask, name, ma, na + 1, ma, na + 1)
  {
    hide Matches;
    assert name[na..][1..] == name[na + 1..];
    assert mask[ma..ma] == [];
  }

  /** Stars from m to m2, met before or after an earlier star, make a new start: there is
      no need to go back beyond them. */
  lemma PlainStar(mask: cstring, name: cstring, m: nat, n: nat, m2: nat)
    requires Plain(mask, name, m, n) && m < m2 <= |mask| && mask[m..m2] == Stars(m2 - m) && (m2 < |mask| ==> mask[m2] != STAR)
    ensures Starred(mask, name, m2, n, m2, n)
  {
    hide Matches;
    assert mask[m..] == Stars(m2 - m) + mask[m2..];
    StarsCollapse(m2 - m, mask[m2..], name[n..]);
    StarsAt(m2 - m, m2 - m - 1);
    assert mask[m2 - 1] == mask[m..m2][m2 - 1 - m];
    assert mask[m2..m2] == [];
  }

  lemma {:induction false} StarsAt(k: nat, i: nat)
    requires i < k
    ensures |Stars(k)| == k && Stars(k)[i] == STAR
    decreases k
  {
    if i > 0 {
      StarsAt(k - 1, i - 1);
    } else if k > 1 {
      StarsAt(k - 1, 0);
    }
  }

  lemma StarredStar(mask: cstring, name: cstring, m: nat, n: nat, ma: nat, na: nat, m2: nat)
    requires Starred(mask, name, m, n, ma, na) && m < m2 <= |mask| && mask[m..m2] == Stars(m2 - m) && (m2 < |mask| ==> mask[m2] != STAR)
    ensures Starred(mask, name, m2, n, m2, n)
  {
    hide Matches;
    var seg, tail, s := mask[ma..m], mask[m2..], name[na..];
    var p := mask[ma..];
    assert p == seg + (Stars(m2 - m) + tail);
    assert s[|seg|..] == name[n..];
    SegmentMatches(seg, Stars(m2 - m) + tail, s);
    StarsCollapse(m2 - m, tail, name[n..]);
    if Somewhere(p, s) {
      SomewhereIsExists(p, s);
      var j :| 0 <= j <= |s| && Matches(p, s[j..]);
      SegmentMatches(seg, Stars(m2 - m) + tail, s[j..]);
      StarsCollapse(m2 - m, tail, s[j..][|seg|..]);
      assert s[j..][|seg|..] == name[n..][j..];
      SomewhereLater(tail, name[n..], j);
    }
    StarsAt(m2 - m, m2 - m - 1);
    assert mask[m2 - 1] == mask[m..m2][m2 - 1 - m];
    assert mask[m2..m2] == [];
  }

  /** At the end of the mask. */
  lemma StarredMaskEnd(mask: cstring, name: cstring, n: nat, ma: nat, na: nat)
    requires Starred(mask, name, |mask|, n, ma, na)
    ensures Matches(mask[ma..], name[na..]) <==> n == |name|
  {
    hide Accepts;
    var seg := mask[ma..];
    assert mask[ma..|mask|] == seg && seg + [] == seg;
    SegmentMatches(seg, [], name[na..]);
    assert name[na..][|seg|..] == name[n..];
  }

  /** At the end of the name, before the end of the mask and not at a star. */
  lemma StarredNameEnd(mask: cstring, name: cstring, m: nat, ma: nat, na: nat)
    requires Starred(mask, name, m, |name|, ma, na) && m < |mask| && mask[m] != STAR
    ensures !Matches(mask, name)
  {
    hide Matches;
    var seg := mask[ma..m];
    assert mask[ma..] == seg + mask[m..];
    SolidsOfSegment(seg, mask[m..]);
    assert Solids(mask[m..]) >= 1;
    if Somewhere(mask[ma..], name[na..]) {
      SomewhereLength(mask[ma..], name[na..]);
    }
  }

  /** Nothing but question marks behind the star: they can take the end of the name. */
  lemma QuestionsMatch(mask: cstring, name: cstring, n: nat, ma: nat, na: nat)
    requires Starred(mask, name, |mask|, n, ma, na) && forall i :: ma <= i < |mask| ==> mask[i] == QUERY
    ensures Matches(mask, name)
  {
    var seg := mask[ma..];
    var s := name[na..];
    var j := |s| - |seg|;
    assert seg + [] == seg && STAR !in seg;
    assert Fits(seg, s[j..]);
    SegmentMatches(seg, [], s[j..]);
    assert s[j..][|seg|..] == [];
    SomewhereIsExists(seg, s);
  }

  /** The character at i, or the terminator. */
  function At(s: cstring, i: nat): (c: byte)
    requires i <= |s|
    ensures c == 0 <==> i == |s|
  {
    if i < |s| then
      assert s[i] in s;
      s[i]
    else 0
  }

  /** The loop invariant of match2; ma is -1 before the first star. */
  ghost predicate State(mask: cstring, name: cstring, m: nat, n: nat, ma: int, na: nat) {
    if ma < 0 then na == 0 && Plain(mask, name, m, n) else Starred(mask, name, m, n, ma, na)
  }

  lemma Start(mask: cstring, name: cstring)
    ensures State(mask, name, 0, 0, -1, 0)
  {
    hide Matches;
    assert mask[0..] == mask && name[0..] == name;
  }

  lemma NewStar(mask: cstring, name: cstring, m: nat, n: nat, ma: int, na: nat, m2: nat)
    requires State(mask, name, m, n, ma, na) && m < m2 <= |mask| && mask[m..m2] == Stars(m2 - m) && (m2 < |mask| ==> mask[m2] != STAR)
    ensures State(mask, name, m2, n, m2, n)
  {
    hide Matches, Plain, Starred;
    if ma < 0 {
      PlainStar(mask, name, m, n, m2);
    } else {
      StarredStar(mask, name, m, n, ma, na, m2);
    }
  }

  lemma MaskEnd(mask: cstring, name: cstring, n: nat, ma: int, na: nat)
    requires State(mask, name, |mask|, n, ma, na)
    ensures n == |name| ==> Matches(mask, name)
    ensures n < |name| && ma < 0 ==> !Matches(mask, name)
    ensures ma >= 0 ==> 1 <= ma && mask[ma - 1] == STAR && STAR !in mask[ma..] && n - na == |mask| - ma
    ensures n < |name| && 0 <= ma < |mask| ==> State(mask, name, ma, na + 1, ma, na + 1)
  {
    hide Matches;
    if ma < 0 {
      assert mask[|mask|..] == [];
      EmptyMask(name[n..]);
    } else {
      StarredMaskEnd(mask, name, n, ma, na);
      assert mask[ma..|mask|] == mask[ma..];
      if n == |name| {
        NowIsSomewhere(mask[ma..], name[na..]);
      } else {
        NextPlace(mask, name, ma, na);
      }
    }
  }

  lemma EmptyMask(name: cstring)
    ensures Matches([], name) <==> name == []
  {
  }

  lemma NowIsSomewhere(mask: cstring, name: cstring)
    requires Matches(mask, name)
    ensures Somewhere(mask, name)
  {
  }

  lemma NameEnd(mask: cstring, name: cstring, m: nat, ma: int, na: nat)
    requires State(mask, name, m, |name|, ma, na) && m < |mask| && mask[m] != STAR
    ensures !Matches(mask, name)
  {
    if ma < 0 {
      assert mask[m..] != [] && mask[m..][0] != STAR && name[|name|..] == [];
    } else {
      StarredNameEnd(mask, name, m, ma, na);
    }
  }

  lemma CompareStep(mask: cstring, name: cstring, m: nat, n: nat, ma: int, na: nat)
    requires State(mask, name, m, n, ma, na) && m < |mask| && n < |name| && mask[m] != STAR
    ensures if Accepts(mask[m], name[n]) then State(mask, name, m + 1, n + 1, ma, na)
      else if ma < 0 then !Matches(mask, name)
      else State(mask, name, ma, na + 1, ma, na + 1)
  {
    hide Matches, Accepts, Plain, Starred;
    if ma < 0 {
      PlainStep(mask, name, m, n);
    } else {
      StarredStep(mask, name, m, n, ma, na);
    }
  }

  lemma StateBounds(mask: cstring, name: cstring, m: nat, n: nat, ma: int, na: nat)
    requires State(mask, name, m, n, ma, na)
    ensures m <= |mask| && na <= n <= |name| && ma <= m
    ensures ma >= 0 ==> ma < |mask| ==> mask[ma] != STAR
  {
    hide Matches;
  }

  /** Both loops that collapse stars. */
  method SkipStars(mask: cstring, from: nat) returns (m: nat)
    requires from <= |mask|
    ensures from <= m <= |mask| && mask[from..m] == Stars(m - from) && At(mask, m) != STAR
    ensures At(mask, from) != STAR ==> m == from
  {
    m := from;
    while At(mask, m) == STAR
      invariant from <= m <= |mask| && mask[from..m] == Stars(m - from) && (At(mask, from) != STAR ==> m == from)
      decreases |mask| - m
    {
      OneMoreStar(m - from);
      assert mask[from..m + 1] == mask[from..m] + [STAR];
      m := m + 1;
    }
  }

  /** 0 for a match, 1 for none. */
  method Match2(mask: cstring, name: cstring) returns (r: int)
    ensures r == if Matches(mask, name) then 0 else 1
  {
    hide Matches, State;
    var m: nat, n: nat, ma: int, na: nat := 0, 0, -1, 0;
    Start(mask, name);
    while true
      invariant m <= |mask| && na <= n <= |name| && ma <= m && State(mask, name, m, n, ma, na)
      decreases |name| - na, |mask| - m
    {
      if At(mask, m) == STAR {
        ghost var from := m;
        m := SkipStars(mask, m);
        NewStar(mask, name, from, n, ma, na, m);
        ma := m;
        na := n;
      }
      if At(mask, m) == 0 {
        MaskEnd(mask, name, n, ma, na);
        if At(name, n) == 0 {
          return 0;
        }
        if ma < 0 {
          return 1;
        }
        m := m - 1;
        while m > 0 && mask[m] == QUERY
          invariant ma - 1 <= m < |mask| && forall i :: m < i < |mask| ==> mask[i] == QUERY
        {
          m := m - 1;
        }
        if mask[m] == STAR {
          OnlyQuestions(mask, name, n, ma, na, m);
          return 0;
        }
        m := ma;
        na := na + 1;
        n := na;
      } else if At(name, n) == 0 {
        NameEnd(mask, name, m, ma, na);
        m := SkipStars(mask, m);
        return if At(mask, m) != 0 then 1 else 0;
      }
      StateBounds(mask, name, m, n, ma, na);
      CompareStep(mask, name, m, n, ma, na);
      if Lower(mask[m]) != Lower(name[n]) && !(mask[m] == UNDERSCORE && name[n] == SPACE) && mask[m] != QUERY {
        if ma < 0 {
          return 1;
        }
        m := ma;
        na := na + 1;
        n := na;
      } else {
        m := m + 1;
        n := n + 1;
      }
    }
    r := 1;
  }

  lemma OneMoreStar(k: nat)
    ensures Stars(k + 1) == Stars(k) + [STAR]
  {
    if k > 0 {
      OneMoreStar(k - 1);
    }
  }

  lemma OnlyQuestions(mask: cstring, name: cstring, n: nat, ma: int, na: nat, q: nat)
    requires State(mask, name, |mask|, n, ma, na) && ma >= 1 && ma - 1 <= q < |mask| && mask[q] == STAR
    requires forall i :: q < i < |mask| ==> mask[i] == QUERY
    ensures Matches(mask, name)
  {
    hide Matches;
    forall i | ma <= i < |mask| ensures mask[i] != STAR {
      assert mask[i] == mask[ma..|mask|][i - ma];
    }
    QuestionsMatch(mask, name, n, ma, na);
  }

  // ---------- match: host masks ----------

  /** What follows the first c. */
  function Behind(name: cstring, c: byte): Option<cstring> {
    var i := Find(name, c);
    if i < |name| then Some(name[i + 1..]) else None
  }

  predicate StartsWith(mask: cstring, c: byte) {
    |mask| >= 2 && mask[0] == STAR && mask[1] == c
  }

  /** A mask that starts with a star and c is compared with what follows the first c. */
  function Skipped(mask: cstring, name: cstring, c: byte): Option<(cstring, cstring)> {
    if StartsWith(mask, c) then
      match Behind(name, c)
      case None => None
      case Some(rest) => Some((mask[2..], rest))
    else Some((mask, name))
  }

  predicate HostMatches(mask: cstring, name: cstring) {
    match Skipped(mask, name, BANG)
    case None => false
    case Some(p) =>
      match Skipped(p.0, p.1, AT)
      case None => false
      case Some(q) => Matches(q.0, q.1)
  }

  /** A mask for hosts that starts with a star and c leaves what is behind the first c of a
      name to the rest of the mask. */
  ghost predicate Leaves(mask: cstring, name: cstring, c: byte, rest: cstring, left: cstring) {
    if |mask| >= 2 && mask[0] == 0x2a && mask[1] == c then
      rest == mask[2..] && exists i :: 0 <= i < |name| && name[i] == c && c !in name[..i] && left == name[i + 1..]
    else rest == mask && left == name
  }

  lemma SkippedIs(mask: cstring, name: cstring, c: byte)
    ensures forall rest: cstring, left: cstring :: Leaves(mask, name, c, rest, left) <==> Skipped(mask, name, c) == Some((rest, left))
  {
    hide Find;
    var i := Find(name, c);
    assert i < |name| ==> name[i] == c && c !in name[..i];
    forall j | 0 <= j < |name| && name[j] == c && c !in name[..j] ensures i == j {
      FirstIs(name, c, j);
    }
  }

  lemma {:induction false} FirstIs(s: seq<byte>, c: byte, j: nat)
    requires j < |s| && s[j] == c && c !in s[..j]
    ensures Find(s, c) == j
    decreases j
  {
    if j > 0 {
      assert s[0] in s[..j];
      assert s[1..][..j - 1] == s[..j][1..];
      FirstIs(s[1..], c, j - 1);
    }
  }

  /** A host match, by its two separators. */
  lemma HostMatchIs(mask: cstring, name: cstring)
    ensures HostMatches(mask, name) <==>
      exists m1: cstring, n1: cstring, m2: cstring, n2: cstring ::
        Leaves(mask, name, 0x21, m1, n1) && Leaves(m1, n1, 0x40, m2, n2) && Matches(m2, n2)
  {
    hide Matches, Skipped, Leaves;
    SkippedIs(mask, name, 0x21);
    match Skipped(mask, name, BANG)
    case None =>
    case Some(p) =>
      SkippedIs(p.0, p.1, 0x40);
      match Skipped(p.0, p.1, AT)
      case None =>
      case Some(q) =>
        assert Leaves(mask, name, 0x21, p.0, p.1) && Leaves(p.0, p.1, 0x40, q.0, q.1);
  }

  method Match(mask_: cstring, name_: cstring) returns (r: int)
    ensures r == if HostMatches(mask_, name_) then 0 else 1
  {
    hide Matches, Skipped;
    var p := SkipPrefix(mask_, name_, BANG);
    if p == None { return 1; }
    p := SkipPrefix(p.value.0, p.value.1, AT);
    if p == None { return 1; }
    r := Match2(p.value.0, p.value.1);
  }

  /** One of the two prefixes: the mask and the name behind it. */
  method SkipPrefix(mask: cstring, name: cstring, c: byte) returns (r: Option<(cstring, cstring)>)
    ensures r == Skipped(mask, name, c)
  {
    hide Find;
    if |mask| >= 2 && mask[0] == STAR && mask[1] == c {
      var i := SkipTo(name, c);
      if i == |name| { return None; }
      return Some((mask[2..], name[i + 1..]));
    }
    r := Some((mask, name));
  }

  method SkipTo(name: cstring, c: byte) returns (i: nat)
    ensures i == Find(name, c)
  {
    i := 0;
    assert name[0..] == name;
    while i < |name| && name[i] != c
      invariant i <= |name| && i + Find(name[i..], c) == Find(name, c)
    {
      assert name[i..][1..] == name[i + 1..];
      i := i + 1;
    }
  }

  /** Skipping to the first c keeps every match that it finds, and all matches if there
      is only one c. */
  lemma SkippedMatches(mask: cstring, name: cstring, c: byte)
    requires c != STAR && c != QUERY && c != UNDERSCORE && c < 0x41
    ensures match Skipped(mask, name, c)
      case None => !Matches(mask, name)
      case Some(p) =>
        (Matches(p.0, p.1) ==> Matches(mask, name)) &&
        (Matches(mask, name) && (StartsWith(mask, c) ==> c !in p.1) ==> Matches(p.0, p.1))
  {
    hide Matches, Find, Accepts;
    if StartsWith(mask, c) {
      StarIsSomewhere(mask, name);
      SomewhereIsExists(mask[1..], name);
      var i := Find(name, c);
      forall j | 0 <= j < i ensures name[j] != c {
        assert name[j] == name[..i][j];
      }
      if i < |name| && Matches(mask[2..], name[i + 1..]) {
        SeparatorAt(mask, name, c, i);
      }
      if Matches(mask, name) {
        var j :| 0 <= j <= |name| && Matches(mask[1..], name[j..]);
        SeparatorAt(mask, name, c, j);
        if j > i {
          assert name[i + 1..][j - i - 1] == c;
        }
      }
    }
  }

  lemma SeparatorAt(mask: cstring, name: cstring, c: byte, j: nat)
    requires StartsWith(mask, c) && j <= |name| && c != STAR && c != QUERY && c != UNDERSCORE && c < 0x41
    ensures Matches(mask[1..], name[j..]) <==> j < |name| && name[j] == c && Matches(mask[2..], name[j + 1..])
  {
    hide Matches, Accepts;
    LiteralMatches(mask[1..], name[j..]);
    assert mask[1..][1..] == mask[2..];
    if j < |name| {
      OnlyItself(c, name[j]);
      assert name[j..][1..] == name[j + 1..] && name[j..][0] == name[j];
    }
  }

  lemma LiteralMatches(mask: cstring, name: cstring)
    requires mask != [] && mask[0] != STAR
    ensures Matches(mask, name) <==> name != [] && Accepts(mask[0], name[0]) && Matches(mask[1..], name[1..])
  {
  }

  lemma OnlyItself(c: byte, n: byte)
    requires c != QUERY && c != UNDERSCORE && c < 0x41
    ensures Accepts(c, n) <==> n == c
  {
  }

  predicate AtMostOnce(name: cstring, c: byte) {
    Count(name, c) <= 1
  }

  /** A host match is always a match; the converse holds for names with at most one
      separator of each kind. */
  lemma HostMatchIsMatch(mask: cstring, name: cstring)
    ensures HostMatches(mask, name) ==> Matches(mask, name)
    ensures AtMostOnce(name, BANG) && AtMostOnce(name, AT) && Matches(mask, name) ==> HostMatches(mask, name)
  {
    hide Matches, Find, Count;
    SkippedMatches(mask, name, BANG);
    OnceBehind(name, BANG, AT);
    match Skipped(mask, name, BANG)
    case None =>
    case Some(p) =>
      SkippedMatches(p.0, p.1, AT);
      OnceBehind(p.1, AT, AT);
  }

  /** Behind the only c there is no c, and not more of any other character than before. */
  lemma OnceBehind(name: cstring, c: byte, d: byte)
    ensures match Behind(name, c)
      case None => true
      case Some(rest) => Count(rest, d) <= Count(name, d) && (Count(name, c) <= 1 ==> c !in rest)
  {
    hide Find;
    var i := Find(name, c);
    if i < |name| {
      assert name == name[..i + 1] + name[i + 1..];
      CountConcat(name[..i + 1], name[i + 1..], d);
      CountConcat(name[..i + 1], name[i + 1..], c);
      CountAtLeast(name[..i + 1], c, i);
      if c in name[i + 1..] {
        var j :| 0 <= j < |name[i + 1..]| && name[i + 1..][j] == c;
        CountAtLeast(name[i + 1..], c, j);
      }
    }
  }

  function Questions(k: nat): cstring {
    seq(k, _ => QUERY)
  }

  lemma QuestionsCount(k: nat, name: cstring)
    ensures Matches(Questions(k), name) <==> |name| == k
  {
    hide Matches;
    assert Questions(k) + [] == Questions(k);
    SegmentMatches(Questions(k), [], name);
    if k <= |name| {
      assert Matches([], name[k..]) <==> name[k..] == [] by { NothingMatches(name[k..]); }
    }
  }

  lemma NothingMatches(name: cstring)
    ensures Matches([], name) <==> name == []
  {
  }

  /** A second occurrence behind the first. */
  lemma LaterOne(name: cstring, c: byte) returns (j: nat)
    requires !AtMostOnce(name, c)
    ensures Find(name, c) < j < |name| && name[j] == c
  {
    hide Count, Find;
    var i := Find(name, c);
    CountNone(name[..i], c);
    AbsentCount(name, c);
    var rest := name[i + 1..];
    assert name == name[..i] + ([c] + rest);
    CountConcat(name[..i], [c] + rest, c);
    CountConcat([c], rest, c);
    CountOneByte(c);
    if c !in rest {
      CountNone(rest, c);
    }
    var k :| 0 <= k < |rest| && rest[k] == c;
    j := i + 1 + k;
  }

  lemma AbsentCount(s: seq<byte>, c: byte)
    ensures Find(s, c) == |s| ==> Count(s, c) == 0
  {
    hide Find, Count;
    if Find(s, c) == |s| {
      assert s[..|s|] == s;
      CountNone(s, c);
    }
  }

  lemma CountOneByte(c: byte)
    ensures Count([c], c) == 1
  {
  }

  /** The mask that asks for c and as many characters as follow a later c is found by the
      plain matcher only. */
  lemma LaterSeparator(name: cstring, c: byte) returns (mask: cstring)
    requires (c == BANG || c == AT) && !AtMostOnce(name, c)
    ensures Matches(mask, name) && !HostMatches(mask, name)
  {
    hide Matches, Find, Count;
    var j := LaterOne(name, c);
    var k := |name| - j - 1;
    mask := [STAR, c] + Questions(k);
    assert mask[2..] == Questions(k);
    QuestionsCount(k, name[j + 1..]);
    SeparatorAt(mask, name, c, j);
    SomewhereIsExists(mask[1..], name);
    StarIsSomewhere(mask, name);
    QuestionsCount(k, name[Find(name, c) + 1..]);
  }

  /** The two matchers agree about a name for all masks exactly if the name has at most
      one separator of each kind. */
  lemma HostMatchIsExact(name: cstring)
    ensures AtMostOnce(name, BANG) && AtMostOnce(name, AT) <==>
            forall mask: cstring :: HostMatches(mask, name) <==> Matches(mask, name)
  {
    hide Matches, HostMatches, AtMostOnce;
    forall mask: cstring
      ensures HostMatches(mask, name) ==> Matches(mask, name)
      ensures AtMostOnce(name, BANG) && AtMostOnce(name, AT) && Matches(mask, name) ==> HostMatches(mask, name)
    {
      HostMatchIsMatch(mask, name);
    }
    if !AtMostOnce(name, BANG) {
      var mask := LaterSeparator(name, BANG);
    } else if !AtMostOnce(name, AT) {
      var mask := LaterSeparator(name, AT);
    }
  }
}
