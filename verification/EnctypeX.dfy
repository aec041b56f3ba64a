/** The enctype X cipher: a permutation that rewrites itself at every byte, keyed from a
    framed header, used on whole buffers or on a growing one. */
module EnctypeX {
  import opened Bits
  import opened Permutation
  import opened Text

  const KEYLEN := 261
  const CHALLENGELEN := 8  // LIST_CHALLENGE_LEN

  /** The key state: a permutation in slots 0 .. 255, three rotating positions in
      256 .. 258, the last plain byte in 259 and the last cipher byte in 260. */
  type xkey = k: seq<byte> | |k| == KEYLEN witness seq(261, _ => 0)

  datatype Direction = Encrypt | Decrypt

  // ---------- One byte ----------

  function AddByte(a: byte, b: byte): byte {
    if a + b < 0x100 then a + b else a + b - 0x100
  }

  /** The positions move on, then four entries of the permutation rotate; they may
      coincide. The rotation is three exchanges. */
  function Moved(k: xkey): xkey {
    k[256 := AddByte(k[256], 1)][257 := AddByte(k[257], k[k[256]])]
  }

  function Rotated(k: xkey): xkey {
    Swap(Swap(Swap(k, k[260], k[257]), k[257], k[259]), k[259], k[256])
  }

  function Stirred(k: xkey): xkey {
    var m := Moved(k);
    var r := Rotated(m);
    r[258 := AddByte(r[258], r[m[m[260]]])]
  }

  /** The two entries of a stirred key that mask a byte. */
  function MaskC(k: xkey): byte {
    k[k[AddByte(AddByte(k[k[259]], k[k[257]]), k[k[260]])]]
  }

  function MaskB(k: xkey): byte {
    k[AddByte(k[k[258]], k[k[256]])]
  }

  function Masked(k: xkey, d: byte): byte {
    XorByte(MaskC(k), XorByte(MaskB(k), d))
  }

  /** One byte in, one byte out; either way the plain and the cipher byte enter the key. */
  function Step(dir: Direction, k: xkey, d: byte): (r: (byte, xkey)) {
    var s := Stirred(k);
    var out := Masked(s, d);
    var next := if dir.Decrypt? then s[260 := d][259 := out] else s[260 := out][259 := d];
    (out, next)
  }

  lemma MaskedTwice(k: xkey, d: byte)
    ensures Masked(k, Masked(k, d)) == d
  {
    MaskedTwiceBytes(MaskB(k), MaskC(k), d);
  }

  lemma MaskedTwiceBytes(b: byte, c: byte, d: byte)
    ensures XorByte(c, XorByte(b, XorByte(c, XorByte(b, d)))) == d
  {
    hide Xor;
    var m := Xor(b, d);
    XorCommutes(b, Xor(c, m));
    XorAssoc(c, m, b);
    XorCommutes(m, b);
    XorAssoc(b, b, d);
    XorSelf(b);
    XorZero(d);
    XorAssoc(c, c, d);
    XorSelf(c);
  }

  /** Decrypting the byte that encryption produced undoes it and leaves the same key. */
  lemma StepInverse(k: xkey, d: byte)
    ensures var e := Step(Encrypt, k, d); Step(Decrypt, k, e.0) == (d, e.1)
    ensures var e := Step(Decrypt, k, d); Step(Encrypt, k, e.0) == (d, e.1)
  {
    hide Masked, Stirred;
    MaskedTwice(Stirred(k), d);
  }

  // ---------- What one byte does, entry by entry ----------

  /** The permutation o[..256] after the assignments of a step, for the positions x, y, z
      and w, which may coincide: x takes the entry of y, y that of z, z that of w, and w
      what x held before. */
  ghost predicate Turned(o: xkey, n: xkey, x: byte, y: byte, z: byte, w: byte) {
    var o1 := o[..256][x := o[y]];
    var o2 := o1[y := o1[z]];
    var o3 := o2[z := o2[w]];
    n[..256] == o3[w := o[x]]
  }

  /** A step from key o to key n that exchanged the plain byte for the cipher byte. */
  ghost predicate StepLaw(o: xkey, n: xkey, plain: byte, cipher: byte) {
    n[256] == (o[256] as int + 1) % 256 && n[257] == (o[257] as int + o[o[256]]) % 256 &&
    n[258] == (o[258] as int + n[o[o[260]]]) % 256 && n[259] == plain && n[260] == cipher &&
    Turned(o, n, o[260], n[257], o[259], n[256])
  }

  /** What goes in or comes out: two entries of the key after the step are laid over the
      byte; the key before it still holds the last plain and the last cipher byte. */
  ghost predicate ByteLaw(o: xkey, n: xkey, d: byte, c: byte) {
    var first := n[n[(n[o[259]] as int + n[n[257]] + n[o[260]]) % 256]];
    var second := n[(n[n[258]] as int + n[n[256]]) % 256];
    c == XorByte(first, XorByte(second, d))
  }

  /** Decryption takes the cipher byte in, encryption the plain one. */
  ghost predicate Law(dir: Direction, o: xkey, n: xkey, d: byte, c: byte) {
    ByteLaw(o, n, d, c) && if dir.Decrypt? then StepLaw(o, n, c, d) else StepLaw(o, n, d, c)
  }

  lemma AddByteIs(a: byte, b: byte)
    ensures AddByte(a, b) == (a as int + b) % 256
  {
  }

  lemma AddThree(a: byte, b: byte, c: byte)
    ensures AddByte(AddByte(a, b), c) == (a as int + b + c) % 256
  {
  }

  lemma RotatedIsTurned(m: xkey)
    ensures Rotated(m)[256..] == m[256..] && Turned(m, Rotated(m), m[260], m[257], m[259], m[256])
  {
    var x, y, z, w := m[260], m[257], m[259], m[256];
    var o1 := m[..256][x := m[y]];
    var o2 := o1[y := o1[z]];
    var o3 := o2[z := o2[w]];
    var r := Rotated(m);
    forall p | 0 <= p < 256 ensures r[..256][p] == o3[w := m[x]][p] {
    }
  }

  lemma StirredEntries(k: xkey)
    ensures var s := Stirred(k);
      s[256] == (k[256] as int + 1) % 256 && s[257] == (k[257] as int + k[k[256]]) % 256 &&
      s[258] == (k[258] as int + s[k[k[260]]]) % 256 && s[259] == k[259] && s[260] == k[260] &&
      Turned(k, s, k[260], s[257], k[259], s[256])
  {
    var m := Moved(k);
    var r := Rotated(m);
    RotatedIsTurned(m);
    AddByteIs(k[256], 1);
    AddByteIs(k[257], k[k[256]]);
    AddByteIs(k[258], r[m[m[260]]]);
    hide Rotated, AddByte;
    assert k[..256] == m[..256] && Stirred(k)[..256] == r[..256];
    assert r[256] == r[256..][0] && r[257] == r[256..][1] && r[258] == r[256..][2] && r[259] == r[256..][3] && r[260] == r[256..][4];
  }

  lemma MaskedEntries(s: xkey, d: byte)
    ensures Masked(s, d) == XorByte(s[s[(s[s[259]] as int + s[s[257]] + s[s[260]]) % 256]], XorByte(s[(s[s[258]] as int + s[s[256]]) % 256], d))
  {
    hide XorByte;
    AddThree(s[s[259]], s[s[257]], s[s[260]]);
    AddByteIs(s[s[258]], s[s[256]]);
  }

  lemma StepIsLawful(dir: Direction, k: xkey, d: byte)
    ensures Law(dir, k, Step(dir, k, d).1, d, Step(dir, k, d).0)
  {
    hide XorByte, Stirred, Masked;
    var s, n := Stirred(k), Step(dir, k, d).1;
    StirredEntries(k);
    MaskedEntries(s, d);
    assert forall i :: 0 <= i < 259 ==> n[i] == s[i];
    assert n[..256] == s[..256];
  }

  /** Nothing else obeys the law. */
  lemma LawDecides(dir: Direction, k: xkey, n: xkey, d: byte, c: byte)
    ensures Law(dir, k, n, d, c) <==> (c, n) == Step(dir, k, d)
  {
    hide XorByte, Step;
    StepIsLawful(dir, k, d);
    if Law(dir, k, n, d, c) {
      var r := Step(dir, k, d).1;
      SameTurn(k, n, r, k[260], n[257], k[259], n[256]);
      forall i | 0 <= i < 259 ensures n[i] == r[i] {
        assert i < 256 ==> n[i] == n[..256][i] && r[i] == r[..256][i];
      }
      assert c == Step(dir, k, d).0;
      assert n[259] == r[259] && n[260] == r[260];
      assert n == r;
    }
  }

  lemma SameTurn(o: xkey, n: xkey, r: xkey, x: byte, y: byte, z: byte, w: byte)
    requires Turned(o, n, x, y, z, w) && Turned(o, r, x, y, z, w)
    ensures n[..256] == r[..256]
  {
  }

  /** Where the four positions differ, their entries move round and no others. */
  lemma FourMoveRound(o: xkey, n: xkey, x: byte, y: byte, z: byte, w: byte)
    requires Turned(o, n, x, y, z, w) && x != y && x != z && x != w && y != z && y != w && z != w
    ensures n[x] == o[y] && n[y] == o[z] && n[z] == o[w] && n[w] == o[x]
    ensures forall p :: 0 <= p < 256 && p !in {x, y, z, w} ==> n[p] == o[p]
  {
    assert forall p :: 0 <= p < 256 ==> n[p] == n[..256][p] && o[p] == o[..256][p];
  }

  // ---------- Whole buffers ----------

  datatype Coded = Coded(out: seq<byte>, key: xkey)

  function Code(dir: Direction, k: xkey, data: seq<byte>): (r: Coded)
    ensures |r.out| == |data|
  {
    if data == [] then Coded([], k)
    else
      var init := Code(dir, k, data[..|data| - 1]);
      var (b, next) := Step(dir, init.key, data[|data| - 1]);
      Coded(init.out + [b], next)
  }

  lemma {:induction false} CodeConcat(dir: Direction, k: xkey, a: seq<byte>, b: seq<byte>)
    ensures var first := Code(dir, k, a); var second := Code(dir, first.key, b);
      Code(dir, k, a + b) == Coded(first.out + second.out, second.key)
    decreases |b|
  {
    hide Step;
    if b == [] {
      assert a + b == a;
    } else {
      var i := |b| - 1;
      CodeConcat(dir, k, a, b[..i]);
      assert (a + b)[..|a + b| - 1] == a + b[..i] && (a + b)[|a + b| - 1] == b[i];
    }
  }

  lemma CodeSnoc(dir: Direction, k: xkey, init: seq<byte>, d: byte)
    ensures var c := Code(dir, k, init); var (b, next) := Step(dir, c.key, d);
      Code(dir, k, init + [d]) == Coded(c.out + [b], next)
  {
    hide Step;
    assert (init + [d])[..|init|] == init;
  }

  function Opposite(dir: Direction): Direction {
    if dir.Encrypt? then Decrypt else Encrypt
  }

  /** Coding one way and then the other from the same key gives back the data, and both
      sides end up with the same key. */
  lemma {:induction false} CodeInverse(dir: Direction, k: xkey, data: seq<byte>)
    ensures var e := Code(dir, k, data); Code(Opposite(dir), k, e.out) == Coded(data, e.key)
    decreases |data|
  {
    hide Step, Code;
    if data == [] {
      CodeEmpty(dir, k);
      CodeEmpty(Opposite(dir), k);
    } else {
      var i := |data| - 1;
      var init := Code(dir, k, data[..i]);
      CodeInverse(dir, k, data[..i]);
      StepInverse(init.key, data[i]);
      CodeSnoc(dir, k, data[..i], data[i]);
      CodeSnoc(Opposite(dir), k, init.out, Step(dir, init.key, data[i]).0);
      assert data == data[..i] + [data[i]];
    }
  }

  /** Chunks coded one after another with the key carried on. */
  function CodeChunks(dir: Direction, k: xkey, chunks: seq<seq<byte>>): Coded
    decreases |chunks|
  {
    if chunks == [] then Coded([], k)
    else
      var first := Code(dir, k, chunks[0]);
      var rest := CodeChunks(dir, first.key, chunks[1..]);
      Coded(first.out + rest.out, rest.key)
  }

  lemma {:induction false} ChunksDoNotMatter(dir: Direction, k: xkey, chunks: seq<seq<byte>>)
    ensures CodeChunks(dir, k, chunks) == Code(dir, k, Flatten(chunks))
    decreases |chunks|
  {
    hide Code;
    if chunks == [] {
      CodeEmpty(dir, k);
    } else {
      var first := Code(dir, k, chunks[0]);
      ChunksDoNotMatter(dir, first.key, chunks[1..]);
      CodeConcat(dir, k, chunks[0], Flatten(chunks[1..]));
    }
  }

  lemma ChunksSnoc(dir: Direction, k: xkey, chunks: seq<seq<byte>>, more: seq<byte>)
    ensures var first := CodeChunks(dir, k, chunks); var c := Code(dir, first.key, more);
      CodeChunks(dir, k, chunks + [more]) == Coded(first.out + c.out, c.key)
  {
    hide Code, CodeChunks;
    ChunksDoNotMatter(dir, k, chunks);
    ChunksDoNotMatter(dir, k, chunks + [more]);
    FlattenSnoc(chunks, more);
    CodeConcat(dir, k, Flatten(chunks), more);
  }

  lemma CodeEmpty(dir: Direction, k: xkey)
    ensures Code(dir, k, []) == Coded([], k)
  {
  }

  /** However the sender cuts the plain data and the receiver the cipher data, the receiver
      reads what was sent and the two key states agree. */
  lemma AnyChunking(k: xkey, sent: seq<seq<byte>>, received: seq<seq<byte>>)
    requires Flatten(received) == CodeChunks(Encrypt, k, sent).out
    ensures CodeChunks(Decrypt, k, received) == Coded(Flatten(sent), CodeChunks(Encrypt, k, sent).key)
  {
    ChunksDoNotMatter(Encrypt, k, sent);
    ChunksDoNotMatter(Decrypt, k, received);
    CodeInverse(Encrypt, k, Flatten(sent));
  }

  // ---------- The key stays a permutation ----------

  ghost predicate KeyIsPermutation(k: xkey) {
    IsPermutation(k[..256])
  }

  lemma SwapInKey(k: xkey, i: byte, j: byte)
    requires KeyIsPermutation(k)
    ensures KeyIsPermutation(Swap(k, i, j))
  {
    hide IsPermutation;
    assert Swap(k, i, j)[..256] == Swap(k[..256], i, j);
    SwapIsPermutation(k[..256], i, j);
  }

  lemma StepKeepsPermutation(dir: Direction, k: xkey, d: byte)
    requires KeyIsPermutation(k)
    ensures KeyIsPermutation(Step(dir, k, d).1)
  {
    hide IsPermutation, Masked;
    var m := Moved(k);
    assert m[..256] == k[..256];
    SwapInKey(m, m[260], m[257]);
    SwapInKey(Swap(m, m[260], m[257]), m[257], m[259]);
    SwapInKey(Swap(Swap(m, m[260], m[257]), m[257], m[259]), m[259], m[256]);
    var r := Rotated(m);
    assert Step(dir, k, d).1[..256] == r[..256];
  }

  lemma {:induction false} CodeKeepsPermutation(dir: Direction, k: xkey, data: seq<byte>)
    requires KeyIsPermutation(k)
    ensures KeyIsPermutation(Code(dir, k, data).key)
    decreases |data|
  {
    hide Step, KeyIsPermutation;
    if data != [] {
      var i := |data| - 1;
      CodeKeepsPermutation(dir, k, data[..i]);
      StepKeepsPermutation(dir, Code(dir, k, data[..i]).key, data[i]);
    }
  }

  /** Every byte of a run is one lawful step, from the key that the bytes before it left. */
  lemma {:induction false} CodeIsLawful(dir: Direction, k: xkey, data: seq<byte>) returns (keys: seq<xkey>)
    ensures var c := Code(dir, k, data);
      |keys| == |data| + 1 && keys[0] == k && keys[|data|] == c.key &&
      forall i :: 0 <= i < |data| ==> Law(dir, keys[i], keys[i + 1], data[i], c.out[i])
    decreases |data|
  {
    hide Step, Law;
    if data == [] {
      keys := [k];
    } else {
      var i := |data| - 1;
      var before := CodeIsLawful(dir, k, data[..i]);
      StepIsLawful(dir, before[i], data[i]);
      keys := before + [Step(dir, before[i], data[i]).1];
    }
  }

  // ---------- func7, func7e, func6, func6e ----------

  /** The first statements that func7 and func7e share: up to the end of the rotation. */
  method Rotate(encxkey: array<byte>) returns (c: byte)
    requires encxkey.Length == KEYLEN
    modifies encxkey
    ensures var m := Moved(old(encxkey[..])); encxkey[..] == Rotated(m) && c == m[m[260]]
  {
    ghost var k: xkey := encxkey[..];
    var a := encxkey[256];
    var b := encxkey[257];
    c := encxkey[a];
    encxkey[256] := AddByte(a, 1);
    encxkey[257] := AddByte(b, c);
    ghost var m := Moved(k);
    assert encxkey[..] == m;
    a := encxkey[260];
    b := encxkey[257];
    b := encxkey[b];
    c := encxkey[a];
    encxkey[a] := b;
    a := encxkey[259];
    b := encxkey[257];
    a := encxkey[a];
    encxkey[b] := a;
    a := encxkey[256];
    b := encxkey[259];
    a := encxkey[a];
    encxkey[b] := a;
    a := encxkey[256];
    encxkey[a] := c;
    ghost var r := Rotated(m);
    assert encxkey[..] == r;
  }

  /** The other statements that func7 and func7e share. */
  method Stir(encxkey: array<byte>) returns (b: byte, c: byte)
    requires encxkey.Length == KEYLEN
    modifies encxkey
    ensures encxkey[..] == Stirred(old(encxkey[..]))
    ensures c == MaskC(encxkey[..]) && b == MaskB(encxkey[..])
  {
    ghost var k: xkey := encxkey[..];
    hide Moved, Rotated;
    c := Rotate(encxkey);
    b := encxkey[258];
    var a := encxkey[c];
    c := encxkey[259];
    b := AddByte(b, a);
    encxkey[258] := b;
    assert encxkey[..] == Stirred(k);
    a := b;
    c := encxkey[c];
    b := encxkey[257];
    b := encxkey[b];
    a := encxkey[a];
    c := AddByte(c, b);
    b := encxkey[260];
    b := encxkey[b];
    c := AddByte(c, b);
    b := encxkey[c];
    c := encxkey[256];
    c := encxkey[c];
    a := AddByte(a, c);
    c := encxkey[b];
    b := encxkey[a];
  }

  method Func7(encxkey: array<byte>, d: byte) returns (c: byte)
    requires encxkey.Length == KEYLEN
    modifies encxkey
    ensures (c, encxkey[..]) == Step(Decrypt, old(encxkey[..]), d)
    ensures Law(Decrypt, old(encxkey[..]), encxkey[..], d, c)
  {
    StepIsLawful(Decrypt, encxkey[..], d);
    hide Law, Stirred, MaskB, MaskC;
    var b: byte;
    b, c := Stir(encxkey);
    encxkey[260] := d;
    c := XorByte(c, XorByte(b, d));
    encxkey[259] := c;
  }

  method Func7e(encxkey: array<byte>, d: byte) returns (c: byte)
    requires encxkey.Length == KEYLEN
    modifies encxkey
    ensures (c, encxkey[..]) == Step(Encrypt, old(encxkey[..]), d)
    ensures Law(Encrypt, old(encxkey[..]), encxkey[..], d, c)
  {
    StepIsLawful(Encrypt, encxkey[..], d);
    hide Law, Stirred, MaskB, MaskC;
    var b: byte;
    b, c := Stir(encxkey);
    c := XorByte(c, XorByte(b, d));
    encxkey[260] := c;
    encxkey[259] := d;
  }

  lemma OneMore(data: array<byte>, i: nat, j: nat)
    requires i <= j < data.Length
    ensures data[i..j + 1] == data[i..j] + [data[j]]
  {
  }

  /** func6 on the len bytes of data from start on. */
  method Func6(encxkey: array<byte>, data: array<byte>, start: nat, len: nat) returns (n: nat)
    requires encxkey.Length == KEYLEN && encxkey != data && start + len <= data.Length
    modifies encxkey, data
    ensures n == len && Coded(data[start..start + len], encxkey[..]) == Code(Decrypt, old(encxkey[..]), old(data[start..start + len]))
    ensures data[..start] == old(data[..start]) && data[start + len..] == old(data[start + len..])
  {
    hide Step, Code, Law;
    ghost var k: xkey, was := encxkey[..], data[start..start + len];
    CodeEmpty(Decrypt, k);
    for i := 0 to len
      invariant Coded(data[start..start + i], encxkey[..]) == Code(Decrypt, k, was[..i])
      invariant forall j :: 0 <= j < data.Length && !(start <= j < start + i) ==> data[j] == old(data[j])
    {
      CodeSnoc(Decrypt, k, was[..i], was[i]);
      assert was[..i + 1] == was[..i] + [was[i]];
      data[start + i] := Func7(encxkey, data[start + i]);
      OneMore(data, start, start + i);
    }
    assert was[..len] == was;
    assert data[start + len..] == old(data[start + len..]);
    n := len;
  }

  method Func6e(encxkey: array<byte>, data: array<byte>, start: nat, len: nat) returns (n: nat)
    requires encxkey.Length == KEYLEN && encxkey != data && start + len <= data.Length
    modifies encxkey, data
    ensures n == len && Coded(data[start..start + len], encxkey[..]) == Code(Encrypt, old(encxkey[..]), old(data[start..start + len]))
    ensures data[..start] == old(data[..start]) && data[start + len..] == old(data[start + len..])
  {
    hide Step, Code, Law;
    ghost var k: xkey, was := encxkey[..], data[start..start + len];
    CodeEmpty(Encrypt, k);
    for i := 0 to len
      invariant Coded(data[start..start + i], encxkey[..]) == Code(Encrypt, k, was[..i])
      invariant forall j :: 0 <= j < data.Length && !(start <= j < start + i) ==> data[j] == old(data[j])
    {
      CodeSnoc(Encrypt, k, was[..i], was[i]);
      assert was[..i + 1] == was[..i] + [was[i]];
      data[start + i] := Func7e(encxkey, data[start + i]);
      OneMore(data, start, start + i);
    }
    assert was[..len] == was;
    assert data[start + len..] == old(data[start + len..]);
    n := len;
  }

  // ---------- func5, func4: the permutation of a challenge ----------

  /** The least number of the form 2^n - 1, n > 0, that is not below cnt, from m on. */
  function MaskFrom(cnt: nat, m: nat): (r: nat)
    requires m >= 1
    ensures r >= cnt && r >= m
    decreases cnt - m
  {
    if m < cnt then MaskFrom(cnt, 2 * m + 1) else m
  }

  datatype Drawn = Drawn(v: nat, n1: nat, n2: nat)

  /** Draw a number that is at most cnt, in at most 12 - i more rounds. The mask is all
      ones, so masking is taking the remainder. */
  function Draw(perm: seq<byte>, cnt: nat, id: seq<byte>, n1: nat, n2: nat, i: nat): (r: Drawn)
    requires |perm| == 256 && cnt > 0 && n2 < |id| && i < 12
    ensures r.v <= cnt && r.n2 < |id|
    decreases 12 - i, cnt
  {
    var wraps := n2 + 1 >= |id|;
    var m1 := perm[n1 % 0x100] + id[n2] + if wraps then |id| else 0;
    var m2 := if wraps then 0 else n2 + 1;
    var tmp := m1 % (MaskFrom(cnt, 1) + 1);
    var v := if i + 1 > 11 then tmp % cnt else tmp;
    if v > cnt then Draw(perm, cnt, id, m1, m2, i + 1) else Drawn(v, m1, m2)
  }

  function DrawUpTo(perm: seq<byte>, cnt: nat, id: seq<byte>, n1: nat, n2: nat): (r: Drawn)
    requires |perm| == 256 && n2 < |id|
    ensures r.v <= cnt && r.n2 < |id|
  {
    if cnt == 0 then Drawn(0, n1, n2) else Draw(perm, cnt, id, n1, n2, 0)
  }

  method Func5(encxkey: array<byte>, cnt: nat, id: array<byte>, idlen: nat, n1_: nat, n2_: nat)
    returns (tmp: nat, n1: nat, n2: nat)
    requires encxkey.Length == KEYLEN && n2_ < idlen <= id.Length
    ensures Drawn(tmp, n1, n2) == DrawUpTo(encxkey[..256], cnt, id[..idlen], n1_, n2_)
  {
    n1, n2 := n1_, n2_;
    var mask := 1;
    if cnt == 0 {
      return 0, n1, n2;
    }
    if cnt > 1 {
      mask := mask * 2 + 1;
      while mask < cnt
        invariant mask >= 1 && MaskFrom(cnt, mask) == MaskFrom(cnt, 1)
        decreases cnt - mask
      {
        mask := mask * 2 + 1;
      }
    }
    assert mask == MaskFrom(cnt, 1);
    hide MaskFrom;
    var i := 0;
    tmp := cnt + 1;
    while tmp > cnt
      invariant n2 < idlen && i <= 12 && (i == 12 ==> tmp <= cnt)
      invariant DrawUpTo(encxkey[..256], cnt, id[..idlen], n1_, n2_) ==
        if tmp > cnt then Draw(encxkey[..256], cnt, id[..idlen], n1, n2, i) else Drawn(tmp, n1, n2)
      decreases 12 - i
    {
      n1 := encxkey[n1 % 0x100] as int + id[n2];
      n2 := n2 + 1;
      if n2 >= idlen {
        n2 := 0;
        n1 := n1 + idlen;
      }
      tmp := n1 % (mask + 1);
      i := i + 1;
      if i > 11 {
        tmp := tmp % cnt;
      }
    }
  }

  /** One round of a draw: an entry and a byte of the id make the next number; the cursor
      moves on, and where it starts again the length is added. */
  predicate Round(perm: seq<byte>, id: seq<byte>, a: (nat, nat), b: (nat, nat))
    requires |perm| == 256 && a.1 < |id|
  {
    b.0 == (perm[a.0 % 256] as int) + id[a.1] + (if a.1 + 1 == |id| then |id| else 0) &&
    b.1 == if a.1 + 1 == |id| then 0 else a.1 + 1
  }

  /** The mask of a draw: the least number of ones in binary, at least one, that is not
      less than cnt. */
  ghost predicate IsMask(m: nat, cnt: nat) {
    m >= cnt && exists e: nat :: e > 0 && m + 1 == Pow2(e) && (e > 1 ==> Pow2(e - 1) - 1 < cnt)
  }

  lemma {:induction false} MaskFromIs(cnt: nat, e: nat, m: nat)
    requires e > 0 && m + 1 == Pow2(e) && (e > 1 ==> Pow2(e - 1) - 1 < cnt)
    ensures IsMask(MaskFrom(cnt, m), cnt)
    decreases cnt - m
  {
    hide Pow2;
    if m < cnt {
      Pow2Succ(e);
      MaskFromIs(cnt, e + 1, 2 * m + 1);
    }
  }

  /** A draw runs round after round and takes the first number under the mask that is at
      most cnt; of a twelfth round it takes what is left modulo cnt. */
  ghost predicate Draws(perm: seq<byte>, cnt: nat, id: seq<byte>, s: seq<(nat, nat)>, mask: nat, from: nat, v: nat)
    requires |perm| == 256
  {
    1 < |s| && |s| + from <= 13 && (forall k :: 0 <= k < |s| ==> s[k].1 < |id|) &&
    (forall k :: 0 <= k < |s| - 1 ==> Round(perm, id, s[k], s[k + 1])) &&
    (forall k :: 0 < k < |s| - 1 ==> Under(s[k].0, mask) > cnt) &&
    var tmp := Under(s[|s| - 1].0, mask);
    if |s| + from == 13 then cnt > 0 && v == tmp % cnt else tmp <= cnt && v == tmp
  }

  lemma {:induction false} DrawIsLawful(perm: seq<byte>, cnt: nat, id: seq<byte>, n1: nat, n2: nat, i: nat) returns (s: seq<(nat, nat)>)
    requires |perm| == 256 && cnt > 0 && n2 < |id| && i < 12
    ensures var d := Draw(perm, cnt, id, n1, n2, i);
      Draws(perm, cnt, id, s, MaskFrom(cnt, 1), i, d.v) && s[0] == (n1, n2) && s[|s| - 1] == (d.n1, d.n2)
    decreases 12 - i
  {
    hide MaskFrom, Under;
    var next := Advanced(perm, id, n1, n2);
    DrawUnfolds(perm, cnt, id, n1, n2, i);
    hide Draw;
    if i < 11 && Under(next.0, MaskFrom(cnt, 1)) > cnt {
      var rest := DrawIsLawful(perm, cnt, id, next.0, next.1, i + 1);
      s := [(n1, n2)] + rest;
      MoreRounds(perm, cnt, id, (n1, n2), rest, MaskFrom(cnt, 1), i, Draw(perm, cnt, id, n1, n2, i).v);
    } else {
      s := [(n1, n2), next];
    }
  }

  function Under(n: nat, mask: nat): nat {
    n % (mask + 1)
  }

  function Advanced(perm: seq<byte>, id: seq<byte>, n1: nat, n2: nat): (r: (nat, nat))
    requires |perm| == 256 && n2 < |id|
    ensures r.1 < |id| && Round(perm, id, (n1, n2), r)
  {
    ((perm[n1 % 0x100] as int) + id[n2] + (if n2 + 1 == |id| then |id| else 0), if n2 + 1 == |id| then 0 else n2 + 1)
  }

  lemma DrawUnfolds(perm: seq<byte>, cnt: nat, id: seq<byte>, n1: nat, n2: nat, i: nat)
    requires |perm| == 256 && cnt > 0 && n2 < |id| && i < 12
    ensures var r := Advanced(perm, id, n1, n2); var tmp := Under(r.0, MaskFrom(cnt, 1));
      Draw(perm, cnt, id, n1, n2, i) ==
        if i == 11 then Drawn(tmp % cnt, r.0, r.1) else if tmp > cnt then Draw(perm, cnt, id, r.0, r.1, i + 1) else Drawn(tmp, r.0, r.1)
  {
    hide MaskFrom;
  }

  lemma MoreRounds(perm: seq<byte>, cnt: nat, id: seq<byte>, a: (nat, nat), s: seq<(nat, nat)>, mask: nat, from: nat, v: nat)
    requires |perm| == 256 && a.1 < |id| && Draws(perm, cnt, id, s, mask, from + 1, v)
    requires Round(perm, id, a, s[0]) && Under(s[0].0, mask) > cnt
    ensures Draws(perm, cnt, id, [a] + s, mask, from, v)
  {
    hide Under, Round;
    var all := [a] + s;
    assert forall k :: 0 < k < |all| ==> all[k] == s[k - 1];
  }

  /** Exchange each of the entries below i, from the last to the first, with a drawn one. */
  function Deal(perm: seq<byte>, id: seq<byte>, n1: nat, n2: nat, i: nat): (r: (seq<byte>, nat))
    requires |perm| == 256 && n2 < |id| && i <= 256
    ensures |r.0| == 256
    decreases i, |perm|
  {
    if i == 0 then (perm, n1)
    else
      var d := DrawUpTo(perm, i - 1, id, n1, n2);
      Deal(Swap(perm, i - 1, d.v), id, d.n1, d.n2, i - 1)
  }

  function FreshKey(id: seq<byte>): xkey
    requires id != []
  {
    var (perm, n1) := Deal(Identity(), id, 0, 0, 256);
    perm + [perm[1], perm[3], perm[5], perm[7], perm[n1 % 0x100]]
  }

  lemma {:induction false} DealIsPermutation(perm: seq<byte>, id: seq<byte>, n1: nat, n2: nat, i: nat)
    requires |perm| == 256 && n2 < |id| && i <= 256 && IsPermutation(perm)
    ensures IsPermutation(Deal(perm, id, n1, n2, i).0)
    decreases i
  {
    hide IsPermutation, DrawUpTo;
    if i > 0 {
      var d := DrawUpTo(perm, i - 1, id, n1, n2);
      SwapIsPermutation(perm, i - 1, d.v);
      DealIsPermutation(Swap(perm, i - 1, d.v), id, d.n1, d.n2, i - 1);
    }
  }

  /** Whatever the challenge, the first 256 bytes of the key are a permutation. */
  lemma FreshKeyIsPermutation(id: seq<byte>)
    requires id != []
    ensures KeyIsPermutation(FreshKey(id))
  {
    hide IsPermutation, Deal;
    IdentityIsPermutation();
    DealIsPermutation(Identity(), id, 0, 0, 256);
    assert FreshKey(id)[..256] == Deal(Identity(), id, 0, 0, 256).0;
  }

  /** Whatever the challenge and whatever was coded since, no two of the first 256 key bytes
      are equal, and every byte value is one of them. */
  lemma SessionKeyIsOneToOne(dir: Direction, id: seq<byte>, data: seq<byte>, i: nat, j: nat, v: byte)
    requires id != [] && i < j < 256
    ensures var k := Code(dir, FreshKey(id), data).key; k[i] != k[j] && v in k[..256]
  {
    hide FreshKey, Code, IsPermutation;
    var k := Code(dir, FreshKey(id), data).key;
    FreshKeyIsPermutation(id);
    CodeKeepsPermutation(dir, FreshKey(id), data);
    PermutationIsInjective(k[..256], i, j);
    PermutationIsOnto(k[..256], v);
  }

  // ---------- What dealing does, exchange by exchange ----------

  /** The stages of a deal: the entries, and the two numbers that the draws carry on. */
  datatype Stage = Stage(perm: seq<byte>, n: (nat, nat))

  /** Entry top changes places with the entry v that was drawn for it. */
  ghost predicate DealLaw(id: seq<byte>, a: Stage, b: Stage, top: nat) {
    |a.perm| == 256 && top < 256 &&
    exists v: nat :: v <= top && b.perm == a.perm[top := a.perm[v]][v := a.perm[top]] && DrawnFrom(id, a, b.n, top, v)
  }

  /** Nothing is drawn for entry 0. */
  ghost predicate DrawnFrom(id: seq<byte>, a: Stage, n: (nat, nat), top: nat, v: nat)
    requires |a.perm| == 256
  {
    if top == 0 then v == 0 && n == a.n
    else exists s, mask :: IsMask(mask, top) && Draws(a.perm, top, id, s, mask, 0, v) && s[0] == a.n && s[|s| - 1] == n
  }

  lemma DrawUpToIsLawful(id: seq<byte>, a: Stage, top: nat)
    requires |a.perm| == 256 && a.n.1 < |id|
    ensures var d := DrawUpTo(a.perm, top, id, a.n.0, a.n.1); DrawnFrom(id, a, (d.n1, d.n2), top, d.v)
  {
    hide Draw, Draws, MaskFrom, IsMask;
    if top > 0 {
      var s := DrawIsLawful(a.perm, top, id, a.n.0, a.n.1, 0);
      Pow2Zero();
      Pow2Succ(0);
      MaskFromIs(top, 1, 1);
    }
  }

  lemma {:induction false} DealIsLawful(perm: seq<byte>, id: seq<byte>, n1: nat, n2: nat, i: nat) returns (stages: seq<Stage>)
    requires |perm| == 256 && n2 < |id| && i <= 256
    ensures var d := Deal(perm, id, n1, n2, i);
      |stages| == i + 1 && stages[0] == Stage(perm, (n1, n2)) && stages[i].perm == d.0 && stages[i].n.0 == d.1 &&
      forall k :: 0 <= k < i ==> DealLaw(id, stages[k], stages[k + 1], i - 1 - k)
    decreases i
  {
    hide DrawUpTo, DrawnFrom, DealLaw;
    var first := Stage(perm, (n1, n2));
    if i == 0 {
      stages := [first];
    } else {
      var d := DrawUpTo(perm, i - 1, id, n1, n2);
      var next := Stage(Swap(perm, i - 1, d.v), (d.n1, d.n2));
      DrawUpToIsLawful(id, first, i - 1);
      ExchangeIsLawful(id, first, d, i - 1);
      var rest := DealIsLawful(next.perm, id, d.n1, d.n2, i - 1);
      stages := [first] + rest;
      forall k | 0 <= k < i ensures DealLaw(id, stages[k], stages[k + 1], i - 1 - k) {
        assert k > 0 ==> DealLaw(id, rest[k - 1], rest[k], i - 2 - (k - 1));
      }
    }
  }

  lemma ExchangeIsLawful(id: seq<byte>, a: Stage, d: Drawn, top: nat)
    requires |a.perm| == 256 && top < 256 && d.v <= top && DrawnFrom(id, a, (d.n1, d.n2), top, d.v)
    ensures DealLaw(id, a, Stage(Swap(a.perm, top, d.v), (d.n1, d.n2)), top)
  {
    hide DrawnFrom;
  }

  /** A fresh key is dealt from the entries in order, in 256 exchanges from the last entry
      down, and ends in five of its entries. */
  lemma FreshKeyIsDealt(id: seq<byte>) returns (stages: seq<Stage>)
    requires id != []
    ensures |stages| == 257 && |stages[0].perm| == 256 && forall j :: 0 <= j < 256 ==> stages[0].perm[j] == j
    ensures stages[0].n == (0, 0) && forall k :: 0 <= k < 256 ==> DealLaw(id, stages[k], stages[k + 1], 255 - k)
    ensures var p := stages[256].perm;
      |p| == 256 && FreshKey(id) == p + [p[1], p[3], p[5], p[7], p[stages[256].n.0 % 256]]
  {
    hide DealLaw, Deal;
    stages := DealIsLawful(Identity(), id, 0, 0, 256);
  }

  method Func4(encxkey: array<byte>, id: array<byte>, idlen: nat)
    requires encxkey.Length == KEYLEN && idlen <= id.Length && id != encxkey
    modifies encxkey
    ensures encxkey[..] == if idlen < 1 then old(encxkey[..]) else FreshKey(id[..idlen])
  {
    hide DrawUpTo, Identity;
    if idlen < 1 {
      return;
    }
    for i := 0 to 256
      invariant forall j :: 0 <= j < i ==> encxkey[j] == j
    {
      encxkey[i] := i;
    }
    var n1: nat, n2: nat := 0, 0;
    assert encxkey[..256] == Identity();
    var i := 255;
    while i >= 0
      invariant -1 <= i <= 255 && n2 < idlen
      invariant Deal(encxkey[..256], id[..idlen], n1, n2, i + 1) == Deal(Identity(), id[..idlen], 0, 0, 256)
    {
      ghost var perm := encxkey[..256];
      var t1: nat;
      t1, n1, n2 := Func5(encxkey, i, id, idlen, n1, n2);
      var t2 := encxkey[i];
      encxkey[i] := encxkey[t1];
      encxkey[t1] := t2;
      assert encxkey[..256] == Swap(perm, i, t1);
      i := i - 1;
    }
    ghost var perm := encxkey[..256];
    encxkey[256] := encxkey[1];
    encxkey[257] := encxkey[3];
    encxkey[258] := encxkey[5];
    encxkey[259] := encxkey[7];
    encxkey[260] := encxkey[n1 % 0x100];
    assert encxkey[..] == perm + [perm[1], perm[3], perm[5], perm[7], perm[n1 % 0x100]];
  }

  // ---------- funcx: the key of a session ----------

  /** The challenge after byte i and those before it were folded in, by the key text. */
  function MixChallenge(key: seq<byte>, v: seq<byte>, salt: seq<byte>): (r: seq<byte>)
    requires |v| == CHALLENGELEN && (key != [] || salt == [])
    ensures |r| == CHALLENGELEN
  {
    if salt == [] then v
    else
      var i := |salt| - 1;
      var w := MixChallenge(key, v, salt[..i]);
      var at := (key[i % |key|] * i) % CHALLENGELEN;
      w[at := XorByte(w[at], XorByte(w[i % CHALLENGELEN], salt[i]))]
  }

  function SessionKey(key: seq<byte>, validate: seq<byte>, salt: seq<byte>): xkey
    requires |validate| >= CHALLENGELEN && (key != [] || salt == [])
  {
    FreshKey(MixChallenge(key, validate[..CHALLENGELEN], salt))
  }

  /** The challenge while the salt is folded in: byte i changes the place that the key text
      and i choose, by a byte of the challenge and itself. */
  lemma {:induction false} ChallengeIsMixed(key: seq<byte>, v: seq<byte>, salt: seq<byte>) returns (ws: seq<seq<byte>>)
    requires |v| == CHALLENGELEN && (key != [] || salt == [])
    ensures |ws| == |salt| + 1 && ws[0] == v && ws[|salt|] == MixChallenge(key, v, salt)
    ensures forall i :: 0 <= i < |salt| ==> MixLaw(key, ws[i], ws[i + 1], i, salt[i])
    decreases |salt|
  {
    hide XorByte, MixLaw;
    if salt == [] {
      ws := [v];
    } else {
      var i := |salt| - 1;
      var before := ChallengeIsMixed(key, v, salt[..i]);
      MixIsLawful(key, before[i], i, salt[i]);
      ws := before + [MixChallenge(key, v, salt)];
    }
  }

  ghost predicate MixLaw(key: seq<byte>, a: seq<byte>, b: seq<byte>, i: nat, d: byte) {
    |a| == |b| == 8 && key != [] &&
    var at := (key[i % |key|] * i) % 8;
    b[at] == XorByte(a[at], XorByte(a[i % 8], d)) && forall p :: 0 <= p < 8 && p != at ==> b[p] == a[p]
  }

  lemma MixIsLawful(key: seq<byte>, w: seq<byte>, i: nat, d: byte)
    requires key != [] && |w| == 8
    ensures var at := (key[i % |key|] * i) % CHALLENGELEN; MixLaw(key, w, w[at := XorByte(w[at], XorByte(w[i % CHALLENGELEN], d))], i, d)
  {
    hide XorByte;
  }

  /** The session key is the fresh key of the mixed challenge. */
  lemma SessionKeyIsMixed(key: seq<byte>, validate: seq<byte>, salt: seq<byte>) returns (ws: seq<seq<byte>>)
    requires |validate| >= CHALLENGELEN && (key != [] || salt == [])
    ensures |ws| == |salt| + 1 && ws[0] == validate[..8] && forall i :: 0 <= i < |salt| ==> MixLaw(key, ws[i], ws[i + 1], i, salt[i])
    ensures |ws[|salt|]| == 8 && SessionKey(key, validate, salt) == FreshKey(ws[|salt|])
  {
    hide FreshKey, MixChallenge, MixLaw;
    ws := ChallengeIsMixed(key, validate[..CHALLENGELEN], salt);
  }

  method Funcx(encxkey: array<byte>, key: seq<byte>, encxvalidate: array<byte>, data: seq<byte>)
    requires encxkey.Length == KEYLEN && encxvalidate.Length >= CHALLENGELEN && encxkey != encxvalidate
    requires key != [] || data == []
    modifies encxkey, encxvalidate
    ensures encxvalidate[..CHALLENGELEN] == MixChallenge(key, old(encxvalidate[..CHALLENGELEN]), data)
    ensures encxkey[..] == SessionKey(key, old(encxvalidate[..CHALLENGELEN]), data)
    ensures encxvalidate[CHALLENGELEN..] == old(encxvalidate[CHALLENGELEN..])
  {
    hide FreshKey, XorByte;
    ghost var v := encxvalidate[..CHALLENGELEN];
    for i := 0 to |data|
      invariant encxvalidate[..CHALLENGELEN] == MixChallenge(key, v, data[..i])
      invariant encxvalidate[CHALLENGELEN..] == old(encxvalidate[CHALLENGELEN..])
    {
      ghost var w := encxvalidate[..CHALLENGELEN];
      assert data[..i + 1][..i] == data[..i];
      var at := (key[i % |key|] * i) % CHALLENGELEN;
      encxvalidate[at] := XorByte(encxvalidate[at], XorByte(encxvalidate[i % CHALLENGELEN], data[i]));
      assert encxvalidate[..CHALLENGELEN] == w[at := XorByte(w[at], XorByte(w[i % CHALLENGELEN], data[i]))];
    }
    assert data[..|data|] == data;
    Func4(encxkey, encxvalidate, CHALLENGELEN);
    assert v[..CHALLENGELEN] == v;
  }

  // ---------- The framed header ----------

  datatype Frame = Incomplete | Frame(salt: seq<byte>, end: nat)

  /** A length byte, bytes to skip, a second length byte and the salt, if all is there. */
  function FrameOf(data: seq<byte>): (f: Frame)
    ensures f.Frame? ==> 2 <= f.end <= |data|
  {
    if |data| < 1 then Incomplete
    else
      var a := XorByte(data[0], 0xec) + 2;
      if |data| < a then Incomplete
      else
        var b := XorByte(data[a - 1], 0xea);
        if |data| < a + b then Incomplete else Frame(data[a..a + b], a + b)
  }

  /** A header is complete and found for what it is, whatever the lengths, the bytes to skip
      and the salt. */
  lemma FrameIsFound(skip: seq<byte>, salt: seq<byte>, rest: seq<byte>)
    requires |skip| < 256 && |salt| < 256
    ensures FrameOf([XorByte(|skip|, 0xec)] + skip + [XorByte(|salt|, 0xea)] + salt + rest) == Frame(salt, |skip| + 2 + |salt|)
  {
    XorByteCancel(|skip|, 0xec);
    XorByteCancel(|salt|, 0xea);
    var a, b := [XorByte(|skip|, 0xec)], [XorByte(|salt|, 0xea)];
    hide XorByte;
    var d := a + skip + b + salt + rest;
    assert d[0] == a[0] && d[|skip| + 1] == b[0];
    assert d[|skip| + 2..|skip| + 2 + |salt|] == salt;
  }

  /** More data does not change a header that is already complete. */
  lemma FrameStays(data: seq<byte>, more: seq<byte>)
    requires FrameOf(data).Frame?
    ensures FrameOf(data + more) == FrameOf(data)
  {
    hide XorByte;
    var a := XorByte(data[0], 0xec) + 2;
    var b := XorByte(data[a - 1], 0xea);
    assert (data + more)[a..a + b] == data[a..a + b];
  }

  method EnctypexInit(encxkey: array<byte>, key: seq<byte>, validate: seq<byte>, data: array<byte>, datalen: nat)
    returns (end: Option<nat>)
    requires encxkey.Length == KEYLEN && datalen <= data.Length && encxkey != data
    requires key != [] && |validate| >= CHALLENGELEN
    modifies encxkey
    ensures match FrameOf(data[..datalen])
      case Incomplete => end == None && encxkey[..] == old(encxkey[..])
      case Frame(salt, e) => end == Some(e) && encxkey[..] == SessionKey(key, validate, salt)
  {
    hide XorByte, SessionKey, MixChallenge;
    if datalen < 1 { return None; }
    var a := XorByte(data[0], 0xec) + 2;
    if datalen < a { return None; }
    var b := XorByte(data[a - 1], 0xea);
    if datalen < a + b { return None; }
    var encxvalidate := new byte[CHALLENGELEN](i requires 0 <= i < CHALLENGELEN => validate[i]);
    assert encxvalidate[..] == validate[..CHALLENGELEN];
    SliceOfPrefix(data, datalen, a, a + b);
    Funcx(encxkey, key, encxvalidate, data[a..a + b]);
    SameSession(key, validate, encxvalidate, data[a..a + b]);
    return Some(a + b);
  }

  lemma SliceOfPrefix(data: array<byte>, datalen: nat, i: nat, j: nat)
    requires i <= j <= datalen <= data.Length
    ensures data[i..j] == data[..datalen][i..j]
  {
  }

  lemma SameSession(key: seq<byte>, validate: seq<byte>, copy: array<byte>, salt: seq<byte>)
    requires key != [] && |validate| >= CHALLENGELEN && copy.Length == CHALLENGELEN
    ensures forall v: seq<byte> :: |v| == CHALLENGELEN && v == validate[..CHALLENGELEN] ==>
      SessionKey(key, v, salt) == SessionKey(key, validate, salt)
  {
    hide FreshKey, MixChallenge;
    assert validate[..CHALLENGELEN][..CHALLENGELEN] == validate[..CHALLENGELEN];
  }

  // ---------- One-shot coding ----------

  /** What a whole buffer codes to: nothing while its header is incomplete. */
  function OneShot(dir: Direction, key: seq<byte>, validate: seq<byte>, data: seq<byte>): Option<Coded>
    requires key != [] && |validate| >= CHALLENGELEN
  {
    match FrameOf(data)
    case Incomplete => None
    case Frame(salt, end) => Some(Code(dir, SessionKey(key, validate, salt), data[end..]))
  }

  /** enctypex_decoder without stream data: the payload is decrypted where it stands, the
      results are its place and its length. */
  method Decoder(key: seq<byte>, validate: seq<byte>, data: array<byte>, datalen: nat) returns (p: Option<nat>, len: nat)
    requires datalen <= data.Length && key != [] && |validate| >= CHALLENGELEN
    modifies data
    ensures data[datalen..] == old(data[datalen..])
    ensures match FrameOf(old(data[..datalen]))
      case Incomplete => p == None && len == datalen && data[..] == old(data[..])
      case Frame(salt, end) =>
        p == Some(end) && len == datalen - end && data[..end] == old(data[..end]) &&
        data[end..datalen] == Code(Decrypt, SessionKey(key, validate, salt), old(data[end..datalen])).out
  {
    hide FrameOf, SessionKey, Code;
    var encxkey := new byte[KEYLEN](_ => 0);
    len := datalen;
    p := EnctypexInit(encxkey, key, validate, data, datalen);
    if p == None { return; }
    FrameFits(data[..datalen]);
    len := datalen - p.value;
    ghost var before := data[..];
    assert before[datalen..] == data[datalen..] && before[..p.value] == data[..p.value];
    var n := Func6(encxkey, data, p.value, len);
  }

  method Encoder(key: seq<byte>, validate: seq<byte>, data: array<byte>, datalen: nat) returns (p: Option<nat>, len: nat)
    requires datalen <= data.Length && key != [] && |validate| >= CHALLENGELEN
    modifies data
    ensures data[datalen..] == old(data[datalen..])
    ensures match FrameOf(old(data[..datalen]))
      case Incomplete => p == None && len == datalen && data[..] == old(data[..])
      case Frame(salt, end) =>
        p == Some(end) && len == datalen - end && data[..end] == old(data[..end]) &&
        data[end..datalen] == Code(Encrypt, SessionKey(key, validate, salt), old(data[end..datalen])).out
  {
    hide FrameOf, SessionKey, Code;
    var encxkey := new byte[KEYLEN](_ => 0);
    len := datalen;
    p := EnctypexInit(encxkey, key, validate, data, datalen);
    if p == None { return; }
    FrameFits(data[..datalen]);
    len := datalen - p.value;
    var n := Func6e(encxkey, data, p.value, len);
  }

  lemma FrameFits(data: seq<byte>)
    ensures FrameOf(data).Frame? ==> 2 <= FrameOf(data).end <= |data|
  {
  }

  // ---------- Stream mode ----------

  datatype Stream = Stream(key: xkey, offset: nat, start: nat)

  /** One call of the decoder on a buffer of which everything before the offset is
      already decrypted. */
  function StreamStep(key: seq<byte>, validate: seq<byte>, s: Stream, buf: seq<byte>): (r: (Stream, seq<byte>))
    requires key != [] && |validate| >= CHALLENGELEN && (s.start != 0 ==> s.offset <= |buf|)
  {
    var frame := FrameOf(buf);
    if s.start == 0 && frame.Incomplete? then (s, buf)
    else
      var t := if s.start == 0 then Stream(SessionKey(key, validate, frame.salt), frame.end, frame.end) else s;
      var c := Code(Decrypt, t.key, buf[t.offset..]);
      (Stream(c.key, |buf|, t.start), buf[..t.offset] + c.out)
  }

  /** enctypex_data_t */
  class EnctypexData {
    const encxkey: array<byte>
    var offset: nat
    var start: nat

    constructor ()
      ensures fresh(encxkey) && encxkey.Length == KEYLEN && start == 0
    {
      encxkey := new byte[KEYLEN](_ => 0);
      offset, start := 0, 0;
    }

    ghost function State(): Stream
      requires encxkey.Length == KEYLEN
      reads this, encxkey
    {
      Stream(encxkey[..], offset, start)
    }

    /** enctypex_decoder with stream data. */
    method Decode(key: seq<byte>, validate: seq<byte>, data: array<byte>, datalen: nat) returns (p: Option<nat>)
      requires encxkey.Length == KEYLEN && data != encxkey && datalen <= data.Length
      requires key != [] && |validate| >= CHALLENGELEN && (start != 0 ==> offset <= datalen)
      modifies this, encxkey, data
      ensures (State(), data[..datalen]) == StreamStep(key, validate, old(State()), old(data[..datalen]))
      ensures p == if start == 0 then None else Some(start)
      ensures data[datalen..] == old(data[datalen..])
    {
      hide FrameOf, SessionKey, Code;
      ghost var buf := data[..datalen];
      FrameFits(buf);
      if start == 0 {
        var a := EnctypexInit(encxkey, key, validate, data, datalen);
        if a == None { return None; }
        offset := a.value;
        start := a.value;
      }
      ghost var from := offset;
      var n := Func6(encxkey, data, offset, datalen - offset);
      offset := offset + n;
      assert data[..datalen] == data[..from] + data[from..datalen];
      assert buf[from..] == old(data[from..datalen]) && buf[..from] == old(data[..from]);
      return Some(start);
    }
  }

  /** The session after each of the arrivals was appended to the buffer and the decoder
      called. */
  function Session(key: seq<byte>, validate: seq<byte>, s0: Stream, arrivals: seq<seq<byte>>): (r: (Stream, seq<byte>))
    requires key != [] && |validate| >= CHALLENGELEN && s0.start == 0
    ensures r.0.start != 0 ==> r.0.offset <= |r.1|
  {
    if arrivals == [] then (s0, [])
    else
      var i := |arrivals| - 1;
      var before := Session(key, validate, s0, arrivals[..i]);
      StreamStep(key, validate, before.0, before.1 + arrivals[i])
  }

  /** The session state that goes with the bytes raw. */
  ghost predicate InStep(key: seq<byte>, validate: seq<byte>, s0: Stream, r: (Stream, seq<byte>), raw: seq<byte>)
    requires key != [] && |validate| >= CHALLENGELEN
  {
    match FrameOf(raw)
    case Incomplete => r == (s0, raw)
    case Frame(salt, end) =>
      var c := Code(Decrypt, SessionKey(key, validate, salt), raw[end..]);
      r == (Stream(c.key, |raw|, end), raw[..end] + c.out)
  }

  /** However the data arrives, and however often the decoder is called before the header
      is complete, the session stands where one call on everything received would: every
      payload byte was decrypted exactly once. */
  lemma {:induction false} StreamIsOneShot(key: seq<byte>, validate: seq<byte>, s0: Stream, arrivals: seq<seq<byte>>)
    requires key != [] && |validate| >= CHALLENGELEN && s0.start == 0
    ensures InStep(key, validate, s0, Session(key, validate, s0, arrivals), Flatten(arrivals))
    decreases |arrivals|
  {
    hide FrameOf, SessionKey, Code;
    if arrivals == [] {
      NoFrame();
    } else {
      var i := |arrivals| - 1;
      var more := arrivals[i];
      StreamIsOneShot(key, validate, s0, arrivals[..i]);
      StreamExtends(key, validate, s0, Session(key, validate, s0, arrivals[..i]), Flatten(arrivals[..i]), more);
      assert arrivals == arrivals[..i] + [more];
      FlattenSnoc(arrivals[..i], more);
    }
  }

  lemma NoFrame()
    ensures FrameOf([]) == Incomplete
  {
  }

  lemma StreamExtends(key: seq<byte>, validate: seq<byte>, s0: Stream, r: (Stream, seq<byte>), raw: seq<byte>,
           more: seq<byte>)
    requires key != [] && |validate| >= CHALLENGELEN && s0.start == 0 && InStep(key, validate, s0, r, raw)
    ensures InStep(key, validate, s0, StreamStep(key, validate, r.0, r.1 + more), raw + more)
  {
    hide FrameOf, SessionKey, Code;
    var all := raw + more;
    FrameFits(raw);
    FrameFits(all);
    match FrameOf(raw)
    case Incomplete =>
    case Frame(salt, end) =>
      FrameStays(raw, more);
      var k := SessionKey(key, validate, salt);
      var c := Code(Decrypt, k, raw[end..]);
      CodeConcat(Decrypt, k, raw[end..], more);
      assert all[end..] == raw[end..] + more && all[..end] == raw[..end];
      var buf := r.1 + more;
      assert buf[|raw|..] == more && buf[..|raw|] == raw[..end] + c.out;
      var d := Code(Decrypt, c.key, more);
      assert raw[..end] + c.out + d.out == raw[..end] + (c.out + d.out);
  }

  // ---------- enctypex_quick_encrypt and enctypex_wrapper ----------

  const QUICKHEADER := 23

  /** The header: random bytes mixed with the texts, except for the two length bytes and
      two zeros. */
  function QuickHeader(key: seq<byte>, validate: seq<byte>, rnd: seq<byte>): (h: seq<byte>)
    requires key != [] && validate != [] && |rnd| == QUICKHEADER
    ensures |h| == QUICKHEADER
  {
    var h := seq<byte>(QUICKHEADER, i requires 0 <= i < QUICKHEADER =>
      XorByte(XorByte(rnd[i], key[i % |key|]), validate[i % |validate|]));
    h[0 := 0xeb][1 := 0][2 := 0][8 := 0xe4]
  }

  /** Its bytes: four fixed ones, of which the first and the ninth are the lengths 7 and 14 on
      the wire, and random ones laid over with the texts. */
  lemma QuickHeaderIs(key: seq<byte>, validate: seq<byte>, rnd: seq<byte>, i: nat)
    requires key != [] && validate != [] && |rnd| == 23 && i < 23
    ensures QuickHeader(key, validate, rnd)[i] ==
      if i == 0 then 0xeb else if i == 1 || i == 2 then 0 else if i == 8 then 0xe4
      else XorByte(XorByte(rnd[i], key[i % |key|]), validate[i % |validate|])
  {
    hide XorByte;
  }

  lemma XorLengths()
    ensures XorByte(0xeb, 0xec) == 7 && XorByte(0xe4, 0xea) == 14
  {
    hide Xor;
    XorUnfold(0xeb, 0xec);
    XorUnfold(0x75, 0x76);
    XorUnfold(0x3a, 0x3b);
    XorSelf(0x1d);
    XorUnfold(0xe4, 0xea);
    XorUnfold(0x72, 0x75);
    XorUnfold(0x39, 0x3a);
    XorUnfold(0x1c, 0x1d);
    XorSelf(0x0e);
  }

  /** The quick header frames itself, whatever its random bytes and what follows. */
  lemma QuickFrame(key: seq<byte>, validate: seq<byte>, rnd: seq<byte>, rest: seq<byte>)
    requires key != [] && validate != [] && |rnd| == QUICKHEADER
    ensures var h := QuickHeader(key, validate, rnd); FrameOf(h + rest) == Frame(h[9..], QUICKHEADER)
  {
    var h := QuickHeader(key, validate, rnd);
    XorLengths();
    hide QuickHeader, XorByte;
    assert (h + rest)[9..23] == h[9..];
    FrameFromLengths(h + rest);
  }

  lemma FrameFromLengths(data: seq<byte>)
    requires |data| >= 23 && XorByte(data[0], 0xec) == 7 && XorByte(data[8], 0xea) == 14
    ensures FrameOf(data) == Frame(data[9..23], 23)
  {
    hide XorByte;
  }

  function QuickEncrypted(key: seq<byte>, validate: seq<byte>, rnd: seq<byte>, plain: seq<byte>): (data: seq<byte>)
    requires key != [] && |validate| >= CHALLENGELEN && |rnd| == QUICKHEADER
    ensures |data| == |plain| + QUICKHEADER
  {
    var h := QuickHeader(key, validate, rnd);
    h + Code(Encrypt, SessionKey(key, validate, h[9..]), plain).out
  }

  method QuickEncrypt(key: seq<byte>, validate: seq<byte>, data: array<byte>, size: nat, rnd: seq<byte>) returns (n: nat)
    requires key != [] && |validate| >= CHALLENGELEN && |rnd| == QUICKHEADER && size + QUICKHEADER <= data.Length
    modifies data
    ensures n == size + QUICKHEADER && data[..n] == QuickEncrypted(key, validate, rnd, old(data[..size]))
    ensures data[n..] == old(data[n..])
  {
    hide XorByte, Code, SessionKey, FrameOf;
    var tmp := new byte[QUICKHEADER](i requires 0 <= i < QUICKHEADER =>
      XorByte(XorByte(rnd[i], key[i % |key|]), validate[i % |validate|]));
    tmp[0] := 0xeb;
    tmp[1] := 0x00;
    tmp[2] := 0x00;
    tmp[8] := 0xe4;
    ghost var h, plain := QuickHeader(key, validate, rnd), data[..size];
    assert tmp[..] == h;
    hide QuickHeader;
    n := PutHeader(data, size, tmp);
    QuickFrame(key, validate, rnd, plain);
    assert (h + plain)[QUICKHEADER..] == plain && (h + plain)[..QUICKHEADER] == h;
    assert data[QUICKHEADER..n] == data[..n][QUICKHEADER..] && data[..QUICKHEADER] == data[..n][..QUICKHEADER];
    var p, len := Encoder(key, validate, data, n);
    assert data[..n] == data[..QUICKHEADER] + data[QUICKHEADER..n];
  }

  /** The in-place part: move the data up, from its end to its start, and put the header
      in front. */
  method PutHeader(data: array<byte>, size: nat, tmp: array<byte>) returns (n: nat)
    requires tmp.Length == QUICKHEADER && tmp != data && size + QUICKHEADER <= data.Length
    modifies data
    ensures n == size + QUICKHEADER && data[..n] == tmp[..] + old(data[..size]) && data[n..] == old(data[n..])
  {
    ghost var plain := data[..size];
    var i := size - 1;
    while i >= 0
      invariant -1 <= i < size
      invariant forall j :: 0 <= j <= i ==> data[j] == plain[j]
      invariant forall j :: QUICKHEADER + i < j < size + QUICKHEADER ==> data[j] == plain[j - QUICKHEADER]
      invariant forall j :: size + QUICKHEADER <= j < data.Length ==> data[j] == old(data[j])
    {
      data[QUICKHEADER + i] := data[i];
      i := i - 1;
    }
    forall j | 0 <= j < QUICKHEADER {
      data[j] := tmp[j];
    }
    n := size + QUICKHEADER;
    assert data[n..] == old(data[n..]);
  }

  /** Without a header there is nothing to move; None is the outcome where the source moves
      bytes from a null pointer. */
  method Wrapper(key: seq<byte>, validate: seq<byte>, data: array<byte>, size: nat) returns (n: Option<nat>)
    requires key != [] && |validate| >= CHALLENGELEN && size <= data.Length
    modifies data
    ensures match FrameOf(old(data[..size]))
      case Incomplete => n == (if size == 0 then Some(0) else None) && data[..] == old(data[..])
      case Frame(_, end) =>
        n == Some(size - end) && data[..size - end] == OneShot(Decrypt, key, validate, old(data[..size])).value.out
  {
    hide FrameOf, SessionKey, Code;
    ghost var was := data[..size];
    var p, len := Decoder(key, validate, data, size);
    if p == None {
      return if len == 0 then Some(0) else None;
    }
    FrameFits(was);
    ghost var plain := data[p.value..size];
    assert was[p.value..] == old(data[p.value..size]);
    MoveDown(data, p.value, len);
    n := Some(len);
  }

  /** memmove to the front */
  method MoveDown(data: array<byte>, p: nat, len: nat)
    requires p + len <= data.Length
    modifies data
    ensures data[..len] == old(data[p..p + len])
  {
    forall j | 0 <= j < len {
      data[j] := data[p + j];
    }
  }

  /** Unwrapping what was quickly encrypted with the same texts restores the data. */
  lemma WrapperUndoesQuickEncrypt(key: seq<byte>, validate: seq<byte>, rnd: seq<byte>, plain: seq<byte>)
    requires key != [] && |validate| >= CHALLENGELEN && |rnd| == QUICKHEADER
    ensures var data := QuickEncrypted(key, validate, rnd, plain);
      FrameOf(data).Frame? && |data| - FrameOf(data).end == |plain| &&
      OneShot(Decrypt, key, validate, data).value.out == plain
  {
    hide FrameOf, SessionKey, Code, QuickHeader;
    var h := QuickHeader(key, validate, rnd);
    var k := SessionKey(key, validate, h[9..]);
    var c := Code(Encrypt, k, plain);
    QuickFrame(key, validate, rnd, c.out);
    CodeInverse(Encrypt, k, plain);
    assert (h + c.out)[QUICKHEADER..] == c.out;
  }

  method QuickRoundTrip(key: seq<byte>, validate: seq<byte>, data: array<byte>, size: nat, rnd: seq<byte>) returns (n: nat)
    requires key != [] && |validate| >= CHALLENGELEN && |rnd| == QUICKHEADER && size + QUICKHEADER <= data.Length
    modifies data
    ensures n == size && data[..n] == old(data[..size])
  {
    hide QuickEncrypted, OneShot, FrameOf;
    WrapperUndoesQuickEncrypt(key, validate, rnd, data[..size]);
    n := QuickEncrypt(key, validate, data, size, rnd);
    var left := Wrapper(key, validate, data, n);
    n := left.value;
  }
}
