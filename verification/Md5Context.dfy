/** md5.c: a context that takes a message piece by piece, and HMAC built on it. */
module Md5Context {
  import opened Bits
  import opened Md5
  import opened Md5Words

  function LowState(a: ulong, b: ulong, c: ulong, d: ulong): State {
    State(Low(a), Low(b), Low(c), Low(d))
  }

  function LowWords(x: seq<ulong>): (y: seq<word>)
    ensures |y| == |x| && forall i :: 0 <= i < |x| ==> y[i] == Low(x[i])
  {
    seq(|x|, i requires 0 <= i < |x| => Low(x[i]))
  }

  /** One line of md5_process: register a is replaced, which takes the rotated registers to
      the state after step i. */
  method P(x: seq<ulong>, ghost start: State, ghost i: nat, round: nat, a: ulong, b: ulong, c: ulong, d: ulong,
           k: nat, s: nat, t: word)
    returns (r: ulong)
    requires |x| == 16 && i < 64 && round == i / 16 && k == K(i) && s == S(i) && t == T(i)
    requires LowState(a, b, c, d) == Steps(LowWords(x), start, i)
    ensures LowState(d, r, b, c) == Steps(LowWords(x), start, i + 1)
  {
    hide T, Low, ReplacedLong, Replaced;
    r := ReplacedLong(round, a, b, c, d, x[k], s, t);
    LowReplaced(round, a, b, c, d, x[k], s, t);
  }

  method Round1(x: seq<ulong>, ghost start: State, a: ulong, b: ulong, c: ulong, d: ulong)
    returns (A: ulong, B: ulong, C: ulong, D: ulong)
    requires |x| == 16 && LowState(a, b, c, d) == Steps(LowWords(x), start, 0)
    ensures LowState(A, B, C, D) == Steps(LowWords(x), start, 16)
  {
    hide Steps, LowWords, LowState;
    A, B, C, D := a, b, c, d;
    A := P(x, start, 0, 0, A, B, C, D, 0, 7, 0xd76a_a478);
    D := P(x, start, 1, 0, D, A, B, C, 1, 12, 0xe8c7_b756);
    C := P(x, start, 2, 0, C, D, A, B, 2, 17, 0x2420_70db);
    B := P(x, start, 3, 0, B, C, D, A, 3, 22, 0xc1bd_ceee);
    A := P(x, start, 4, 0, A, B, C, D, 4, 7, 0xf57c_0faf);
    D := P(x, start, 5, 0, D, A, B, C, 5, 12, 0x4787_c62a);
    C := P(x, start, 6, 0, C, D, A, B, 6, 17, 0xa830_4613);
    B := P(x, start, 7, 0, B, C, D, A, 7, 22, 0xfd46_9501);
    A := P(x, start, 8, 0, A, B, C, D, 8, 7, 0x6980_98d8);
    D := P(x, start, 9, 0, D, A, B, C, 9, 12, 0x8b44_f7af);
    C := P(x, start, 10, 0, C, D, A, B, 10, 17, 0xffff_5bb1);
    B := P(x, start, 11, 0, B, C, D, A, 11, 22, 0x895c_d7be);
    A := P(x, start, 12, 0, A, B, C, D, 12, 7, 0x6b90_1122);
    D := P(x, start, 13, 0, D, A, B, C, 13, 12, 0xfd98_7193);
    C := P(x, start, 14, 0, C, D, A, B, 14, 17, 0xa679_438e);
    B := P(x, start, 15, 0, B, C, D, A, 15, 22, 0x49b4_0821);
  }

  method Round2(x: seq<ulong>, ghost start: State, a: ulong, b: ulong, c: ulong, d: ulong)
    returns (A: ulong, B: ulong, C: ulong, D: ulong)
    requires |x| == 16 && LowState(a, b, c, d) == Steps(LowWords(x), start, 16)
    ensures LowState(A, B, C, D) == Steps(LowWords(x), start, 32)
  {
    hide Steps, LowWords, LowState;
    A, B, C, D := a, b, c, d;
    A := P(x, start, 16, 1, A, B, C, D, 1, 5, 0xf61e_2562);
    D := P(x, start, 17, 1, D, A, B, C, 6, 9, 0xc040_b340);
    C := P(x, start, 18, 1, C, D, A, B, 11, 14, 0x265e_5a51);
    B := P(x, start, 19, 1, B, C, D, A, 0, 20, 0xe9b6_c7aa);
    A := P(x, start, 20, 1, A, B, C, D, 5, 5, 0xd62f_105d);
    D := P(x, start, 21, 1, D, A, B, C, 10, 9, 0x0244_1453);
    C := P(x, start, 22, 1, C, D, A, B, 15, 14, 0xd8a1_e681);
    B := P(x, start, 23, 1, B, C, D, A, 4, 20, 0xe7d3_fbc8);
    A := P(x, start, 24, 1, A, B, C, D, 9, 5, 0x21e1_cde6);
    D := P(x, start, 25, 1, D, A, B, C, 14, 9, 0xc337_07d6);
    C := P(x, start, 26, 1, C, D, A, B, 3, 14, 0xf4d5_0d87);
    B := P(x, start, 27, 1, B, C, D, A, 8, 20, 0x455a_14ed);
    A := P(x, start, 28, 1, A, B, C, D, 13, 5, 0xa9e3_e905);
    D := P(x, start, 29, 1, D, A, B, C, 2, 9, 0xfcef_a3f8);
    C := P(x, start, 30, 1, C, D, A, B, 7, 14, 0x676f_02d9);
    B := P(x, start, 31, 1, B, C, D, A, 12, 20, 0x8d2a_4c8a);
  }

  method Round3(x: seq<ulong>, ghost start: State, a: ulong, b: ulong, c: ulong, d: ulong)
    returns (A: ulong, B: ulong, C: ulong, D: ulong)
    requires |x| == 16 && LowState(a, b, c, d) == Steps(LowWords(x), start, 32)
    ensures LowState(A, B, C, D) == Steps(LowWords(x), start, 48)
  {
    hide Steps, LowWords, LowState;
    A, B, C, D := a, b, c, d;
    A := P(x, start, 32, 2, A, B, C, D, 5, 4, 0xfffa_3942);
    D := P(x, start, 33, 2, D, A, B, C, 8, 11, 0x8771_f681);
    C := P(x, start, 34, 2, C, D, A, B, 11, 16, 0x6d9d_6122);
    B := P(x, start, 35, 2, B, C, D, A, 14, 23, 0xfde5_380c);
    A := P(x, start, 36, 2, A, B, C, D, 1, 4, 0xa4be_ea44);
    D := P(x, start, 37, 2, D, A, B, C, 4, 11, 0x4bde_cfa9);
    C := P(x, start, 38, 2, C, D, A, B, 7, 16, 0xf6bb_4b60);
    B := P(x, start, 39, 2, B, C, D, A, 10, 23, 0xbebf_bc70);
    A := P(x, start, 40, 2, A, B, C, D, 13, 4, 0x289b_7ec6);
    D := P(x, start, 41, 2, D, A, B, C, 0, 11, 0xeaa1_27fa);
    C := P(x, start, 42, 2, C, D, A, B, 3, 16, 0xd4ef_3085);
    B := P(x, start, 43, 2, B, C, D, A, 6, 23, 0x0488_1d05);
    A := P(x, start, 44, 2, A, B, C, D, 9, 4, 0xd9d4_d039);
    D := P(x, start, 45, 2, D, A, B, C, 12, 11, 0xe6db_99e5);
    C := P(x, start, 46, 2, C, D, A, B, 15, 16, 0x1fa2_7cf8);
    B := P(x, start, 47, 2, B, C, D, A, 2, 23, 0xc4ac_5665);
  }

  method Round4(x: seq<ulong>, ghost start: State, a: ulong, b: ulong, c: ulong, d: ulong)
    returns (A: ulong, B: ulong, C: ulong, D: ulong)
    requires |x| == 16 && LowState(a, b, c, d) == Steps(LowWords(x), start, 48)
    ensures LowState(A, B, C, D) == Steps(LowWords(x), start, 64)
  {
    hide Steps, LowWords, LowState;
    A, B, C, D := a, b, c, d;
    A := P(x, start, 48, 3, A, B, C, D, 0, 6, 0xf429_2244);
    D := P(x, start, 49, 3, D, A, B, C, 7, 10, 0x432a_ff97);
    C := P(x, start, 50, 3, C, D, A, B, 14, 15, 0xab94_23a7);
    B := P(x, start, 51, 3, B, C, D, A, 5, 21, 0xfc93_a039);
    A := P(x, start, 52, 3, A, B, C, D, 12, 6, 0x655b_59c3);
    D := P(x, start, 53, 3, D, A, B, C, 3, 10, 0x8f0c_cc92);
    C := P(x, start, 54, 3, C, D, A, B, 10, 15, 0xffef_f47d);
    B := P(x, start, 55, 3, B, C, D, A, 1, 21, 0x8584_5dd1);
    A := P(x, start, 56, 3, A, B, C, D, 8, 6, 0x6fa8_7e4f);
    D := P(x, start, 57, 3, D, A, B, C, 15, 10, 0xfe2c_e6e0);
    C := P(x, start, 58, 3, C, D, A, B, 6, 15, 0xa301_4314);
    B := P(x, start, 59, 3, B, C, D, A, 13, 21, 0x4e08_11a1);
    A := P(x, start, 60, 3, A, B, C, D, 4, 6, 0xf753_7e82);
    D := P(x, start, 61, 3, D, A, B, C, 11, 10, 0xbd3a_f235);
    C := P(x, start, 62, 3, C, D, A, B, 2, 15, 0x2ad7_d2bb);
    B := P(x, start, 63, 3, B, C, D, A, 9, 21, 0xeb86_d391);
  }

  /** GET_ULONG_LE: the four bytes share no bit. */
  function GetLe(b: seq<byte>, i: nat): ulong
    requires i + 4 <= |b|
  {
    (b[i] as int) + (b[i + 1] as int) * 0x100 + (b[i + 2] as int) * 0x1_0000 + (b[i + 3] as int) * 0x100_0000
  }

  /** PUT_ULONG_LE: the low four bytes of a word */
  function PutLe(n: ulong): (b: seq<byte>)
    ensures |b| == 4
  {
    [n % 0x100, n / 0x100 % 0x100, n / 0x1_0000 % 0x100, n / 0x100_0000 % 0x100]
  }

  lemma PutLeIsLow(n: ulong)
    ensures PutLe(n) == BytesOf(Low(n))
  {
    hide Lane, Low;
    var q, l := n / MODULUS, Low(n);
    assert n == MODULUS * q + l by {
      LowIsRest(n);
    }
    Lane0(q, l);
    Lane1(q, l);
    Lane2(q, l);
    Lane3(q, l);
  }

  lemma LowIsRest(n: ulong)
    ensures n == MODULUS * (n / MODULUS) + Low(n)
  {
  }

  lemma Lane0(q: nat, l: word)
    ensures (MODULUS * q + l) % 0x100 == Lane(l, 0)
  {
    DivUnique(MODULUS * q + l, 0x100, 0x100_0000 * q + l / 0x100, l % 0x100);
  }

  lemma Lane1(q: nat, l: word)
    ensures (MODULUS * q + l) / 0x100 % 0x100 == Lane(l, 1)
  {
    DivUnique(MODULUS * q + l, 0x100, 0x100_0000 * q + l / 0x100, l % 0x100);
    DivUnique(0x100_0000 * q + l / 0x100, 0x100, 0x1_0000 * q + l / 0x100 / 0x100, l / 0x100 % 0x100);
  }

  lemma Lane2(q: nat, l: word)
    ensures (MODULUS * q + l) / 0x1_0000 % 0x100 == Lane(l, 2)
  {
    DivUnique(MODULUS * q + l, 0x1_0000, 0x1_0000 * q + l / 0x1_0000, l % 0x1_0000);
    DivUnique(0x1_0000 * q + l / 0x1_0000, 0x100, 0x100 * q + l / 0x1_0000 / 0x100, l / 0x1_0000 % 0x100);
  }

  lemma Lane3(q: nat, l: word)
    ensures (MODULUS * q + l) / 0x100_0000 % 0x100 == Lane(l, 3)
  {
    DivUnique(MODULUS * q + l, 0x100_0000, 0x100 * q + l / 0x100_0000, l % 0x100_0000);
    DivUnique(0x100 * q + l / 0x100_0000, 0x100, q, l / 0x100_0000);
  }

  lemma GetLeIsWord(data: seq<byte>, x: seq<ulong>)
    requires |data| == 64 && |x| == 16 && forall i :: 0 <= i < 16 ==> x[i] == GetLe(data, 4 * i)
    ensures LowWords(x) == Words(data)
  {
    hide GetLe, WordOf, Low;
    forall i | 0 <= i < 16 ensures Low(x[i]) == Words(data)[i] {
      OneWord(data, 4 * i);
    }
  }

  lemma OneWord(data: seq<byte>, i: nat)
    requires i + 4 <= |data|
    ensures Low(GetLe(data, i)) == WordOf(data[i..i + 4])
  {
  }

  lemma NoSteps(x: seq<word>, s: State)
    requires |x| == 16
    ensures Steps(x, s, 0) == s
  {
  }

  /** The message taken so far is represented if the low halves of the state are the hash of
      its whole blocks, the rest is in the buffer, and its length is in total. */
  class Context {
    var total0: ulong
    var total1: ulong
    var a: ulong
    var b: ulong
    var c: ulong
    var d: ulong
    const buffer: array<byte>
    const ipad: array<byte>
    const opad: array<byte>

    ghost predicate Valid() {
      buffer.Length == ipad.Length == opad.Length == 64 && buffer != ipad && buffer != opad && ipad != opad
    }

    ghost predicate Holds(m: seq<byte>)
      reads this, buffer
    {
      Valid() && total0 == |m| % MODULUS && total1 == Wrap(|m| / MODULUS) &&
      LowState(a, b, c, d) == Hash(INIT, m) && buffer[..|m| % 64] == m[|m| - |m| % 64..]
    }

    constructor ()
      ensures Valid() && fresh(buffer) && fresh(ipad) && fresh(opad)
    {
      buffer := new byte[64];
      ipad := new byte[64];
      opad := new byte[64];
    }

    method Starts()
      requires Valid()
      modifies this
      ensures Holds([])
    {
      total0, total1 := 0, 0;
      a, b, c, d := 0x6745_2301, 0xefcd_ab89, 0x98ba_dcfe, 0x1032_5476;
    }

    method Process(data: seq<byte>)
      requires |data| == 64
      modifies `a, `b, `c, `d
      ensures LowState(a, b, c, d) == Compress(old(LowState(a, b, c, d)), data)
    {
      hide Steps, Words, LowWords, GetLe;
      var x: seq<ulong> := seq(16, i requires 0 <= i < 16 => GetLe(data, 4 * i));
      GetLeIsWord(data, x);
      ghost var start := LowState(a, b, c, d);
      NoSteps(LowWords(x), start);
      var A, B, C, D := Round1(x, start, a, b, c, d);
      A, B, C, D := Round2(x, start, A, B, C, D);
      A, B, C, D := Round3(x, start, A, B, C, D);
      A, B, C, D := Round4(x, start, A, B, C, D);
      LowSum2(a, A);
      LowSum2(b, B);
      LowSum2(c, C);
      LowSum2(d, D);
      a, b, c, d := Wrap(a + A), Wrap(b + B), Wrap(c + C), Wrap(d + D);
    }

    /** The whole blocks of w up to q are hashed, and the next left bytes are in the buffer. */
    ghost predicate Taken(w: seq<byte>, q: nat, left: nat)
      reads `a, `b, `c, `d, buffer
    {
      Valid() && left < 64 && q % 64 == 0 && q + left <= |w| &&
      LowState(a, b, c, d) == Hash(INIT, w[..q]) && buffer[..left] == w[q..q + left]
    }

    /** Whatever a message is cut into for md5_update, what the context holds is the whole. */
    method Update(input: seq<byte>, ghost m: seq<byte>)
      requires Holds(m) && |input| < 0x8000_0000
      modifies this, buffer
      ensures Holds(m + input)
    {
      hide Hash, LowState, Taken, Holds, Wrap;
      if |input| <= 0 {
        assert m + input == m;
        return;
      }
      var left := total0 % 64;
      var fill := 64 - left;
      ghost var w, q := m + input, |m| - |m| % 64;
      HoldsIsTaken(m, input);
      Count(|input|, |m|);
      var p: nat := 0;
      if left != 0 && |input| >= fill {
        Fill(input, left, w, q);
        p := fill;
        left := 0;
        q := q + 64;
      }
      p, q := WholeBlocks(input, p, left, w, q);
      KeepRest(input, p, left, w, q);
      TakenIsHeld(w, q, left + |input| - p);
    }

    /** What does not fill a block waits in the buffer. */
    method KeepRest(input: seq<byte>, p: nat, left: nat, ghost w: seq<byte>, ghost q: nat)
      requires Taken(w, q, left) && p <= |input| < p + 64 - left && q + left + |input| - p == |w|
      requires input[p..] == w[q + left..]
      modifies buffer
      ensures Taken(w, q, left + |input| - p)
    {
      hide Hash, LowState;
      var n := |input| - p;
      if n > 0 {
        CopyTo(buffer, left, input, p, n);
        assert input[p..p + n] == w[q + left..];
        assert buffer[..left + n] == w[q..q + left] + w[q + left..] == w[q..q + left + n];
      }
    }

    method Count(len: nat, ghost n: nat)
      requires len < 0x8000_0000 && total0 == n % MODULUS && total1 == Wrap(n / MODULUS)
      modifies `total0, `total1
      ensures total0 == (n + len) % MODULUS && total1 == Wrap((n + len) / MODULUS)
    {
      hide Wrap;
      Totals(n, len);
      total0 := (total0 + len) % MODULUS;
      if total0 < len {
        total1 := Wrap(total1 + 1);
      }
    }

    /** The buffer is filled up and hashed. */
    method Fill(input: seq<byte>, left: nat, ghost w: seq<byte>, ghost q: nat)
      requires Taken(w, q, left) && 64 - left <= |input| && q + left + |input| == |w| && input == w[q + left..]
      modifies buffer, `a, `b, `c, `d
      ensures Taken(w, q + 64, 0)
    {
      hide Hash, LowState;
      CopyTo(buffer, left, input, 0, 64 - left);
      assert buffer[..] == buffer[..64];
      Adjacent(w, q, left, 64, input);
      TakeBlock(buffer[..], w, q);
    }

    method WholeBlocks(input: seq<byte>, p_: nat, left: nat, ghost w: seq<byte>, ghost q_: nat)
      returns (p: nat, ghost q: nat)
      requires Taken(w, q_, left) && p_ <= |input| && q_ + left + |input| - p_ == |w| && input[p_..] == w[q_ + left..]
      requires left != 0 ==> left + |input| - p_ < 64
      modifies `a, `b, `c, `d
      ensures p_ <= p <= |input| < p + 64 - left && q - q_ == p - p_ && Taken(w, q, left)
    {
      hide Hash, LowState;
      p, q := p_, q_;
      while |input| - p >= 64
        invariant p_ <= p <= |input| && q - q_ == p - p_ && Taken(w, q, left)
      {
        assert input[p..p + 64] == input[p_..][p - p_..p - p_ + 64] == w[q..q + 64];
        TakeBlock(input[p..p + 64], w, q);
        p := p + 64;
        q := q + 64;
      }
    }

    method TakeBlock(block: seq<byte>, ghost w: seq<byte>, ghost q: nat)
      requires Valid() && q % 64 == 0 && q + 64 <= |w| && block == w[q..q + 64] && LowState(a, b, c, d) == Hash(INIT, w[..q])
      modifies `a, `b, `c, `d
      ensures Taken(w, q + 64, 0)
    {
      hide Hash, Compress, LowState;
      assert w[..q + 64] == w[..q] + block;
      HashAppend(INIT, w[..q], block);
      HashBlock(Hash(INIT, w[..q]), block);
      Process(block);
    }

    /** memcpy */
    static method CopyTo(to: array<byte>, at: nat, from: seq<byte>, p: nat, n: nat)
      requires at + n <= to.Length && p + n <= |from|
      modifies to
      ensures to[..at + n] == old(to[..at]) + from[p..p + n]
    {
      var k := 0;
      while k < n
        invariant k <= n && to[..at + k] == old(to[..at]) + from[p..p + k]
      {
        to[at + k] := from[p + k];
        assert from[p..p + k + 1] == from[p..p + k] + [from[p + k]];
        k := k + 1;
      }
    }

    /** md5_finish: the message is padded and the digest of the whole comes out. */
    method Finish(ghost m: seq<byte>) returns (output: seq<byte>)
      requires Holds(m)
      modifies this, buffer
      ensures output == Digest(m)
    {
      hide Hash, HashBlocks, LowState, BytesOf, PutLe, Low, Wrap, Zeros;
      var high := Wrap(total0 / 0x2000_0000 + Wrap(total1 * 8));
      var low := Wrap(total0 * 8);
      var msglen := PutLe(low) + PutLe(high);
      var last := total0 % 64;
      var padn := if last < 56 then 56 - last else 120 - last;
      var padding := [0x80] + Zeros(63);
      PaddingIs(m, padn, msglen, low, high);
      Update(padding[..padn], m);
      Update(msglen, m + padding[..padn]);
      output := PutLe(a) + PutLe(b) + PutLe(c) + PutLe(d);
      OutputIs(a, b, c, d);
      PaddedLength(m);
      HashIsBlocks(INIT, Padded(m));
    }

    /** md5_hmac_starts: a key longer than a block is digested first. */
    method HmacStarts(key_: seq<byte>)
      requires Valid() && |key_| < 0x8000_0000
      modifies this, buffer, ipad, opad
      ensures Holds(XorAll(BlockKey(key_), 0x36)) && opad[..] == XorAll(BlockKey(key_), 0x5c)
    {
      hide Hash, LowState, Digest, XorByte;
      var key := key_;
      if |key| > 64 {
        key := DigestOf([key]);
        assert Flatten([key_]) == key_ + Flatten([]) == key_;
      }
      SetPads(key, BlockKey(key_));
      Starts();
      Update(ipad[..], []);
      assert [] + ipad[..] == ipad[..];
    }

    method SetPads(key: seq<byte>, ghost k: seq<byte>)
      requires Valid() && |key| <= 64 && k == key + Zeros(64 - |key|)
      modifies ipad, opad
      ensures ipad[..] == XorAll(k, 0x36) && opad[..] == XorAll(k, 0x5c)
    {
      hide XorByte;
      for i := 0 to 64
        invariant forall j :: 0 <= j < i ==> ipad[j] == 0x36 && opad[j] == 0x5c
      {
        ipad[i] := 0x36;
        opad[i] := 0x5c;
      }
      var i := 0;
      while i < |key|
        invariant i <= |key|
        invariant forall j :: 0 <= j < i ==> ipad[j] == XorByte(key[j], 0x36) && opad[j] == XorByte(key[j], 0x5c)
        invariant forall j :: i <= j < 64 ==> ipad[j] == 0x36 && opad[j] == 0x5c
      {
        XorPads(ipad[i], opad[i], key[i]);
        ipad[i] := XorByte(ipad[i], key[i]);
        opad[i] := XorByte(opad[i], key[i]);
        i := i + 1;
      }
      NoKey();
    }

    method HmacFinish(ghost key: seq<byte>, ghost text: seq<byte>) returns (output: seq<byte>)
      requires Holds(XorAll(BlockKey(key), 0x36) + text) && opad[..] == XorAll(BlockKey(key), 0x5c)
      modifies this, buffer
      ensures output == Hmac(key, text)
    {
      hide Hash, LowState, Digest, XorByte, XorAll, BlockKey;
      ghost var outer := XorAll(BlockKey(key), 0x5c);
      var tmpbuf := Finish(XorAll(BlockKey(key), 0x36) + text);
      output := OuterDigest(tmpbuf, outer);
    }

    method OuterDigest(tmpbuf: seq<byte>, ghost outer: seq<byte>) returns (output: seq<byte>)
      requires Valid() && opad[..] == outer && |tmpbuf| == 16
      modifies this, buffer
      ensures output == Digest(outer + tmpbuf)
    {
      hide Hash, LowState, Digest;
      Starts();
      assert [] + outer == outer;
      Update(opad[..], []);
      Update(tmpbuf, outer);
      output := Finish(outer + tmpbuf);
    }

    lemma HoldsIsTaken(m: seq<byte>, input: seq<byte>)
      requires Holds(m)
      ensures Taken(m + input, |m| - |m| % 64, |m| % 64) && total0 % 64 == |m| % 64
      ensures Valid() && total0 == |m| % MODULUS && total1 == Wrap(|m| / MODULUS)
    {
      hide LowState, Hash;
      var q := |m| - |m| % 64;
      WholeBlocksOf(|m|);
      HashRest(m, q);
      assert (m + input)[..q] == m[..q] && (m + input)[q..|m|] == m[q..];
    }

    lemma TakenIsHeld(w: seq<byte>, q: nat, left: nat)
      requires Taken(w, q, left) && q + left == |w|
      requires total0 == |w| % MODULUS && total1 == Wrap(|w| / MODULUS)
      ensures Holds(w)
    {
      hide LowState, Hash;
      HashRest(w, q);
      RestOf(q, left);
    }
  }

  lemma Adjacent(w: seq<byte>, q: nat, i: nat, j: nat, rest: seq<byte>)
    requires i <= j && q + j <= |w| && rest == w[q + i..]
    ensures w[q..q + i] + rest[0..j - i] == w[q..q + j]
  {
    assert rest[0..j - i] == w[q + i..q + j];
  }

  lemma WholeBlocksOf(n: nat)
    ensures (n - n % 64) % 64 == 0 && n % MODULUS % 64 == n % 64
  {
    Euclid(n, 64);
    DivUnique(n - n % 64, 64, n / 64, 0);
    var k, t := n / MODULUS, n % MODULUS;
    Euclid(n, MODULUS);
    Euclid(t, 64);
    DivUnique(n, 64, 0x400_0000 * k + t / 64, t % 64);
  }

  lemma RestOf(q: nat, left: nat)
    requires q % 64 == 0 && left < 64
    ensures (q + left) % 64 == left
  {
  }

  /** What is left over after the whole blocks is not hashed yet. */
  lemma HashRest(m: seq<byte>, q: nat)
    requires q % 64 == 0 && q <= |m| < q + 64
    ensures Hash(INIT, m) == Hash(INIT, m[..q])
  {
    assert m == m[..q] + m[q..];
    HashAppend(INIT, m[..q], m[q..]);
  }

  /** The two words of the length, with the carry that the comparison notices */
  lemma Totals(n: nat, len: nat)
    requires len < 0x8000_0000
    ensures var t := (n % MODULUS + len) % MODULUS;
      t == (n + len) % MODULUS && (n + len) / MODULUS == n / MODULUS + (if t < len then 1 else 0)
    ensures Wrap(Wrap(n / MODULUS) + 1) == Wrap(n / MODULUS + 1)
  {
    var k, t := n / MODULUS, n % MODULUS;
    Euclid(n, MODULUS);
    var carry := if t + len < MODULUS then 0 else 1;
    DivUnique(n + len, MODULUS, k + carry, t + len - carry * MODULUS);
    DivUnique(t + len, MODULUS, carry, t + len - carry * MODULUS);
    WrapNext(k);
  }

  lemma WrapNext(x: nat)
    ensures Wrap(Wrap(x) + 1) == Wrap(x + 1)
  {
    var m := 0x1_0000_0000_0000_0000;
    Euclid(x, m);
    var carry := if x % m + 1 < m then 0 else 1;
    DivUnique(x + 1, m, x / m + carry, x % m + 1 - carry * m);
    DivUnique(x % m + 1, m, carry, x % m + 1 - carry * m);
  }

  lemma OutputIs(a: ulong, b: ulong, c: ulong, d: ulong)
    ensures PutLe(a) + PutLe(b) + PutLe(c) + PutLe(d) == Output(LowState(a, b, c, d))
  {
    hide PutLe, BytesOf, Low;
    PutLeIsLow(a);
    PutLeIsLow(b);
    PutLeIsLow(c);
    PutLeIsLow(d);
  }

  /** The length in bits, put together from the two words of the length in bytes */
  lemma LengthIs(n: nat)
    ensures var t, u := n % MODULUS, Wrap(n / MODULUS);
      Low(Wrap(t * 8)) == 8 * n % MODULUS && Low(Wrap(t / 0x2000_0000 + Wrap(u * 8))) == 8 * n / MODULUS % MODULUS
  {
    hide Wrap, Low;
    var t, k := n % MODULUS, n / MODULUS;
    EighthOf(n);
    LowWrap(t * 8);
    LowEight(n, t);
    LowWrap(t / 0x2000_0000 + Wrap(Wrap(k) * 8));
    LowSum(Wrap(Wrap(k) * 8), t / 0x2000_0000);
    LowWrap(Wrap(k) * 8);
    LowProduct(Wrap(k), 8);
    LowWrap(k);
    LowProduct(k, 8);
    LowSum(8 * k, t / 0x2000_0000);
    LowEight(8 * n / MODULUS, 0);
  }

  lemma EighthOf(n: nat)
    ensures 8 * n / MODULUS == 8 * (n / MODULUS) + n % MODULUS / 0x2000_0000
  {
    var t, k := n % MODULUS, n / MODULUS;
    assert n == MODULUS * k + t;
  }

  lemma LowEight(n: nat, t: nat)
    ensures Low(n) == n % MODULUS
    ensures t == n % MODULUS ==> Low(t * 8) == 8 * n % MODULUS
  {
    if t == n % MODULUS {
      Euclid(n, MODULUS);
      Euclid(8 * t, MODULUS);
      DivUnique(8 * n, MODULUS, 8 * (n / MODULUS) + 8 * t / MODULUS, 8 * t % MODULUS);
    }
  }

  lemma PaddingIs(m: seq<byte>, padn: nat, msglen: seq<byte>, low: ulong, high: ulong)
    requires var t, u := |m| % MODULUS, Wrap(|m| / MODULUS);
      low == Wrap(t * 8) && high == Wrap(t / 0x2000_0000 + Wrap(u * 8)) && msglen == PutLe(low) + PutLe(high) &&
      padn == if t % 64 < 56 then 56 - t % 64 else 120 - t % 64
    ensures m + ([0x80] + Zeros(63))[..padn] + msglen == Padded(m)
  {
    hide PutLe, BytesOf, Low, Wrap;
    LengthIs(|m|);
    PutLeIsLow(low);
    PutLeIsLow(high);
    PaddingCount(|m|, padn);
    assert ([0x80] + Zeros(63))[..padn] == [0x80] + Zeros((55 - |m|) % 64);
    var l, h := PutLe(low), PutLe(high);
    assert m + ([0x80] + Zeros((55 - |m|) % 64)) + (l + h) == m + [0x80] + Zeros((55 - |m|) % 64) + l + h;
  }

  lemma PaddingCount(n: nat, padn: nat)
    requires var t := n % MODULUS % 64; padn == if t < 56 then 56 - t else 120 - t
    ensures padn == 1 + (55 - n) % 64
  {
    WholeBlocksOf(n);
    Euclid(n, 64);
    var q, t := n / 64, n % 64;
    DivUnique(55 - n, 64, if t < 56 then -q else -q - 1, padn - 1);
  }

  lemma XorPads(i: byte, o: byte, k: byte)
    ensures XorByte(i, k) == XorByte(k, i) && XorByte(o, k) == XorByte(k, o)
  {
    XorCommutes(i, k);
    XorCommutes(o, k);
  }

  lemma NoKey()
    ensures XorByte(0, 0x36) == 0x36 && XorByte(0, 0x5c) == 0x5c
  {
    XorZero(0x36);
    XorZero(0x5c);
  }

  lemma NoPieces(start: seq<byte>)
    ensures start + Flatten([]) == start
  {
  }

  lemma FlattenMore(pieces: seq<seq<byte>>, k: nat)
    requires k < |pieces|
    ensures Flatten(pieces[..k + 1]) == Flatten(pieces[..k]) + pieces[k]
  {
    assert pieces[..k + 1] == pieces[..k] + [pieces[k]];
    FlattenSnoc(pieces[..k], pieces[k]);
  }

  ghost predicate Short(pieces: seq<seq<byte>>) {
    forall i :: 0 <= i < |pieces| ==> |pieces[i]| < 0x8000_0000
  }

  method FeedAll(ctx: Context, pieces: seq<seq<byte>>, ghost start: seq<byte>)
    requires ctx.Holds(start) && Short(pieces)
    modifies ctx, ctx.buffer
    ensures ctx.Holds(start + Flatten(pieces))
  {
    hide Flatten, Hash, LowState, Wrap;
    var k := 0;
    NoPieces(start);
    assert pieces[..0] == [];
    while k < |pieces|
      invariant k <= |pieces| && ctx.Holds(start + Flatten(pieces[..k]))
    {
      FlattenMore(pieces, k);
      assert start + Flatten(pieces[..k]) + pieces[k] == start + (Flatten(pieces[..k]) + pieces[k]);
      ctx.Update(pieces[k], start + Flatten(pieces[..k]));
      k := k + 1;
    }
    assert pieces[..k] == pieces;
  }

  /** md5 for one piece, and md5_file for a file that is read in pieces */
  method DigestOf(pieces: seq<seq<byte>>) returns (output: seq<byte>)
    requires Short(pieces)
    ensures output == Digest(Flatten(pieces))
  {
    hide Digest, Flatten;
    var ctx := new Context();
    ctx.Starts();
    FeedAll(ctx, pieces, []);
    assert [] + Flatten(pieces) == Flatten(pieces);
    output := ctx.Finish(Flatten(pieces));
  }

  /** md5_hmac for one piece, or for a text that comes in pieces */
  method HmacOf(key: seq<byte>, pieces: seq<seq<byte>>) returns (output: seq<byte>)
    requires |key| < 0x8000_0000 && Short(pieces)
    ensures output == Hmac(key, Flatten(pieces))
  {
    hide Hmac, XorAll, BlockKey, Flatten;
    var ctx := new Context();
    ctx.HmacStarts(key);
    ghost var inner := XorAll(BlockKey(key), 0x36);
    FeedAll(ctx, pieces, inner);
    output := ctx.HmacFinish(key, Flatten(pieces));
  }
}
