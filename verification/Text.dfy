/** C strings as sequences of bytes without their terminator. */
module Text {
  import opened Bits

  datatype Option<+T> = None | Some(value: T)

  type cstring = s: seq<byte> | 0 !in s

  /** tolower in the C locale */
  function Lower(c: byte): byte {
    if 0x41 <= c <= 0x5a then c + 0x20 else c
  }

  /** strchr: the first place of c, or the length. */
  function Find(s: seq<byte>, c: byte): (i: nat)
    ensures i <= |s| && c !in s[..i] && (i < |s| ==> s[i] == c)
  {
    if s == [] || s[0] == c then 0 else
      var j := Find(s[1..], c);
      assert s[..j + 1] == [s[0]] + s[1..][..j];
      j + 1
  }

  function Count(s: seq<byte>, c: byte): nat {
    if s == [] then 0 else Count(s[1..], c) + if s[0] == c then 1 else 0
  }

  lemma {:induction false} CountConcat(a: seq<byte>, b: seq<byte>, c: byte)
    ensures Count(a + b, c) == Count(a, c) + Count(b, c)
    decreases |a|
  {
    if a == [] {
      assert a + b == b;
    } else {
      assert (a + b)[1..] == a[1..] + b;
      CountConcat(a[1..], b, c);
    }
  }

  lemma {:induction false} CountNone(s: seq<byte>, c: byte)
    requires c !in s
    ensures Count(s, c) == 0
    decreases |s|
  {
    if s != [] {
      CountNone(s[1..], c);
    }
  }

  lemma {:induction false} CountAtLeast(s: seq<byte>, c: byte, i: nat)
    requires i < |s| && s[i] == c
    ensures Count(s, c) >= 1
    decreases |s|
  {
    if i > 0 {
      CountAtLeast(s[1..], c, i - 1);
    }
  }
}
