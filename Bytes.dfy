/** Byte-level vocabulary shared by both variants of the driver: the byte
    type, the framing constants and the C-string helpers the driver relies on. */
module Bytes {

  /** One 8-bit value as held in SPI_buffer / SPI_data or shifted over the bus.
      The .cpp variant stores `char`; its buffers are modelled by the same
      bit patterns, and the sign of a `char` is made explicit only where the
      source's arithmetic depends on it (see Hex.CharStep). */
  type Byte = x: int | 0 <= x < 0x100

  /** DATA_END_CHAR: a carriage return ends every framed message. */
  const END: Byte := 0x0D

  /** DATA_LENGTH: 50 payload bytes plus the terminator. */
  const DATA_LENGTH: nat := 51

  /** The C string terminator '\0'. */
  const NUL: Byte := 0

  /** "TOGGLE", the command the string examples send. */
  const TOGGLE: seq<Byte> := [0x54, 0x4F, 0x47, 0x47, 0x4C, 0x45]

  /** The position of the first x in s, i.e. where a loop
      `while (s[i] != x) i++;` started at 0 stops. */
  function IndexOf(s: seq<Byte>, x: Byte): (k: nat)
    requires x in s
    ensures k < |s| && s[k] == x
    ensures x !in s[..k]
  {
    if s[0] == x then 0
    else
      assert s == [s[0]] + s[1..];
      var k := IndexOf(s[1..], x);
      assert s[..k + 1] == [s[0]] + s[1..][..k];
      k + 1
  }

  /** strlen: the number of bytes before the first NUL. */
  function Strlen(s: seq<Byte>): (n: nat)
    requires NUL in s
  {
    IndexOf(s, NUL)
  }

  /** strlen stops at the first NUL: s[Strlen(s)] is NUL and no byte
      before it is. */
  lemma StrlenFirstNul(s: seq<Byte>)
    requires NUL in s
    ensures Strlen(s) < |s| && s[Strlen(s)] == NUL
    ensures forall i :: 0 <= i < Strlen(s) ==> s[i] != NUL
  {
    assert NUL !in s[..Strlen(s)];
  }

  /** The C string held in s: the bytes before its first NUL. */
  function CString(s: seq<Byte>): (c: seq<Byte>)
    requires NUL in s
  {
    s[..Strlen(s)]
  }

  /** n zero bytes. */
  function Zeros(n: nat): (z: seq<Byte>)
  {
    seq(n, _ => NUL)
  }

  /** s with its first n elements set to 0 and the others left alone,
      the effect of `for (i = 0; i < n; i++) s[i] = '\0';`. */
  function Zeroed(s: seq<Byte>, n: nat): (z: seq<Byte>)
    ensures |z| == |s|
  {
    seq(|s|, i requires 0 <= i < |s| => if i < n then NUL else s[i])
  }

  /** `int i = 0; while (src[i] != x) { dst[i] = src[i]; i++; }`: the bytes
      of src before its first x are copied over the front of dst, and the
      rest of dst stays. */
  method CopyUntil(src: array<Byte>, dst: array<Byte>, x: Byte)
    requires src != dst && src.Length <= dst.Length && x in src[..]
    modifies dst
    ensures var k := IndexOf(src[..], x); dst[..] == src[..k] + old(dst[..])[k..]
  {
    ghost var k := IndexOf(src[..], x);
    ghost var before := dst[..];
    var i := 0;
    while src[i] != x
      invariant 0 <= i <= k
      invariant forall t :: 0 <= t < i ==> dst[t] == src[t]
      invariant forall t :: i <= t < dst.Length ==> dst[t] == before[t]
      decreases k - i
    {
      dst[i] := src[i];
      i := i + 1;
    }
    assert dst[..] == src[..k] + before[k..];
  }

  /** Zeroing the first n bytes of s is replacing them by n zeros. */
  lemma ZeroedSplit(s: seq<Byte>, n: nat)
    requires n <= |s|
    ensures Zeroed(s, n) == Zeros(n) + s[n..]
  {
  }

  /** Zeroing one more element of a zeroed prefix. */
  lemma ZeroedStep(s: seq<Byte>, i: nat)
    requires i < |s|
    ensures Zeroed(s, i)[i := NUL] == Zeroed(s, i + 1)
  {
  }

  /** Overwriting the element right after a prefix. */
  lemma SpliceAt(pre: seq<Byte>, rest: seq<Byte>, x: Byte)
    requires |rest| > 0
    ensures (pre + rest)[|pre| := x] == pre + [x] + rest[1..]
  {
  }

  /** The first x in s + t lies in t when s has none. */
  lemma {:induction false} IndexOfAppend(s: seq<Byte>, t: seq<Byte>, x: Byte)
    requires x !in s && x in t
    ensures IndexOf(s + t, x) == |s| + IndexOf(t, x)
  {
    if s == [] {
      assert s + t == t;
    } else {
      assert (s + t)[1..] == s[1..] + t;
      IndexOfAppend(s[1..], t, x);
    }
  }

  /** A message without NUL followed by zero padding is read back by strlen
      as exactly that message. */
  lemma CStringOfPadded(msg: seq<Byte>, n: nat)
    requires NUL !in msg && n > 0
    ensures NUL in msg + Zeros(n)
    ensures Strlen(msg + Zeros(n)) == |msg|
    ensures CString(msg + Zeros(n)) == msg
  {
    assert Zeros(n)[0] == NUL;
    IndexOfAppend(msg, Zeros(n), NUL);
    assert (msg + Zeros(n))[..|msg|] == msg;
  }

  /** Reading a C string one byte at a time: a leading NUL ends it,
      any other leading byte is its first character. */
  lemma CStringHead(s: seq<Byte>)
    requires NUL in s
    ensures s[0] == NUL ==> CString(s) == []
    ensures s[0] != NUL ==> NUL in s[1..] && CString(s) == [s[0]] + CString(s[1..])
  {
    if s[0] != NUL {
      assert s == [s[0]] + s[1..];
      assert s[..Strlen(s)] == [s[0]] + s[1..][..Strlen(s[1..])];
    }
  }
}
