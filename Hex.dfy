/** The big-endian byte arithmetic behind hexArrayToUint64_t / hexArrayToHex
    (packing received bytes into a uint64_t) and SPI_transmitHex (emitting
    the low bytes of a uint64_t, most significant first). Values are
    unbounded integers; uint64_t truncation is written out as `% TWO_64`. */
module Hex {
  import opened Bytes

  /** 2^64: the modulus of uint64_t arithmetic. */
  const TWO_64: nat := 0x1_0000_0000_0000_0000

  function Pow256(n: nat): (p: nat)
    ensures p >= 1
  {
    if n == 0 then 1 else 0x100 * Pow256(n - 1)
  }

  /** The accumulator loop `acc = (acc << 8) | s[i]` over s, without the
      64-bit truncation: bytes are read most significant first. */
  function Pack(s: seq<Byte>): (v: nat)
    ensures s != [] ==> v % 0x100 == s[|s| - 1]
  {
    if s == [] then 0
    else
      var v := Pack(s[..|s| - 1]) * 0x100 + s[|s| - 1];
      DivModUnique(v, 0x100, Pack(s[..|s| - 1]), s[|s| - 1]);
      v
  }

  /** Reference reading of a big-endian byte string:
      the sum of s[i] * 256^(|s| - 1 - i). */
  function WeightedSum(s: seq<Byte>): (v: nat)
  {
    if s == [] then 0 else s[0] * Pow256(|s| - 1) + WeightedSum(s[1..])
  }

  /** `x << 8` on a uint64_t. */
  function Shl8(x: nat): (y: nat)
    ensures y < TWO_64 && y % 0x100 == 0
  {
    var q, r := x / 0x100_0000_0000_0000, x % 0x100_0000_0000_0000;
    assert x * 0x100 == q * TWO_64 + r * 0x100;
    DivModUnique(x * 0x100, TWO_64, q, r * 0x100);
    DivModUnique(r * 0x100, 0x100, r, 0);
    (x * 0x100) % TWO_64
  }

  /** The payload SPI_transmitHex emits for numBytes = n:
      byte j is `(v >> 8 * (n - 1 - j)) & 0xFF`, so the most significant
      of the n low bytes of v comes first. */
  function HexPayload(v: nat, n: nat): (s: seq<Byte>)
    ensures |s| == n
    ensures n > 0 ==> s[n - 1] == v % 0x100
  {
    seq(n, j requires 0 <= j < n => (v / Pow256(n - 1 - j)) % 0x100)
  }

  /** A `char` read as an `int`: avr-gcc's `char` is signed, so bit patterns
      0x80..0xFF stand for -128..-1. */
  function SignedChar(b: Byte): (c: int)
  {
    if b < 0x80 then b else b - 0x100
  }

  /** One step of hexArrayToHex: `(acc << 8) | array[i]` where array[i] is a
      `char`. The char is promoted to int and converted to uint64_t, i.e.
      taken modulo 2^64. For 0..0x7F the shifted accumulator's low byte is
      zero, so `|` adds. For a negative char the converted value has bits
      8..63 all set and b as its low byte, so `|` yields that value and
      the earlier accumulator is lost. */
  function CharStep(acc: nat, b: Byte): (r: nat)
    ensures r < TWO_64 && r % 0x100 == b
    ensures b >= 0x80 ==> r == TWO_64 - 0x100 + b
    ensures b < 0x80 ==> r / 0x100 == acc % 0x100_0000_0000_0000
  {
    var c := SignedChar(b) % TWO_64;
    if b < 0x80 then
      DivModUnique(SignedChar(b), TWO_64, 0, b);
      var lo := acc % 0x100_0000_0000_0000;
      Shl8Low(acc);
      DivModUnique(lo * 0x100 + b, 0x100, lo, b);
      Shl8(acc) + c
    else
      DivModUnique(SignedChar(b), TWO_64, -1, TWO_64 - 0x100 + b);
      DivModUnique(TWO_64 - 0x100 + b, 0x100, 0xFF_FFFF_FFFF_FFFF, b);
      c
  }

  /** hexArrayToHex's accumulator over s, with `char` promotion. */
  function PackChars(s: seq<Byte>): (v: nat)
    ensures v < TWO_64
    ensures s != [] ==> v % 0x100 == s[|s| - 1]
  {
    if s == [] then 0 else CharStep(PackChars(s[..|s| - 1]), s[|s| - 1])
  }

  // ---------------------------------------------------------------------
  // Arithmetic

  lemma DivModUnique(x: int, d: int, q: int, r: int)
    requires 0 < d && 0 <= r < d && x == q * d + r
    ensures x / d == q && x % d == r
  {
    var q0, r0 := x / d, x % d;
    assert x == q0 * d + r0;
    if q0 < q {
      assert (q - q0) * d >= d by { MulAtLeast(q - q0, d); }
    } else if q0 > q {
      assert (q0 - q) * d >= d by { MulAtLeast(q0 - q, d); }
    }
  }

  lemma MulAtLeast(k: int, d: int)
    requires k >= 1 && d > 0
    ensures k * d >= d
  {
  }

  /** Splitting off the low byte: dividing by 256 * b is dividing by 256
      then by b, and the remainder modulo 256 * b keeps the low byte. */
  lemma DivMod256(v: nat, b: nat)
    requires b > 0
    ensures v / (0x100 * b) == (v / 0x100) / b
    ensures v % (0x100 * b) == ((v / 0x100) % b) * 0x100 + v % 0x100
  {
    var q1, r1 := v / 0x100, v % 0x100;
    var q2, r2 := q1 / b, q1 % b;
    assert q1 == q2 * b + r2;
    assert v == q2 * (0x100 * b) + (r2 * 0x100 + r1);
    assert r2 * 0x100 + r1 < 0x100 * b;
    DivModUnique(v, 0x100 * b, q2, r2 * 0x100 + r1);
  }

  lemma Pow256Eight()
    ensures Pow256(8) == TWO_64
  {
  }

  lemma {:induction false} Pow256Mono(m: nat, n: nat)
    requires m <= n
    ensures Pow256(m) <= Pow256(n)
  {
    if m < n {
      Pow256Mono(m, n - 1);
    }
  }

  // ---------------------------------------------------------------------
  // Properties of the fold

  lemma {:induction false} WeightedSumAppend(s: seq<Byte>, b: Byte)
    ensures WeightedSum(s + [b]) == WeightedSum(s) * 0x100 + b
  {
    if s == [] {
      assert s + [b] == [b];
    } else {
      assert (s + [b])[1..] == s[1..] + [b];
      WeightedSumAppend(s[1..], b);
      assert Pow256(|s|) == 0x100 * Pow256(|s| - 1);
    }
  }

  /** The fold computes the big-endian weighted sum. */
  lemma {:induction false} PackIsWeightedSum(s: seq<Byte>)
    ensures Pack(s) == WeightedSum(s)
  {
    if s != [] {
      var init := s[..|s| - 1];
      PackIsWeightedSum(init);
      WeightedSumAppend(init, s[|s| - 1]);
      assert init + [s[|s| - 1]] == s;
    }
  }

  /** n packed bytes fit in 8 * n bits. */
  lemma {:induction false} PackBound(s: seq<Byte>)
    ensures Pack(s) < Pow256(|s|)
  {
    if s != [] {
      PackBound(s[..|s| - 1]);
    }
  }

  /** `x << 8` on a uint64_t keeps the low 56 bits of x, moved up a byte. */
  lemma Shl8Low(r: nat)
    ensures Shl8(r) == (r % 0x100_0000_0000_0000) * 0x100
    ensures r * 0x100 == (r / 0x100_0000_0000_0000) * TWO_64 + Shl8(r)
  {
    var hi, lo := r / 0x100_0000_0000_0000, r % 0x100_0000_0000_0000;
    assert r * 0x100 == hi * TWO_64 + lo * 0x100;
    DivModUnique(r * 0x100, TWO_64, hi, lo * 0x100);
  }

  /** `(acc << 8) | b` on a uint64_t, for any accumulator p before
      truncation: shifting the truncated value is shifting p, modulo 2^64. */
  lemma ShiftInMod(p: nat, b: Byte, v: nat)
    requires v == p * 0x100 + b
    ensures v % TWO_64 == Shl8(p % TWO_64) + b
  {
    var q, r := p / TWO_64, p % TWO_64;
    Shl8Low(r);
    var hi, low := r / 0x100_0000_0000_0000, Shl8(r);
    assert low + b < TWO_64;
    assert v == (q * 0x100 + hi) * TWO_64 + (low + b);
    DivModUnique(v, TWO_64, q * 0x100 + hi, low + b);
  }

  /** Appending a byte to the fold and truncating to 64 bits is the
      loop body `(acc << 8) | b` applied to the truncated accumulator. */
  lemma PackAppendMod(s: seq<Byte>, b: Byte)
    ensures (s + [b])[..|s|] == s
    ensures Pack(s + [b]) % TWO_64 == Shl8(Pack(s) % TWO_64) + b
  {
    assert (s + [b])[..|s|] == s;
    ShiftInMod(Pack(s), b, Pack(s + [b]));
  }

  /** Byte n - 1 - i of the payload is `(v >> (i * 8)) & 0xFF`. */
  lemma HexPayloadAt(v: nat, n: nat, i: nat)
    requires i < n
    ensures HexPayload(v, n)[n - 1 - i] == (v / Pow256(i)) % 0x100
  {
  }

  /** The low byte is last: emitting n + 1 bytes of v is emitting n bytes
      of v / 256 and then v's low byte. */
  lemma HexPayloadSnoc(v: nat, n: nat)
    ensures HexPayload(v, n + 1) == HexPayload(v / 0x100, n) + [v % 0x100]
  {
    var lhs, rhs := HexPayload(v, n + 1), HexPayload(v / 0x100, n) + [v % 0x100];
    forall j | 0 <= j < n + 1
      ensures lhs[j] == rhs[j]
    {
      if j < n {
        var p := Pow256(n - 1 - j);
        assert Pow256(n - j) == 0x100 * p;
        DivMod256(v, p);
        assert lhs[j] == (v / (0x100 * p)) % 0x100;
        assert rhs[j] == ((v / 0x100) / p) % 0x100;
      } else {
        assert lhs[j] == (v / Pow256(0)) % 0x100;
      }
    }
  }

  /** Packing what SPI_transmitHex emits gives back the n low bytes of v. */
  lemma {:induction false} PackHexPayload(v: nat, n: nat)
    ensures Pack(HexPayload(v, n)) == v % Pow256(n)
  {
    if n == 0 {
      assert HexPayload(v, 0) == [];
    } else {
      HexPayloadSnoc(v, n - 1);
      var s := HexPayload(v / 0x100, n - 1);
      PackHexPayload(v / 0x100, n - 1);
      assert (s + [v % 0x100])[..|s|] == s;
      DivMod256(v, Pow256(n - 1));
    }
  }

  /** Bytes 0..0x7F make hexArrayToHex's signed fold agree with the
      unsigned 64-bit fold. */
  lemma {:induction false} PackCharsAscii(s: seq<Byte>)
    requires forall i :: 0 <= i < |s| ==> s[i] < 0x80
    ensures PackChars(s) == Pack(s) % TWO_64
  {
    if s != [] {
      var init, b := s[..|s| - 1], s[|s| - 1];
      PackCharsAscii(init);
      assert init + [b] == s;
      assert PackChars(s) == Shl8(PackChars(init)) + b by {
        assert SignedChar(b) % TWO_64 == b;
      }
      PackAppendMod(init, b);
    }
  }

  /** A byte of 0x80 or more discards every byte before it and sets
      bits 8..63 of the result. */
  lemma PackCharsSignExtends(s: seq<Byte>, b: Byte)
    requires b >= 0x80
    ensures PackChars(s + [b]) == TWO_64 - 0x100 + b
  {
    assert (s + [b])[..|s|] == s;
  }
}
