/**
 The hand-written BER encoder of the SNMP simulator (nexus/perf/src/main.rs).

 Bytes and machine integers are bounded integers, and the bit operations of the
 source are written as arithmetic: `v & 0x7f` is `v % 128`, `v >> 7` is
 `v / 128`, `x & 0x80 != 0` is `x >= 128`, `x | 0x80` is `x + 128` for x < 128,
 and `to_be_bytes` is the sequence of base-256 digits (Dafny's division floors,
 so a negative integer gives its two's complement).
 */
module Ber {
  import opened Options

  const WORD: nat := 8 // bytes in a machine word
  const BASE64: int := 0x1_0000_0000_0000_0000

  newtype byte = x: int | 0 <= x < 256
  type u32 = x: int | 0 <= x < 0x1_0000_0000
  type u64 = x: int | 0 <= x < BASE64
  type i32 = x: int | -0x8000_0000 <= x < 0x8000_0000
  type i64 = x: int | -0x8000_0000_0000_0000 <= x < 0x8000_0000_0000_0000
  type Bytes = seq<byte>
  type Oid = seq<u64>

  datatype Value =
    | Counter64(c64: u64)
    | Counter32(c32: u32)
    | Gauge32(g32: u32)
    | Integer(int64: i64)
    | OctetString(octets: Bytes)
    | EndOfMibView

  datatype Varbind = Varbind(oid: Oid, value: Value)

  // ---- Base-256 digits ----------------------------------------------------------

  function BeBytes(n: int, k: nat): (r: Bytes)
    ensures |r| == k
    decreases k
  {
    if k == 0 then [] else BeBytes(n / 256, k - 1) + [(n % 256) as byte]
  }

  lemma {:induction false} BeBytesSuffix(n: int, k: nat, i: nat)
    requires i <= k
    ensures BeBytes(n, k)[i..] == BeBytes(n, k - i)
    decreases k
  {
    if i < k {
      BeBytesSuffix(n / 256, k - 1, i);
      assert BeBytes(n, k)[i..] == BeBytes(n / 256, k - 1)[i..] + [(n % 256) as byte];
    }
  }

  // ---- Integers: the minimal contents, defined without the encoder's loops --------

  // The fewest base-256 digits of a natural number.
  function Digits(n: nat): (r: Bytes)
    ensures |r| > 0 && (n > 0 ==> r[0] != 0)
  {
    if n < 256 then [n as byte] else Digits(n / 256) + [(n % 256) as byte]
  }

  // The shortest two's complement contents of an integer.
  function TwosComplement(n: int): (r: Bytes)
    ensures |r| > 0
    decreases if n < 0 then -n else n
  {
    if -128 <= n < 128 then [(n % 256) as byte] else TwosComplement(n / 256) + [(n % 256) as byte]
  }

  // An unsigned value as INTEGER contents: a leading zero keeps it positive.
  function UnsignedContent(n: nat): Bytes {
    if Digits(n)[0] >= 128 then [0] + Digits(n) else Digits(n)
  }

  // Reading contents back, section 8.3 of X.690.
  function Natural(b: Bytes): nat {
    if b == [] then 0 else 256 * Natural(b[..|b| - 1]) + b[|b| - 1] as int
  }

  function Signed(b: Bytes): int
    requires b != []
  {
    if |b| == 1 then (if b[0] < 128 then b[0] as int else b[0] as int - 256)
    else 256 * Signed(b[..|b| - 1]) + b[|b| - 1] as int
  }

  // Section 8.3.2 of X.690: the first nine bits are not all equal.
  predicate Minimal(b: Bytes) {
    |b| > 1 ==> !(b[0] == 0 && b[1] < 128) && !(b[0] == 255 && b[1] >= 128)
  }

  lemma {:induction false} TwosComplementDecodes(n: int)
    ensures Signed(TwosComplement(n)) == n
    decreases if n < 0 then -n else n
  {
    if !(-128 <= n < 128) {
      TwosComplementDecodes(n / 256);
      assert TwosComplement(n)[..|TwosComplement(n)| - 1] == TwosComplement(n / 256);
    }
  }

  lemma {:induction false} TwosComplementMinimal(n: int)
    ensures Minimal(TwosComplement(n))
    decreases if n < 0 then -n else n
  {
    if !(-128 <= n < 128) {
      TwosComplementMinimal(n / 256);
      if -128 <= n / 256 < 128 {
        assert TwosComplement(n) == [(n / 256 % 256) as byte, (n % 256) as byte];
      }
    }
  }

  lemma {:induction false} DigitsDecode(n: nat)
    ensures Natural(Digits(n)) == n
  {
    if n >= 256 {
      DigitsDecode(n / 256);
      assert Digits(n)[..|Digits(n)| - 1] == Digits(n / 256);
    }
  }

  lemma {:induction false} SignedOfNatural(b: Bytes)
    requires b != [] && b[0] < 128
    ensures Signed(b) == Natural(b)
  {
    if |b| == 1 {
      assert b[..0] == [];
    } else {
      SignedOfNatural(b[..|b| - 1]);
    }
  }

  lemma {:induction false} SignedPadded(b: Bytes)
    requires b != []
    ensures Signed([0] + b) == Natural(b)
  {
    if |b| == 1 {
      assert ([0] + b)[..1] == [0] && b[..0] == [];
    } else {
      assert ([0] + b)[..|b|] == [0] + b[..|b| - 1];
      SignedPadded(b[..|b| - 1]);
    }
  }

  lemma UnsignedContentCanonical(n: nat)
    ensures Signed(UnsignedContent(n)) == n && Minimal(UnsignedContent(n))
  {
    DigitsDecode(n);
    SignedPadded(Digits(n));
    if Digits(n)[0] < 128 {
      SignedOfNatural(Digits(n));
    }
    if n < 256 {
      assert Digits(n) == [n as byte];
    }
  }

  // ---- The encoder's INTEGER contents ---------------------------------------------

  // n has a two's complement of k bytes.
  predicate FitsSigned(n: int, k: nat)
    decreases k
  {
    k > 0 && if k == 1 then -128 <= n < 128 else FitsSigned(n / 256, k - 1)
  }

  predicate Redundant(first: byte, second: byte) {
    (first == 0 && second < 128) || (first == 255 && second >= 128)
  }

  lemma {:induction false} RedundantIffShorter(n: int, k: nat)
    requires k >= 2 && FitsSigned(n, k)
    ensures Redundant(BeBytes(n, k)[0], BeBytes(n, k)[1]) <==> FitsSigned(n, k - 1)
    decreases k
  {
    if k == 2 {
      assert BeBytes(n / 256, 1) == [(n / 256 % 256) as byte];
    } else {
      RedundantIffShorter(n / 256, k - 1);
    }
  }

  lemma {:induction false} ShortestIsTwosComplement(n: int, k: nat)
    requires FitsSigned(n, k) && (k == 1 || !FitsSigned(n, k - 1))
    ensures BeBytes(n, k) == TwosComplement(n)
    decreases k
  {
    if k > 1 {
      if -128 <= n < 128 {
        SmallFits(n, k - 1);
      }
      ShortestIsTwosComplement(n / 256, k - 1);
    } else {
      assert BeBytes(n / 256, 0) == [];
    }
  }

  lemma {:induction false} SmallFits(n: int, k: nat)
    requires k >= 1 && -128 <= n < 128
    ensures FitsSigned(n, k)
    decreases k
  {
    if k > 1 {
      SmallFits(n / 256, k - 1);
    }
  }

  lemma Int64Fits(n: i64)
    ensures FitsSigned(n, 8)
  {
    var n1 := n / 256;
    var n2 := n1 / 256;
    var n3 := n2 / 256;
    var n4 := n3 / 256;
    var n5 := n4 / 256;
    var n6 := n5 / 256;
    assert FitsSigned(n6, 2);
    assert FitsSigned(n5, 3);
    assert FitsSigned(n4, 4);
    assert FitsSigned(n3, 5);
    assert FitsSigned(n2, 6);
    assert FitsSigned(n1, 7);
  }

  // Trims the redundant leading bytes of the eight-byte two's complement.
  method EncIntContent(n: i64) returns (bytes: Bytes)
    ensures bytes == TwosComplement(n)
  {
    if n == 0 {
      return [0];
    }
    var raw := BeBytes(n, WORD);
    Int64Fits(n);
    var i := 0;
    BeBytesSuffix(n, 8, 0);
    while i < |raw| - 1 && Redundant(raw[i], raw[i + 1])
      invariant 0 <= i < 8
      invariant FitsSigned(n, 8 - i)
      invariant raw[i..] == BeBytes(n, 8 - i)
    {
      assert raw[i] == raw[i..][0] && raw[i + 1] == raw[i..][1];
      RedundantIffShorter(n, 8 - i);
      i := i + 1;
      BeBytesSuffix(n, 8, i);
    }
    if i < 7 {
      assert raw[i] == raw[i..][0] && raw[i + 1] == raw[i..][1];
      RedundantIffShorter(n, 8 - i);
    }
    ShortestIsTwosComplement(n, 8 - i);
    bytes := raw[i..];
  }

  // ---- Unsigned contents and lengths ------------------------------------------------

  // The position of the first non-zero byte, |b| if there is none.
  function LeadingZeros(b: Bytes): (r: nat)
    ensures r <= |b|
    ensures r < |b| ==> b[r] != 0
    ensures forall i :: 0 <= i < r ==> b[i] == 0
  {
    if b == [] || b[0] != 0 then 0 else 1 + LeadingZeros(b[1..])
  }

  function EncUintContent(n: u64): Bytes {
    if n == 0 then [0]
    else
      var raw := BeBytes(n, WORD);
      var start := LeadingZeros(raw);
      (if start < 8 && raw[start] >= 128 then [0] else []) + raw[start..]
  }

  function BerLen(len: nat): Bytes {
    if len < 128 then [len as byte]
    else
      var bytes := BeBytes(len, WORD);
      var zeros := LeadingZeros(bytes);
      var sig := bytes[(if zeros < 8 then zeros else 7)..];
      [(128 + |sig|) as byte] + sig
  }

  predicate FitsUnsigned(n: nat, k: nat)
    decreases k
  {
    if k == 0 then n == 0 else FitsUnsigned(n / 256, k - 1)
  }

  lemma UInt64Fits(n: u64)
    ensures FitsUnsigned(n, 8)
  {
    var n1 := n / 256;
    var n2 := n1 / 256;
    var n3 := n2 / 256;
    var n4 := n3 / 256;
    var n5 := n4 / 256;
    var n6 := n5 / 256;
    var n7 := n6 / 256;
    assert FitsUnsigned(n7, 1);
    assert FitsUnsigned(n6, 2);
    assert FitsUnsigned(n5, 3);
    assert FitsUnsigned(n4, 4);
    assert FitsUnsigned(n3, 5);
    assert FitsUnsigned(n2, 6);
    assert FitsUnsigned(n1, 7);
  }

  lemma {:induction false} BeBytesDigits(n: nat, k: nat)
    requires n > 0 && FitsUnsigned(n, k)
    ensures LeadingZeros(BeBytes(n, k)) < k
    ensures BeBytes(n, k)[LeadingZeros(BeBytes(n, k))..] == Digits(n)
    decreases k
  {
    var b, last := BeBytes(n, k), (n % 256) as byte;
    var front := BeBytes(n / 256, k - 1);
    if n < 256 {
      BeBytesZero(k - 1);
      assert forall i :: 0 <= i < k - 1 ==> b[i] == front[i];
      assert b[k - 1] == last && LeadingZeros(b) == k - 1;
      assert b[k - 1..] == [last];
    } else {
      BeBytesDigits(n / 256, k - 1);
      var z := LeadingZeros(front);
      assert b[z] == front[z];
      assert LeadingZeros(b) == z;
      assert b[z..] == front[z..] + [last];
    }
  }

  lemma {:induction false} BeBytesZero(k: nat)
    ensures forall i :: 0 <= i < k ==> BeBytes(0, k)[i] == 0
    decreases k
  {
    if k > 0 {
      BeBytesZero(k - 1);
    }
  }

  lemma EncUintContentCanonical(n: u64)
    ensures EncUintContent(n) == UnsignedContent(n)
    ensures Signed(EncUintContent(n)) == n && Minimal(EncUintContent(n))
  {
    UInt64Fits(n);
    UnsignedContentCanonical(n);
    if n > 0 {
      BeBytesDigits(n, 8);
    }
  }

  // Section 8.1.3 of X.690: the short form up to 127, otherwise the fewest
  // length octets behind a count octet.
  lemma BerLenShortest(len: nat)
    requires len < BASE64
    ensures len < 128 ==> BerLen(len) == [len as byte]
    ensures len >= 128 ==> |Digits(len)| <= 8 && BerLen(len) == [(128 + |Digits(len)|) as byte] + Digits(len)
  {
    if len >= 128 {
      UInt64Fits(len);
      BeBytesDigits(len, 8);
    }
  }

  // ---- Base 128 ------------------------------------------------------------------

  function Septets(v: nat): Bytes {
    if v < 128 then [(v + 128) as byte] else Septets(v / 128) + [(v % 128 + 128) as byte]
  }

  // Section 8.19.2 of X.690: seven bits an octet, all but the last marked.
  function Base128(v: nat): (r: Bytes)
    ensures |r| > 0
  {
    if v < 128 then [v as byte] else Septets(v / 128) + [(v % 128) as byte]
  }

  function Shifted(v: nat, n: nat): nat {
    if n == 0 then v else Shifted(v, n - 1) / 128
  }

  // Ten septets hold any 64-bit value.
  lemma TenShiftsSuffice(v: u64, n: nat)
    requires Shifted(v, n) > 0 && n <= 10
    ensures n < 10 && Shifted(v, n + 1) == Shifted(v, n) / 128
  {
    assert Shifted(v, 1) < 0x200000000000000;
    assert Shifted(v, 2) < 0x4000000000000;
    assert Shifted(v, 3) < 0x80000000000;
    assert Shifted(v, 4) < 0x1000000000;
    assert Shifted(v, 5) < 0x20000000;
    assert Shifted(v, 6) < 0x400000;
    assert Shifted(v, 7) < 0x8000;
    assert Shifted(v, 8) < 0x100;
    assert Shifted(v, 9) < 0x2;
    assert Shifted(v, 10) == 0;
  }

  function Reversed(s: Bytes): (r: Bytes)
    ensures |r| == |s|
    ensures forall i :: 0 <= i < |s| ==> r[i] == s[|s| - 1 - i]
  {
    if s == [] then [] else [s[|s| - 1]] + Reversed(s[..|s| - 1])
  }

  // The septets still to be stacked, above a value that has been shifted to v.
  function Pending(v: nat): (r: Bytes)
    ensures v == 0 ==> r == []
  {
    if v > 0 then Septets(v) else []
  }

  lemma PendingStep(v: nat, stacked: Bytes)
    requires v > 0
    ensures var top := (v % 128 + 128) as byte;
      Pending(v) + Reversed(stacked) == Pending(v / 128) + Reversed(stacked + [top])
  {
    var top := (v % 128 + 128) as byte;
    assert (stacked + [top])[..|stacked|] == stacked;
    assert Pending(v) == Pending(v / 128) + [top];
  }

  lemma PendingStart(v: nat)
    ensures Shifted(v, 1) == v / 128
    ensures Base128(v) == Pending(v / 128) + Reversed([(v % 128) as byte])
  {
    assert [(v % 128) as byte][..0] == [];
    assert Reversed([(v % 128) as byte]) == [(v % 128) as byte];
  }

  // The ten-slot stack of the source never overflows.
  method EncodeBase128(value: u64, out: Bytes) returns (out': Bytes)
    ensures out' == out + Base128(value)
  {
    hide *;
    var stack := new byte[10];
    var n, low := 0, (value % 128) as byte;
    stack[n] := low;
    n := n + 1;
    var v: nat := value / 128;
    PendingStart(value);
    ghost var stacked := [low];
    while v > 0
      invariant 1 <= n <= 10 && v == Shifted(value, n)
      invariant stack[..n] == stacked
      invariant Base128(value) == Pending(v) + Reversed(stacked)
    {
      TenShiftsSuffice(value, n);
      var top := (v % 128 + 128) as byte;
      stack[n] := top;
      PendingStep(v, stacked);
      stacked := stacked + [top];
      n := n + 1;
      v := v / 128;
    }
    assert Base128(value) == Reversed(stacked);
    out' := PushReversed(stack, n, out);
  }

  // The closing loop of the source: pushes the stack from the top down.
  method PushReversed(stack: array<byte>, n: nat, out: Bytes) returns (out': Bytes)
    requires n <= stack.Length
    ensures out' == out + Reversed(stack[..n])
  {
    out' := out;
    for i: nat := n downto 0
      invariant i <= n
      invariant out' == out + Reversed(stack[..n])[..n - i]
    {
      assert Reversed(stack[..n])[n - 1 - i] == stack[i];
      out' := out' + [stack[i]];
    }
  }
}
