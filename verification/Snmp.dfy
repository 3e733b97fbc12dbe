/** SNMP table responses as the collectors see them: rows of an index map and an object map. */
module Snmp {
  import opened Options

  datatype Scalar = Uint64(n: nat) | Float64(r: real) | Str(s: string) | Bits(names: seq<string>) | Other
  datatype Row = Row(index: map<string, int>, objects: map<string, Scalar>)
  type Table = seq<Row>

  const I64_MAX: int := 0x7fff_ffff_ffff_ffff
  const U64_MAX: int := 0xffff_ffff_ffff_ffff

  function Clamp(n: int, low: int, high: int): int
    requires low <= high
  {
    if n < low then low else if n > high then high else n
  }

  // Float casts truncate towards zero and saturate.
  function Truncate(r: real): int {
    if r >= 0.0 then r.Floor else -((-r).Floor)
  }

  // Integer casts wrap.
  function AsI64(n: nat): int {
    var m := n % (U64_MAX + 1);
    if m > I64_MAX then m - (U64_MAX + 1) else m
  }

  function ObjI64(row: Row, key: string): Option<int> {
    if key !in row.objects then None
    else match row.objects[key]
      case Uint64(n) => Some(AsI64(n))
      case Float64(r) => Some(Clamp(Truncate(r), -I64_MAX - 1, I64_MAX))
      case _ => None
  }

  function ObjU64(row: Row, key: string): Option<int> {
    if key !in row.objects then None
    else match row.objects[key]
      case Uint64(n) => Some(n)
      case Float64(r) => if r >= 0.0 then Some(Clamp(Truncate(r), 0, U64_MAX)) else None
      case _ => None
  }

  function ObjStr(row: Row, key: string): Option<string> {
    if key in row.objects && row.objects[key].Str? then Some(row.objects[key].s) else None
  }

  // A BITS value that is no array of names counts as empty.
  function ObjBits(row: Row, key: string): seq<string> {
    if key in row.objects && row.objects[key].Bits? then row.objects[key].names else []
  }

  function Index(row: Row, key: string): Option<int> {
    if key in row.index then Some(row.index[key]) else None
  }

  // An unsigned value is the signed one with the same 64 bits.
  lemma CastKeepsBits(row: Row, key: string, n: nat)
    requires key in row.objects && row.objects[key] == Uint64(n) && n <= U64_MAX
    ensures var r := ObjI64(row, key);
      r.Some? && -0x8000_0000_0000_0000 <= r.value <= 0x7fff_ffff_ffff_ffff &&
      r.value == if n <= 0x7fff_ffff_ffff_ffff then n else n - 0x1_0000_0000_0000_0000
    ensures ObjU64(row, key) == Some(n)
  {
  }

  // A float that fits loses its fraction; one that does not becomes the nearest bound,
  // and a negative one is no unsigned value.
  lemma FloatsTruncate(row: Row, key: string, r: real)
    requires key in row.objects && row.objects[key] == Float64(r)
    ensures ObjI64(row, key).Some? && -I64_MAX - 1 <= ObjI64(row, key).value <= I64_MAX
    ensures var n := ObjI64(row, key).value as real;
      && (0.0 <= r < 9223372036854775807.0 ==> n <= r < n + 1.0)
      && (-9223372036854775808.0 < r <= 0.0 ==> n - 1.0 < r <= n)
      && (r >= 9223372036854775807.0 ==> n == 9223372036854775807.0)
      && (r <= -9223372036854775808.0 ==> n == -9223372036854775808.0)
    ensures ObjU64(row, key).Some? <==> r >= 0.0
    ensures r >= 0.0 ==>
              var n := ObjU64(row, key).value as real;
              if r < 18446744073709551615.0 then n <= r < n + 1.0 else n == 18446744073709551615.0
  {
  }

  // Other kinds of values are no numbers.
  lemma OnlyNumbersRead(row: Row, key: string)
    ensures ObjI64(row, key).Some? <==> key in row.objects && (row.objects[key].Uint64? || row.objects[key].Float64?)
    ensures ObjU64(row, key).Some? ==> ObjI64(row, key).Some?
  {
  }
}
