/** The string operations of the discovery engine (nexus/src/collectors/discovery.rs). */
module Text {
  import opened Options
  import opened Snmp

  // The Unicode White_Space property.
  predicate IsWhitespace(c: char) {
    var u := c as int;
    9 <= u <= 13 || u in {0x20, 0x85, 0xa0, 0x1680, 0x2028, 0x2029, 0x202f, 0x205f, 0x3000} || 0x2000 <= u <= 0x200a
  }

  function TrimLeft(s: string): string {
    if s != "" && IsWhitespace(s[0]) then TrimLeft(s[1..]) else s
  }

  function TrimRight(s: string): string {
    if s != "" && IsWhitespace(s[|s| - 1]) then TrimRight(s[..|s| - 1]) else s
  }

  function Trim(s: string): string {
    TrimRight(TrimLeft(s))
  }

  function ReplaceChar(s: string, from: char, to: char): (r: string)
    ensures |r| == |s|
  {
    seq(|s|, i requires 0 <= i < |s| => if s[i] == from then to else s[i])
  }

  // Every "Eth" spelled out, from left to right.
  function SpellEthernet(s: string): string {
    if |s| >= 3 && s[..3] == "Eth" then "Ethernet" + SpellEthernet(s[3..])
    else if s == "" then ""
    else [s[0]] + SpellEthernet(s[1..])
  }

  // ---- Decimal numbers ----------------------------------------------------------

  predicate Digits(s: string) {
    forall i :: 0 <= i < |s| ==> '0' <= s[i] <= '9'
  }

  predicate AllDigits(s: string) {
    s != "" && Digits(s)
  }

  function Decimal(s: string): nat
    requires Digits(s)
  {
    if s == "" then 0 else 10 * Decimal(s[..|s| - 1]) + (s[|s| - 1] as int - '0' as int)
  }

  // A number too large for 64 bits does not parse.
  function ParseI64(s: string): Option<int> {
    if AllDigits(s) && Decimal(s) <= I64_MAX then Some(Decimal(s)) else None
  }

  // ---- Signed numbers -----------------------------------------------------------

  function DecimalDigit(n: nat): (c: char)
    requires n < 10
    ensures '0' <= c <= '9' && c as int - '0' as int == n
  {
    '0' + n as char
  }

  function ShowNat(n: nat): string {
    if n < 10 then [DecimalDigit(n)] else ShowNat(n / 10) + [DecimalDigit(n % 10)]
  }

  function ShowInt(n: int): string {
    if n < 0 then "-" + ShowNat(-n) else ShowNat(n)
  }

  // A sign may precede the digits; anything beyond 64 bits does not parse.
  function ParseInt(s: string): Option<int> {
    var signed := s != "" && (s[0] == '-' || s[0] == '+');
    var digits := if signed then s[1..] else s;
    if !AllDigits(digits) then None
    else
      var n: int := Decimal(digits);
      var value: int := if signed && s[0] == '-' then 0 - n else n;
      if -I64_MAX - 1 <= value <= I64_MAX then Some(value) else None
  }

  lemma {:induction false} ShownNatReads(n: nat)
    ensures AllDigits(ShowNat(n)) && Decimal(ShowNat(n)) == n
  {
    if n < 10 {
      assert [DecimalDigit(n)][..0] == "";
    } else {
      ShownNatReads(n / 10);
      var front := ShowNat(n / 10);
      assert ShowNat(n)[..|front|] == front;
    }
  }

  lemma ShownIntReads(n: int)
    requires -I64_MAX - 1 <= n <= I64_MAX
    ensures ParseInt(ShowInt(n)) == Some(n)
  {
    var m: nat := if n < 0 then -n else n;
    ShownNatReads(m);
    hide ShowNat, Decimal;
    var digits := ShowNat(m);
    if n < 0 {
      assert ("-" + digits)[1..] == digits;
    } else {
      assert '0' <= digits[0] <= '9';
    }
  }

  // ---- Hexadecimal octets ----------------------------------------------------------

  function HexDigit(c: char): Option<nat> {
    if '0' <= c <= '9' then Some(c as int - '0' as int)
    else if 'a' <= c <= 'f' then Some(c as int - 'a' as int + 10)
    else if 'A' <= c <= 'F' then Some(c as int - 'A' as int + 10)
    else None
  }

  // The integer parser also takes a plus sign and one digit.
  function HexOctet(a: char, b: char): (r: Option<nat>)
    ensures r.Some? ==> r.value < 256
  {
    var low :- HexDigit(b);
    if a == '+' then Some(low)
    else
      var high :- HexDigit(a);
      Some(16 * high + low)
  }

  function Compact(s: string): string {
    if s == "" then ""
    else Compact(s[..|s| - 1]) + (if IsWhitespace(s[|s| - 1]) then "" else [s[|s| - 1]])
  }

  // The ASCII characters among the octets that pairs of digits spell.
  function UnhexPairs(hex: string): Option<string>
    requires |hex| % 2 == 0
  {
    if hex == "" then Some("")
    else
      var front :- UnhexPairs(hex[..|hex| - 2]);
      var octet :- HexOctet(hex[|hex| - 2], hex[|hex| - 1]);
      Some(front + (if octet < 128 then [octet as char] else ""))
  }

  function UnhexAscii(s: string): Option<string> {
    var hex := Compact(s);
    if hex == "" || |hex| % 2 != 0 then None else UnhexPairs(hex)
  }

  lemma {:induction false} UnhexPrefixFails(hex: string, n: nat)
    requires |hex| % 2 == 0 && n % 2 == 0 && n <= |hex| && UnhexPairs(hex[..n]).None?
    ensures UnhexPairs(hex).None?
  {
    if n < |hex| {
      assert hex[..|hex| - 2][..n] == hex[..n];
      UnhexPrefixFails(hex[..|hex| - 2], n);
    } else {
      assert hex[..n] == hex;
    }
  }

  lemma UnhexStep(front: string, a: char, b: char)
    requires |front| % 2 == 0
    ensures UnhexPairs(front + [a, b]) ==
            if UnhexPairs(front).None? || HexOctet(a, b).None? then None
            else Some(UnhexPairs(front).value + (if HexOctet(a, b).value < 128 then [HexOctet(a, b).value as char] else ""))
  {
    assert (front + [a, b])[..|front|] == front;
  }

  lemma UnhexStepAt(hex: string, i: nat)
    requires i + 1 < |hex| && i % 2 == 0
    ensures var front, octet := UnhexPairs(hex[..i]), HexOctet(hex[i], hex[i + 1]);
      UnhexPairs(hex[..i + 2]) ==
      if front.None? || octet.None? then None
      else if octet.value < 128 then Some(front.value + [octet.value as char])
      else front
  {
    UnhexStep(hex[..i], hex[i], hex[i + 1]);
    hide UnhexPairs, HexOctet;
    assert hex[..i + 2] == hex[..i] + [hex[i], hex[i + 1]];
    assert UnhexPairs(hex[..i]).Some? ==> UnhexPairs(hex[..i]).value + "" == UnhexPairs(hex[..i]).value;
  }

  method TryUnhexAscii(s: string) returns (r: Option<string>)
    ensures r == UnhexAscii(s)
  {
    var hex := Compact(s);
    if |hex| % 2 != 0 || hex == "" {
      return None;
    }
    var out := "";
    var i := 0;
    assert UnhexPairs("") == Some("");
    hide UnhexPairs, HexOctet, Compact;
    while i < |hex|
      invariant i <= |hex| && i % 2 == 0
      invariant UnhexPairs(hex[..i]) == Some(out)
    {
      var octet := HexOctet(hex[i], hex[i + 1]);
      UnhexStepAt(hex, i);
      if octet.None? {
        UnhexPrefixFails(hex, i + 2);
        return None;
      }
      if octet.value < 128 {
        out := out + [octet.value as char];
      }
      i := i + 2;
    }
    assert hex[..i] == hex;
    r := Some(out);
  }

  // ---- What the decoder undoes ---------------------------------------------------------

  function Digit(n: nat): char
    requires n < 16
  {
    "0123456789abcdef"[n]
  }

  predicate Ascii(s: string) {
    forall i :: 0 <= i < |s| ==> s[i] as int < 128
  }

  function HexPair(c: char): (r: string)
    requires c as int < 128
    ensures |r| == 2
  {
    [Digit(c as int / 16), Digit(c as int % 16)]
  }

  function HexSpelling(s: string): (r: string)
    requires Ascii(s)
    ensures |r| == 2 * |s|
  {
    if s == "" then "" else HexSpelling(s[..|s| - 1]) + HexPair(s[|s| - 1])
  }

  lemma {:induction false} PairsRead(s: string)
    requires Ascii(s)
    ensures UnhexPairs(HexSpelling(s)) == Some(s)
  {
    NoPairs();
    hide HexPair, UnhexPairs;
    if s != "" {
      var front, c := s[..|s| - 1], s[|s| - 1];
      PairsRead(front);
      assert HexSpelling(s) == HexSpelling(front) + HexPair(c);
      hide HexSpelling;
      CharacterReads(HexSpelling(front), front, c);
      assert s == front + [c];
    }
  }

  lemma NoPairs()
    ensures UnhexPairs("") == Some("")
  {
  }

  predicate NoSpace(s: string) {
    forall i :: 0 <= i < |s| ==> !IsWhitespace(s[i])
  }

  lemma {:induction false} CompactKeeps(s: string)
    requires NoSpace(s)
    ensures Compact(s) == s
  {
    hide IsWhitespace;
    if s != "" {
      CompactKeeps(s[..|s| - 1]);
      assert s == s[..|s| - 1] + [s[|s| - 1]];
    }
  }

  lemma {:induction false} SpellingHasNoSpace(s: string)
    requires Ascii(s)
    ensures NoSpace(HexSpelling(s))
  {
    if s != "" {
      SpellingHasNoSpace(s[..|s| - 1]);
      DigitIsNoSpace(s[|s| - 1] as int / 16);
      DigitIsNoSpace(s[|s| - 1] as int % 16);
      hide IsWhitespace, Digit;
    }
  }

  lemma DigitIsNoSpace(n: nat)
    requires n < 16
    ensures !IsWhitespace(Digit(n))
  {
  }

  // The decoder undoes the spelling of any ASCII text but the empty one, which it
  // takes for no spelling at all.
  lemma UnhexUndoesHex(s: string)
    requires Ascii(s)
    ensures UnhexAscii(HexSpelling(s)) == if s == "" then None else Some(s)
  {
    hide NoSpace, Compact, UnhexPairs, HexSpelling, Ascii;
    SpellingHasNoSpace(s);
    CompactKeeps(HexSpelling(s));
    PairsRead(s);
  }

  lemma CharacterReads(hex: string, front: string, c: char)
    requires |hex| % 2 == 0 && UnhexPairs(hex) == Some(front) && c as int < 128
    ensures UnhexPairs(hex + HexPair(c)) == Some(front + [c])
  {
    UnhexStep(hex, HexPair(c)[0], HexPair(c)[1]);
    OctetReads(c as int);
    hide UnhexPairs, Digit, HexOctet;
  }

  lemma DigitReads(n: nat)
    requires n < 16
    ensures HexDigit(Digit(n)) == Some(n) && Digit(n) != '+'
  {
  }

  lemma OctetReads(n: nat)
    requires n < 256
    ensures HexOctet(Digit(n / 16), Digit(n % 16)) == Some(n)
  {
    DigitReads(n / 16);
    DigitReads(n % 16);
    hide HexDigit, Digit;
  }

  // ---- What the string operations are for ---------------------------------------------------

  ghost predicate Blank(s: string) {
    forall i :: 0 <= i < |s| ==> IsWhitespace(s[i])
  }

  // Trimming takes white space from both ends and nothing else.
  lemma TrimIs(s: string) returns (left: string, right: string)
    ensures s == left + Trim(s) + right && Blank(left) && Blank(right)
    ensures Trim(s) != "" ==> !IsWhitespace(Trim(s)[0]) && !IsWhitespace(Trim(s)[|Trim(s)| - 1])
  {
    hide IsWhitespace;
    left := TrimLeftIs(s);
    right := TrimRightIs(TrimLeft(s));
  }

  lemma {:induction false} TrimLeftIs(s: string) returns (left: string)
    ensures s == left + TrimLeft(s) && Blank(left)
    ensures TrimLeft(s) != "" ==> !IsWhitespace(TrimLeft(s)[0])
  {
    hide IsWhitespace;
    left := "";
    if s != "" && IsWhitespace(s[0]) {
      left := TrimLeftIs(s[1..]);
      left := [s[0]] + left;
    }
  }

  lemma {:induction false} TrimRightIs(s: string) returns (right: string)
    ensures s == TrimRight(s) + right && Blank(right)
    ensures TrimRight(s) != "" ==> TrimRight(s)[0] == s[0] && !IsWhitespace(TrimRight(s)[|TrimRight(s)| - 1])
  {
    hide IsWhitespace;
    right := "";
    if s != "" && IsWhitespace(s[|s| - 1]) {
      right := TrimRightIs(s[..|s| - 1]);
      right := right + [s[|s| - 1]];
    }
  }

  // Nothing but the replaced character changes.
  lemma ReplaceCharIs(s: string, from: char, to: char)
    ensures forall i :: 0 <= i < |s| ==> if s[i] == from then ReplaceChar(s, from, to)[i] == to else ReplaceChar(s, from, to)[i] == s[i]
  {
  }

  // A name without another "Eth" in it has its first three letters spelled out.
  lemma SpellsFirst(rest: string)
    requires forall i :: 0 <= i < |rest| ==> rest[i] != 'E'
    ensures SpellEthernet("Eth" + rest) == "Ethernet" + rest
  {
    NothingToSpell(rest);
    assert ("Eth" + rest)[..3] == "Eth" && ("Eth" + rest)[3..] == rest;
  }

  lemma {:induction false} NothingToSpell(s: string)
    requires forall i :: 0 <= i < |s| ==> s[i] != 'E'
    ensures SpellEthernet(s) == s
  {
    if s != "" {
      NothingToSpell(s[1..]);
      assert |s| >= 3 ==> s[..3][0] == s[0];
    }
  }

  // The decimal form of a number parses exactly when it fits into 64 bits, and nothing
  // but digits does.
  lemma ParsesIfFits(n: nat)
    ensures ParseI64(ShowNat(n)) == if n <= 0x7fff_ffff_ffff_ffff then Some(n) else None
  {
    ShownNatReads(n);
  }

  lemma ParsesOnlyDigits(s: string)
    ensures ParseI64(s).Some? ==> s != "" && forall i :: 0 <= i < |s| ==> '0' <= s[i] <= '9'
  {
  }

  // White space between the digits does not matter, octets beyond ASCII are left out,
  // and anything that is no pair of digits voids the text.
  lemma UnhexIgnoresSpace(a: string, c: char, b: string)
    requires IsWhitespace(c)
    ensures UnhexAscii(a + [c] + b) == UnhexAscii(a + b)
  {
    hide IsWhitespace, UnhexPairs;
    CompactAppend(a + [c], b);
    CompactAppend(a, [c]);
    CompactAppend(a, b);
    assert [c][..0] == "" && Compact("") == "" && Compact([c]) == "";
    assert Compact(a) + "" == Compact(a);
    assert Compact(a + [c] + b) == Compact(a + b);
  }

  lemma {:induction false} CompactAppend(a: string, b: string)
    ensures Compact(a + b) == Compact(a) + Compact(b)
  {
    hide IsWhitespace;
    if b == "" {
      assert a + b == a;
    } else {
      assert (a + b)[..|a + b| - 1] == a + b[..|b| - 1];
      CompactAppend(a, b[..|b| - 1]);
    }
  }

  lemma UnhexSkipsOctet(hex: string, n: nat)
    requires |hex| % 2 == 0 && 128 <= n < 256
    ensures UnhexPairs(hex + [Digit(n / 16), Digit(n % 16)]) == UnhexPairs(hex)
  {
    OctetReads(n);
    UnhexStep(hex, Digit(n / 16), Digit(n % 16));
    hide UnhexPairs, HexOctet, Digit;
    assert UnhexPairs(hex).Some? ==> UnhexPairs(hex).value + "" == UnhexPairs(hex).value;
  }

  lemma UnhexNeedsPairs(s: string)
    ensures NoSpace(s) && |s| % 2 == 1 ==> UnhexAscii(s).None?
  {
    hide IsWhitespace;
    if NoSpace(s) {
      CompactKeeps(s);
    }
  }

  lemma UnhexNeedsDigits(front: string, a: char, b: char)
    requires NoSpace(front + [a, b]) && HexOctet(a, b).None?
    ensures UnhexAscii(front + [a, b]).None?
  {
    hide IsWhitespace, HexOctet, UnhexPairs, NoSpace;
    CompactKeeps(front + [a, b]);
    if |front| % 2 == 0 {
      UnhexStep(front, a, b);
    }
  }

  // Digits read in either case; a sign replaces the first one.
  lemma HexOctetForms(n: nat)
    requires n < 256
    ensures HexOctet("0123456789ABCDEF"[n / 16], "0123456789ABCDEF"[n % 16]) == Some(n)
    ensures n < 16 ==> HexOctet('+', "0123456789abcdef"[n]) == Some(n)
    ensures forall a, b :: HexOctet(a, b).Some? ==> a == '+' || HexDigit(a).Some?
  {
    UpperReads(n / 16);
    UpperReads(n % 16);
    if n < 16 {
      DigitReads(n);
    }
  }

  lemma UpperReads(n: nat)
    requires n < 16
    ensures HexDigit("0123456789ABCDEF"[n]) == Some(n) && "0123456789ABCDEF"[n] != '+'
  {
  }
}
