/** The octet-string bitmaps of the VLAN tables (nexus/src/collectors/vlanpoller.rs). */
module Bitmaps {
  import opened Options
  import opened Sorting
  import opened Text

  type octet = n: int | 0 <= n < 256

  // ---- Octets from their printed form -----------------------------------------------

  // The words between white space.
  function Tokens(s: string): (r: seq<string>)
    ensures s != "" && !IsWhitespace(s[|s| - 1]) ==> r != []
  {
    if s == "" then []
    else
      var front, c := s[..|s| - 1], s[|s| - 1];
      var before := Tokens(front);
      if IsWhitespace(c) then before
      else if front != "" && !IsWhitespace(front[|front| - 1]) then
        before[..|before| - 1] + [before[|before| - 1] + [c]]
      else before + [[c]]
  }

  function Hex(digits: string): Option<nat> {
    if digits == "" then Some(0)
    else
      var high :- Hex(digits[..|digits| - 1]);
      var low :- HexDigit(digits[|digits| - 1]);
      Some(16 * high + low)
  }

  // A plus sign may precede the digits; anything above 255 does not fit.
  function ParseOctet(token: string): Option<octet> {
    var digits := if |token| > 1 && token[0] == '+' then token[1..] else token;
    var n :- Hex(digits);
    if token == "" || n > 255 then None else Some(n)
  }

  function AllParse(tokens: seq<string>): Option<seq<octet>> {
    if tokens == [] then Some([])
    else
      var front :- AllParse(tokens[..|tokens| - 1]);
      var last :- ParseOctet(tokens[|tokens| - 1]);
      Some(front + [last])
  }

  // One word that is no octet voids the whole value.
  function Octets(value: string): seq<octet> {
    AllParse(Tokens(value)).GetOr([])
  }

  method ParseHexOctets(value: string) returns (octets: seq<octet>)
    ensures octets == Octets(value)
  {
    var tokens := Tokens(value);
    octets := [];
    for i := 0 to |tokens|
      invariant AllParse(tokens[..i]) == Some(octets)
    {
      assert tokens[..i + 1][..i] == tokens[..i];
      var octet := ParseOctet(tokens[i]);
      if octet.None? {
        OneBadToken(tokens, i + 1);
        return [];
      }
      octets := octets + [octet.value];
    }
    assert tokens[..|tokens|] == tokens;
  }

  lemma {:induction false} OneBadToken(tokens: seq<string>, n: nat)
    requires n <= |tokens| && AllParse(tokens[..n]).None?
    ensures AllParse(tokens).None?
  {
    if n < |tokens| {
      assert tokens[..|tokens| - 1][..n] == tokens[..n];
      OneBadToken(tokens[..|tokens| - 1], n);
    } else {
      assert tokens[..n] == tokens;
    }
  }

  // ---- What the printed form was printed from ------------------------------------------

  function PrintOctet(n: octet): string {
    [Digit(n / 16), Digit(n % 16)]
  }

  // Two digits each, separated by one space.
  function Print(octets: seq<octet>): string {
    if octets == [] then ""
    else
      var front := octets[..|octets| - 1];
      Print(front) + (if front == [] then "" else " ") + PrintOctet(octets[|octets| - 1])
  }

  lemma DigitIsWord(n: nat)
    requires n < 16
    ensures !IsWhitespace(Digit(n)) && Digit(n) != '+' && HexDigit(Digit(n)) == Some(n)
  {
  }

  lemma TwoMore(s: string, a: char, b: char)
    requires !IsWhitespace(a) && !IsWhitespace(b) && (s == "" || IsWhitespace(s[|s| - 1]))
    ensures Tokens(s + [a, b]) == Tokens(s) + [[a, b]]
  {
    hide Tokens, IsWhitespace;
    WordStarts(s, a);
    WordGrows(s + [a], b);
    assert (s + [a]) + [b] == s + [a, b];
    LastGrows(Tokens(s), a, b);
  }

  lemma LastGrows(words: seq<string>, a: char, b: char)
    ensures var w := words + [[a]];
      w[..|w| - 1] + [w[|w| - 1] + [b]] == words + [[a, b]]
  {
    assert [a] + [b] == [a, b];
  }

  lemma WordStarts(s: string, a: char)
    requires !IsWhitespace(a) && (s == "" || IsWhitespace(s[|s| - 1]))
    ensures Tokens(s + [a]) == Tokens(s) + [[a]]
  {
    assert (s + [a])[..|s|] == s;
  }

  lemma WordGrows(s: string, b: char)
    requires s != "" && !IsWhitespace(s[|s| - 1]) && !IsWhitespace(b)
    ensures var before := Tokens(s);
      before != [] && Tokens(s + [b]) == before[..|before| - 1] + [before[|before| - 1] + [b]]
  {
    assert (s + [b])[..|s|] == s;
  }

  lemma OctetReads(n: octet)
    ensures ParseOctet(PrintOctet(n)) == Some(n)
  {
    var t := PrintOctet(n);
    DigitIsWord(n / 16);
    DigitIsWord(n % 16);
    assert t[..1] == [t[0]] && [t[0]][..0] == "";
    assert Hex("") == Some(0);
    assert Hex([t[0]]) == Some(n / 16);
    assert Hex(t) == Some(16 * (n / 16) + n % 16);
  }

  // A plus sign changes nothing before digits and is no octet by itself; neither is
  // an empty word, or a number above 255.
  lemma OctetForms(digits: string)
    ensures digits != "" && digits[0] != '+' ==> ParseOctet("+" + digits) == ParseOctet(digits)
    ensures ParseOctet("+").None? && ParseOctet("").None? && ParseOctet("++").None?
    ensures Hex(digits).Some? && Hex(digits).value > 255 && digits[0] != '+' ==> ParseOctet(digits).None?
  {
    assert ("+" + digits)[1..] == digits;
    assert "++"[1..] == "+" && HexDigit('+').None?;
    assert Hex("+").None?;
  }

  lemma {:induction false} PrintTokens(octets: seq<octet>)
    ensures AllParse(Tokens(Print(octets))) == Some(octets)
  {
    hide PrintOctet, Tokens, AllParse;
    if octets == [] {
      NothingReads();
    } else {
      var front, n := octets[..|octets| - 1], octets[|octets| - 1];
      PrintTokens(front);
      var s := Print(front) + (if front == [] then "" else " ");
      OneMoreOctet(Print(front), s, n);
      ParseSnoc(Tokens(Print(front)), n);
      assert octets == front + [n];
    }
  }

  lemma NothingReads()
    ensures AllParse(Tokens("")) == Some([])
  {
  }

  lemma OneMoreOctet(before: string, s: string, n: octet)
    requires s == before + " " || (s == before + "" && before == "")
    ensures Tokens(s + PrintOctet(n)) == Tokens(before) + [PrintOctet(n)]
  {
    SpaceAdds(before);
    DigitIsWord(n / 16);
    DigitIsWord(n % 16);
    hide Digit, Tokens;
    TwoMore(s, Digit(n / 16), Digit(n % 16));
  }

  lemma ParseSnoc(tokens: seq<string>, n: octet)
    requires AllParse(tokens).Some?
    ensures AllParse(tokens + [PrintOctet(n)]) == Some(AllParse(tokens).value + [n])
  {
    OctetReads(n);
    hide ParseOctet, PrintOctet;
    assert (tokens + [PrintOctet(n)])[..|tokens|] == tokens;
  }

  lemma SpaceAdds(s: string)
    ensures Tokens(s + " ") == Tokens(s) && IsWhitespace(' ') && s + "" == s
  {
    assert (s + " ")[..|s|] == s;
  }

  lemma PrintedOctetsReadBack(octets: seq<octet>)
    ensures Octets(Print(octets)) == octets
  {
    PrintTokens(octets);
  }

  // ---- Bits ------------------------------------------------------------------------------

  const WEIGHTS: seq<int> := [128, 64, 32, 16, 8, 4, 2, 1]

  // Bit j of an octet, the most significant first.
  predicate Bit(n: octet, j: nat)
    requires j < 8
  {
    n / WEIGHTS[j] % 2 == 1
  }

  function BitsOf(n: octet, first: int, count: nat): seq<int>
    requires count <= 8
  {
    if count == 0 then []
    else BitsOf(n, first, count - 1) + (if Bit(n, count - 1) then [first + count - 1] else [])
  }

  function BitmapValues(octets: seq<octet>, base: int): seq<int> {
    if octets == [] then []
    else
      var last := |octets| - 1;
      BitmapValues(octets[..last], base) + BitsOf(octets[last], base + 8 * last, 8)
  }

  method DecodeBitmap(octets: seq<octet>, base: int) returns (values: seq<int>)
    ensures values == BitmapValues(octets, base)
  {
    values := [];
    for i := 0 to |octets|
      invariant values == BitmapValues(octets[..i], base)
    {
      assert octets[..i + 1][..i] == octets[..i];
      ghost var before := values;
      for j := 0 to 8
        invariant values == before + BitsOf(octets[i], base + 8 * i, j)
      {
        if Bit(octets[i], j) {
          values := values + [base + 8 * i + j];
        }
      }
    }
    assert octets[..|octets|] == octets;
  }

  lemma {:induction false} BitsAre(n: octet, first: int, count: nat)
    requires count <= 8
    ensures forall v :: v in BitsOf(n, first, count) <==> first <= v < first + count && Bit(n, v - first)
    ensures Increasing(BitsOf(n, first, count))
  {
    hide Bit;
    if count > 0 {
      BitsAre(n, first, count - 1);
      var before := BitsOf(n, first, count - 1);
      forall k | 0 <= k < |before| ensures before[k] < first + count - 1 {
        assert before[k] in before;
      }
    }
  }

  predicate BitSet(octets: seq<octet>, p: int) {
    0 <= p < 8 * |octets| && Bit(octets[p / 8], p % 8)
  }

  // The values are the positions of the set bits, in increasing order.
  lemma {:induction false} ValuesAreSetBits(octets: seq<octet>, base: int)
    ensures forall v :: v in BitmapValues(octets, base) <==> BitSet(octets, v - base)
    ensures Increasing(BitmapValues(octets, base))
  {
    hide Bit;
    if octets != [] {
      var last := |octets| - 1;
      var front := octets[..last];
      ValuesAreSetBits(front, base);
      BitsAre(octets[last], base + 8 * last, 8);
      var before, bits := BitmapValues(front, base), BitsOf(octets[last], base + 8 * last, 8);
      forall v ensures v in before + bits <==> BitSet(octets, v - base) {
        LastOctet(octets, v - base);
      }
      IncreasingTogether(before, bits, base + 8 * last);
    }
  }

  lemma LastOctet(octets: seq<octet>, p: int)
    requires octets != []
    ensures var last := |octets| - 1;
      BitSet(octets, p) <==> BitSet(octets[..last], p) || (8 * last <= p < 8 * last + 8 && Bit(octets[last], p - 8 * last))
  {
    hide Bit;
    var last := |octets| - 1;
    if 8 * last <= p < 8 * last + 8 {
      assert p / 8 == last && p % 8 == p - 8 * last;
    }
  }

  lemma IncreasingTogether(a: seq<int>, b: seq<int>, border: int)
    requires Increasing(a) && Increasing(b)
    requires (forall v :: v in a ==> v < border) && (forall v :: v in b ==> v >= border)
    ensures Increasing(a + b)
  {
    forall i, j | 0 <= i < j < |a + b| ensures (a + b)[i] < (a + b)[j] {
      if i < |a| && j >= |a| {
        assert a[i] in a && b[j - |a|] in b;
      }
    }
  }

  // ---- The bitmap that a list of values was read from ----------------------------------

  // The octet whose binary digits, the highest first, say which of the next `count`
  // values are in the list.
  function Packed(values: seq<int>, first: int, count: nat): nat {
    if count == 0 then 0 else 2 * Packed(values, first, count - 1) + (if first + count - 1 in values then 1 else 0)
  }

  // Packing the decoded values gives every octet back, so the decoder loses nothing and
  // reads each octet from its most significant bit on.
  lemma {:induction false} PackingUndoesDecoding(octets: seq<octet>, base: int, i: nat)
    requires i < |octets|
    ensures Packed(BitmapValues(octets, base), base + 8 * i, 8) == octets[i]
  {
    var values, first, n := BitmapValues(octets, base), base + 8 * i, octets[i];
    ValuesAreSetBits(octets, base);
    forall j: nat | j < 8 ensures first + j in values <==> Bit(n, j) {
      assert (8 * i + j) / 8 == i && (8 * i + j) % 8 == j;
    }
    hide BitmapValues, Bit;
    PackedBits(values, first, n, 8);
    assert Leading(n, 8) == n;
  }

  // The number that the `count` highest binary digits of an octet make.
  function Leading(n: octet, count: nat): nat
    requires count <= 8
  {
    n / [256, 128, 64, 32, 16, 8, 4, 2, 1][count]
  }

  lemma {:induction false} PackedBits(values: seq<int>, first: int, n: octet, count: nat)
    requires count <= 8
    requires forall j: nat :: j < count ==> (first + j in values <==> Bit(n, j))
    ensures Packed(values, first, count) == Leading(n, count)
  {
    if count > 0 {
      PackedBits(values, first, n, count - 1);
      NextDigit(n, count);
      hide Bit, Leading;
    }
  }

  lemma NextDigit(n: octet, count: nat)
    requires 0 < count <= 8
    ensures Leading(n, count) == 2 * Leading(n, count - 1) + (if Bit(n, count - 1) then 1 else 0)
  {
  }

  // ---- Bits in arithmetic ---------------------------------------------------------------

  function Power(k: nat): (r: nat)
    ensures r >= 1
  {
    if k == 0 then 1 else 2 * Power(k - 1)
  }

  // Bit p of an octet string, counted from the most significant bit of the first octet.
  predicate IsSet(octets: seq<octet>, p: int) {
    0 <= p < 8 * |octets| && octets[p / 8] / Power(7 - p % 8) % 2 == 1
  }

  lemma SetIsSet(octets: seq<octet>)
    ensures forall p :: IsSet(octets, p) <==> BitSet(octets, p)
  {
    forall j: nat | j < 8 ensures Power(7 - j) == WEIGHTS[j] {
      PowersOfTwo();
    }
    hide Power;
  }

  lemma PowersOfTwo()
    ensures Power(0) == 1 && Power(1) == 2 && Power(2) == 4 && Power(3) == 8
    ensures Power(4) == 16 && Power(5) == 32 && Power(6) == 64 && Power(7) == 128
  {
  }

  // A value is listed exactly when its bit is set.
  lemma ValuesAreSet(octets: seq<octet>, base: int)
    ensures forall v :: v in BitmapValues(octets, base) <==> IsSet(octets, v - base)
  {
    ValuesAreSetBits(octets, base);
    SetIsSet(octets);
    hide BitSet, IsSet, BitmapValues;
  }
}
