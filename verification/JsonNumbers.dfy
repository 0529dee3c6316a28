/** What JSON numbers are (section 6 of RFC 8259), and that the parser finds exactly those. */
module JsonNumbers {
  import opened Basics
  import opened Json

  predicate AllDigits(s: bytes) {
    s != [] && forall i :: 0 <= i < |s| ==> 0x30 <= s[i] <= 0x39
  }

  predicate Whole(s: bytes) {
    s == [0x30] || (AllDigits(s) && s[0] != 0x30)
  }

  predicate Fraction(s: bytes) {
    s == [] || (s[0] == 0x2E && AllDigits(s[1..]))
  }

  predicate Exponent(s: bytes) {
    || s == []
    || (s[0] in {0x45, 0x65} && (AllDigits(s[1..]) || (|s| >= 2 && s[1] in {0x2B, 0x2D} && AllDigits(s[2..]))))
  }

  /** An optional minus, a whole number without leading zeros, perhaps a fraction, perhaps an exponent. */
  predicate NumberParts(t: bytes, a: nat, b: nat, c: nat) {
    && a <= b <= c <= |t|
    && (a == 0 || (a == 1 && t[0] == 0x2D)) && Whole(t[a..b]) && Fraction(t[b..c]) && Exponent(t[c..])
  }

  ghost predicate Number(t: bytes) {
    exists a, b, c :: NumberParts(t, a, b, c)
  }

  lemma {:induction false} DigitsEndIs(s: bytes, i: nat)
    requires i <= |s|
    ensures var j := DigitsEnd(s, i);
      (forall k :: i <= k < j ==> Digit(s[k])) && (j < |s| ==> !Digit(s[j]))
    decreases |s| - i
  {
    if i < |s| && Digit(s[i]) {
      DigitsEndIs(s, i + 1);
    }
  }

  /** Digits that nothing carries on are found to their end. */
  lemma SomeDigitsIs(s: bytes, i: nat, j: nat)
    requires i <= j <= |s| && AllDigits(s[i..j]) && (j < |s| ==> !Digit(s[j]))
    ensures SomeDigits(s, i) == Some(j)
  {
    assert forall k :: i <= k < j ==> s[k] == s[i..j][k - i] && Digit(s[k]);
    DigitsEndIs(s, i + 1);
  }

  lemma SomeDigitsFound(s: bytes, i: nat)
    requires i <= |s| && SomeDigits(s, i).Some?
    ensures AllDigits(s[i..SomeDigits(s, i).value])
  {
    DigitsEndIs(s, i + 1);
  }

  lemma ExponentIs(t: bytes, c: nat)
    requires c <= |t| && Exponent(t[c..])
    ensures ExponentEnd(t, c) == Some(|t|) && (c < |t| ==> t[c] in {0x45, 0x65})
  {
    WholeTail(t, c);
    if c < |t| {
      SliceHead(t, c, |t|);
      if AllDigits(t[c + 1..|t|]) {
        SliceHead(t, c + 1, |t|);
        SomeDigitsIs(t, c + 1, |t|);
      } else {
        SomeDigitsIs(t, c + 2, |t|);
      }
    }
  }

  lemma FractionIs(t: bytes, b: nat, c: nat)
    requires b <= c <= |t| && Fraction(t[b..c]) && (c < |t| ==> t[c] in {0x45, 0x65})
    ensures FractionEnd(t, b) == Some(c) && (b < |t| ==> !Digit(t[b]))
  {
    if b < c {
      SliceHead(t, b, c);
      SomeDigitsIs(t, b + 1, c);
    }
  }

  lemma NumberIs(t: bytes, a: nat, b: nat, c: nat)
    requires NumberParts(t, a, b, c)
    ensures NumberEnd(t) == Some(|t|)
  {
    ExponentIs(t, c);
    FractionIs(t, b, c);
    SliceHead(t, a, b);
    assert AllDigits(t[a..b]);
    SomeDigitsIs(t, a, b);
  }

  lemma ExponentFound(t: bytes, c: nat)
    requires c <= |t| && ExponentEnd(t, c) == Some(|t|)
    ensures Exponent(t[c..])
  {
    WholeTail(t, c);
    if c < |t| {
      SliceHead(t, c, |t|);
      if c + 1 < |t| && (t[c + 1] == 0x2B || t[c + 1] == 0x2D) {
        SomeDigitsFound(t, c + 2);
      } else {
        SomeDigitsFound(t, c + 1);
      }
    }
  }

  lemma FractionFound(t: bytes, b: nat)
    requires b <= |t| && FractionEnd(t, b).Some?
    ensures Fraction(t[b..FractionEnd(t, b).value])
  {
    if b < |t| && t[b] == 0x2E {
      SomeDigitsFound(t, b + 1);
      var c := FractionEnd(t, b).value;
      SliceHead(t, b, c);
    }
  }

  /** The parser's numbers are exactly those of the grammar. */
  lemma NumberExactly(t: bytes)
    ensures NumberEnd(t) == Some(|t|) <==> Number(t)
  {
    if NumberEnd(t) == Some(|t|) {
      var a: nat := if t[0] == 0x2D then 1 else 0;
      var b := SomeDigits(t, a).value;
      var c := FractionEnd(t, b).value;
      SomeDigitsFound(t, a);
      FractionFound(t, b);
      ExponentFound(t, c);
      SliceHead(t, a, b);
      assert NumberParts(t, a, b, c);
    }
    if Number(t) {
      var a, b, c :| NumberParts(t, a, b, c);
      NumberIs(t, a, b, c);
    }
  }

  // ---------------------------------------------------------------- numbers in front of other text

  /** Text that cannot carry a number on: the end, space, a comma, or a closing bracket. */
  predicate Stops(k: bytes) {
    k == [] || k[0] in {0x20, 0x09, 0x0A, 0x0D, 0x2C, 0x5D, 0x7D}
  }

  lemma {:induction false} DigitsStop(text: bytes, k: bytes, i: nat)
    requires i <= |text| && Stops(k)
    ensures DigitsEnd(text + k, i) == DigitsEnd(text, i)
    decreases |text| - i
  {
    if i < |text| {
      DigitsStop(text, k, i + 1);
    }
  }

  lemma SomeDigitsStop(text: bytes, k: bytes, i: nat)
    requires i <= |text| && Stops(k)
    ensures SomeDigits(text + k, i) == SomeDigits(text, i)
  {
    if i < |text| {
      DigitsStop(text, k, i + 1);
    }
  }

  lemma FractionStops(text: bytes, k: bytes, i: nat)
    requires i <= |text| && Stops(k)
    ensures FractionEnd(text + k, i) == FractionEnd(text, i)
  {
    if i < |text| {
      SomeDigitsStop(text, k, i + 1);
    }
  }

  lemma ExponentStops(text: bytes, k: bytes, i: nat)
    requires i <= |text| && Stops(k) && ExponentEnd(text, i).Some?
    ensures ExponentEnd(text + k, i) == ExponentEnd(text, i)
  {
    if i < |text| {
      SomeDigitsStop(text, k, i + 1);
      if i + 1 < |text| {
        SomeDigitsStop(text, k, i + 2);
      }
    }
  }

  /** A number ends where such text begins. */
  lemma NumberStops(text: bytes, k: bytes)
    requires NumberEnd(text) == Some(|text|) && Stops(k)
    ensures NumberEnd(text + k) == Some(|text|)
  {
    var i := if text[0] == 0x2D then 1 else 0;
    SomeDigitsStop(text, k, i);
    var whole := SomeDigits(text, i).value;
    FractionStops(text, k, whole);
    ExponentStops(text, k, FractionEnd(text, whole).value);
  }

  lemma {:induction false} DigitsWithin(s: bytes, n: nat, i: nat)
    requires i <= n <= |s| && DigitsEnd(s, i) <= n
    ensures DigitsEnd(s[..n], i) == DigitsEnd(s, i)
    decreases n - i
  {
    if i < |s| && Digit(s[i]) {
      DigitsWithin(s, n, i + 1);
    }
  }

  lemma SomeDigitsWithin(s: bytes, n: nat, i: nat)
    requires i <= n <= |s| && SomeDigits(s, i).Some? && SomeDigits(s, i).value <= n
    ensures SomeDigits(s[..n], i) == SomeDigits(s, i)
  {
    DigitsWithin(s, n, i + 1);
  }

  lemma FractionWithin(s: bytes, n: nat, i: nat)
    requires i <= n <= |s| && FractionEnd(s, i).Some? && FractionEnd(s, i).value <= n
    ensures FractionEnd(s[..n], i) == FractionEnd(s, i)
  {
    if i < |s| && s[i] == 0x2E {
      SomeDigitsWithin(s, n, i + 1);
    }
  }

  lemma ExponentWithin(s: bytes, n: nat, i: nat)
    requires i <= n <= |s| && ExponentEnd(s, i) == Some(n)
    ensures ExponentEnd(s[..n], i) == Some(n)
  {
    if i < |s| && (s[i] == 0x65 || s[i] == 0x45) {
      SomeDigitsWithin(s, n, if i + 1 < |s| && (s[i + 1] == 0x2B || s[i + 1] == 0x2D) then i + 2 else i + 1);
    }
  }

  /** A number found in a text is a number by itself. */
  lemma NumberWithin(s: bytes)
    requires NumberEnd(s).Some?
    ensures NumberEnd(s[..NumberEnd(s).value]) == NumberEnd(s)
  {
    var n, i := NumberEnd(s).value, if s != [] && s[0] == 0x2D then 1 else 0;
    var whole := SomeDigits(s, i).value;
    SomeDigitsWithin(s, n, i);
    FractionWithin(s, n, whole);
    ExponentWithin(s, n, FractionEnd(s, whole).value);
  }
}
