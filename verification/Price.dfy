/** The price-text parser: turns the text of a listing's price tag, written
    the Brazilian way ("R$ 32.000"), into a whole number of reais. */
module Price {
  import opened Wrappers
  import opened Text
  import opened Numerals

  /** `parse_preco`. Absent or empty text gives `None`. Otherwise the dots
      (thousands separators) are removed and every run of digits is joined into
      one numeral; no digit at all gives `None`, and a numeral longer than
      `int()` accepts raises inside the `try` and also gives `None`. A decimal
      part after a comma is not rounded: its digits are simply appended. */
  function ParsePrice(text: Option<string>): (r: Option<int>)
    ensures r.Some? <==> text.Some? && Digits(text.value) != []
                         && |Digits(text.value)| <= IntMaxStrDigits
    ensures r.Some? ==> r.value >= 0 && r.value == NumeralValue(Digits(text.value))
  {
    if text.None? || |text.value| == 0 then None
    else
      var undotted := RemoveAll(text.value, '.');
      var digits := Digits(undotted);
      DigitsRemoveAll(text.value, '.');
      if |digits| == 0 then None
      else if |digits| > IntMaxStrDigits then None
      else Some(NumeralValue(digits))
  }

  /** Digits grouped by three from the right, joined by dots ("32000" becomes
      "32.000"), as prices are written on the listing pages. */
  function GroupThousands(d: string): (g: string)
    ensures Digits(g) == Digits(d)
    decreases |d|
  {
    if |d| <= 3 then d
    else
      var head, tail := d[..|d| - 3], d[|d| - 3..];
      DigitsAppend(GroupThousands(head), "." + tail);
      DigitsAppend(".", tail);
      DigitsOfNonDigits(".");
      assert GroupThousands(head) + "." + tail == GroupThousands(head) + ("." + tail);
      DigitsAppend(head, tail);
      assert d == head + tail;
      GroupThousands(head) + "." + tail
  }

  /** The price tag a listing shows for `n` whole reais, e.g. "R$ 32.000". */
  function FormatPrice(n: nat): string {
    "R$ " + GroupThousands(NatToDecimal(n))
  }

  lemma DigitsOfFormatPrice(n: nat)
    ensures Digits(FormatPrice(n)) == NatToDecimal(n)
  {
    DigitsAppend("R$ ", GroupThousands(NatToDecimal(n)));
    DigitsOfNonDigits("R$ ");
    DigitsOfDigitString(NatToDecimal(n));
  }

  /** Parsing the price tag written for `n` gives back `n`, for every amount
      whose numeral `int()` accepts. */
  lemma ParseFormatRoundTrip(n: nat)
    requires |NatToDecimal(n)| <= IntMaxStrDigits
    ensures ParsePrice(Some(FormatPrice(n))) == Some(n)
  {
    DigitsOfFormatPrice(n);
    NumeralOfDecimal(n);
  }

  /** The two digits written for a number of centavos below 100. */
  function CentsDigits(cents: nat): (c: string)
    requires cents < 100
    ensures |c| == 2 && AllDigits(c) && NumeralValue(c) == cents
  {
    var c := [DigitChar(cents / 10), DigitChar(cents % 10)];
    assert c[..1] == [DigitChar(cents / 10)];
    c
  }

  /** The price tag with a two-digit decimal part, e.g. "R$ 32.000,50". */
  function FormatPriceCents(n: nat, cents: nat): string
    requires cents < 100
  {
    FormatPrice(n) + "," + CentsDigits(cents)
  }

  /** A comma adds no digit. */
  lemma DigitsComma(f: string)
    ensures Digits(f + ",") == Digits(f)
  {
    DigitsOfNonDigits(",");
    DigitsAppend(f, ",");
  }

  /** Digit characters appended are kept as they are. */
  lemma DigitsThenDigits(u: string, c: string)
    requires AllDigits(c)
    ensures Digits(u + c) == Digits(u) + c
  {
    DigitsOfDigitString(c);
    DigitsAppend(u, c);
  }

  lemma DigitsOfFormatPriceCents(n: nat, cents: nat)
    requires cents < 100
    ensures Digits(FormatPriceCents(n, cents)) == NatToDecimal(n) + CentsDigits(cents)
  {
    DigitsOfFormatPrice(n);
    DigitsComma(FormatPrice(n));
    DigitsThenDigits(FormatPrice(n) + ",", CentsDigits(cents));
  }

  /** A decimal part is appended rather than rounded: "R$ 32.000,50" parses as
      3200050, i.e. the amount in centavos. */
  lemma ParseCentsAppends(n: nat, cents: nat)
    requires cents < 100
    requires |NatToDecimal(n)| + 2 <= IntMaxStrDigits
    ensures ParsePrice(Some(FormatPriceCents(n, cents))) == Some(n * 100 + cents)
  {
    var c := CentsDigits(cents);
    var d := NatToDecimal(n) + c;
    DigitsOfFormatPriceCents(n, cents);
    NumeralAppend(NatToDecimal(n), c);
    NumeralOfDecimal(n);
    assert Pow10(|c|) == 100;
    ParseOfDigits(FormatPriceCents(n, cents), d, n * 100 + cents);
  }

  /** A text whose digits form an acceptable numeral parses as its value. */
  lemma ParseOfDigits(t: string, d: string, v: int)
    requires Digits(t) == d && 0 < |d| <= IntMaxStrDigits
    requires AllDigits(d) && NumeralValue(d) == v
    ensures ParsePrice(Some(t)) == Some(v)
  {
  }

  /** A present text has no price exactly when it holds no digit character,
      or more digits than `int()` converts. */
  lemma NoPriceIff(text: string)
    ensures ParsePrice(Some(text)) == None
            <==> (forall k :: 0 <= k < |text| ==> !IsDigit(text[k]))
                 || |Digits(text)| > IntMaxStrDigits
  {
    DigitsEmptyIff(text);
  }

  lemma FormatOf32000()
    ensures FormatPrice(32000) == "R$ 32.000"
  {
    assert NatToDecimal(32000) == "32000";
    assert GroupThousands("32000") == "32.000";
  }

  /** The listing's usual tag "R$ 32.000" is 32000 reais. */
  lemma ParseExampleWhole()
    ensures ParsePrice(Some("R$ 32.000")) == Some(32000)
  {
    FormatOf32000();
    ParseFormatRoundTrip(32000);
  }

  /** A tag with centavos, "R$ 32.000,50", reads as 3200050. */
  lemma ParseExampleCents()
    ensures ParsePrice(Some("R$ 32.000,50")) == Some(3200050)
  {
    FormatOf32000();
    assert CentsDigits(50) == "50";
    assert FormatPriceCents(32000, 50) == "R$ 32.000,50";
    ParseCentsAppends(32000, 50);
  }
}
