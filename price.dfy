/**
 * Price handling of the spider: the normalisation of a displayed price string
 * (`_clean_price_string`, up to the string handed to `float`) and the choice
 * between the discount and the regular price block (`_parse_price_data`).
 */
module Price {
  import opened Wrappers

  // ---------------------------------------------------------------------------
  // Character classes and the string operations the normalisation uses
  // ---------------------------------------------------------------------------

  predicate IsDigit(c: char) {
    '0' <= c <= '9'
  }

  /** A character of the class `[\d,.-]`; every other character is removed first. */
  predicate IsPriceChar(c: char) {
    IsDigit(c) || c == ',' || c == '.' || c == '-'
  }

  /** A character a normalised price may hold. */
  predicate IsNumberChar(c: char) {
    IsDigit(c) || c == '.' || c == '-'
  }

  /** `re.sub(r'[^\d,.-]', '', s)`. */
  function KeepPriceChars(s: string): (r: string)
    ensures |r| <= |s|
    ensures forall i | 0 <= i < |r| :: IsPriceChar(r[i])
  {
    if s == [] then []
    else (if IsPriceChar(s[0]) then [s[0]] else []) + KeepPriceChars(s[1..])
  }

  /** `s.replace(c, '')`. */
  function DeleteChar(s: string, c: char): string
  {
    if s == [] then []
    else (if s[0] == c then [] else [s[0]]) + DeleteChar(s[1..], c)
  }

  /** `s.replace(a, b)` for single characters `a` and `b`. */
  function ReplaceChar(s: string, a: char, b: char): (r: string)
    ensures |r| == |s|
  {
    if s == [] then []
    else [if s[0] == a then b else s[0]] + ReplaceChar(s[1..], a, b)
  }

  // ---------------------------------------------------------------------------
  // _clean_price_string
  // ---------------------------------------------------------------------------

  /**
   * The string `_clean_price_string` hands to `float`: keep `[\d,.-]`; if both a
   * comma and a dot remain, delete the commas; if only commas remain, delete the
   * dots and turn each comma into a dot.
   */
  function CleanPrice(s: string): string
  {
    var kept := KeepPriceChars(s);
    if ',' in kept && '.' in kept then DeleteChar(kept, ',')
    else if ',' in kept then ReplaceChar(DeleteChar(kept, '.'), ',', '.')
    else kept
  }

  /** Reference: the digits, dots and minus signs of `s`, in order. */
  function KeepNumberChars(s: string): (r: string)
    ensures forall i | 0 <= i < |r| :: IsNumberChar(r[i])
  {
    if s == [] then []
    else (if IsNumberChar(s[0]) then [s[0]] else []) + KeepNumberChars(s[1..])
  }

  /** The digits and minus signs of `s`, in order. */
  function DigitsAndSigns(s: string): string
  {
    if s == [] then []
    else (if IsDigit(s[0]) || s[0] == '-' then [s[0]] else []) + DigitsAndSigns(s[1..])
  }

  // ---------------------------------------------------------------------------
  // Lemmas about the normalisation
  // ---------------------------------------------------------------------------

  /** Filtering keeps every price character that occurs. */
  lemma {:induction false} KeepPriceCharsHas(s: string, c: char)
    requires IsPriceChar(c)
    ensures c in KeepPriceChars(s) <==> c in s
    decreases |s|
  {
    if s != [] {
      KeepPriceCharsHas(s[1..], c);
      assert s == [s[0]] + s[1..];
    }
  }

  /** Deleting the commas from the filtered text keeps exactly the digits, dots and minus signs. */
  lemma {:induction false} DeleteCommaKeepsNumberChars(s: string)
    ensures DeleteChar(KeepPriceChars(s), ',') == KeepNumberChars(s)
    decreases |s|
  {
    if s != [] {
      DeleteCommaKeepsNumberChars(s[1..]);
      var head := if IsPriceChar(s[0]) then [s[0]] else [];
      DeleteCharAppend(head, KeepPriceChars(s[1..]), ',');
    }
  }

  lemma {:induction false} DeleteCharAppend(a: string, b: string, c: char)
    ensures DeleteChar(a + b, c) == DeleteChar(a, c) + DeleteChar(b, c)
    decreases |a|
  {
    if a == [] {
      assert a + b == b;
    } else {
      assert (a + b)[1..] == a[1..] + b;
      DeleteCharAppend(a[1..], b, c);
    }
  }

  /** Deleting a character that does not occur changes nothing. */
  lemma {:induction false} DeleteAbsentChar(s: string, c: char)
    requires c !in s
    ensures DeleteChar(s, c) == s
    decreases |s|
  {
    if s != [] {
      assert c !in s[1..];
      DeleteAbsentChar(s[1..], c);
    }
  }

  /** Turning commas into dots before or after filtering gives the same text. */
  lemma {:induction false} CommaToDotCommutes(s: string)
    ensures KeepNumberChars(ReplaceChar(s, ',', '.')) == ReplaceChar(KeepPriceChars(s), ',', '.')
    decreases |s|
  {
    if s != [] {
      CommaToDotCommutes(s[1..]);
      var t := ReplaceChar(s, ',', '.');
      assert t[1..] == ReplaceChar(s[1..], ',', '.');
      var head := if IsPriceChar(s[0]) then [s[0]] else [];
      ReplaceCharAppend(head, KeepPriceChars(s[1..]));
    }
  }

  lemma {:induction false} ReplaceCharAppend(a: string, b: string)
    ensures ReplaceChar(a + b, ',', '.') == ReplaceChar(a, ',', '.') + ReplaceChar(b, ',', '.')
    decreases |a|
  {
    if a == [] {
      assert a + b == b;
    } else {
      assert (a + b)[1..] == a[1..] + b;
      ReplaceCharAppend(a[1..], b);
    }
  }

  /** Without a comma, filtering for price characters keeps exactly the number characters. */
  lemma {:induction false} NoCommaKeepsNumberChars(s: string)
    requires ',' !in s
    ensures KeepPriceChars(s) == KeepNumberChars(s)
    decreases |s|
  {
    if s != [] {
      assert ',' !in s[1..];
      NoCommaKeepsNumberChars(s[1..]);
    }
  }

  /**
   * Reference behaviour of the normalisation, in terms of the raw text: when
   * the text has a comma and no dot each comma is read as the decimal point;
   * otherwise (both separators, or no comma) the commas are dropped and the
   * digits, dots and minus signs are kept. So "3.384,30" keeps its dot.
   */
  lemma CleanPriceReference(s: string)
    ensures CleanPrice(s) ==
      if ',' in s && '.' !in s then KeepNumberChars(ReplaceChar(s, ',', '.'))
      else KeepNumberChars(s)
  {
    var kept := KeepPriceChars(s);
    KeepPriceCharsHas(s, ',');
    KeepPriceCharsHas(s, '.');
    if ',' in s && '.' in s {
      DeleteCommaKeepsNumberChars(s);
    } else if ',' in s {
      DeleteAbsentChar(kept, '.');
      CommaToDotCommutes(s);
    } else {
      NoCommaKeepsNumberChars(s);
    }
  }

  /** In the comma-only branch the deletion of dots never deletes anything. */
  lemma CommaOnlyDotDeletionIsNoOp(s: string)
    requires ',' in KeepPriceChars(s) && '.' !in KeepPriceChars(s)
    ensures DeleteChar(KeepPriceChars(s), '.') == KeepPriceChars(s)
    ensures CleanPrice(s) == ReplaceChar(KeepPriceChars(s), ',', '.')
  {
    DeleteAbsentChar(KeepPriceChars(s), '.');
  }

  /** A normalised price holds only digits, dots and minus signs; in particular no comma. */
  lemma CleanPriceChars(s: string)
    ensures forall i | 0 <= i < |CleanPrice(s)| :: IsNumberChar(CleanPrice(s)[i])
    ensures ',' !in CleanPrice(s)
  {
    CleanPriceReference(s);
  }

  /** Normalising an already normalised price changes nothing. */
  lemma CleanPriceIdempotent(s: string)
    ensures CleanPrice(CleanPrice(s)) == CleanPrice(s)
  {
    var r := CleanPrice(s);
    CleanPriceChars(s);
    KeepsAllPriceChars(r);
  }

  /** A text made only of price characters survives the filter unchanged. */
  lemma {:induction false} KeepsAllPriceChars(s: string)
    requires forall i | 0 <= i < |s| :: IsPriceChar(s[i])
    ensures KeepPriceChars(s) == s
    decreases |s|
  {
    if s != [] {
      KeepsAllPriceChars(s[1..]);
    }
  }

  lemma {:induction false} DigitsOfNumberChars(s: string)
    ensures DigitsAndSigns(KeepNumberChars(s)) == DigitsAndSigns(s)
    decreases |s|
  {
    if s != [] {
      DigitsOfNumberChars(s[1..]);
      var head := if IsNumberChar(s[0]) then [s[0]] else [];
      DigitsAppend(head, KeepNumberChars(s[1..]));
    }
  }

  lemma {:induction false} DigitsAppend(a: string, b: string)
    ensures DigitsAndSigns(a + b) == DigitsAndSigns(a) + DigitsAndSigns(b)
    decreases |a|
  {
    if a == [] {
      assert a + b == b;
    } else {
      var head := if IsDigit(a[0]) || a[0] == '-' then [a[0]] else [];
      assert (a + b)[0] == a[0];
      assert (a + b)[1..] == a[1..] + b;
      assert DigitsAndSigns(a + b) == head + DigitsAndSigns(a[1..] + b);
      DigitsAppend(a[1..], b);
      assert DigitsAndSigns(a) == head + DigitsAndSigns(a[1..]);
    }
  }

  lemma {:induction false} DigitsOfCommaToDot(s: string)
    ensures DigitsAndSigns(ReplaceChar(s, ',', '.')) == DigitsAndSigns(s)
    decreases |s|
  {
    if s != [] {
      DigitsOfCommaToDot(s[1..]);
      assert ReplaceChar(s, ',', '.')[1..] == ReplaceChar(s[1..], ',', '.');
    }
  }

  /** The normalisation never loses, adds or reorders a digit or a minus sign. */
  lemma CleanPriceKeepsDigits(s: string)
    ensures DigitsAndSigns(CleanPrice(s)) == DigitsAndSigns(s)
  {
    CleanPriceReference(s);
    if ',' in s && '.' !in s {
      DigitsOfNumberChars(ReplaceChar(s, ',', '.'));
      DigitsOfCommaToDot(s);
    } else {
      DigitsOfNumberChars(s);
    }
  }

  lemma DeleteCharCons(c: char, t: string, x: char)
    ensures DeleteChar([c] + t, x) == (if c == x then [] else [c]) + DeleteChar(t, x)
  {
    assert ([c] + t)[1..] == t;
  }

  lemma ReplaceCharCons(c: char, t: string, a: char, b: char)
    ensures ReplaceChar([c] + t, a, b) == [if c == a then b else c] + ReplaceChar(t, a, b)
  {
    assert ([c] + t)[1..] == t;
  }

  lemma KeepPriceCharsCons(c: char, t: string)
    ensures KeepPriceChars([c] + t) == (if IsPriceChar(c) then [c] else []) + KeepPriceChars(t)
  {
    assert ([c] + t)[1..] == t;
  }

  lemma KeepThousandsComma(s: string)
    requires s == "1,234.56"
    ensures KeepPriceChars(s) == "1,234.56"
  {
    KeepPriceCharsCons('6', "");
    KeepPriceCharsCons('5', "6");
    KeepPriceCharsCons('.', "56");
    KeepPriceCharsCons('4', ".56");
    KeepPriceCharsCons('3', "4.56");
    KeepPriceCharsCons('2', "34.56");
    KeepPriceCharsCons(',', "234.56");
    KeepPriceCharsCons('1', ",234.56");
  }

  lemma DeleteThousandsComma(s: string)
    requires s == "1,234.56"
    ensures DeleteChar(s, ',') == "1234.56"
  {
    DeleteCharCons('6', "", ',');
    DeleteCharCons('5', "6", ',');
    DeleteCharCons('.', "56", ',');
    DeleteCharCons('4', ".56", ',');
    DeleteCharCons('3', "4.56", ',');
    DeleteCharCons('2', "34.56", ',');
    DeleteCharCons(',', "234.56", ',');
    DeleteCharCons('1', ",234.56", ',');
  }

  lemma KeepDotThenComma(s: string)
    requires s == "3.384,30"
    ensures KeepPriceChars(s) == "3.384,30"
  {
    KeepPriceCharsCons('0', "");
    KeepPriceCharsCons('3', "0");
    KeepPriceCharsCons(',', "30");
    KeepPriceCharsCons('4', ",30");
    KeepPriceCharsCons('8', "4,30");
    KeepPriceCharsCons('3', "84,30");
    KeepPriceCharsCons('.', "384,30");
    KeepPriceCharsCons('3', ".384,30");
  }

  lemma DeleteDotThenComma(s: string)
    requires s == "3.384,30"
    ensures DeleteChar(s, ',') == "3.38430"
  {
    DeleteCharCons('0', "", ',');
    DeleteCharCons('3', "0", ',');
    DeleteCharCons(',', "30", ',');
    DeleteCharCons('4', ",30", ',');
    DeleteCharCons('8', "4,30", ',');
    DeleteCharCons('3', "84,30", ',');
    DeleteCharCons('.', "384,30", ',');
    DeleteCharCons('3', ".384,30", ',');
  }

  lemma KeepDecimalComma(s: string)
    requires s == "\U{20AC}29,99"
    ensures KeepPriceChars(s) == "29,99"
  {
    KeepPriceCharsCons('9', "");
    KeepPriceCharsCons('9', "9");
    KeepPriceCharsCons(',', "99");
    KeepPriceCharsCons('9', ",99");
    KeepPriceCharsCons('2', "9,99");
    KeepPriceCharsCons('\U{20AC}', "29,99");
  }

  lemma DeleteDotDecimalComma(s: string)
    requires s == "29,99"
    ensures DeleteChar(s, '.') == "29,99"
  {
    DeleteCharCons('9', "", '.');
    DeleteCharCons('9', "9", '.');
    DeleteCharCons(',', "99", '.');
    DeleteCharCons('9', ",99", '.');
    DeleteCharCons('2', "9,99", '.');
  }

  lemma ReplaceDecimalComma(s: string)
    requires s == "29,99"
    ensures ReplaceChar(s, ',', '.') == "29.99"
  {
    ReplaceCharCons('9', "", ',', '.');
    ReplaceCharCons('9', "9", ',', '.');
    ReplaceCharCons(',', "99", ',', '.');
    ReplaceCharCons('9', ",99", ',', '.');
    ReplaceCharCons('2', "9,99", ',', '.');
  }

  /** Dot and comma: the comma is dropped, "1,234.56" becomes "1234.56". */
  lemma CleanPriceThousandsComma(s: string)
    requires s == "1,234.56"
    ensures CleanPrice(s) == "1234.56"
  {
    KeepThousandsComma(s);
    DeleteThousandsComma(s);
    assert s[1] == ',' && s[5] == '.';
  }

  /** Dot and comma the other way round: only the comma is dropped, "3.384,30" becomes "3.38430". */
  lemma CleanPriceDotThenComma(s: string)
    requires s == "3.384,30"
    ensures CleanPrice(s) == "3.38430"
  {
    KeepDotThenComma(s);
    DeleteDotThenComma(s);
    assert s[1] == '.' && s[5] == ',';
  }

  /** Comma only: the comma becomes the decimal point, "€29,99" becomes "29.99". */
  lemma CleanPriceDecimalComma(s: string)
    requires s == "\U{20AC}29,99"
    ensures CleanPrice(s) == "29.99"
  {
    var kept := "29,99";
    KeepDecimalComma(s);
    DeleteDotDecimalComma(kept);
    ReplaceDecimalComma(kept);
    assert kept[2] == ',';
    assert '.' !in kept;
  }

  // ---------------------------------------------------------------------------
  // _parse_price_data
  // ---------------------------------------------------------------------------

  /** What the selectors under `div.price-info` returned. */
  datatype PriceBlock = PriceBlock(
    oldPriceText: Option<string>,        // p.old-price span.price::text
    specialPriceContent: Option<string>, // p.special-price span.price meta[itemprop="price"]::attr(content)
    currency: Option<string>,            // meta[itemprop="priceCurrency"]::attr(content)
    saleText: Option<string>,            // div.price-info__sale span.price::text
    regularPriceText: Option<string>)    // span.regular-price span.price::text

  /** A price field: the integer `0` stored when there is no discount, or a normalised price string. */
  datatype Amount = Zero | Amount(text: string)

  /** The tuple `(old_price, new_price, price_currency, discount_amount)`. */
  datatype PriceData = PriceData(oldPrice: Amount, newPrice: string, currency: Option<string>, discount: Amount)

  /** The block has a discount: the old-price text is neither missing nor empty. */
  predicate HasDiscount(b: PriceBlock) {
    Truthy(b.oldPriceText)
  }

  /** The texts the chosen branch cleans are present (cleaning `None` raises). */
  predicate PriceBlockReadable(b: PriceBlock) {
    if HasDiscount(b) then b.specialPriceContent.Some? && b.saleText.Some?
    else b.regularPriceText.Some?
  }

  /** `_parse_price_data`. */
  function ParsePriceData(b: PriceBlock): (r: PriceData)
    requires PriceBlockReadable(b)
    ensures r.currency == b.currency
    ensures r.oldPrice.Zero? <==> !HasDiscount(b)
    ensures r.discount.Zero? <==> !HasDiscount(b)
    ensures HasDiscount(b) ==>
      && r.oldPrice == Amount(CleanPrice(b.oldPriceText.value))
      && r.newPrice == CleanPrice(b.specialPriceContent.value)
      && r.discount == Amount(CleanPrice(b.saleText.value))
    ensures !HasDiscount(b) ==> r.newPrice == CleanPrice(b.regularPriceText.value)
  {
    if HasDiscount(b) then
      PriceData(Amount(CleanPrice(b.oldPriceText.value)), CleanPrice(b.specialPriceContent.value),
                b.currency, Amount(CleanPrice(b.saleText.value)))
    else
      PriceData(Zero, CleanPrice(b.regularPriceText.value), b.currency, Zero)
  }
}
