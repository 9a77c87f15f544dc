/** `transform_books` and its price parser `_parse_gbp`: trims title and
    category, keeps ratings 1 to 5, converts the pound price to euro cents
    and drops rows whose converted price is not positive. */
module BooksTransformer {
  import opened Base
  import opened Text

  /** A book row as the scraper emits it; any key may be absent or None. */
  datatype RawBook = RawBook(
    title: Option<string>,
    category: Option<string>,
    priceRaw: Option<string>,
    rating: Option<int>,
    available: Option<bool>,
    imgUrl: Option<string>,
    imgPath: Option<string>)

  /** A cleaned book; `priceCents` is the euro price rounded to two decimals,
      held as a whole number of cents. */
  datatype CleanBook = CleanBook(
    title: string,
    category: string,
    priceCents: int,
    rating: int,
    available: bool,
    imgUrl: Option<string>,
    imgPath: Option<string>)

  // ---------------------------------------------------------------------
  // _parse_gbp
  // ---------------------------------------------------------------------

  predicate NoDigits(s: string) {
    forall i :: 0 <= i < |s| ==> !IsDigit(s[i])
  }

  /** The number a string of decimal digits denotes. */
  function DigitsValue(d: string): nat
    requires AllDigits(d)
  {
    if |d| == 0 then 0 else 10 * DigitsValue(d[..|d| - 1]) + (d[|d| - 1] as int - '0' as int)
  }

  /** `10^n`: the scale of a fraction of `n` digits. */
  function Pow10(n: nat): (p: nat)
    ensures p >= 1
    ensures n >= 1 ==> p % 10 == 0 && p >= 10
  {
    if n == 0 then 1 else 10 * Pow10(n - 1)
  }

  /** A decimal separator once `price_raw.replace(",", ".")` has run: the
      replacement only matters where the pattern looks for `.`, so the model
      tests for either character there instead of rewriting the string. */
  predicate IsSeparator(c: char) {
    c == '.' || c == ','
  }

  /** Length of the run of digits at the front of `s`. */
  function DigitRun(s: string): (n: nat)
    ensures n <= |s|
    ensures forall i :: 0 <= i < n ==> IsDigit(s[i])
    ensures n == |s| || !IsDigit(s[n])
  {
    if |s| > 0 && IsDigit(s[0]) then 1 + DigitRun(s[1..]) else 0
  }

  /** The digits at the front of `s`. */
  function LeadingDigits(s: string): (d: string)
    ensures AllDigits(d) && d == s[..DigitRun(s)]
  {
    s[..DigitRun(s)]
  }

  /** The value of the match of `\d+(?:\.\d+)?` that begins at the first
      character of `s`, which is a digit. */
  function TokenValue(s: string): real
    requires |s| > 0 && IsDigit(s[0])
  {
    var whole := LeadingDigits(s);
    var rest := s[|whole|..];
    if |rest| >= 2 && IsSeparator(rest[0]) && IsDigit(rest[1]) then
      var frac := LeadingDigits(rest[1..]);
      DigitsValue(whole) as real + DigitsValue(frac) as real / Pow10(|frac|) as real
    else
      DigitsValue(whole) as real
  }

  /** `re.search` for the number pattern: the leftmost match starts at the
      first digit; with no digit at all the parser yields 0. */
  function Scan(s: string): real {
    if |s| == 0 then 0.0
    else if IsDigit(s[0]) then TokenValue(s)
    else Scan(s[1..])
  }

  /** `_parse_gbp(price_raw)`. */
  function ParseGbp(priceRaw: string): real {
    if priceRaw == "" then 0.0 else Scan(priceRaw)
  }

  lemma {:induction false} ScanSkipsNonDigits(p: string, t: string)
    requires NoDigits(p)
    ensures Scan(p + t) == Scan(t)
  {
    if |p| > 0 {
      assert (p + t)[1..] == p[1..] + t;
      ScanSkipsNonDigits(p[1..], t);
    } else {
      assert p + t == t;
    }
  }

  lemma {:induction false} DigitRunOf(d: string, x: string)
    requires AllDigits(d)
    requires x == [] || !IsDigit(x[0])
    ensures DigitRun(d + x) == |d|
  {
    if |d| == 0 {
      assert d + x == x;
    } else {
      assert (d + x)[0] == d[0];
      assert (d + x)[1..] == d[1..] + x;
      DigitRunOf(d[1..], x);
    }
  }

  /** The leading digits of `d + x` are `d` when `x` does not start with a digit. */
  lemma LeadingDigitsOf(d: string, x: string)
    requires AllDigits(d)
    requires x == [] || !IsDigit(x[0])
    ensures LeadingDigits(d + x) == d
    ensures (d + x)[|d|..] == x
  {
    DigitRunOf(d, x);
    assert (d + x)[..|d|] == d;
  }

  /** The match at the front of `whole`, a separator and `frac`, followed by a non-digit. */
  lemma TokenValueDecimal(whole: string, sep: char, frac: string, cs: string)
    requires AllDigits(whole) && |whole| > 0 && AllDigits(frac) && |frac| > 0
    requires IsSeparator(sep)
    requires cs == [] || !IsDigit(cs[0])
    ensures TokenValue(whole + [sep] + frac + cs)
            == DigitsValue(whole) as real + DigitsValue(frac) as real / Pow10(|frac|) as real
  {
    var rest := [sep] + (frac + cs);
    var t := whole + rest;
    assert t == whole + [sep] + frac + cs;
    assert !IsDigit(rest[0]);
    LeadingDigitsOf(whole, rest);
    assert rest[1..] == frac + cs;
    LeadingDigitsOf(frac, cs);
    assert IsDigit(rest[1]) by { assert rest[1] == frac[0]; }
  }

  /** The match at the front of digits followed by neither a digit nor a
      separator-and-digit. */
  lemma TokenValueWhole(whole: string, cs: string)
    requires AllDigits(whole) && |whole| > 0
    requires !ExtendsNumber(cs)
    ensures TokenValue(whole + cs) == DigitsValue(whole) as real
  {
    var t := whole + cs;
    DigitRunOf(whole, cs);
    assert t[..|whole|] == whole;
    assert t[|whole|..] == cs;
  }

  /** `_parse_gbp` reads the first number of its input whatever precedes it:
      for a digit-free prefix (a currency sign, mis-decoded bytes such as `Â£`),
      digits `whole`, a `.` or `,`, digits `frac`, and anything that does not
      continue the digits, the result is `whole.frac`. */
  lemma ParseGbpDecimal(prefix: string, whole: string, sep: char, frac: string, suffix: string)
    requires NoDigits(prefix)
    requires AllDigits(whole) && |whole| > 0 && AllDigits(frac) && |frac| > 0
    requires IsSeparator(sep)
    requires suffix == [] || !IsDigit(suffix[0])
    ensures ParseGbp(prefix + whole + [sep] + frac + suffix)
            == DigitsValue(whole) as real + DigitsValue(frac) as real / Pow10(|frac|) as real
  {
    var t := whole + [sep] + frac + suffix;
    assert prefix + whole + [sep] + frac + suffix == prefix + t;
    assert t[0] == whole[0];
    ScanSkipsNonDigits(prefix, t);
    TokenValueDecimal(whole, sep, frac, suffix);
  }

  /** `x` would extend a number that ends just before it: it starts with a
      digit, or with a separator followed by a digit. */
  predicate ExtendsNumber(x: string) {
    (|x| > 0 && IsDigit(x[0])) || (|x| >= 2 && IsSeparator(x[0]) && IsDigit(x[1]))
  }

  /** With no fraction the result is the whole number. */
  lemma {:induction false} ParseGbpWhole(prefix: string, whole: string, suffix: string)
    requires NoDigits(prefix)
    requires AllDigits(whole) && |whole| > 0
    requires !ExtendsNumber(suffix)
    ensures ParseGbp(prefix + whole + suffix) == DigitsValue(whole) as real
  {
    var t := whole + suffix;
    assert prefix + whole + suffix == prefix + t;
    assert Scan(prefix + t) == Scan(t) by { ScanSkipsNonDigits(prefix, t); }
    assert t[0] == whole[0];
    TokenValueWhole(whole, suffix);
  }

  /** An input without any digit, the empty string included, parses to 0. */
  lemma ParseGbpNoDigits(priceRaw: string)
    requires NoDigits(priceRaw)
    ensures ParseGbp(priceRaw) == 0.0
  {
    assert priceRaw + [] == priceRaw;
    ScanSkipsNonDigits(priceRaw, []);
  }

  lemma DigitsValueExamples()
    ensures DigitsValue("45") == 45 && DigitsValue("17") == 17
  {
    assert "45"[..1] == "4" && "4"[..0] == "";
    assert "17"[..1] == "1" && "1"[..0] == "";
  }

  /** The price format the scraped site produces ... */
  lemma ParseGbpPound(price: string)
    requires price == "£45.17"
    ensures ParseGbp(price) == 45.17
  {
    var w, f := "45", "17";
    assert DigitsValue(w) == 45 && DigitsValue(f) == 17 && Pow10(|f|) == 100 by { DigitsValueExamples(); }
    assert price == "£" + w + ['.'] + f + "";
    ParseGbpDecimal("£", w, '.', f, "");
  }

  /** ... and the same text decoded with the wrong character set. */
  lemma ParseGbpMisdecoded(price: string)
    requires price == "Â£45.17"
    ensures ParseGbp(price) == 45.17
  {
    var p, w, f := "Â£", "45", "17";
    assert DigitsValue(w) == 45 && DigitsValue(f) == 17 && Pow10(|f|) == 100 by { DigitsValueExamples(); }
    assert NoDigits(p) by { assert !IsDigit(p[0]) && !IsDigit(p[1]); }
    assert price == p + w + ['.'] + f + "";
    ParseGbpDecimal(p, w, '.', f, "");
  }

  // ---------------------------------------------------------------------
  // round(x, 2)
  // ---------------------------------------------------------------------

  /** `round(x, 2)` expressed in cents: the nearest whole number of cents,
      ties going to the even neighbour. */
  function RoundCents(x: real): (c: int)
    ensures -1.0 / 2.0 <= c as real - 100.0 * x <= 1.0 / 2.0
    ensures (c as real - 100.0 * x == 1.0 / 2.0 || 100.0 * x - c as real == 1.0 / 2.0) ==> c % 2 == 0
  {
    var y := 100.0 * x;
    var f := y.Floor;
    var d := y - f as real;
    if d < 1.0 / 2.0 then f
    else if d > 1.0 / 2.0 then f + 1
    else if f % 2 == 0 then f
    else f + 1
  }

  /** Rounding happens before the sign test, so only amounts of at least
      half a cent (a whole cent when exactly half) can survive it. */
  lemma RoundCentsPositive(x: real)
    ensures RoundCents(x) > 0 ==> 100.0 * x >= 1.0 / 2.0
    ensures 100.0 * x > 1.0 / 2.0 ==> RoundCents(x) > 0
  {
  }

  // ---------------------------------------------------------------------
  // transform_books
  // ---------------------------------------------------------------------

  /** What every emitted book satisfies. */
  predicate WellFormed(b: CleanBook) {
    && b.title != "" && IsStripped(b.title)
    && b.category != "" && IsStripped(b.category)
    && 1 <= b.rating <= 5
    && b.priceCents > 0
  }

  /** The euro price in cents the transformer computes for a row. */
  function EuroCents(r: RawBook, gbpToEur: real): int {
    RoundCents(ParseGbp(r.priceRaw.GetOr("")) * gbpToEur)
  }

  /** The rule applied to one row: kept exactly when trimmed title and
      category are non-empty, the rating (missing read as 0) is within 1..5,
      and the rounded euro price is positive; a kept row carries the trimmed
      texts, that price and rating, the availability read as a boolean, and
      the image fields unchanged. */
  function ConvertBook(r: RawBook, gbpToEur: real): (o: Option<CleanBook>)
    ensures o.Some? <==>
              && Strip(r.title.GetOr("")) != ""
              && Strip(r.category.GetOr("")) != ""
              && 1 <= r.rating.GetOr(0) <= 5
              && EuroCents(r, gbpToEur) > 0
    ensures o.Some? ==> WellFormed(o.value)
    ensures o.Some? ==>
              && o.value.title == Strip(r.title.GetOr(""))
              && o.value.category == Strip(r.category.GetOr(""))
              && o.value.rating == r.rating.GetOr(0)
              && o.value.priceCents == EuroCents(r, gbpToEur)
              && o.value.available == r.available.GetOr(false)
              && o.value.imgUrl == r.imgUrl && o.value.imgPath == r.imgPath
  {
    var title := Strip(r.title.GetOr(""));
    var category := Strip(r.category.GetOr(""));
    var rating := r.rating.GetOr(0);
    var available := r.available.GetOr(false);
    StripIsStripped(r.title.GetOr(""));
    StripIsStripped(r.category.GetOr(""));
    if title == "" || category == "" then None
    else if rating < 1 || rating > 5 then None
    else
      var eur := EuroCents(r, gbpToEur);
      if eur <= 0 then None
      else Some(CleanBook(title, category, eur, rating, available, r.imgUrl, r.imgPath))
  }

  /** `transform_books(raw_rows, gbp_to_eur)`: never longer than its input,
      and every book it emits is well formed. */
  function TransformBooks(rows: seq<RawBook>, gbpToEur: real): (out: seq<CleanBook>)
    ensures |out| <= |rows|
    ensures forall b :: b in out ==> WellFormed(b)
  {
    if |rows| == 0 then []
    else
      var o := ConvertBook(rows[0], gbpToEur);
      var rest := TransformBooks(rows[1..], gbpToEur);
      if o.Some? then [o.value] + rest else rest
  }

  /** The transform is an order-preserving filter: it maps a concatenation
      to the concatenation of the results. */
  lemma {:induction false} TransformBooksAppend(a: seq<RawBook>, b: seq<RawBook>, gbpToEur: real)
    ensures TransformBooks(a + b, gbpToEur) == TransformBooks(a, gbpToEur) + TransformBooks(b, gbpToEur)
  {
    if |a| == 0 {
      assert a + b == b;
    } else {
      assert (a + b)[0] == a[0] && (a + b)[1..] == a[1..] + b;
      TransformBooksAppend(a[1..], b, gbpToEur);
    }
  }

  /** On one row the transform is that row's rule; with the lemma above
      this determines the output of any input. */
  lemma TransformBooksSingle(r: RawBook, gbpToEur: real)
    ensures TransformBooks([r], gbpToEur)
            == (if ConvertBook(r, gbpToEur).Some? then [ConvertBook(r, gbpToEur).value] else [])
  {
    assert [r][1..] == [];
  }

  /** There is no deduplication: a repeated row is emitted as often as it occurs. */
  lemma TransformBooksKeepsDuplicates(r: RawBook, gbpToEur: real)
    requires ConvertBook(r, gbpToEur).Some?
    ensures TransformBooks([r, r], gbpToEur) == [ConvertBook(r, gbpToEur).value, ConvertBook(r, gbpToEur).value]
  {
    TransformBooksAppend([r], [r], gbpToEur);
    TransformBooksSingle(r, gbpToEur);
    assert [r] + [r] == [r, r];
  }
}
