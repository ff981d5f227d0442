/** The cleaning steps of `src/processing.py`: each takes a frame (or a column of
    it) and returns a new one; none adds or drops rows. */
module Processing {
  import opened Frames
  import opened Stats

  // ---------------------------------------------------------------------------
  // calcular_idade: age as a difference of calendar years

  /** `date.today().year - nascimento.dt.year()`, with today's year passed in. */
  function Age(t: Table, column: string, currentYear: int): (r: Result<Series>)
    requires Valid(t)
    ensures r.Ok? <==> column in t.cols && t.cols[column].Dates?
    ensures r.Ok? ==> r.value.Nums? && r.value.Len() == t.height
    ensures r.Ok? ==> forall i :: 0 <= i < t.height ==>
      (r.value.nums[i].None? <==> t.cols[column].dates[i].None?)
  {
    match Get(t, column)
    case Err(e) => Err(e)
    case Ok(Dates(ds)) =>
      Ok(Nums(seq(|ds|, i requires 0 <= i < |ds| =>
        if ds[i].None? then None else Some((currentYear - ds[i].value.year) as real))))
    case Ok(_) => Err(SchemaMismatch(column))
  }

  /** Whole years lived on `today`: one less than the year difference while this
      year's birthday is still ahead. */
  function CompletedYears(birth: Date, today: Date): int
  {
    if (today.month, today.day) == (birth.month, birth.day) then today.year - birth.year
    else if today.month < birth.month || (today.month == birth.month && today.day < birth.day)
    then today.year - birth.year - 1
    else today.year - birth.year
  }

  /** The age column ignores month and day: it equals the completed years, or
      overstates them by one exactly when the birthday of the current year has
      not yet come. */
  lemma AgeAgainstCompletedYears(t: Table, column: string, today: Date, i: nat)
    requires Valid(t) && column in t.cols && t.cols[column].Dates?
    requires i < t.height && t.cols[column].dates[i].Some?
    ensures Age(t, column, today.year).Ok?
    ensures var birth := t.cols[column].dates[i].value;
      && Age(t, column, today.year).value.nums[i].Some?
      && Age(t, column, today.year).value.nums[i].value
         == (CompletedYears(birth, today) + (if today.month < birth.month || (today.month == birth.month && today.day < birth.day) then 1 else 0)) as real
  {
  }

  // ---------------------------------------------------------------------------
  // limpar_moeda: currency text to Float64

  predicate IsDigit(c: char)
  {
    '0' <= c <= '9'
  }

  function Occurrences(s: string, c: char): nat
  {
    if s == [] then 0 else (if s[0] == c then 1 else 0) + Occurrences(s[1..], c)
  }

  function DigitCount(s: string): nat
  {
    if s == [] then 0 else (if IsDigit(s[0]) then 1 else 0) + DigitCount(s[1..])
  }

  /** `a` is `b` with some of its characters left out, the others in order. */
  predicate Subsequence(a: string, b: string)
  {
    if a == [] then true
    else if b == [] then false
    else if a[0] == b[0] then Subsequence(a[1..], b[1..])
    else Subsequence(a, b[1..])
  }

  /** `str.replace_all(r"[^0-9,]", "")`: keeps the digits and commas, in order.
      A subsequence of the input made only of digits and commas, as long as the
      input has digits and commas, is exactly those characters in order. */
  function KeepDigitsAndCommas(s: string): (r: string)
    ensures forall i :: 0 <= i < |r| ==> IsDigit(r[i]) || r[i] == ','
    ensures Subsequence(r, s)
    ensures Occurrences(r, ',') == Occurrences(s, ',') && Occurrences(r, '.') == 0
    ensures DigitCount(r) == DigitCount(s) && |r| == DigitCount(s) + Occurrences(s, ',')
  {
    if s == [] then []
    else if IsDigit(s[0]) || s[0] == ',' then [s[0]] + KeepDigitsAndCommas(s[1..])
    else KeepDigitsAndCommas(s[1..])
  }

  /** Cleaning distributes over concatenation: each character is kept or dropped
      on its own, so the kept ones stay in their original order. */
  lemma {:induction false} KeepDistributes(a: string, b: string)
    ensures KeepDigitsAndCommas(a + b) == KeepDigitsAndCommas(a) + KeepDigitsAndCommas(b)
  {
    if a == [] {
      assert a + b == b;
    } else {
      assert (a + b)[0] == a[0] && (a + b)[1..] == a[1..] + b;
      KeepDistributes(a[1..], b);
    }
  }

  /** `str.replace(",", ".")`: polars replaces the first match only. */
  function FirstCommaToDot(s: string): (r: string)
    requires Occurrences(s, '.') == 0
    ensures IndexOfChar(s, ',').None? ==> r == s
    ensures IndexOfChar(s, ',').Some? ==>
      var k := IndexOfChar(s, ',').value;
      r == s[..k] + "." + s[k + 1..]
    ensures |r| == |s| && DigitCount(r) == DigitCount(s)
    ensures Occurrences(r, '.') == (if Occurrences(s, ',') == 0 then 0 else 1)
    ensures Occurrences(r, ',') == (if Occurrences(s, ',') == 0 then 0 else Occurrences(s, ',') - 1)
    ensures forall i :: 0 <= i < |r| ==> r[i] == s[i] || (s[i] == ',' && r[i] == '.')
  {
    if s == [] then []
    else if s[0] == ',' then ['.'] + s[1..]
    else
      var rest := FirstCommaToDot(s[1..]);
      if IndexOfChar(s[1..], ',').Some? then
        ShiftedSplit(s, IndexOfChar(s[1..], ',').value);
        [s[0]] + rest
      else
        [s[0]] + rest
  }

  lemma ShiftedSplit(s: string, k: nat)
    requires k + 1 < |s|
    ensures [s[0]] + (s[1..][..k] + "." + s[1..][k + 1..]) == s[..k + 1] + "." + s[k + 2..]
  {
    assert s[..k + 1] == [s[0]] + s[1..][..k];
  }

  /** What the strict Float64 cast accepts of a cleaned text: digits and at most
      one decimal point, with at least one digit ("5.", ".5" and "5" parse; "" and
      "." do not). */
  predicate IsDecimal(s: string)
  {
    && (forall i :: 0 <= i < |s| ==> IsDigit(s[i]) || s[i] == '.')
    && Occurrences(s, '.') <= 1
    && DigitCount(s) >= 1
  }

  predicate AllDigits(s: string)
  {
    forall i :: 0 <= i < |s| ==> IsDigit(s[i])
  }

  function DigitsValue(s: string): nat
    requires AllDigits(s)
  {
    if s == [] then 0
    else
      assert IsDigit(s[|s| - 1]);
      DigitsValue(s[..|s| - 1]) * 10 + ((s[|s| - 1] as int) - ('0' as int))
  }

  function Pow10(n: nat): (p: nat)
    ensures p > 0
  {
    if n == 0 then 1 else 10 * Pow10(n - 1)
  }

  function IndexOfChar(s: string, c: char): (r: Option<nat>)
    ensures r.None? <==> Occurrences(s, c) == 0
    ensures r.Some? ==> r.value < |s| && s[r.value] == c && Occurrences(s[..r.value], c) == 0
  {
    if s == [] then None
    else if s[0] == c then (assert s[..0] == []; Some(0))
    else match IndexOfChar(s[1..], c)
      case None => None
      case Some(k) => assert s[..k + 1] == [s[0]] + s[1..][..k]; Some(k + 1)
  }

  lemma {:induction false} OccurrencesSplit(s: string, k: nat, c: char)
    requires k <= |s|
    ensures Occurrences(s, c) == Occurrences(s[..k], c) + Occurrences(s[k..], c)
  {
    if k > 0 {
      assert s[..k][1..] == s[1..][..k - 1] && s[k..] == s[1..][k - 1..];
      OccurrencesSplit(s[1..], k - 1, c);
    }
  }

  lemma {:induction false} OccursAt(s: string, c: char, i: nat)
    requires i < |s| && s[i] == c
    ensures Occurrences(s, c) >= 1
  {
    if i > 0 {
      OccursAt(s[1..], c, i - 1);
    }
  }

  lemma {:induction false} Absent(s: string, c: char)
    requires forall i :: 0 <= i < |s| ==> s[i] != c
    ensures Occurrences(s, c) == 0
  {
    if s != [] {
      assert forall i :: 0 <= i < |s[1..]| ==> s[1..][i] == s[i + 1];
      Absent(s[1..], c);
    }
  }

  /** Either side of the one decimal point of a decimal text is all digits. */
  lemma DotSplit(s: string, k: nat)
    requires IsDecimal(s) && k < |s| && s[k] == '.'
    ensures AllDigits(s[..k]) && AllDigits(s[k + 1..])
  {
    OccurrencesSplit(s, k + 1, '.');
    OccurrencesSplit(s[..k + 1], k, '.');
    assert s[..k + 1][..k] == s[..k];
    assert s[..k + 1][k..] == [s[k]];
    forall i | 0 <= i < k ensures IsDigit(s[..k][i]) {
      if s[..k][i] == '.' { OccursAt(s[..k], '.', i); }
    }
    var after := s[k + 1..];
    forall i | 0 <= i < |after| ensures IsDigit(after[i]) {
      if after[i] == '.' { OccursAt(after, '.', i); }
    }
  }

  /** The number a decimal text denotes. */
  function DecimalValue(s: string): real
    requires IsDecimal(s)
  {
    match IndexOfChar(s, '.')
    case None =>
      assert AllDigits(s) by {
        forall i | 0 <= i < |s| ensures IsDigit(s[i]) {
          if s[i] == '.' { OccursAt(s, '.', i); }
        }
      }
      DigitsValue(s) as real
    case Some(k) =>
      DotSplit(s, k);
      WholeAndFraction(s[..k], s[k + 1..])
  }

  /** `limpar_moeda` on one cell: clean, turn the first comma into the decimal
      point, and cast strictly; a null stays null. */
  function ParseCurrency(cell: Option<string>): (r: Result<Option<real>>)
    ensures cell.None? ==> r == Ok(None)
    ensures r.Ok? && cell.Some? ==> r.value.Some?
  {
    match cell
    case None => Ok(None)
    case Some(text) =>
      var cleaned := FirstCommaToDot(KeepDigitsAndCommas(text));
      if IsDecimal(cleaned) then Ok(Some(DecimalValue(cleaned))) else Err(InvalidCast(cleaned))
  }

  /** The cast succeeds exactly when the text has at most one comma and at least
      one digit; two commas leave a comma behind and the strict cast raises. */
  lemma CurrencyParsesIff(text: string)
    ensures ParseCurrency(Some(text)).Ok? <==> Occurrences(text, ',') <= 1 && DigitCount(text) >= 1
  {
    var cleaned := FirstCommaToDot(KeepDigitsAndCommas(text));
    assert ParseCurrency(Some(text)).Ok? <==> IsDecimal(cleaned);
    CleanedIsDecimal(KeepDigitsAndCommas(text));
  }

  /** A cleaned text reads as a decimal exactly when it has at most one comma
      and a digit. */
  lemma CleanedIsDecimal(kept: string)
    requires forall i :: 0 <= i < |kept| ==> IsDigit(kept[i]) || kept[i] == ','
    requires Occurrences(kept, '.') == 0
    ensures IsDecimal(FirstCommaToDot(kept)) <==> Occurrences(kept, ',') <= 1 && DigitCount(kept) >= 1
  {
    var cleaned := FirstCommaToDot(kept);
    if Occurrences(kept, ',') <= 1 && DigitCount(kept) >= 1 {
      assert Occurrences(cleaned, ',') == 0;
      forall i | 0 <= i < |cleaned| ensures IsDigit(cleaned[i]) || cleaned[i] == '.' {
        if cleaned[i] == ',' { OccursAt(cleaned, ',', i); }
      }
    }
    if IsDecimal(cleaned) {
      Absent(cleaned, ',');
    }
  }

  /** With no comma there is no decimal part: dots only group thousands and are
      dropped, so "R$ 1.234" reads as 1234. */
  lemma NoCommaReadsAllDigits(text: string)
    requires Occurrences(text, ',') == 0 && DigitCount(text) >= 1
    ensures AllDigits(KeepDigitsAndCommas(text))
    ensures ParseCurrency(Some(text)) == Ok(Some(DigitsValue(KeepDigitsAndCommas(text)) as real))
  {
    var kept := KeepDigitsAndCommas(text);
    NoCommaKeepsDigits(kept);
    assert FirstCommaToDot(kept) == kept;
    CurrencyParsesIff(text);
  }

  lemma NoCommaKeepsDigits(kept: string)
    requires Occurrences(kept, ',') == 0
    requires forall i :: 0 <= i < |kept| ==> IsDigit(kept[i]) || kept[i] == ','
    ensures AllDigits(kept)
  {
    forall i | 0 <= i < |kept| ensures IsDigit(kept[i]) {
      if kept[i] == ',' { OccursAt(kept, ',', i); }
    }
  }

  /** With exactly one comma, the comma is the decimal separator: the digits
      before it give the integer part and the digits after it the fraction, and
      the dots grouping thousands are dropped, so "R$ 1.234,56" reads 1234.56. */
  lemma OneCommaValue(text: string, p: nat)
    requires p < |text| && text[p] == ',' && Occurrences(text, ',') == 1 && DigitCount(text) >= 1
    ensures AllDigits(KeepDigitsAndCommas(text[..p])) && AllDigits(KeepDigitsAndCommas(text[p + 1..]))
    ensures ParseCurrency(Some(text)) == Ok(Some(WholeAndFraction(KeepDigitsAndCommas(text[..p]), KeepDigitsAndCommas(text[p + 1..]))))
  {
    var whole := KeepDigitsAndCommas(text[..p]);
    var fraction := KeepDigitsAndCommas(text[p + 1..]);
    CleanedAroundComma(text, p);
    DecimalAroundDot(whole, fraction);
    CastOfCleaned(text);
  }

  /** The number written as the digits `whole`, a decimal point and the digits
      `fraction`. */
  function WholeAndFraction(whole: string, fraction: string): real
    requires AllDigits(whole) && AllDigits(fraction)
  {
    DigitsValue(whole) as real + (DigitsValue(fraction) as real) / (Pow10(|fraction|) as real)
  }

  /** The cast of a cleaned text that is a decimal succeeds with its value. */
  lemma CastOfCleaned(text: string)
    requires IsDecimal(FirstCommaToDot(KeepDigitsAndCommas(text)))
    ensures ParseCurrency(Some(text)) == Ok(Some(DecimalValue(FirstCommaToDot(KeepDigitsAndCommas(text)))))
  {
  }

  /** Cleaning a text with one comma and turning that comma into the point
      leaves digits, a point and digits. */
  lemma CleanedAroundComma(text: string, p: nat)
    requires p < |text| && text[p] == ',' && Occurrences(text, ',') == 1 && DigitCount(text) >= 1
    ensures AllDigits(KeepDigitsAndCommas(text[..p])) && AllDigits(KeepDigitsAndCommas(text[p + 1..]))
    ensures |KeepDigitsAndCommas(text[..p])| + |KeepDigitsAndCommas(text[p + 1..])| >= 1
    ensures FirstCommaToDot(KeepDigitsAndCommas(text))
         == KeepDigitsAndCommas(text[..p]) + "." + KeepDigitsAndCommas(text[p + 1..])
  {
    var whole := KeepDigitsAndCommas(text[..p]);
    var fraction := KeepDigitsAndCommas(text[p + 1..]);
    KeptAroundComma(text, p);
    var kept := KeepDigitsAndCommas(text);
    CommaAfterDigits(whole, fraction, ',');
    assert kept[..|whole|] == whole && kept[|whole| + 1..] == fraction;
  }

  /** Cleaning a text with one comma leaves the digits before it, the comma and
      the digits after it. */
  lemma KeptAroundComma(text: string, p: nat)
    requires p < |text| && text[p] == ',' && Occurrences(text, ',') == 1
    ensures var whole := KeepDigitsAndCommas(text[..p]);
      var fraction := KeepDigitsAndCommas(text[p + 1..]);
      && AllDigits(whole) && AllDigits(fraction)
      && KeepDigitsAndCommas(text) == whole + [','] + fraction
  {
    KeepAtComma(text, p);
    NoCommaAround(text, p);
    NoCommaKeepsDigits(KeepDigitsAndCommas(text[..p]));
    NoCommaKeepsDigits(KeepDigitsAndCommas(text[p + 1..]));
  }

  lemma KeepAtComma(text: string, p: nat)
    requires p < |text| && text[p] == ','
    ensures KeepDigitsAndCommas(text) == KeepDigitsAndCommas(text[..p]) + [','] + KeepDigitsAndCommas(text[p + 1..])
  {
    assert text == text[..p] + ([','] + text[p + 1..]);
    KeepDistributes(text[..p], [','] + text[p + 1..]);
    KeepDistributes([','], text[p + 1..]);
  }

  /** The only comma of a text has none on either side. */
  lemma NoCommaAround(text: string, p: nat)
    requires p < |text| && text[p] == ',' && Occurrences(text, ',') == 1
    ensures Occurrences(text[..p], ',') == 0 && Occurrences(text[p + 1..], ',') == 0
  {
    OccurrencesSplit(text, p, ',');
    OccurrencesSplit(text[p..], 1, ',');
    assert text[p..][..1] == [','] && text[p..][1..] == text[p + 1..];
  }

  /** Digits, a point and digits denote the integer part plus the fraction. */
  lemma DecimalAroundDot(whole: string, fraction: string)
    requires AllDigits(whole) && AllDigits(fraction) && |whole| + |fraction| >= 1
    ensures IsDecimal(whole + "." + fraction)
    ensures DecimalValue(whole + "." + fraction) == WholeAndFraction(whole, fraction)
  {
    var s := whole + "." + fraction;
    DotBetweenIsDecimal(whole, fraction);
    CommaAfterDigits(whole, fraction, '.');
    assert s[..|whole|] == whole && s[|whole| + 1..] == fraction;
  }

  lemma DotBetweenIsDecimal(whole: string, fraction: string)
    requires AllDigits(whole) && AllDigits(fraction) && |whole| + |fraction| >= 1
    ensures IsDecimal(whole + "." + fraction)
  {
    var s := whole + "." + fraction;
    assert s[..|whole|] == whole;
    OccurrencesSplit(s, |whole|, '.');
    OccurrencesSplit(s[|whole|..], 1, '.');
    assert s[|whole|..][..1] == "." && s[|whole|..][1..] == fraction;
    Absent(whole, '.');
    Absent(fraction, '.');
    if |whole| > 0 {
      DigitAt(s, 0);
    } else {
      DigitAt(s, 1);
    }
  }

  lemma {:induction false} DigitAt(s: string, i: nat)
    requires i < |s| && IsDigit(s[i])
    ensures DigitCount(s) >= 1
  {
    if i > 0 {
      DigitAt(s[1..], i - 1);
    }
  }

  /** In digits, a separator and digits, the separator is the first of its
      kind. */
  lemma CommaAfterDigits(whole: string, fraction: string, c: char)
    requires AllDigits(whole) && !IsDigit(c)
    ensures IndexOfChar(whole + [c] + fraction, c) == Some(|whole|)
  {
    var s := whole + [c] + fraction;
    OccursAt(s, c, |whole|);
    var k := IndexOfChar(s, c).value;
    if k > |whole| {
      assert s[..k][|whole|] == c;
      OccursAt(s[..k], c, |whole|);
    }
  }

  /** `limpar_moeda` on a column: any cell the strict cast rejects makes the whole
      expression raise. */
  function ParseCurrencyCells(cells: seq<Option<string>>): (r: Result<seq<Option<real>>>)
    ensures r.Ok? <==> forall i :: 0 <= i < |cells| ==> ParseCurrency(cells[i]).Ok?
    ensures r.Ok? ==> (|r.value| == |cells|
      && forall i :: 0 <= i < |cells| ==> r.value[i] == ParseCurrency(cells[i]).value)
    ensures r.Err? ==> exists i :: 0 <= i < |cells| && ParseCurrency(cells[i]) == Err(r.error)
  {
    CastCells(cells, ParseCurrency)
  }

  /** A cast applied cell by cell, raising at the first cell it rejects. */
  function CastCells(cells: seq<Option<string>>, cast: Option<string> -> Result<Option<real>>): (r: Result<seq<Option<real>>>)
    ensures r.Ok? <==> forall i :: 0 <= i < |cells| ==> cast(cells[i]).Ok?
    ensures r.Ok? ==> (|r.value| == |cells|
      && forall i :: 0 <= i < |cells| ==> r.value[i] == cast(cells[i]).value)
    ensures r.Err? ==> exists i :: 0 <= i < |cells| && cast(cells[i]) == Err(r.error)
  {
    if cells == [] then Ok([])
    else
      match cast(cells[0])
      case Err(e) => Err(e)
      case Ok(x) =>
        match CastCells(cells[1..], cast)
        case Err(e) =>
          var i :| 0 <= i < |cells[1..]| && cast(cells[1..][i]) == Err(e);
          assert cast(cells[i + 1]) == Err(e);
          Err(e)
        case Ok(xs) =>
          assert forall i :: 1 <= i < |cells| ==> cells[i] == cells[1..][i - 1];
          Ok([x] + xs)
  }

  function ParseCurrencyColumn(t: Table, column: string): (r: Result<Series>)
    requires Valid(t)
    ensures r.Ok? ==> (column in t.cols && t.cols[column].Strs? && r.value.Nums?
      && r.value.Len() == t.height
      && forall i :: 0 <= i < t.height ==> ParseCurrency(t.cols[column].strs[i]) == Ok(r.value.nums[i]))
  {
    match Get(t, column)
    case Err(e) => Err(e)
    case Ok(Strs(cells)) =>
      (match ParseCurrencyCells(cells)
       case Err(e) => Err(e)
       case Ok(xs) => Ok(Nums(xs)))
    case Ok(_) => Err(SchemaMismatch(column))
  }

  // ---------------------------------------------------------------------------
  // substituir_nulos: fill nulls column by column

  /** The argument `fill_null` receives for one column. */
  datatype Fill = FillStr(s: string) | FillNum(x: real) | KeepAsIs

  function FillNullCells<T>(c: seq<Option<T>>, v: Option<T>): (r: seq<Option<T>>)
    ensures |r| == |c|
    ensures forall i :: 0 <= i < |c| ==> r[i] == if c[i].None? then v else c[i]
  {
    seq(|c|, i requires 0 <= i < |c| => if c[i].None? then v else c[i])
  }

  /** A column no fill expression can be built for: a String column without
      rows (its mode is empty) or whose mode is the null, and a numeric or date
      column without a non-null value (its median is null). */
  ghost predicate Unfillable(s: Series)
  {
    match s
    case Strs(c) => c == [] || Mode(c) == Some(None)
    case Nums(c) => forall i :: 0 <= i < |c| ==> c[i].None?
    case Dates(c) => forall i :: 0 <= i < |c| ==> c[i].None?
  }

  lemma PresentEmpty<T(!new)>(c: seq<Option<T>>)
    ensures Present(c) == [] <==> forall i :: 0 <= i < |c| ==> c[i].None?
  {
    if Present(c) != [] {
      assert Present(c)[0] in Present(c);
    }
    if exists i :: 0 <= i < |c| && c[i].Some? {
      var i :| 0 <= i < |c| && c[i].Some?;
      assert Some(c[i].value) in c;
    }
  }

  /** The value `fill_null` receives for one column, or the exception building
      that column's expression raises. A String column is filled with its mode;
      without rows `mode()[0]` is out of range. Any other column is filled with
      the median of its non-null values. A null mode or median makes `fill_null`
      raise, as it needs a value; the median of a date column is null exactly when
      it has no date. Date columns otherwise keep their nulls. */
  function FillValue(name: string, s: Series): (r: Result<Fill>)
    ensures r.Err? <==> Unfillable(s)
    ensures r.Err? ==> r.error == if s.Strs? && s.Len() == 0 then EmptyMode(name) else NullFill(name)
    ensures r.Ok? && s.Strs? ==> r.value.FillStr? && Some(r.value.s) == Mode(s.strs).value
    ensures r.Ok? && s.Nums? ==> r.value.FillNum? && Some(r.value.x) == Median(Present(s.nums))
    ensures r.Ok? && s.Dates? ==> r.value.KeepAsIs?
  {
    match s
    case Strs(c) =>
      if c == [] then Err(EmptyMode(name))
      else if Mode(c).value.None? then Err(NullFill(name))
      else Ok(FillStr(Mode(c).value.value))
    case Nums(c) =>
      PresentEmpty(c);
      if Median(Present(c)).None? then Err(NullFill(name)) else Ok(FillNum(Median(Present(c)).value))
    case Dates(c) =>
      PresentEmpty(c);
      if Present(c) == [] then Err(NullFill(name)) else Ok(KeepAsIs)
  }

  function ApplyFill(s: Series, f: Fill): (r: Series)
    ensures r.Len() == s.Len() && r.Strs? == s.Strs? && r.Nums? == s.Nums? && r.Dates? == s.Dates?
  {
    match (s, f)
    case (Strs(c), FillStr(v)) => Strs(FillNullCells(c, Some(v)))
    case (Nums(c), FillNum(v)) => Nums(FillNullCells(c, Some(v)))
    case _ => s
  }

  /** `df.with_columns(expressions)`: every expression reads the input frame and
      overwrites the column it names; the expressions are keyed by that column. */
  function WithFills(t: Table, exprs: map<string, Fill>): (r: Table)
    requires Valid(t) && exprs.Keys <= t.cols.Keys
    ensures Valid(r) && r.names == t.names && r.height == t.height
  {
    Table(t.names, map n | n in t.cols :: if n in exprs then ApplyFill(t.cols[n], exprs[n]) else t.cols[n], t.height)
  }

  predicate FillsAt(t: Table, j: nat)
    requires Valid(t) && j < |t.names|
  {
    FillValue(t.names[j], t.cols[t.names[j]]).Ok?
  }

  /** The first column, from `from` on, whose fill expression cannot be built. */
  function FirstUnfillable(t: Table, from: nat): (r: Option<nat>)
    requires Valid(t) && from <= |t.names|
    ensures r.None? ==> forall j :: from <= j < |t.names| ==> FillsAt(t, j)
    ensures r.Some? ==> from <= r.value < |t.names| && !FillsAt(t, r.value)
    ensures r.Some? ==> forall j :: from <= j < r.value ==> FillsAt(t, j)
    decreases |t.names| - from
  {
    if from == |t.names| then None
    else if !FillsAt(t, from) then Some(from)
    else FirstUnfillable(t, from + 1)
  }

  lemma {:induction false} FirstUnfillableAt(t: Table, from: nat, i: nat)
    requires Valid(t) && from <= i < |t.names| && !FillsAt(t, i)
    requires forall j :: from <= j < i ==> FillsAt(t, j)
    ensures FirstUnfillable(t, from) == Some(i)
    decreases i - from
  {
    if from < i {
      FirstUnfillableAt(t, from + 1, i);
    }
  }

  /** `substituir_nulos`: the expressions are built column by column, so the
      first column whose fill value is missing raises; otherwise every column is
      filled from the frame as it was passed in. */
  function FillNulls(t: Table): (r: Result<Table>)
    requires Valid(t)
    ensures r.Ok? ==> Valid(r.value) && r.value.names == t.names && r.value.height == t.height
  {
    match FirstUnfillable(t, 0)
    case Some(j) => Err(FillValue(t.names[j], t.cols[t.names[j]]).error)
    case None =>
      assert forall n :: n in t.cols ==> FillValue(n, t.cols[n]).Ok? by {
        forall n | n in t.cols ensures FillValue(n, t.cols[n]).Ok? {
          var j :| 0 <= j < |t.names| && t.names[j] == n;
          assert FillsAt(t, j);
        }
      }
      Ok(Table(t.names, map n | n in t.cols :: ApplyFill(t.cols[n], FillValue(n, t.cols[n]).value), t.height))
  }

  /** The loop of `substituir_nulos`: one fill expression per column, in column
      order, then a single `with_columns`. */
  method ReplaceNulls(t: Table) returns (r: Result<Table>)
    requires Valid(t)
    ensures r == FillNulls(t)
  {
    var exprs: map<string, Fill> := map[];
    for i := 0 to |t.names|
      invariant Built(t, exprs, i)
    {
      var fill := FillValue(t.names[i], t.cols[t.names[i]]);
      if fill.Err? {
        RaisesAt(t, exprs, i);
        return Err(fill.error);
      }
      BuiltStep(t, exprs, i);
      exprs := exprs[t.names[i] := fill.value];
    }
    AllFilled(t, exprs);
    r := Ok(WithFills(t, exprs));
  }

  /** The first `i` columns have their fill expressions in `exprs`. */
  ghost predicate Built(t: Table, exprs: map<string, Fill>, i: nat)
    requires Valid(t)
  {
    && i <= |t.names| && exprs.Keys <= t.cols.Keys
    && forall j :: 0 <= j < i ==>
      FillsAt(t, j) && t.names[j] in exprs && exprs[t.names[j]] == FillValue(t.names[j], t.cols[t.names[j]]).value
  }

  lemma BuiltStep(t: Table, exprs: map<string, Fill>, i: nat)
    requires Valid(t) && Built(t, exprs, i) && i < |t.names| && FillsAt(t, i)
    ensures Built(t, exprs[t.names[i] := FillValue(t.names[i], t.cols[t.names[i]]).value], i + 1)
  {
    var e := exprs[t.names[i] := FillValue(t.names[i], t.cols[t.names[i]]).value];
    forall j | 0 <= j <= i
      ensures FillsAt(t, j) && t.names[j] in e && e[t.names[j]] == FillValue(t.names[j], t.cols[t.names[j]]).value
    {
      if j < i {
        assert t.names[j] != t.names[i];
        assert e[t.names[j]] == exprs[t.names[j]];
      }
    }
  }

  /** The loop stops at the first column without a fill value, and that is
      what `substituir_nulos` raises for. */
  lemma RaisesAt(t: Table, exprs: map<string, Fill>, i: nat)
    requires Valid(t) && Built(t, exprs, i) && i < |t.names| && !FillsAt(t, i)
    ensures FillNulls(t) == Err(FillValue(t.names[i], t.cols[t.names[i]]).error)
  {
    FirstUnfillableAt(t, 0, i);
  }

  /** Once every column has its fill expression, one `with_columns` gives what
      `substituir_nulos` returns. */
  lemma AllFilled(t: Table, exprs: map<string, Fill>)
    requires Valid(t) && Built(t, exprs, |t.names|)
    ensures FillNulls(t) == Ok(WithFills(t, exprs))
  {
    forall n | n in t.cols
      ensures n in exprs && FillValue(n, t.cols[n]).Ok? && exprs[n] == FillValue(n, t.cols[n]).value
    {
      var j :| 0 <= j < |t.names| && t.names[j] == n;
    }
    assert FirstUnfillable(t, 0).None?;
    assert WithFills(t, exprs).cols == map n | n in t.cols :: ApplyFill(t.cols[n], FillValue(n, t.cols[n]).value);
  }

  /** How a filled column relates to the column before: non-null cells are kept;
      a null in a String column becomes one of the column's most frequent cells,
      never the null, a null in a numeric column the median of its values; dates
      stay. */
  ghost predicate Filled(before: Series, after: Series)
  {
    match (before, after)
    case (Strs(a), Strs(b)) =>
      |b| == |a| && forall i :: 0 <= i < |a| ==>
        if a[i].Some? then b[i] == a[i]
        else b[i].Some? && b[i] in a && forall v :: v in a ==> multiset(a)[v] <= multiset(a)[b[i]]
    case (Nums(a), Nums(b)) =>
      && |b| == |a| && Median(Present(a)).Some?
      && forall i :: 0 <= i < |a| ==> b[i] == if a[i].Some? then a[i] else Median(Present(a))
    case (Dates(a), Dates(b)) => a == b
    case _ => false
  }

  lemma FilledColumn(name: string, s: Series)
    requires FillValue(name, s).Ok?
    ensures Filled(s, ApplyFill(s, FillValue(name, s).value))
  {
  }

  /** The mode is the null when the null is strictly the most frequent cell, and
      only when no cell is more frequent than the null. */
  lemma NullMode(c: seq<Option<string>>)
    ensures (None in c && forall v :: v in c && v != None ==> multiset(c)[v] < multiset(c)[None]) ==> Mode(c) == Some(None)
    ensures Mode(c) == Some(None) ==> forall v :: v in c ==> multiset(c)[v] <= multiset(c)[None]
  {
  }

  /** When `substituir_nulos` raises: exactly when some column cannot be
      filled, and then for the first such column in name order. */
  lemma FillNullsRaises(t: Table)
    requires Valid(t)
    ensures FillNulls(t).Err? <==> exists n :: n in t.cols && Unfillable(t.cols[n])
    ensures FillNulls(t).Err? ==>
      exists j :: && 0 <= j < |t.names|
                  && Unfillable(t.cols[t.names[j]])
                  && (forall i :: 0 <= i < j ==> !Unfillable(t.cols[t.names[i]]))
                  && FillNulls(t).error == if t.cols[t.names[j]].Strs? && t.height == 0 then EmptyMode(t.names[j]) else NullFill(t.names[j])
  {
    if exists n :: n in t.cols && Unfillable(t.cols[n]) {
      var n :| n in t.cols && Unfillable(t.cols[n]);
      var j :| 0 <= j < |t.names| && t.names[j] == n;
      assert !FillsAt(t, j);
    }
    if FirstUnfillable(t, 0).Some? {
      var j := FirstUnfillable(t, 0).value;
      var s := t.cols[t.names[j]];
      assert FillValue(t.names[j], s).Err?;
      assert s.Len() == t.height;
      forall i | 0 <= i < j ensures !Unfillable(t.cols[t.names[i]]) {
        assert FillsAt(t, i);
      }
      assert FillNulls(t).error == if s.Strs? && t.height == 0 then EmptyMode(t.names[j]) else NullFill(t.names[j]);
    }
  }

  /** What `substituir_nulos` yields when it does not raise: every column
      filled, names and row count kept, and no null left in a String or numeric
      column. */
  lemma FillNullsMeaning(t: Table)
    requires Valid(t)
    ensures FillNulls(t).Ok? ==>
      var r := FillNulls(t).value;
      && Valid(r) && r.names == t.names && r.height == t.height
      && (forall n :: n in t.cols ==> Filled(t.cols[n], r.cols[n]))
      && (forall n, i :: n in r.cols && r.cols[n].Strs? && 0 <= i < r.height ==> r.cols[n].strs[i].Some?)
      && (forall n, i :: n in r.cols && r.cols[n].Nums? && 0 <= i < r.height ==> r.cols[n].nums[i].Some?)
  {
    if FillNulls(t).Ok? {
      var r := FillNulls(t).value;
      forall n | n in t.cols ensures Filled(t.cols[n], r.cols[n]) && NoNulls(r.cols[n]) {
        FillNullsColumn(t, n);
        FilledColumn(n, t.cols[n]);
        FilledHasNoNulls(t.cols[n], r.cols[n]);
      }
    }
  }

  /** A column of a filled frame is its input column with its fill applied. */
  lemma FillNullsColumn(t: Table, n: string)
    requires Valid(t) && FillNulls(t).Ok? && n in t.cols
    ensures FillValue(n, t.cols[n]).Ok? && FillNulls(t).value.cols[n] == ApplyFill(t.cols[n], FillValue(n, t.cols[n]).value)
  {
    var j :| 0 <= j < |t.names| && t.names[j] == n;
    assert FirstUnfillable(t, 0).None?;
    assert FillsAt(t, j);
  }

  /** No null left in a String or numeric series. */
  ghost predicate NoNulls(s: Series)
  {
    && (s.Strs? ==> forall i :: 0 <= i < |s.strs| ==> s.strs[i].Some?)
    && (s.Nums? ==> forall i :: 0 <= i < |s.nums| ==> s.nums[i].Some?)
  }

  lemma FilledHasNoNulls(before: Series, after: Series)
    requires Filled(before, after)
    ensures NoNulls(after)
  {
  }

  // ---------------------------------------------------------------------------
  // corrigir_erros_digitacao: snap free text onto a vocabulary

  /** A fuzzy similarity score as the matcher reports it, between 0 and 100. */
  type Score = x: int | 0 <= x <= 100

  /** `process.extractOne(query, choices)`: the index of the first choice with the
      highest score (`max` keeps the first of equal maxima). */
  function BestMatch(query: string, choices: seq<string>, score: (string, string) -> Score, n: nat): (k: nat)
    requires 0 < n <= |choices|
    ensures k < n
    ensures forall j :: 0 <= j < n ==> score(query, choices[j]) <= score(query, choices[k])
    ensures forall j :: 0 <= j < k ==> score(query, choices[j]) < score(query, choices[k])
  {
    if n == 1 then 0
    else
      var k := BestMatch(query, choices, score, n - 1);
      if score(query, choices[n - 1]) > score(query, choices[k]) then n - 1 else k
  }

  /** `busca_correcao`: nulls and vocabulary members pass; anything else becomes
      the best-scoring vocabulary entry. */
  function Correction(cell: Option<string>, valid: seq<string>, score: (string, string) -> Score): Option<string>
    requires cell.Some? && cell.value !in valid ==> |valid| > 0
  {
    if cell.None? || cell.value in valid then cell
    else Some(valid[BestMatch(cell.value, valid, score, |valid|)])
  }

  /** `corrigir_erros_digitacao(df, column, valid)`. With an empty vocabulary the
      matcher returns None and indexing it raises, for the first non-null cell. */
  function CorrectTypos(t: Table, column: string, valid: seq<string>, score: (string, string) -> Score): (r: Result<Table>)
    requires Valid(t)
    ensures r.Ok? <==>
      && column in t.cols && t.cols[column].Strs?
      && (valid != [] || forall i :: 0 <= i < t.height ==> t.cols[column].strs[i].None?)
    ensures r.Ok? ==> column in t.cols && t.cols[column].Strs?
    ensures r.Ok? ==> Valid(r.value) && r.value.names == t.names && r.value.height == t.height
    ensures r.Ok? ==> r.value.cols == t.cols[column := r.value.cols[column]]
    ensures r.Ok? ==> r.value.cols[column].Strs? && forall i :: 0 <= i < t.height ==>
      var before := t.cols[column].strs[i];
      var after := r.value.cols[column].strs[i];
      && (before.None? || before.value in valid ==> after == before)
      && (after.Some? ==> after.value in valid)
  {
    match Get(t, column)
    case Err(e) => Err(e)
    case Ok(Strs(c)) =>
      if valid == [] && exists i :: 0 <= i < |c| && c[i].Some? then Err(NoChoices)
      else
        Ok(WithColumn(t, column, Strs(seq(|c|, i requires 0 <= i < |c| => Correction(c[i], valid, score)))))
    case Ok(_) => Err(SchemaMismatch(column))
  }

  /** A value outside the vocabulary is replaced by its first best match. */
  lemma CorrectTyposPicksBestMatch(t: Table, column: string, valid: seq<string>, score: (string, string) -> Score, i: nat)
    requires Valid(t) && CorrectTypos(t, column, valid, score).Ok? && i < t.height
    requires t.cols[column].strs[i].Some? && t.cols[column].strs[i].value !in valid
    ensures var q := t.cols[column].strs[i].value;
      exists k :: 0 <= k < |valid| && CorrectTypos(t, column, valid, score).value.cols[column].strs[i] == Some(valid[k])
        && (forall j :: 0 <= j < |valid| ==> score(q, valid[j]) <= score(q, valid[k]))
        && (forall j :: 0 <= j < k ==> score(q, valid[j]) < score(q, valid[k]))
  {
    var q := t.cols[column].strs[i].value;
    var k := BestMatch(q, valid, score, |valid|);
    assert CorrectTypos(t, column, valid, score).value.cols[column].strs[i] == Some(valid[k]);
  }

  /** Correcting twice changes nothing more than correcting once. */
  lemma CorrectTyposIdempotent(t: Table, column: string, valid: seq<string>, score: (string, string) -> Score)
    requires Valid(t) && CorrectTypos(t, column, valid, score).Ok?
    ensures CorrectTypos(CorrectTypos(t, column, valid, score).value, column, valid, score)
         == CorrectTypos(t, column, valid, score)
  {
    var once := CorrectTypos(t, column, valid, score).value;
    var c := once.cols[column].strs;
    var again := seq(|c|, i requires 0 <= i < |c| => Correction(c[i], valid, score));
    assert again == c;
    forall i | 0 <= i < |c| && c[i].Some? ensures valid != [] {
      assert c[i].value in valid;
    }
    assert once.cols[column := Strs(c)] == once.cols;
  }

  // ---------------------------------------------------------------------------
  // tratar_outliers: out-of-range values become the in-range median

  /** `df.filter((col >= lo) & (col <= hi))[col]`: nulls fail the filter. */
  function InRange(c: seq<Option<real>>, lo: real, hi: real): (r: seq<real>)
    ensures forall k :: 0 <= k < |r| ==> lo <= r[k] <= hi
    ensures forall i :: 0 <= i < |c| && c[i].Some? && lo <= c[i].value <= hi ==> c[i].value in r
    ensures |r| == 0 <==> forall i :: 0 <= i < |c| ==> c[i].None? || c[i].value < lo || c[i].value > hi
  {
    if c == [] then []
    else
      var rest := InRange(c[1..], lo, hi);
      assert forall i :: 1 <= i < |c| ==> c[i] == c[1..][i - 1];
      if c[0].Some? && lo <= c[0].value <= hi then [c[0].value] + rest else rest
  }

  /** The filter keeps every in-range value as often as it occurs, and nothing
      else: the median taken over it depends on these counts. */
  lemma {:induction false} InRangeCounts(c: seq<Option<real>>, lo: real, hi: real)
    ensures forall x :: multiset(InRange(c, lo, hi))[x] == if lo <= x <= hi then multiset(c)[Some(x)] else 0
  {
    if c != [] {
      InRangeCounts(c[1..], lo, hi);
      assert c == [c[0]] + c[1..];
      assert multiset(c) == multiset{c[0]} + multiset(c[1..]);
    }
  }

  /** `when((col < lo) | (col > hi)).then(median).otherwise(col)`: a null makes the
      condition null, so it keeps its null. */
  function Clamp(cell: Option<real>, lo: real, hi: real, median: Option<real>): Option<real>
  {
    match cell
    case None => None
    case Some(x) => if x < lo || x > hi then median else cell
  }

  /** `tratar_outliers(df, column, lo, hi)`. */
  function ReplaceOutliers(t: Table, column: string, lo: real, hi: real): (r: Result<Table>)
    requires Valid(t)
    ensures r.Ok? <==> column in t.cols && t.cols[column].Nums?
    ensures r.Ok? ==> Valid(r.value) && r.value.names == t.names && r.value.height == t.height
    ensures r.Ok? ==> r.value.cols == t.cols[column := r.value.cols[column]]
    ensures r.Ok? ==> r.value.cols[column].Nums? && forall i :: 0 <= i < t.height ==>
      var after := r.value.cols[column].nums[i];
      after.Some? ==> lo <= after.value <= hi
  {
    match Get(t, column)
    case Err(e) => Err(e)
    case Ok(Nums(c)) =>
      var median := Median(InRange(c, lo, hi));
      MedianWithin(InRange(c, lo, hi), lo, hi);
      Ok(WithColumn(t, column, Nums(seq(|c|, i requires 0 <= i < |c| => Clamp(c[i], lo, hi, median)))))
    case Ok(_) => Err(SchemaMismatch(column))
  }

  /** Cell by cell: nulls and in-range values stay; every out-of-range value
      becomes the median of the in-range values, which itself lies in range, or a
      null when no value is in range. */
  lemma ReplaceOutliersCells(t: Table, column: string, lo: real, hi: real, i: nat)
    requires Valid(t) && ReplaceOutliers(t, column, lo, hi).Ok? && i < t.height
    ensures var before := t.cols[column].nums[i];
      var after := ReplaceOutliers(t, column, lo, hi).value.cols[column].nums[i];
      var median := Median(InRange(t.cols[column].nums, lo, hi));
      && (before.None? || lo <= before.value <= hi ==> after == before)
      && (before.Some? && (before.value < lo || before.value > hi) ==> after == median)
      && (median.Some? ==> lo <= median.value <= hi)
      && (median.None? <==> forall j :: 0 <= j < t.height ==> var b := t.cols[column].nums[j]; b.None? || b.value < lo || b.value > hi)
  {
    MedianWithin(InRange(t.cols[column].nums, lo, hi), lo, hi);
  }

  /** On a column without nulls, every cell comes out present and in range
      exactly when some cell was in range already (or there are no rows): the
      outliers take the in-range median, which is null only when nothing was in
      range. */
  lemma ReplaceOutliersComplete(t: Table, column: string, lo: real, hi: real)
    requires Valid(t) && ReplaceOutliers(t, column, lo, hi).Ok?
    requires forall i :: 0 <= i < t.height ==> t.cols[column].nums[i].Some?
    ensures var before := t.cols[column].nums;
      var after := ReplaceOutliers(t, column, lo, hi).value.cols[column].nums;
      (forall i :: 0 <= i < t.height ==> after[i].Some? && lo <= after[i].value <= hi)
      <==> (t.height == 0 || exists i :: 0 <= i < t.height && lo <= before[i].value <= hi)
  {
    var before := t.cols[column].nums;
    var after := ReplaceOutliers(t, column, lo, hi).value.cols[column].nums;
    if exists k :: 0 <= k < t.height && lo <= before[k].value <= hi {
      var k :| 0 <= k < t.height && lo <= before[k].value <= hi;
      ReplaceOutliersCells(t, column, lo, hi, k);
      forall i | 0 <= i < t.height ensures after[i].Some? && lo <= after[i].value <= hi {
        ReplaceOutliersCells(t, column, lo, hi, i);
      }
    } else if t.height > 0 {
      ReplaceOutliersCells(t, column, lo, hi, 0);
      assert after[0].None?;
    }
  }

  /** Replacing outliers a second time with the same bounds changes nothing. */
  lemma ReplaceOutliersIdempotent(t: Table, column: string, lo: real, hi: real)
    requires Valid(t) && ReplaceOutliers(t, column, lo, hi).Ok?
    ensures ReplaceOutliers(ReplaceOutliers(t, column, lo, hi).value, column, lo, hi)
         == ReplaceOutliers(t, column, lo, hi)
  {
    var once := ReplaceOutliers(t, column, lo, hi).value;
    var c := once.cols[column].nums;
    assert |c| == t.height;
    ClampInRange(c, lo, hi, Median(InRange(c, lo, hi)));
    assert once.cols[column := Nums(c)] == once.cols;
  }

  /** Clamping values that are all in range leaves them as they are. */
  lemma ClampInRange(c: seq<Option<real>>, lo: real, hi: real, median: Option<real>)
    requires forall i :: 0 <= i < |c| && c[i].Some? ==> lo <= c[i].value <= hi
    ensures seq(|c|, i requires 0 <= i < |c| => Clamp(c[i], lo, hi, median)) == c
  {
  }

  // ---------------------------------------------------------------------------
  // feature_engineering: the requested-to-total ratio

  const RequestedAmount := "valorsolicitado"
  const TotalValue := "valortotalbem"
  const RatioColumn := "proporcaosolicitadototal"

  /** The first row whose division would have a zero denominator. */
  function FirstZeroDivision(num: seq<Option<real>>, den: seq<Option<real>>, from: nat): (r: Option<nat>)
    requires |num| == |den| && from <= |num|
    ensures r.None? <==> forall i :: from <= i < |num| && num[i].Some? && den[i].Some? ==> den[i].value != 0.0
    ensures r.Some? ==> from <= r.value < |num| && num[r.value].Some? && den[r.value] == Some(0.0)
    ensures r.Some? ==> forall i :: from <= i < r.value ==> !(num[i].Some? && den[i] == Some(0.0))
    decreases |num| - from
  {
    if from == |num| then None
    else if num[from].Some? && den[from] == Some(0.0) then Some(from)
    else FirstZeroDivision(num, den, from + 1)
  }

  /** `feature_engineering`: adds, or overwrites, the ratio column; a null on
      either side gives a null. The source does not guard a zero denominator, where
      Float64 division gives an infinity or NaN: the model reports an error. */
  function AddRatioFeature(t: Table): (r: Result<Table>)
    requires Valid(t)
    ensures r.Ok? ==> && RequestedAmount in t.cols && t.cols[RequestedAmount].Nums?
                      && TotalValue in t.cols && t.cols[TotalValue].Nums?
    ensures r.Ok? <==>
      && RequestedAmount in t.cols && t.cols[RequestedAmount].Nums?
      && TotalValue in t.cols && t.cols[TotalValue].Nums?
      && FirstZeroDivision(t.cols[RequestedAmount].nums, t.cols[TotalValue].nums, 0).None?
    ensures r.Err? && RequestedAmount in t.cols && t.cols[RequestedAmount].Nums?
                   && TotalValue in t.cols && t.cols[TotalValue].Nums? ==>
      && FirstZeroDivision(t.cols[RequestedAmount].nums, t.cols[TotalValue].nums, 0).Some?
      && r.error == DivisionByZero(FirstZeroDivision(t.cols[RequestedAmount].nums, t.cols[TotalValue].nums, 0).value)
    ensures r.Ok? ==> Valid(r.value) && r.value.height == t.height
    ensures r.Ok? ==> r.value.names == if RatioColumn in t.cols then t.names else t.names + [RatioColumn]
    ensures r.Ok? ==> r.value.cols == t.cols[RatioColumn := r.value.cols[RatioColumn]]
    ensures r.Ok? ==> r.value.cols[RatioColumn].Nums? && forall i :: 0 <= i < t.height ==>
      var num := t.cols[RequestedAmount].nums[i];
      var den := t.cols[TotalValue].nums[i];
      var ratio := r.value.cols[RatioColumn].nums[i];
      && (ratio.Some? <==> num.Some? && den.Some?)
      && (ratio.Some? ==> den.value != 0.0 && ratio.value * den.value == num.value)
  {
    match (Get(t, RequestedAmount), Get(t, TotalValue))
    case (Err(e), _) => Err(e)
    case (_, Err(e)) => Err(e)
    case (Ok(Nums(num)), Ok(Nums(den))) =>
      (match FirstZeroDivision(num, den, 0)
       case Some(row) => Err(DivisionByZero(row))
       case None =>
         Ok(WithColumn(t, RatioColumn, Nums(seq(|num|, i requires 0 <= i < |num| =>
           if num[i].Some? && den[i].Some? then Some(num[i].value / den[i].value) else None)))))
    case (Ok(Nums(_)), _) => Err(SchemaMismatch(TotalValue))
    case _ => Err(SchemaMismatch(RequestedAmount))
  }
}
