/** The training script `model_creation.py`: clean the raw training frame, split
    off the target, then standardize and encode the feature columns, persisting
    the fitted states for the serving side. */
module Training {
  import opened Frames
  import opened Stats
  import opened Processing
  import opened Artifacts

  /** The professions the typo correction maps every value onto. */
  const Professions: seq<string> := ["Advogado", "Arquiteto", "Cientista de Dados", "Contador", "Dentista",
                                     "Empresário", "Engenheiro", "Médico", "Programador"]

  const Profession := "profissao"
  const YearsInProfession := "tempoprofissao"
  const AgeColumn := "idade"
  const Target := "classe"

  /** The columns `save_scalers` standardizes. */
  const NumericColumns: seq<string> := ["tempoprofissao", "renda", "idade", "dependentes",
                                        "valorsolicitado", "valortotalbem", "proporcaosolicitadototal"]

  /** The columns `save_encoders` encodes. */
  const CategoricalColumns: seq<string> := ["profissao", "tiporesidencia", "escolaridade", "score",
                                            "estadocivil", "produto"]

  /** No column is listed twice, and no column is both standardized and encoded,
      so no scaler file is overwritten within a loop and the encoders see the
      categorical columns as they were before scaling. */
  lemma ColumnListsDisjoint()
    ensures Distinct(NumericColumns) && Distinct(CategoricalColumns)
    ensures forall c :: c in NumericColumns ==> c !in CategoricalColumns
    ensures Target !in NumericColumns && Target !in CategoricalColumns
  {
    ColumnListsDistinct();
  }

  lemma ColumnListsDistinct()
    ensures Distinct(NumericColumns) && Distinct(CategoricalColumns)
  {
  }

  // ---------------------------------------------------------------------------
  // Step 3: cleaning

  /** The currency column `c` of `r` holds, row by row, what `limpar_moeda`
      reads from the same column of `t`. */
  ghost predicate AmountsParsed(t: Table, r: Table, c: string)
  {
    && c in t.cols && t.cols[c].Strs? && c in r.cols && r.cols[c].Nums?
    && t.cols[c].Len() == r.cols[c].Len()
    && forall i :: 0 <= i < |t.cols[c].strs| ==> ParseCurrency(t.cols[c].strs[i]) == Ok(r.cols[c].nums[i])
  }

  /** The column holds text and the strict cast accepts every cell of it. */
  ghost predicate CurrencyReadable(t: Table, c: string)
  {
    c in t.cols && t.cols[c].Strs? && forall i :: 0 <= i < |t.cols[c].strs| ==> ParseCurrency(t.cols[c].strs[i]).Ok?
  }

  /** PASSO 1: both currency columns are parsed from the frame as it was read
      and overwrite themselves; any cell the strict cast rejects raises. */
  function ParseAmounts(t: Table): (r: Result<Table>)
    requires Valid(t)
    ensures r.Ok? ==> Valid(r.value) && r.value.names == t.names && r.value.height == t.height
    ensures r.Ok? ==> forall n :: n in t.cols && n != RequestedAmount && n != TotalValue ==>
      r.value.cols[n] == t.cols[n]
    ensures r.Ok? ==> AmountsParsed(t, r.value, RequestedAmount) && AmountsParsed(t, r.value, TotalValue)
    ensures r.Ok? <==> CurrencyReadable(t, RequestedAmount) && CurrencyReadable(t, TotalValue)
  {
    match ParseCurrencyColumn(t, RequestedAmount)
    case Err(e) => Err(e)
    case Ok(a) =>
      match ParseCurrencyColumn(t, TotalValue)
      case Err(e) => Err(e)
      case Ok(b) => Ok(WithColumn(WithColumn(t, RequestedAmount, a), TotalValue, b))
  }

  /** The cleaning chain: parse the amounts, fill the nulls, correct the
      professions, replace out-of-range years in the profession and ages, add
      the ratio feature. */
  function Clean(t: Table, score: (string, string) -> Score): (r: Result<Table>)
    requires Valid(t)
  {
    match ParseAmounts(t)
    case Err(e) => Err(e)
    case Ok(t1) =>
      match FillNulls(t1)
      case Err(e) => Err(e)
      case Ok(t2) => Refine(t2, score)
  }

  /** The rest of the chain, after the nulls are filled. */
  function Refine(t: Table, score: (string, string) -> Score): (r: Result<Table>)
    requires Valid(t)
  {
    match CorrectTypos(t, Profession, Professions, score)
    case Err(e) => Err(e)
    case Ok(t3) =>
      match ReplaceOutliers(t3, YearsInProfession, 0.0, 70.0)
      case Err(e) => Err(e)
      case Ok(t4) =>
        match ReplaceOutliers(t4, AgeColumn, 0.0, 110.0)
        case Err(e) => Err(e)
        case Ok(t5) => AddRatioFeature(t5)
  }

  /** Every profession is one of the nine, or null. */
  ghost predicate ProfessionsKnown(r: Table)
  {
    Profession in r.cols && r.cols[Profession].Strs? &&
    forall i :: 0 <= i < |r.cols[Profession].strs| ==>
      r.cols[Profession].strs[i].Some? ==> r.cols[Profession].strs[i].value in Professions
  }

  /** Every value of the column lies in [lo, hi], or is null. */
  ghost predicate WithinBounds(r: Table, column: string, lo: real, hi: real)
  {
    column in r.cols && r.cols[column].Nums? &&
    forall i :: 0 <= i < |r.cols[column].nums| ==>
      r.cols[column].nums[i].Some? ==> lo <= r.cols[column].nums[i].value <= hi
  }

  /** Every row of the column holds a value, and it lies in [lo, hi]. */
  ghost predicate AllWithin(r: Table, column: string, lo: real, hi: real)
  {
    column in r.cols && r.cols[column].Nums? &&
    forall i :: 0 <= i < |r.cols[column].nums| ==>
      r.cols[column].nums[i].Some? && lo <= r.cols[column].nums[i].value <= hi
  }

  /** Some row of the column holds a value in [lo, hi]. */
  ghost predicate SomeWithin(r: Table, column: string, lo: real, hi: real)
  {
    column in r.cols && r.cols[column].Nums? &&
    exists i :: 0 <= i < |r.cols[column].nums| &&
      r.cols[column].nums[i].Some? && lo <= r.cols[column].nums[i].value <= hi
  }

  /** The ratio is null exactly where an amount is, and times the total value
      gives the requested amount everywhere else. */
  ghost predicate RatioConsistent(r: Table)
  {
    && Valid(r)
    && RatioColumn in r.cols && RequestedAmount in r.cols && TotalValue in r.cols
    && r.cols[RatioColumn].Nums? && r.cols[RequestedAmount].Nums? && r.cols[TotalValue].Nums?
    && forall i :: 0 <= i < r.height ==>
      var num := r.cols[RequestedAmount].nums[i];
      var den := r.cols[TotalValue].nums[i];
      var ratio := r.cols[RatioColumn].nums[i];
      && (ratio.Some? <==> num.Some? && den.Some?)
      && (ratio.Some? ==> ratio.value * den.value == num.value)
  }

  /** Overwriting one column keeps what the others guarantee. */
  lemma OtherColumnKept(t: Table, r: Table, column: string)
    requires column in r.cols && r.cols == t.cols[column := r.cols[column]]
    ensures column != Profession ==> ProfessionsKnown(t) ==> ProfessionsKnown(r)
    ensures column != YearsInProfession ==> WithinBounds(t, YearsInProfession, 0.0, 70.0) ==> WithinBounds(r, YearsInProfession, 0.0, 70.0)
    ensures column != AgeColumn ==> WithinBounds(t, AgeColumn, 0.0, 110.0) ==> WithinBounds(r, AgeColumn, 0.0, 110.0)
  {
  }

  lemma TyposStage(t: Table, score: (string, string) -> Score)
    requires Valid(t) && CorrectTypos(t, Profession, Professions, score).Ok?
    ensures ProfessionsKnown(CorrectTypos(t, Profession, Professions, score).value)
  {
  }

  lemma OutlierStage(t: Table, column: string, lo: real, hi: real)
    requires Valid(t) && ReplaceOutliers(t, column, lo, hi).Ok?
    ensures WithinBounds(ReplaceOutliers(t, column, lo, hi).value, column, lo, hi)
    ensures ProfessionsKnown(t) && column != Profession ==> ProfessionsKnown(ReplaceOutliers(t, column, lo, hi).value)
    ensures WithinBounds(t, YearsInProfession, 0.0, 70.0) && column != YearsInProfession ==>
      WithinBounds(ReplaceOutliers(t, column, lo, hi).value, YearsInProfession, 0.0, 70.0)
  {
    var r := ReplaceOutliers(t, column, lo, hi).value;
    OtherColumnKept(t, r, column);
  }

  lemma RatioStage(t: Table)
    requires Valid(t) && AddRatioFeature(t).Ok?
    requires ProfessionsKnown(t) && WithinBounds(t, YearsInProfession, 0.0, 70.0) && WithinBounds(t, AgeColumn, 0.0, 110.0)
    ensures var r := AddRatioFeature(t).value;
      && ProfessionsKnown(r) && WithinBounds(r, YearsInProfession, 0.0, 70.0) && WithinBounds(r, AgeColumn, 0.0, 110.0)
      && RatioConsistent(r)
  {
    var r := AddRatioFeature(t).value;
    OtherColumnKept(t, r, RatioColumn);
    RatioFeatureConsistent(t);
  }

  lemma RatioFeatureConsistent(t: Table)
    requires Valid(t) && AddRatioFeature(t).Ok?
    ensures RatioConsistent(AddRatioFeature(t).value)
  {
    var r := AddRatioFeature(t).value;
    var num, den := t.cols[RequestedAmount].nums, t.cols[TotalValue].nums;
    assert r.cols[RequestedAmount].nums == num && r.cols[TotalValue].nums == den;
    var ratio := r.cols[RatioColumn].nums;
    forall i | 0 <= i < r.height
      ensures (ratio[i].Some? <==> num[i].Some? && den[i].Some?) && (ratio[i].Some? ==> ratio[i].value * den[i].value == num[i].value)
    {
    }
  }

  /** What the cleaned frame guarantees: the rows are all kept; every profession
      is one of the nine or null; years in the profession lie in [0, 70] and
      ages in [0, 110] where present; the ratio column agrees with the amounts
      beside it, and is null exactly where one of them is. */
  lemma CleanGuarantees(t: Table, score: (string, string) -> Score)
    requires Valid(t) && Clean(t, score).Ok?
    ensures var r := Clean(t, score).value;
      && Valid(r) && r.height == t.height
      && ProfessionsKnown(r)
      && WithinBounds(r, YearsInProfession, 0.0, 70.0)
      && WithinBounds(r, AgeColumn, 0.0, 110.0)
      && RatioConsistent(r)
  {
    var t1 := ParseAmounts(t).value;
    var t2 := FillNulls(t1).value;
    var t3 := CorrectTypos(t2, Profession, Professions, score).value;
    TyposStage(t2, score);
    var t4 := ReplaceOutliers(t3, YearsInProfession, 0.0, 70.0).value;
    OutlierStage(t3, YearsInProfession, 0.0, 70.0);
    var t5 := ReplaceOutliers(t4, AgeColumn, 0.0, 110.0).value;
    OutlierStage(t4, AgeColumn, 0.0, 110.0);
    RatioStage(t5);
  }

  /** After the chain, `tempoprofissao` and `idade` hold an in-range value in
      every row exactly when the filled frame held one in some row (or has no
      rows): the fill leaves no numeric null, and each outlier then takes the
      in-range median. */
  lemma CleanCompletesBounds(t: Table, score: (string, string) -> Score)
    requires Valid(t) && Clean(t, score).Ok?
    ensures ParseAmounts(t).Ok? && FillNulls(ParseAmounts(t).value).Ok?
    ensures var f := FillNulls(ParseAmounts(t).value).value;
      var r := Clean(t, score).value;
      && (AllWithin(r, YearsInProfession, 0.0, 70.0) <==> f.height == 0 || SomeWithin(f, YearsInProfession, 0.0, 70.0))
      && (AllWithin(r, AgeColumn, 0.0, 110.0) <==> f.height == 0 || SomeWithin(f, AgeColumn, 0.0, 110.0))
  {
    var t1 := ParseAmounts(t).value;
    var f := FillNulls(t1).value;
    assert Refine(f, score) == Clean(t, score);
    RefineColumnsPresent(f, score);
    FilledNoNulls(t1, YearsInProfession);
    FilledNoNulls(t1, AgeColumn);
    RefineCompletesYears(f, score);
    RefineCompletesAge(f, score);
  }

  lemma RefineColumnsPresent(f: Table, score: (string, string) -> Score)
    requires Valid(f) && Refine(f, score).Ok?
    ensures YearsInProfession in f.cols && AgeColumn in f.cols
  {
    var t3 := CorrectTypos(f, Profession, Professions, score).value;
    var t4 := ReplaceOutliers(t3, YearsInProfession, 0.0, 70.0).value;
  }

  lemma RefineCompletesYears(f: Table, score: (string, string) -> Score)
    requires Valid(f) && Refine(f, score).Ok?
    requires YearsInProfession in f.cols && NoNulls(f.cols[YearsInProfession])
    ensures AllWithin(Refine(f, score).value, YearsInProfession, 0.0, 70.0)
        <==> f.height == 0 || SomeWithin(f, YearsInProfession, 0.0, 70.0)
  {
    var t3 := CorrectTypos(f, Profession, Professions, score).value;
    var t4 := ReplaceOutliers(t3, YearsInProfession, 0.0, 70.0).value;
    var t5 := ReplaceOutliers(t4, AgeColumn, 0.0, 110.0).value;
    var r := AddRatioFeature(t5).value;
    assert t3.cols[YearsInProfession] == f.cols[YearsInProfession];
    OutlierCompletes(t3, YearsInProfession, 0.0, 70.0);
    assert r.cols[YearsInProfession] == t4.cols[YearsInProfession];
  }

  lemma RefineCompletesAge(f: Table, score: (string, string) -> Score)
    requires Valid(f) && Refine(f, score).Ok?
    requires AgeColumn in f.cols && NoNulls(f.cols[AgeColumn])
    ensures AllWithin(Refine(f, score).value, AgeColumn, 0.0, 110.0)
        <==> f.height == 0 || SomeWithin(f, AgeColumn, 0.0, 110.0)
  {
    var t3 := CorrectTypos(f, Profession, Professions, score).value;
    var t4 := ReplaceOutliers(t3, YearsInProfession, 0.0, 70.0).value;
    var t5 := ReplaceOutliers(t4, AgeColumn, 0.0, 110.0).value;
    var r := AddRatioFeature(t5).value;
    assert t4.cols[AgeColumn] == f.cols[AgeColumn];
    OutlierCompletes(t4, AgeColumn, 0.0, 110.0);
    assert r.cols[AgeColumn] == t5.cols[AgeColumn];
  }

  /** A column of the filled frame has no null left. */
  lemma FilledNoNulls(t: Table, n: string)
    requires Valid(t) && FillNulls(t).Ok? && n in FillNulls(t).value.cols
    ensures NoNulls(FillNulls(t).value.cols[n])
  {
    FillNullsColumn(t, n);
    FilledColumn(n, t.cols[n]);
    FilledHasNoNulls(t.cols[n], FillNulls(t).value.cols[n]);
  }

  /** Replacing the outliers of a column without nulls leaves every row in
      range exactly when some row already was. */
  lemma OutlierCompletes(t: Table, column: string, lo: real, hi: real)
    requires Valid(t) && ReplaceOutliers(t, column, lo, hi).Ok? && NoNulls(t.cols[column])
    ensures AllWithin(ReplaceOutliers(t, column, lo, hi).value, column, lo, hi)
        <==> t.height == 0 || SomeWithin(t, column, lo, hi)
  {
    ReplaceOutliersComplete(t, column, lo, hi);
  }

  /** The steps after the null filling never touch the two amount columns. */
  lemma RefineKeepsAmounts(t: Table, score: (string, string) -> Score)
    requires Valid(t) && Refine(t, score).Ok?
    ensures forall c :: c == RequestedAmount || c == TotalValue ==>
      c in t.cols && c in Refine(t, score).value.cols && Refine(t, score).value.cols[c] == t.cols[c]
  {
    var t3 := CorrectTypos(t, Profession, Professions, score).value;
    var t4 := ReplaceOutliers(t3, YearsInProfession, 0.0, 70.0).value;
    var t5 := ReplaceOutliers(t4, AgeColumn, 0.0, 110.0).value;
    var r := AddRatioFeature(t5).value;
    forall c | c == RequestedAmount || c == TotalValue
      ensures c in t.cols && c in r.cols && r.cols[c] == t.cols[c]
    {
      assert t3.cols[c] == t.cols[c];
      assert t4.cols[c] == t3.cols[c];
      assert t5.cols[c] == t4.cols[c];
    }
  }

  /** The ratio is taken over the amounts as parsed and then null-filled: the
      two amount columns of the cleaned frame are the parsed ones with their nulls
      replaced by the column median. */
  lemma CleanRatioUsesFilledAmounts(t: Table, score: (string, string) -> Score)
    requires Valid(t) && Clean(t, score).Ok?
    ensures var parsed := ParseAmounts(t).value;
      var r := Clean(t, score).value;
      && RequestedAmount in parsed.cols && TotalValue in parsed.cols
      && RequestedAmount in r.cols && TotalValue in r.cols
      && Filled(parsed.cols[RequestedAmount], r.cols[RequestedAmount])
      && Filled(parsed.cols[TotalValue], r.cols[TotalValue])
  {
    var t1 := ParseAmounts(t).value;
    FillNullsMeaning(t1);
    var t2 := FillNulls(t1).value;
    RefineKeepsAmounts(t2, score);
    assert Filled(t1.cols[RequestedAmount], t2.cols[RequestedAmount]);
    assert Filled(t1.cols[TotalValue], t2.cols[TotalValue]);
  }

  // ---------------------------------------------------------------------------
  // Step 4: features and target

  /** `{'ruim': 0, 'bom': 1}` through `Series.map`: any other cell, or a null,
      becomes NaN, modelled as a missing value. */
  function LabelCode(cell: Option<string>): (r: Option<real>)
    ensures r == Some(0.0) <==> cell == Some("ruim")
    ensures r == Some(1.0) <==> cell == Some("bom")
    ensures r.None? <==> cell != Some("ruim") && cell != Some("bom")
  {
    if cell == Some("ruim") then Some(0.0)
    else if cell == Some("bom") then Some(1.0)
    else None
  }

  /** `X = df.drop("classe")`, `y = df["classe"].map(...)`. The mapping's keys
      are strings, so a `classe` column of numbers or dates maps every cell to
      NaN. */
  function SplitTarget(t: Table): (r: Result<(Table, seq<Option<real>>)>)
    requires Valid(t)
    ensures r.Ok? <==> Target in t.cols
    ensures r.Err? ==> r.error == ColumnNotFound(Target)
    ensures r.Ok? ==> var (x, y) := r.value;
      && Valid(x) && x.height == t.height && Target !in x.cols
      && (forall n :: n in t.cols && n != Target ==> n in x.cols && x.cols[n] == t.cols[n])
      && |y| == t.height
      && (t.cols[Target].Strs? ==> forall i :: 0 <= i < t.height ==> y[i] == LabelCode(t.cols[Target].strs[i]))
      && (!t.cols[Target].Strs? ==> forall i :: 0 <= i < t.height ==> y[i].None?)
  {
    match Get(t, Target)
    case Err(e) => Err(e)
    case Ok(Strs(labels)) =>
      Ok((Drop(t, Target).value, seq(|labels|, i requires 0 <= i < |labels| => LabelCode(labels[i]))))
    case Ok(other) => Ok((Drop(t, Target).value, seq(other.Len(), i => None)))
  }

  // ---------------------------------------------------------------------------
  // Step 5: standardizing, encoding and persisting

  /** The two feature frames after step 5, the files on disk, and the exception
      that stopped the script, if one did. */
  datatype Prepared = Prepared(train: Table, test: Table, files: map<string, Artifact>, failure: Option<Error>)

  /** Step 5 as written: scalers fitted on the training rows and saved, then
      fitted again on the test rows and saved under the same names; the same for
      the encoders. The files left behind hold the test rows' states. */
  function PrepareAsWritten(train: Table, test: Table, files: map<string, Artifact>, sqrt: Root): (r: Prepared)
    requires Valid(train) && Valid(test)
  {
    var s1 := Loop(FitScalers(sqrt), train, files, NumericColumns);
    if s1.failure.Some? then Prepared(train, test, s1.files, s1.failure) else
    var s2 := Loop(FitScalers(sqrt), test, s1.files, NumericColumns);
    if s2.failure.Some? then Prepared(s1.table, test, s2.files, s2.failure) else
    var e1 := Loop(FitEncoders(), s1.table, s2.files, CategoricalColumns);
    if e1.failure.Some? then Prepared(s1.table, s2.table, e1.files, e1.failure) else
    var e2 := Loop(FitEncoders(), s2.table, e1.files, CategoricalColumns);
    Prepared(e1.table, if e2.failure.Some? then s2.table else e2.table, e2.files, e2.failure)
  }

  /** Step 5 with the states fitted on the training rows only: the training
      frame is fitted and saved, the test frame is transformed by loading what
      was saved. */
  function Prepare(train: Table, test: Table, files: map<string, Artifact>, sqrt: Root): (r: Prepared)
    requires Valid(train) && Valid(test)
  {
    var s1 := Loop(FitScalers(sqrt), train, files, NumericColumns);
    if s1.failure.Some? then Prepared(train, test, s1.files, s1.failure) else
    var e1 := Loop(FitEncoders(), s1.table, s1.files, CategoricalColumns);
    if e1.failure.Some? then Prepared(s1.table, test, e1.files, e1.failure) else
    var s2 := Loop(ApplyScalers(), test, e1.files, NumericColumns);
    if s2.failure.Some? then Prepared(e1.table, s2.table, e1.files, s2.failure) else
    var e2 := Loop(ApplyEncoders(), s2.table, e1.files, CategoricalColumns);
    Prepared(e1.table, e2.table, e1.files, e2.failure)
  }

  /** What the serving side does with the persisted states: `load_scalers` on the
      numeric columns, then `load_encoders` on the categorical ones. */
  function Serve(t: Table, files: map<string, Artifact>): (r: Result<Table>)
    requires Valid(t)
    ensures r.Ok? ==> Valid(r.value) && r.value.names == t.names && r.value.height == t.height
  {
    var s := Loop(ApplyScalers(), t, files, NumericColumns);
    if s.failure.Some? then Err(s.failure.value)
    else Returned(Loop(ApplyEncoders(), s.table, files, CategoricalColumns))
  }

  /** A scaler file is the scaler fitted on that column of the frame. */
  ghost predicate HoldsScalerOf(files: map<string, Artifact>, t: Table, c: string, sqrt: Root)
  {
    && c in t.cols && t.cols[c].Nums? && FitScaler(c, t.cols[c].nums, sqrt).Ok?
    && ScalerPath(c) in files && files[ScalerPath(c)] == ScalerFile(FitScaler(c, t.cols[c].nums, sqrt).value)
  }

  /** An encoder file is the encoder fitted on that column of the frame. */
  ghost predicate HoldsEncoderOf(files: map<string, Artifact>, t: Table, c: string)
  {
    && c in t.cols && t.cols[c].Strs?
    && EncoderPath(c) in files && files[EncoderPath(c)] == EncoderFile(FitEncoder(t.cols[c].strs))
  }

  /** After a successful `save_scalers` loop, each numeric column's file holds
      the scaler fitted on that column of the frame it was given. */
  lemma ScalersFittedOn(t: Table, files: map<string, Artifact>, sqrt: Root)
    requires Valid(t) && Loop(FitScalers(sqrt), t, files, NumericColumns).failure.None?
    ensures forall c :: c in NumericColumns ==> HoldsScalerOf(Loop(FitScalers(sqrt), t, files, NumericColumns).files, t, c, sqrt)
  {
    ColumnListsDistinct();
    LoopResults(FitScalers(sqrt), t, files, NumericColumns);
    var run := Loop(FitScalers(sqrt), t, files, NumericColumns);
    forall c | c in NumericColumns ensures HoldsScalerOf(run.files, t, c, sqrt) {
      var k :| 0 <= k < |NumericColumns| && NumericColumns[k] == c;
      RecordedScaler(t, files, run, NumericColumns[k], sqrt);
    }
  }

  lemma RecordedScaler(t: Table, files: map<string, Artifact>, run: Run, c: string, sqrt: Root)
    requires Valid(t) && Recorded(FitScalers(sqrt), t, files, run, c)
    ensures HoldsScalerOf(run.files, t, c, sqrt)
  {
  }

  /** After a successful `save_encoders` loop, each categorical column's file
      holds the encoder fitted on that column of the frame it was given. */
  lemma EncodersFittedOn(t: Table, files: map<string, Artifact>)
    requires Valid(t) && Loop(FitEncoders(), t, files, CategoricalColumns).failure.None?
    ensures forall c :: c in CategoricalColumns ==> HoldsEncoderOf(Loop(FitEncoders(), t, files, CategoricalColumns).files, t, c)
  {
    ColumnListsDistinct();
    LoopResults(FitEncoders(), t, files, CategoricalColumns);
    var run := Loop(FitEncoders(), t, files, CategoricalColumns);
    forall c | c in CategoricalColumns ensures HoldsEncoderOf(run.files, t, c) {
      var k :| 0 <= k < |CategoricalColumns| && CategoricalColumns[k] == c;
      RecordedEncoder(t, files, run, CategoricalColumns[k]);
    }
  }

  lemma RecordedEncoder(t: Table, files: map<string, Artifact>, run: Run, c: string)
    requires Valid(t) && Recorded(FitEncoders(), t, files, run, c)
    ensures HoldsEncoderOf(run.files, t, c)
  {
  }

  /** Fitting the encoders never touches a scaler file. */
  lemma EncodersKeepScalerFiles(t: Table, files: map<string, Artifact>, u: Table, sqrt: Root)
    requires Valid(t)
    requires forall c :: c in NumericColumns ==> HoldsScalerOf(files, u, c, sqrt)
    ensures forall c :: c in NumericColumns ==> HoldsScalerOf(Loop(FitEncoders(), t, files, CategoricalColumns).files, u, c, sqrt)
  {
    LoopKeepsFiles(FitEncoders(), t, files, CategoricalColumns);
    forall c | c in NumericColumns ensures ScalerPath(c) !in Targets(FitEncoders(), CategoricalColumns) {
      forall d | d in CategoricalColumns ensures ScalerPath(c) != EncoderPath(d) {
        PathsDistinct(c, d);
      }
    }
  }

  /** Standardizing the numeric columns leaves the categorical ones as they were. */
  lemma ScalingKeepsCategories(pass: Pass, t: Table, files: map<string, Artifact>)
    requires WellFormed(pass) && Valid(t)
    ensures forall c :: c in CategoricalColumns && c in t.cols ==>
      c in Loop(pass, t, files, NumericColumns).table.cols && Loop(pass, t, files, NumericColumns).table.cols[c] == t.cols[c]
  {
    ColumnListsDisjoint();
    LoopKeepsColumns(pass, t, files, NumericColumns);
  }

  /** Step 5 as written persists the states fitted on the TEST rows: every
      scaler and encoder file holds what was fitted on the test frame, the last
      frame each was fitted on. */
  lemma AsWrittenPersistsTestStates(train: Table, test: Table, files: map<string, Artifact>, sqrt: Root)
    requires Valid(train) && Valid(test) && PrepareAsWritten(train, test, files, sqrt).failure.None?
    ensures var r := PrepareAsWritten(train, test, files, sqrt);
      && (forall c :: c in NumericColumns ==> HoldsScalerOf(r.files, test, c, sqrt))
      && (forall c :: c in CategoricalColumns ==> HoldsEncoderOf(r.files, test, c))
  {
    var s1 := Loop(FitScalers(sqrt), train, files, NumericColumns);
    var s2 := Loop(FitScalers(sqrt), test, s1.files, NumericColumns);
    var e1 := Loop(FitEncoders(), s1.table, s2.files, CategoricalColumns);
    var e2 := Loop(FitEncoders(), s2.table, e1.files, CategoricalColumns);
    assert s1.failure.None? && s2.failure.None? && e1.failure.None? && e2.failure.None?;
    assert PrepareAsWritten(train, test, files, sqrt).files == e2.files;
    AsWrittenScalerFiles(s1.table, test, s2.files, sqrt, s1.files);
    AsWrittenEncoderFiles(s2.table, test, e1.files, sqrt, s1.files);
  }

  /** The scaler files after the second `save_scalers` survive both encoder
      loops. */
  lemma AsWrittenScalerFiles(u: Table, test: Table, files2: map<string, Artifact>, sqrt: Root, files1: map<string, Artifact>)
    requires Valid(u) && Valid(test)
    requires Loop(FitScalers(sqrt), test, files1, NumericColumns) == Run(Loop(FitScalers(sqrt), test, files1, NumericColumns).table, files2, None)
    ensures var e1 := Loop(FitEncoders(), u, files2, CategoricalColumns);
      var e2 := Loop(FitEncoders(), Loop(FitScalers(sqrt), test, files1, NumericColumns).table, e1.files, CategoricalColumns);
      forall c :: c in NumericColumns ==> HoldsScalerOf(e2.files, test, c, sqrt)
  {
    var s2 := Loop(FitScalers(sqrt), test, files1, NumericColumns);
    ScalersFittedOn(test, files1, sqrt);
    EncodersKeepScalerFiles(u, files2, test, sqrt);
    var e1 := Loop(FitEncoders(), u, files2, CategoricalColumns);
    EncodersKeepScalerFiles(s2.table, e1.files, test, sqrt);
  }

  /** The encoder files after the second `save_encoders` are fitted on the
      test frame's categorical columns, which scaling left untouched. */
  lemma AsWrittenEncoderFiles(scaled: Table, test: Table, files: map<string, Artifact>, sqrt: Root, files1: map<string, Artifact>)
    requires Valid(test) && scaled == Loop(FitScalers(sqrt), test, files1, NumericColumns).table
    requires Loop(FitEncoders(), scaled, files, CategoricalColumns).failure.None?
    ensures forall c :: c in CategoricalColumns ==> HoldsEncoderOf(Loop(FitEncoders(), scaled, files, CategoricalColumns).files, test, c)
  {
    EncodersFittedOn(scaled, files);
    ScalingKeepsCategories(FitScalers(sqrt), test, files1);
    forall c | c in CategoricalColumns ensures HoldsEncoderOf(Loop(FitEncoders(), scaled, files, CategoricalColumns).files, test, c) {
      assert HoldsEncoderOf(Loop(FitEncoders(), scaled, files, CategoricalColumns).files, scaled, c);
    }
  }

  /** The consequence: serving a training row whose categorical label does not
      occur in the test rows fails, although the model was trained on it. */
  lemma AsWrittenRejectsTrainingLabel(train: Table, test: Table, files: map<string, Artifact>, sqrt: Root, k: nat, row: nat)
    requires Valid(train) && Valid(test) && PrepareAsWritten(train, test, files, sqrt).failure.None?
    requires k < |CategoricalColumns| && CategoricalColumns[k] in train.cols && train.cols[CategoricalColumns[k]].Strs?
    requires CategoricalColumns[k] in test.cols && test.cols[CategoricalColumns[k]].Strs?
    requires row < |train.cols[CategoricalColumns[k]].strs|
    requires train.cols[CategoricalColumns[k]].strs[row] !in test.cols[CategoricalColumns[k]].strs
    ensures Serve(train, PrepareAsWritten(train, test, files, sqrt).files).Err?
  {
    var files' := PrepareAsWritten(train, test, files, sqrt).files;
    var c := CategoricalColumns[k];
    AsWrittenPersistsTestStates(train, test, files, sqrt);
    assert HoldsEncoderOf(files', test, c);
    var a := Loop(ApplyScalers(), train, files', NumericColumns);
    if a.failure.None? {
      ScalingKeepsCategories(ApplyScalers(), train, files');
      ColumnListsDisjoint();
      assert a.table.cols[c] == train.cols[c];
      assert train.cols[c].strs[row] !in Classes(test.cols[c].strs);
      ApplyEncodersRejectsUnseen(a.table, files', CategoricalColumns, k, row);
    }
  }

  /** The smallest instance: trained on "Advogado" and "Médico", the model saw
      code 1 for "Médico"; the persisted encoder, fitted on a test split holding
      only "Médico", gives it code 0 and rejects "Advogado". */
  lemma PersistedEncoderShiftsCodes()
    ensures var trainCells := [Some("Advogado"), Some("Médico")];
      var trained := FitEncoder(trainCells);
      var persisted := FitEncoder([Some("Médico")]);
      && Some("Médico") in trained.classes && CodeOf(trained, Some("Médico")) == 1
      && Some("Médico") in persisted.classes && CodeOf(persisted, Some("Médico")) == 0
      && Encode(Profession, persisted, trainCells).Err?
  {
    var trainCells := [Some("Advogado"), Some("Médico")];
    assert !StrLess("Médico", "Advogado");
    assert trainCells[..1] == [Some("Advogado")];
    assert Classes([Some("Advogado")]) == [Some("Advogado")];
    assert Classes(trainCells) == [Some("Advogado"), Some("Médico")];
    assert Classes([Some("Médico")]) == [Some("Médico")];
    assert Some("Advogado") != Some("Médico");
  }

  /** Step 5 with the states fitted on the training rows: every persisted file
      holds the state fitted on the training frame, whatever the test rows. */
  lemma PreparePersistsTrainingStates(train: Table, test: Table, files: map<string, Artifact>, sqrt: Root)
    requires Valid(train) && Valid(test) && Prepare(train, test, files, sqrt).failure.None?
    ensures var r := Prepare(train, test, files, sqrt);
      && (forall c :: c in NumericColumns ==> HoldsScalerOf(r.files, train, c, sqrt))
      && (forall c :: c in CategoricalColumns ==> HoldsEncoderOf(r.files, train, c))
  {
    var s1 := Loop(FitScalers(sqrt), train, files, NumericColumns);
    var e1 := Loop(FitEncoders(), s1.table, s1.files, CategoricalColumns);
    ScalersFittedOn(train, files, sqrt);
    EncodersKeepScalerFiles(s1.table, s1.files, train, sqrt);
    EncodersFittedOn(s1.table, s1.files);
    ScalingKeepsCategories(FitScalers(sqrt), train, files);
    forall c | c in CategoricalColumns ensures HoldsEncoderOf(e1.files, train, c) {
      assert HoldsEncoderOf(e1.files, s1.table, c);
    }
  }

  /** Serving agrees with training: the persisted states turn the training frame
      into exactly the features the model was trained on, and the test features
      are exactly what serving makes of the test frame. */
  lemma PrepareServesTraining(train: Table, test: Table, files: map<string, Artifact>, sqrt: Root)
    requires Valid(train) && Valid(test) && Prepare(train, test, files, sqrt).failure.None?
    ensures var r := Prepare(train, test, files, sqrt);
      Serve(train, r.files) == Ok(r.train) && Serve(test, r.files) == Ok(r.test)
  {
    var s1 := Loop(FitScalers(sqrt), train, files, NumericColumns);
    var e1 := Loop(FitEncoders(), s1.table, s1.files, CategoricalColumns);
    ColumnListsDisjoint();
    ScalersTrainServeAgree(train, files, NumericColumns, sqrt);
    LoopKeepsFiles(FitEncoders(), s1.table, s1.files, CategoricalColumns);
    forall c | c in NumericColumns
      ensures ScalerPath(c) !in Targets(FitEncoders(), CategoricalColumns)
    {
      forall d | d in CategoricalColumns ensures ScalerPath(c) != EncoderPath(d) {
        PathsDistinct(c, d);
      }
    }
    ApplyScalersReadsOwnFiles(train, e1.files, s1.files, NumericColumns);
    EncodersTrainServeAgree(s1.table, s1.files, CategoricalColumns);
  }

  /** The script's step 5 as written, on the persisted store. */
  method PrepareFeaturesAsWritten(store: ArtifactStore, train: Table, test: Table, sqrt: Root)
    returns (trainOut: Table, testOut: Table, failure: Option<Error>)
    requires Valid(train) && Valid(test)
    modifies store
    ensures PrepareAsWritten(train, test, old(store.files), sqrt) == Prepared(trainOut, testOut, store.files, failure)
  {
    trainOut, testOut := train, test;
    var r := store.SaveScalers(train, NumericColumns, sqrt);
    if r.Err? { return train, test, Some(r.error); }
    trainOut := r.value;
    r := store.SaveScalers(test, NumericColumns, sqrt);
    if r.Err? { return trainOut, test, Some(r.error); }
    testOut := r.value;
    r := store.SaveEncoders(trainOut, CategoricalColumns);
    if r.Err? { return trainOut, testOut, Some(r.error); }
    trainOut := r.value;
    r := store.SaveEncoders(testOut, CategoricalColumns);
    if r.Err? { return trainOut, testOut, Some(r.error); }
    testOut := r.value;
    failure := None;
  }

  /** Step 5 with the test frame transformed by the states saved from the
      training frame, on the persisted store. */
  method PrepareFeatures(store: ArtifactStore, train: Table, test: Table, sqrt: Root)
    returns (trainOut: Table, testOut: Table, failure: Option<Error>)
    requires Valid(train) && Valid(test)
    modifies store
    ensures Prepare(train, test, old(store.files), sqrt) == Prepared(trainOut, testOut, store.files, failure)
  {
    ghost var s1 := Loop(FitScalers(sqrt), train, store.files, NumericColumns);
    var r := store.SaveScalers(train, NumericColumns, sqrt);
    if r.Err? { return train, test, Some(r.error); }
    var scaled := r.value;
    ghost var e1 := Loop(FitEncoders(), scaled, store.files, CategoricalColumns);
    assert scaled == s1.table && store.files == s1.files;
    r := store.SaveEncoders(scaled, CategoricalColumns);
    if r.Err? { return scaled, test, Some(r.error); }
    trainOut := r.value;
    assert store.files == e1.files;
    var frame := new Frame(test);
    failure := frame.LoadScalers(store, NumericColumns);
    if failure.Some? { return trainOut, frame.table, failure; }
    failure := frame.LoadEncoders(store, CategoricalColumns);
    testOut := frame.table;
  }
}
