/** The scaler and label-encoder stores of `src/processing.py`: fitting a state per
    column, persisting it under a name derived from the column, and loading it to
    transform new data with exactly that state. The joblib directory is a map from
    file name to the state it holds. */
module Artifacts {
  import opened Frames

  // ---------------------------------------------------------------------------
  // StandardScaler state

  /** A scale is positive: the library never stores a zero scale. */
  type Scale = x: real | x > 0.0 witness 1.0

  /** A fitted StandardScaler: the mean and the scale of one column. */
  datatype Scaler = Scaler(mean: real, scale: Scale)

  /** The numeric library's square root; the model asks only that a positive
      variance have a positive root. */
  type Root = f: real -> real | forall v :: 0.0 < v ==> 0.0 < f(v) witness (v: real) => v

  function Sum(xs: seq<real>): real
  {
    if xs == [] then 0.0 else xs[0] + Sum(xs[1..])
  }

  function SquaredDeviations(xs: seq<real>, m: real): (r: real)
    ensures r >= 0.0
  {
    if xs == [] then 0.0
    else
      assert (xs[0] - m) * (xs[0] - m) >= 0.0;
      (xs[0] - m) * (xs[0] - m) + SquaredDeviations(xs[1..], m)
  }

  /** The average of the values. */
  function Mean(xs: seq<real>): real
    requires |xs| > 0
  {
    Sum(xs) / (|xs| as real)
  }

  /** The population variance (divided by the count, not the count minus one). */
  function Variance(xs: seq<real>): real
    requires |xs| > 0
  {
    SquaredDeviations(xs, Mean(xs)) / (|xs| as real)
  }

  /** `StandardScaler.fit`: mean and population variance of the non-null values;
      a zero variance gets scale 1, as the library does for a constant column.
      A column without values cannot be fitted. */
  function FitScaler(column: string, cells: seq<Option<real>>, sqrt: Root): (r: Result<Scaler>)
    ensures r.Ok? <==> |Present(cells)| > 0
    ensures r.Err? ==> r.error == NoSamples(column)
    ensures r.Ok? ==> r.value.mean == Mean(Present(cells))
    ensures r.Ok? && Variance(Present(cells)) == 0.0 ==> r.value.scale == 1.0
    ensures r.Ok? && Variance(Present(cells)) != 0.0 ==> r.value.scale == sqrt(Variance(Present(cells)))
  {
    var xs := Present(cells);
    if |xs| == 0 then Err(NoSamples(column))
    else
      var variance := Variance(xs);
      Ok(Scaler(Mean(xs), if variance == 0.0 then 1.0 else sqrt(variance)))
  }

  function ScaleValue(s: Scaler, x: real): real
  {
    (x - s.mean) / s.scale
  }

  function UnscaleValue(s: Scaler, y: real): real
  {
    y * s.scale + s.mean
  }

  /** `StandardScaler.transform`: (x - mean) / scale; nulls stay null. */
  function Standardize(s: Scaler, cells: seq<Option<real>>): (r: seq<Option<real>>)
    ensures |r| == |cells|
    ensures forall i :: 0 <= i < |cells| ==> (r[i].Some? <==> cells[i].Some?)
  {
    seq(|cells|, i requires 0 <= i < |cells| => if cells[i].Some? then Some(ScaleValue(s, cells[i].value)) else None)
  }

  /** `StandardScaler.inverse_transform`. */
  function Unstandardize(s: Scaler, cells: seq<Option<real>>): (r: seq<Option<real>>)
    ensures |r| == |cells|
  {
    seq(|cells|, i requires 0 <= i < |cells| => if cells[i].Some? then Some(UnscaleValue(s, cells[i].value)) else None)
  }

  /** Undoing a standardization with the same state gives back every value. */
  lemma StandardizeRoundTrip(s: Scaler, cells: seq<Option<real>>)
    ensures Unstandardize(s, Standardize(s, cells)) == cells
  {
    var back := Unstandardize(s, Standardize(s, cells));
    forall i | 0 <= i < |cells| ensures back[i] == cells[i] {
      if cells[i].Some? {
        var x := cells[i].value;
        assert (x - s.mean) / s.scale * s.scale == x - s.mean;
        assert UnscaleValue(s, ScaleValue(s, x)) == x;
      }
    }
  }

  // ---------------------------------------------------------------------------
  // LabelEncoder state

  /** Python's string order: code point by code point, a proper prefix first. */
  predicate StrLess(a: string, b: string)
  {
    if a == [] then b != []
    else if b == [] then false
    else a[0] < b[0] || (a[0] == b[0] && StrLess(a[1..], b[1..]))
  }

  lemma {:induction false} StrLessIrreflexive(a: string)
    ensures !StrLess(a, a)
  {
    if a != [] {
      StrLessIrreflexive(a[1..]);
    }
  }

  lemma {:induction false} StrLessTransitive(a: string, b: string, c: string)
    requires StrLess(a, b) && StrLess(b, c)
    ensures StrLess(a, c)
  {
    if a != [] && a[0] == b[0] && b[0] == c[0] {
      StrLessTransitive(a[1..], b[1..], c[1..]);
    }
  }

  lemma {:induction false} StrLessTotal(a: string, b: string)
    requires a != b
    ensures StrLess(a, b) || StrLess(b, a)
  {
    if a != [] && b != [] && a[0] == b[0] {
      assert a == [a[0]] + a[1..] && b == [b[0]] + b[1..];
      StrLessTotal(a[1..], b[1..]);
    }
  }

  /** The order of the encoder's classes: strings sorted, the missing value last. */
  predicate LabelLess(a: Option<string>, b: Option<string>)
  {
    match (a, b)
    case (Some(x), Some(y)) => StrLess(x, y)
    case (Some(_), None) => true
    case (None, _) => false
  }

  lemma LabelLessTransitive(a: Option<string>, b: Option<string>, c: Option<string>)
    requires LabelLess(a, b) && LabelLess(b, c)
    ensures LabelLess(a, c)
  {
    if a.Some? && b.Some? && c.Some? {
      StrLessTransitive(a.value, b.value, c.value);
    }
  }

  lemma LabelLessTotal(a: Option<string>, b: Option<string>)
    requires a != b
    ensures LabelLess(a, b) || LabelLess(b, a)
  {
    if a.Some? && b.Some? {
      StrLessTotal(a.value, b.value);
    }
  }

  ghost predicate StrictlySorted(s: seq<Option<string>>)
  {
    forall i, j :: 0 <= i < j < |s| ==> LabelLess(s[i], s[j])
  }

  function InsertLabel(x: Option<string>, s: seq<Option<string>>): (r: seq<Option<string>>)
    requires StrictlySorted(s)
    ensures StrictlySorted(r)
    ensures forall v :: v in r <==> v == x || v in s
  {
    if s == [] then [x]
    else if x == s[0] then s
    else if LabelLess(x, s[0]) then
      forall j | 0 < j < |s| ensures LabelLess(x, s[j]) {
        LabelLessTransitive(x, s[0], s[j]);
      }
      [x] + s
    else
      LabelLessTotal(x, s[0]);
      var rest := InsertLabel(x, s[1..]);
      assert forall v :: v in s <==> v == s[0] || v in s[1..];
      forall j | 0 <= j < |rest| ensures LabelLess(s[0], rest[j]) {
        assert rest[j] in rest;
      }
      [s[0]] + rest
  }

  /** `np.unique` as LabelEncoder uses it: the distinct labels, sorted, with a
      missing value (if any) last. */
  function Classes(cells: seq<Option<string>>): (r: seq<Option<string>>)
    ensures StrictlySorted(r)
    ensures forall v :: v in r <==> v in cells
  {
    if cells == [] then []
    else
      assert cells == cells[..|cells| - 1] + [cells[|cells| - 1]];
      InsertLabel(cells[|cells| - 1], Classes(cells[..|cells| - 1]))
  }

  /** A fitted LabelEncoder: its `classes_`; the code of a label is its position. */
  datatype Encoder = Encoder(classes: seq<Option<string>>)

  function FitEncoder(cells: seq<Option<string>>): Encoder
  {
    Encoder(Classes(cells))
  }

  function Position(s: seq<Option<string>>, v: Option<string>): (r: Option<nat>)
    ensures r.None? <==> v !in s
    ensures r.Some? ==> r.value < |s| && s[r.value] == v
  {
    if s == [] then None
    else if s[0] == v then Some(0)
    else match Position(s[1..], v)
      case None => None
      case Some(k) => Some(k + 1)
  }

  /** The code of a label: its position among the classes. */
  function CodeOf(e: Encoder, v: Option<string>): (k: nat)
    requires v in e.classes
    ensures k < |e.classes| && e.classes[k] == v
  {
    Position(e.classes, v).value
  }

  /** `LabelEncoder.transform`: every label must be one of the classes; an unseen
      label raises. */
  function Encode(column: string, e: Encoder, cells: seq<Option<string>>): (r: Result<seq<Option<real>>>)
    ensures r.Ok? <==> forall i :: 0 <= i < |cells| ==> cells[i] in e.classes
    ensures r.Err? ==> r.error == UnseenLabel(column)
    ensures r.Ok? ==> |r.value| == |cells| && forall i :: 0 <= i < |cells| ==>
      cells[i] in e.classes && r.value[i] == Some(CodeOf(e, cells[i]) as real)
  {
    if forall i :: 0 <= i < |cells| ==> cells[i] in e.classes then
      Ok(seq(|cells|, i requires 0 <= i < |cells| => Some(CodeOf(e, cells[i]) as real)))
    else Err(UnseenLabel(column))
  }

  /** `LabelEncoder.inverse_transform` of one code. */
  function Decode(e: Encoder, code: nat): Option<Option<string>>
  {
    if code < |e.classes| then Some(e.classes[code]) else None
  }

  lemma CodeOfClass(e: Encoder, k: nat)
    requires StrictlySorted(e.classes) && k < |e.classes|
    ensures CodeOf(e, e.classes[k]) == k
  {
    var c := CodeOf(e, e.classes[k]);
    if c != k {
      var lo, hi := if c < k then c else k, if c < k then k else c;
      assert LabelLess(e.classes[lo], e.classes[hi]);
      StrictIrreflexive(e.classes[k]);
    }
  }

  /** Encoding the column an encoder was fitted on succeeds; its classes are
      exactly the column's labels, decoding a label's code gives the label back,
      and distinct labels get distinct codes. */
  lemma EncoderRoundTrip(column: string, cells: seq<Option<string>>)
    ensures var e := FitEncoder(cells);
      && Encode(column, e, cells).Ok?
      && (forall v :: v in e.classes <==> v in cells)
      && (forall i :: 0 <= i < |cells| ==> cells[i] in e.classes && Decode(e, CodeOf(e, cells[i])) == Some(cells[i]))
      && (forall i, j :: 0 <= i < |cells| && 0 <= j < |cells| && cells[i] != cells[j] ==>
            CodeOf(e, cells[i]) != CodeOf(e, cells[j]))
  {
  }

  /** With k distinct labels, the codes are exactly 0..k-1: every code is the
      code of some cell of the column. */
  lemma EncoderCodesDense(cells: seq<Option<string>>)
    ensures var e := FitEncoder(cells);
      forall k :: 0 <= k < |e.classes| ==>
        exists i :: 0 <= i < |cells| && cells[i] == e.classes[k] && CodeOf(e, cells[i]) == k
  {
    var e := FitEncoder(cells);
    forall k | 0 <= k < |e.classes|
      ensures exists i :: 0 <= i < |cells| && cells[i] == e.classes[k] && CodeOf(e, cells[i]) == k
    {
      assert e.classes[k] in cells;
      var i :| 0 <= i < |cells| && cells[i] == e.classes[k];
      CodeOfClass(e, k);
    }
  }

  /** Codes follow the label order: strings in code-point order, the missing value
      last. */
  lemma EncoderOrderPreserving(cells: seq<Option<string>>)
    ensures var e := FitEncoder(cells);
      forall i, j :: 0 <= i < |cells| && 0 <= j < |cells| && LabelLess(cells[i], cells[j]) ==>
        CodeOf(e, cells[i]) < CodeOf(e, cells[j])
  {
    var e := FitEncoder(cells);
    forall i, j | 0 <= i < |cells| && 0 <= j < |cells| && LabelLess(cells[i], cells[j])
      ensures CodeOf(e, cells[i]) < CodeOf(e, cells[j])
    {
      var a, b := CodeOf(e, cells[i]), CodeOf(e, cells[j]);
      if b <= a {
        StrictIrreflexive(cells[i]);
        if b < a {
          assert LabelLess(cells[j], cells[i]);
          LabelLessTransitive(cells[i], cells[j], cells[i]);
        }
      }
    }
  }

  lemma StrictIrreflexive(a: Option<string>)
    ensures !LabelLess(a, a)
  {
    if a.Some? {
      StrLessIrreflexive(a.value);
    }
  }

  // ---------------------------------------------------------------------------
  // The persisted files

  datatype Artifact = ScalerFile(scaler: Scaler) | EncoderFile(encoder: Encoder)

  /** `f"objects/scaler_{col}.joblib"` */
  function ScalerPath(column: string): string
  {
    "objects/scaler_" + column + ".joblib"
  }

  /** `f"objects/label_encoder_{col}.joblib"` */
  function EncoderPath(column: string): string
  {
    "objects/label_encoder_" + column + ".joblib"
  }

  /** Different columns never share a file, and a scaler file never has an
      encoder file's name. */
  lemma PathsDistinct(a: string, b: string)
    ensures ScalerPath(a) == ScalerPath(b) ==> a == b
    ensures EncoderPath(a) == EncoderPath(b) ==> a == b
    ensures ScalerPath(a) != EncoderPath(b)
  {
    if ScalerPath(a) == ScalerPath(b) {
      assert a == ScalerPath(a)[15..|ScalerPath(a)| - 7];
    }
    if EncoderPath(a) == EncoderPath(b) {
      assert a == EncoderPath(a)[22..|EncoderPath(a)| - 7];
    }
    assert ScalerPath(a)[8] == 's' && EncoderPath(b)[8] == 'l';
  }

  // ---------------------------------------------------------------------------
  // Specification of the column loops

  /** What one iteration of a column loop does with one column, given the files
      and what reading the column gave: the new series and the state it was
      fitted with or loaded from, or the error the iteration raises. */
  type ColumnStep = (map<string, Artifact>, string, Result<Series>) -> Result<(Series, Artifact)>

  /** A column loop: what it does per column, whether it writes the state it
      fitted, and the file a column's state lives in. */
  datatype Pass = Pass(outcome: ColumnStep, saves: bool, target: string -> string)

  /** An iteration keeps the column's length, different columns have different
      files, and a fitting loop does not look at the files. */
  ghost predicate WellFormed(pass: Pass)
  {
    && (forall files, column, read :: pass.outcome(files, column, read).Ok? ==>
          read.Ok? && pass.outcome(files, column, read).value.0.Len() == read.value.Len())
    && (forall a, b :: pass.target(a) == pass.target(b) ==> a == b)
    && (pass.saves ==> forall files, column, read :: pass.outcome(files, column, read) == pass.outcome(map[], column, read))
  }

  function Targets(pass: Pass, columns: seq<string>): set<string>
  {
    set c | c in columns :: pass.target(c)
  }

  /** One iteration of `save_scalers`: the column must be numeric; the scaler is
      fitted on it and the column replaced by the standardized values. */
  function FitScalerColumn(column: string, read: Result<Series>, sqrt: Root): (r: Result<(Series, Artifact)>)
    ensures r.Ok? ==> read.Ok? && r.value.0.Len() == read.value.Len() && r.value.0.Nums?
    ensures read.Err? ==> r == Err(read.error)
    ensures r.Ok? <==> read.Ok? && read.value.Nums? && FitScaler(column, read.value.nums, sqrt).Ok?
    ensures r.Ok? ==>
      && read.value.Nums? && FitScaler(column, read.value.nums, sqrt).Ok?
      && r.value.1 == ScalerFile(FitScaler(column, read.value.nums, sqrt).value)
      && r.value.0 == Nums(Standardize(FitScaler(column, read.value.nums, sqrt).value, read.value.nums))
  {
      (match read
       case Err(e) => Err(e)
       case Ok(Nums(c)) =>
         (match FitScaler(column, c, sqrt)
          case Err(e) => Err(e)
          case Ok(sc) => Ok((Nums(Standardize(sc, c)), ScalerFile(sc))))
       case Ok(_) => Err(SchemaMismatch(column)))
  }
  /** One iteration of `save_encoders`: the column must hold strings; the
      encoder is fitted on it and the column replaced by the codes. */
  function FitEncoderColumn(column: string, read: Result<Series>): (r: Result<(Series, Artifact)>)
    ensures r.Ok? ==> read.Ok? && r.value.0.Len() == read.value.Len() && r.value.0.Nums?
    ensures read.Err? ==> r == Err(read.error)
    ensures r.Ok? <==> read.Ok? && read.value.Strs?
    ensures r.Ok? ==> read.value.Strs? && r.value.1 == EncoderFile(FitEncoder(read.value.strs))
    ensures r.Ok? ==>
      && Encode(column, FitEncoder(read.value.strs), read.value.strs).Ok?
      && r.value.0 == Nums(Encode(column, FitEncoder(read.value.strs), read.value.strs).value)
  {
      (match read
       case Err(e) => Err(e)
       case Ok(Strs(c)) =>
         var e := FitEncoder(c);
         (match Encode(column, e, c)
          case Err(err) => Err(err)
          case Ok(codes) => Ok((Nums(codes), EncoderFile(e))))
       case Ok(_) => Err(SchemaMismatch(column)))
  }
  /** One iteration of `load_scalers`: the file is opened first, then the column
      is standardized with the stored state. */
  function ApplyScalerColumn(files: map<string, Artifact>, column: string, read: Result<Series>): (r: Result<(Series, Artifact)>)
    ensures r.Ok? ==> read.Ok? && r.value.0.Len() == read.value.Len() && r.value.0.Nums?
    ensures ScalerPath(column) !in files ==> r == Err(MissingArtifact(ScalerPath(column)))
    ensures r.Ok? <==> ScalerPath(column) in files && files[ScalerPath(column)].ScalerFile? && read.Ok? && read.value.Nums?
    ensures r.Ok? ==> r.value.1 == files[ScalerPath(column)]
    ensures r.Ok? ==> r.value.0 == Nums(Standardize(files[ScalerPath(column)].scaler, read.value.nums))
  {
      var path := ScalerPath(column);
      if path !in files then Err(MissingArtifact(path))
      else if !files[path].ScalerFile? then Err(WrongArtifact(path))
      else
        (match read
         case Err(e) => Err(e)
         case Ok(Nums(c)) => Ok((Nums(Standardize(files[path].scaler, c)), files[path]))
         case Ok(_) => Err(SchemaMismatch(column)))
  }
  /** One iteration of `load_encoders`: the file is opened first, then the column
      is encoded with the stored classes; an unseen label raises. */
  function ApplyEncoderColumn(files: map<string, Artifact>, column: string, read: Result<Series>): (r: Result<(Series, Artifact)>)
    ensures r.Ok? ==> read.Ok? && r.value.0.Len() == read.value.Len() && r.value.0.Nums?
    ensures EncoderPath(column) !in files ==> r == Err(MissingArtifact(EncoderPath(column)))
    ensures r.Ok? <==>
      && EncoderPath(column) in files && files[EncoderPath(column)].EncoderFile?
      && read.Ok? && read.value.Strs?
      && Encode(column, files[EncoderPath(column)].encoder, read.value.strs).Ok?
    ensures r.Ok? ==> r.value.1 == files[EncoderPath(column)]
    ensures r.Ok? ==>
      && files[EncoderPath(column)].EncoderFile? && read.value.Strs?
      && Encode(column, files[EncoderPath(column)].encoder, read.value.strs).Ok?
      && r.value.0 == Nums(Encode(column, files[EncoderPath(column)].encoder, read.value.strs).value)
  {
      var path := EncoderPath(column);
      if path !in files then Err(MissingArtifact(path))
      else if !files[path].EncoderFile? then Err(WrongArtifact(path))
      else
        (match read
         case Err(e) => Err(e)
         case Ok(Strs(c)) =>
           (match Encode(column, files[path].encoder, c)
            case Err(err) => Err(err)
            case Ok(codes) => Ok((Nums(codes), files[path])))
         case Ok(_) => Err(SchemaMismatch(column)))
  }

  lemma ScalerPathInjective()
    ensures forall a, b :: ScalerPath(a) == ScalerPath(b) ==> a == b
  {
    forall a, b | ScalerPath(a) == ScalerPath(b) ensures a == b {
      PathsDistinct(a, b);
    }
  }

  lemma EncoderPathInjective()
    ensures forall a, b :: EncoderPath(a) == EncoderPath(b) ==> a == b
  {
    forall a, b | EncoderPath(a) == EncoderPath(b) ensures a == b {
      PathsDistinct(a, b);
    }
  }

  /** `save_scalers`, writing `objects/scaler_<column>.joblib`. */
  function FitScalers(sqrt: Root): (p: Pass)
    ensures WellFormed(p) && p.saves
  {
    ScalerPathInjective();
    Pass((files, column, read) => FitScalerColumn(column, read, sqrt), true, ScalerPath)
  }

  /** `save_encoders`, writing `objects/label_encoder_<column>.joblib`. */
  function FitEncoders(): (p: Pass)
    ensures WellFormed(p) && p.saves
  {
    EncoderPathInjective();
    Pass((files, column, read) => FitEncoderColumn(column, read), true, EncoderPath)
  }

  /** `load_scalers`, reading what `save_scalers` wrote. */
  function ApplyScalers(): (p: Pass)
    ensures WellFormed(p) && !p.saves
  {
    ScalerPathInjective();
    Pass((files, column, read) => ApplyScalerColumn(files, column, read), false, ScalerPath)
  }

  /** `load_encoders`, reading what `save_encoders` wrote. */
  function ApplyEncoders(): (p: Pass)
    ensures WellFormed(p) && !p.saves
  {
    EncoderPathInjective();
    Pass((files, column, read) => ApplyEncoderColumn(files, column, read), false, EncoderPath)
  }

  /** The state of a column loop: the frame so far, the files, and the error that
      stopped it, if one did. */
  datatype Run = Run(table: Table, files: map<string, Artifact>, failure: Option<Error>)

  /** One iteration: the column is overwritten where it stands and, when fitting,
      the state is written to the column's file. */
  function Step(pass: Pass, run: Run, column: string): (r: Run)
    requires WellFormed(pass) && Valid(run.table) && run.failure.None?
    ensures Valid(r.table) && r.table.names == run.table.names && r.table.height == run.table.height
    ensures r.table.cols.Keys == run.table.cols.Keys
    ensures !pass.saves ==> r.files == run.files
  {
    match pass.outcome(run.files, column, Get(run.table, column))
    case Err(e) => Run(run.table, run.files, Some(e))
    case Ok((s, art)) =>
      Run(WithColumn(run.table, column, s), if pass.saves then run.files[pass.target(column) := art] else run.files, None)
  }

  /** One iteration touches only its own column and its own file, and succeeds
      exactly when the column's outcome does. */
  lemma StepEffect(pass: Pass, run: Run, column: string)
    requires WellFormed(pass) && Valid(run.table) && run.failure.None?
    ensures var r := Step(pass, run, column);
      && (forall n :: n in run.table.cols && n != column ==> r.table.cols[n] == run.table.cols[n])
      && (forall p :: p != pass.target(column) ==>
            (p in r.files <==> p in run.files) && (p in run.files ==> r.files[p] == run.files[p]))
    ensures var r := Step(pass, run, column);
      var o := pass.outcome(run.files, column, Get(run.table, column));
      && (r.failure.None? <==> o.Ok?)
      && (o.Ok? ==> column in r.table.cols && r.table.cols[column] == o.value.0)
      && (o.Ok? && pass.saves ==> pass.target(column) in r.files && r.files[pass.target(column)] == o.value.1)
  {
  }

  /** The loop over the listed columns, from the first; it stops at the first error
      with the frame and the files as the earlier iterations left them. */
  function Loop(pass: Pass, t: Table, files: map<string, Artifact>, columns: seq<string>): (r: Run)
    requires WellFormed(pass) && Valid(t)
    ensures Valid(r.table) && r.table.names == t.names && r.table.height == t.height
    ensures r.table.cols.Keys == t.cols.Keys
    ensures !pass.saves ==> r.files == files
    decreases |columns|
  {
    if columns == [] then Run(t, files, None)
    else
      var prev := Loop(pass, t, files, columns[..|columns| - 1]);
      if prev.failure.Some? then prev else Step(pass, prev, columns[|columns| - 1])
  }

  /** What the caller gets: the new frame, or the exception. */
  function Returned(run: Run): (r: Result<Table>)
    ensures r.Ok? <==> run.failure.None?
  {
    match run.failure
    case None => Ok(run.table)
    case Some(e) => Err(e)
  }

  /** The loop over one more column is one more iteration, unless it already
      stopped. */
  lemma LoopExtend(pass: Pass, t: Table, files: map<string, Artifact>, columns: seq<string>, i: nat)
    requires WellFormed(pass) && Valid(t) && i < |columns|
    ensures var prev := Loop(pass, t, files, columns[..i]);
      Loop(pass, t, files, columns[..i + 1]) == if prev.failure.Some? then prev else Step(pass, prev, columns[i])
  {
    assert columns[..i + 1][..i] == columns[..i];
  }

  /** Once an iteration has failed, the later columns are never visited. */
  lemma {:induction false} LoopStops(pass: Pass, t: Table, files: map<string, Artifact>, columns: seq<string>, i: nat)
    requires WellFormed(pass) && Valid(t) && i <= |columns|
    requires Loop(pass, t, files, columns[..i]).failure.Some?
    ensures Loop(pass, t, files, columns) == Loop(pass, t, files, columns[..i])
    decreases |columns|
  {
    if i < |columns| {
      var pre := columns[..|columns| - 1];
      assert pre[..i] == columns[..i];
      LoopStops(pass, t, files, pre, i);
    } else {
      assert columns[..i] == columns;
    }
  }

  /** A loop never touches a column it does not list, even when it fails
      half-way. */
  lemma {:induction false} LoopKeepsColumns(pass: Pass, t: Table, files: map<string, Artifact>, columns: seq<string>)
    requires WellFormed(pass) && Valid(t)
    ensures forall n :: n in t.cols && n !in columns ==> Loop(pass, t, files, columns).table.cols[n] == t.cols[n]
    decreases |columns|
  {
    if columns != [] {
      var pre := columns[..|columns| - 1];
      assert columns == pre + [columns[|columns| - 1]];
      LoopKeepsColumns(pass, t, files, pre);
      var prev := Loop(pass, t, files, pre);
      if prev.failure.None? {
        StepEffect(pass, prev, columns[|columns| - 1]);
      }
    }
  }

  /** A loop never touches a file that is not one of the listed columns' files,
      even when it fails half-way. */
  lemma {:induction false} LoopKeepsFiles(pass: Pass, t: Table, files: map<string, Artifact>, columns: seq<string>)
    requires WellFormed(pass) && Valid(t)
    ensures var r := Loop(pass, t, files, columns);
      forall p :: p !in Targets(pass, columns) ==>
        (p in r.files <==> p in files) && (p in files ==> r.files[p] == files[p])
    decreases |columns|
  {
    if columns != [] {
      var pre := columns[..|columns| - 1];
      assert columns == pre + [columns[|columns| - 1]];
      assert Targets(pass, pre) <= Targets(pass, columns);
      LoopKeepsFiles(pass, t, files, pre);
      var prev := Loop(pass, t, files, pre);
      if prev.failure.None? {
        StepEffect(pass, prev, columns[|columns| - 1]);
      }
    }
  }

  /** A loading loop run with two sets of files that give every listed column
      the same outcome leaves the same frame and stops with the same error. */
  lemma {:induction false} LoopSameOutcomes(pass: Pass, t: Table, f1: map<string, Artifact>, f2: map<string, Artifact>, columns: seq<string>)
    requires WellFormed(pass) && Valid(t) && !pass.saves
    requires forall c, read :: c in columns ==> pass.outcome(f1, c, read) == pass.outcome(f2, c, read)
    ensures Loop(pass, t, f1, columns).table == Loop(pass, t, f2, columns).table
    ensures Loop(pass, t, f1, columns).failure == Loop(pass, t, f2, columns).failure
    decreases |columns|
  {
    if columns != [] {
      var pre := columns[..|columns| - 1];
      var c := columns[|columns| - 1];
      assert forall x :: x in pre ==> x in columns;
      LoopSameOutcomes(pass, t, f1, f2, pre);
      var p1 := Loop(pass, t, f1, pre);
      if p1.failure.None? {
        assert pass.outcome(f1, c, Get(p1.table, c)) == pass.outcome(f2, c, Get(p1.table, c));
      }
    }
  }

  /** `load_scalers` reads nothing but the listed columns' scaler files. */
  lemma ApplyScalersReadsOwnFiles(t: Table, f1: map<string, Artifact>, f2: map<string, Artifact>, columns: seq<string>)
    requires Valid(t)
    requires forall c :: c in columns ==>
      (ScalerPath(c) in f1 <==> ScalerPath(c) in f2) && (ScalerPath(c) in f1 ==> f1[ScalerPath(c)] == f2[ScalerPath(c)])
    ensures Loop(ApplyScalers(), t, f1, columns).table == Loop(ApplyScalers(), t, f2, columns).table
    ensures Loop(ApplyScalers(), t, f1, columns).failure == Loop(ApplyScalers(), t, f2, columns).failure
  {
    forall c, read | c in columns
      ensures ApplyScalers().outcome(f1, c, read) == ApplyScalers().outcome(f2, c, read)
    {
    }
    LoopSameOutcomes(ApplyScalers(), t, f1, f2, columns);
  }

  lemma SucceedsStep(pass: Pass, t: Table, files: map<string, Artifact>, prev: Run, c: string)
    requires WellFormed(pass) && Valid(prev.table) && prev.failure.None?
    requires Get(prev.table, c) == Get(t, c)
    requires !pass.saves ==> prev.files == files
    ensures Step(pass, prev, c).failure.None? <==> pass.outcome(files, c, Get(t, c)).Ok?
  {
    StepEffect(pass, prev, c);
    assert pass.outcome(prev.files, c, Get(t, c)) == pass.outcome(files, c, Get(t, c));
  }

  lemma AllSucceedSplit(pass: Pass, t: Table, files: map<string, Artifact>, pre: seq<string>, c: string)
    ensures (forall k :: 0 <= k < |pre + [c]| ==> pass.outcome(files, (pre + [c])[k], Get(t, (pre + [c])[k])).Ok?) <==>
      (forall k :: 0 <= k < |pre| ==> pass.outcome(files, pre[k], Get(t, pre[k])).Ok?) &&
      pass.outcome(files, c, Get(t, c)).Ok?
  {
    assert forall k :: 0 <= k < |pre| ==> (pre + [c])[k] == pre[k];
    assert (pre + [c])[|pre|] == c;
  }

  /** Over distinct columns, a loop succeeds exactly when every listed column
      succeeds on its own, on the frame and the files it was given. */
  lemma {:induction false} LoopSucceedsIff(pass: Pass, t: Table, files: map<string, Artifact>, columns: seq<string>)
    requires WellFormed(pass) && Valid(t) && Distinct(columns)
    ensures Loop(pass, t, files, columns).failure.None? <==>
      forall k :: 0 <= k < |columns| ==> pass.outcome(files, columns[k], Get(t, columns[k])).Ok?
    decreases |columns|
  {
    if columns != [] {
      var pre := columns[..|columns| - 1];
      var c := columns[|columns| - 1];
      assert forall k :: 0 <= k < |pre| ==> pre[k] == columns[k];
      assert Distinct(pre);
      assert c !in pre;
      assert columns == pre + [c];
      AllSucceedSplit(pass, t, files, pre, c);
      LoopSucceedsIff(pass, t, files, pre);
      var prev := Loop(pass, t, files, pre);
      if prev.failure.None? {
        LoopKeepsColumns(pass, t, files, pre);
        assert Get(prev.table, c) == Get(t, c);
        SucceedsStep(pass, t, files, prev, c);
        assert Loop(pass, t, files, columns) == Step(pass, prev, c);
      } else {
        assert Loop(pass, t, files, columns) == prev;
      }
    }
  }

  /** The column succeeded on the frame and files the loop was given, and the run
      holds its transformed series and, when fitting, the state in its file. */
  ghost predicate Recorded(pass: Pass, t: Table, files: map<string, Artifact>, r: Run, column: string)
  {
    var o := pass.outcome(files, column, Get(t, column));
    && o.Ok?
    && column in r.table.cols && r.table.cols[column] == o.value.0
    && (pass.saves ==> pass.target(column) in r.files && r.files[pass.target(column)] == o.value.1)
  }

  lemma RecordedKept(pass: Pass, t: Table, files: map<string, Artifact>, prev: Run, c: string, column: string)
    requires WellFormed(pass) && Valid(prev.table) && prev.failure.None?
    requires column != c && Recorded(pass, t, files, prev, column)
    ensures Recorded(pass, t, files, Step(pass, prev, c), column)
  {
    StepEffect(pass, prev, c);
  }

  lemma RecordedLast(pass: Pass, t: Table, files: map<string, Artifact>, prev: Run, c: string)
    requires WellFormed(pass) && Valid(prev.table) && prev.failure.None?
    requires Get(prev.table, c) == Get(t, c)
    requires !pass.saves ==> prev.files == files
    requires Step(pass, prev, c).failure.None?
    ensures Recorded(pass, t, files, Step(pass, prev, c), c)
  {
    StepEffect(pass, prev, c);
    assert pass.outcome(prev.files, c, Get(t, c)) == pass.outcome(files, c, Get(t, c));
  }

  lemma RecordedStep(pass: Pass, t: Table, files: map<string, Artifact>, prev: Run, pre: seq<string>, c: string)
    requires WellFormed(pass) && Valid(prev.table) && prev.failure.None? && c !in pre
    requires forall k :: 0 <= k < |pre| ==> Recorded(pass, t, files, prev, pre[k])
    requires Get(prev.table, c) == Get(t, c)
    requires !pass.saves ==> prev.files == files
    requires Step(pass, prev, c).failure.None?
    ensures forall k :: 0 <= k < |pre + [c]| ==> Recorded(pass, t, files, Step(pass, prev, c), (pre + [c])[k])
  {
    RecordedLast(pass, t, files, prev, c);
    forall k | 0 <= k < |pre| ensures Recorded(pass, t, files, Step(pass, prev, c), pre[k]) {
      RecordedKept(pass, t, files, prev, c, pre[k]);
    }
  }

  /** When a loop over distinct columns succeeds, each listed column holds its own
      transformation and, when fitting, the column's file holds the state fitted
      on that column of the frame that was given. */
  lemma {:induction false} LoopResults(pass: Pass, t: Table, files: map<string, Artifact>, columns: seq<string>)
    requires WellFormed(pass) && Valid(t) && Distinct(columns)
    requires Loop(pass, t, files, columns).failure.None?
    ensures forall k :: 0 <= k < |columns| ==> Recorded(pass, t, files, Loop(pass, t, files, columns), columns[k])
    decreases |columns|
  {
    if columns != [] {
      var pre := columns[..|columns| - 1];
      var c := columns[|columns| - 1];
      assert forall k :: 0 <= k < |pre| ==> pre[k] == columns[k];
      assert Distinct(pre);
      assert c !in pre;
      assert columns == pre + [c];
      var prev := Loop(pass, t, files, pre);
      assert prev.failure.None?;
      LoopResults(pass, t, files, pre);
      LoopKeepsColumns(pass, t, files, pre);
      assert Get(prev.table, c) == Get(t, c);
      RecordedStep(pass, t, files, prev, pre, c);
    }
  }

  /** After a successful loop over distinct columns, a column of the frame holds
      its transformation if it is listed and is unchanged otherwise. */
  lemma LoopColumn(pass: Pass, t: Table, files: map<string, Artifact>, columns: seq<string>, n: string)
    requires WellFormed(pass) && Valid(t) && Distinct(columns)
    requires Loop(pass, t, files, columns).failure.None? && n in t.cols
    ensures n in columns ==> pass.outcome(files, n, Get(t, n)).Ok?
    ensures Loop(pass, t, files, columns).table.cols[n] ==
      if n in columns then pass.outcome(files, n, Get(t, n)).value.0 else t.cols[n]
  {
    if n in columns {
      LoopResults(pass, t, files, columns);
      var k :| 0 <= k < |columns| && columns[k] == n;
      assert Recorded(pass, t, files, Loop(pass, t, files, columns), columns[k]);
    } else {
      LoopKeepsColumns(pass, t, files, columns);
    }
  }

  /** Two loops over the same frame whose columns come out the same, one by one,
      leave the same frame behind. */
  lemma SameOutcomesSameTable(p1: Pass, f1: map<string, Artifact>, p2: Pass, f2: map<string, Artifact>, t: Table, columns: seq<string>)
    requires WellFormed(p1) && WellFormed(p2) && Valid(t) && Distinct(columns)
    requires forall k :: 0 <= k < |columns| ==>
      && p1.outcome(f1, columns[k], Get(t, columns[k])).Ok?
      && p2.outcome(f2, columns[k], Get(t, columns[k])).Ok?
      && p1.outcome(f1, columns[k], Get(t, columns[k])).value.0 == p2.outcome(f2, columns[k], Get(t, columns[k])).value.0
    ensures Loop(p1, t, f1, columns).failure.None? && Loop(p2, t, f2, columns).failure.None?
    ensures Loop(p1, t, f1, columns).table == Loop(p2, t, f2, columns).table
  {
    LoopSucceedsIff(p1, t, f1, columns);
    LoopSucceedsIff(p2, t, f2, columns);
    var a, b := Loop(p1, t, f1, columns).table, Loop(p2, t, f2, columns).table;
    forall n | n in t.cols ensures a.cols[n] == b.cols[n] {
      SameColumn(p1, f1, p2, f2, t, columns, n);
    }
    assert a.cols.Keys == t.cols.Keys == b.cols.Keys;
    assert a.cols == b.cols;
  }

  lemma SameColumn(p1: Pass, f1: map<string, Artifact>, p2: Pass, f2: map<string, Artifact>, t: Table, columns: seq<string>, n: string)
    requires WellFormed(p1) && WellFormed(p2) && Valid(t) && Distinct(columns) && n in t.cols
    requires Loop(p1, t, f1, columns).failure.None? && Loop(p2, t, f2, columns).failure.None?
    requires forall k :: 0 <= k < |columns| ==>
      && p1.outcome(f1, columns[k], Get(t, columns[k])).Ok?
      && p2.outcome(f2, columns[k], Get(t, columns[k])).Ok?
      && p1.outcome(f1, columns[k], Get(t, columns[k])).value.0 == p2.outcome(f2, columns[k], Get(t, columns[k])).value.0
    ensures Loop(p1, t, f1, columns).table.cols[n] == Loop(p2, t, f2, columns).table.cols[n]
  {
    LoopColumn(p1, t, f1, columns, n);
    LoopColumn(p2, t, f2, columns, n);
    if n in columns {
      var k :| 0 <= k < |columns| && columns[k] == n;
    }
  }

  /** Serving agrees with training: after `save_scalers` has fitted and persisted
      the scalers of distinct columns, `load_scalers` on the same frame succeeds
      and gives the very frame that training produced. */
  lemma ScalersTrainServeAgree(t: Table, files: map<string, Artifact>, columns: seq<string>, sqrt: Root)
    requires Valid(t) && Distinct(columns)
    requires Loop(FitScalers(sqrt), t, files, columns).failure.None?
    ensures var saved := Loop(FitScalers(sqrt), t, files, columns);
      Loop(ApplyScalers(), t, saved.files, columns) == Run(saved.table, saved.files, None)
  {
    var saved := Loop(FitScalers(sqrt), t, files, columns);
    LoopResults(FitScalers(sqrt), t, files, columns);
    forall k | 0 <= k < |columns|
      ensures ApplyScalers().outcome(saved.files, columns[k], Get(t, columns[k])).Ok?
      ensures ApplyScalers().outcome(saved.files, columns[k], Get(t, columns[k])).value.0
           == FitScalers(sqrt).outcome(files, columns[k], Get(t, columns[k])).value.0
    {
      assert Recorded(FitScalers(sqrt), t, files, saved, columns[k]);
    }
    SameOutcomesSameTable(ApplyScalers(), saved.files, FitScalers(sqrt), files, t, columns);
  }

  /** The same for `save_encoders` and `load_encoders`. */
  lemma EncodersTrainServeAgree(t: Table, files: map<string, Artifact>, columns: seq<string>)
    requires Valid(t) && Distinct(columns)
    requires Loop(FitEncoders(), t, files, columns).failure.None?
    ensures var saved := Loop(FitEncoders(), t, files, columns);
      Loop(ApplyEncoders(), t, saved.files, columns) == Run(saved.table, saved.files, None)
  {
    var saved := Loop(FitEncoders(), t, files, columns);
    LoopResults(FitEncoders(), t, files, columns);
    forall k | 0 <= k < |columns|
      ensures ApplyEncoders().outcome(saved.files, columns[k], Get(t, columns[k])).Ok?
      ensures ApplyEncoders().outcome(saved.files, columns[k], Get(t, columns[k])).value.0
           == FitEncoders().outcome(files, columns[k], Get(t, columns[k])).value.0
    {
      assert Recorded(FitEncoders(), t, files, saved, columns[k]);
    }
    SameOutcomesSameTable(ApplyEncoders(), saved.files, FitEncoders(), files, t, columns);
  }

  /** `save_encoders` never fails on a String column: fitting and encoding the
      same labels always succeeds. */
  lemma FitEncodersSucceedsIff(t: Table, files: map<string, Artifact>, columns: seq<string>)
    requires Valid(t) && Distinct(columns)
    ensures Loop(FitEncoders(), t, files, columns).failure.None? <==>
      forall k :: 0 <= k < |columns| ==> columns[k] in t.cols && t.cols[columns[k]].Strs?
  {
    LoopSucceedsIff(FitEncoders(), t, files, columns);
    forall k | 0 <= k < |columns| && columns[k] in t.cols && t.cols[columns[k]].Strs?
      ensures FitEncoders().outcome(files, columns[k], Get(t, columns[k])).Ok?
    {
      EncoderRoundTrip(columns[k], t.cols[columns[k]].strs);
    }
  }

  /** Serving new data through `load_encoders` fails as soon as a listed column
      holds a label the persisted encoder was not fitted on. */
  lemma ApplyEncodersRejectsUnseen(t: Table, files: map<string, Artifact>, columns: seq<string>, k: nat, row: nat)
    requires Valid(t) && Distinct(columns)
    requires k < |columns| && columns[k] in t.cols && t.cols[columns[k]].Strs?
    requires EncoderPath(columns[k]) in files && files[EncoderPath(columns[k])].EncoderFile?
    requires row < |t.cols[columns[k]].strs|
    requires t.cols[columns[k]].strs[row] !in files[EncoderPath(columns[k])].encoder.classes
    ensures Loop(ApplyEncoders(), t, files, columns).failure.Some?
  {
    LoopSucceedsIff(ApplyEncoders(), t, files, columns);
  }

  /** A listed column whose file is missing makes the loading loops fail. */
  lemma ApplyNeedsArtifact(t: Table, files: map<string, Artifact>, columns: seq<string>, k: nat)
    requires Valid(t) && Distinct(columns) && k < |columns|
    ensures ScalerPath(columns[k]) !in files ==> Loop(ApplyScalers(), t, files, columns).failure.Some?
    ensures EncoderPath(columns[k]) !in files ==> Loop(ApplyEncoders(), t, files, columns).failure.Some?
  {
    LoopSucceedsIff(ApplyScalers(), t, files, columns);
    LoopSucceedsIff(ApplyEncoders(), t, files, columns);
  }

  // ---------------------------------------------------------------------------
  // The persisted store and the frames the loaders change in place

  /** The `objects/` directory: each file name holds the state dumped under it. */
  class ArtifactStore {
    var files: map<string, Artifact>

    constructor()
      ensures files == map[]
    {
      files := map[];
    }

    /** `save_scalers`: works on a copy of the frame, fits a StandardScaler per
        listed column, overwrites the column with the standardized values and
        dumps the scaler under the column's name. */
    method SaveScalers(t: Table, columns: seq<string>, sqrt: Root) returns (r: Result<Table>)
      requires Valid(t)
      modifies this
      ensures var run := Loop(FitScalers(sqrt), t, old(files), columns);
        files == run.files && r == Returned(run)
    {
      var frame := t;
      var i := 0;
      while i < |columns|
        invariant 0 <= i <= |columns|
        invariant Loop(FitScalers(sqrt), t, old(files), columns[..i]) == Run(frame, files, None)
      {
        var column := columns[i];
        LoopExtend(FitScalers(sqrt), t, old(files), columns, i);
        var read := Get(frame, column);
        if read.Err? || !read.value.Nums? {
          r := if read.Err? then Err(read.error) else Err(SchemaMismatch(column));
          LoopStops(FitScalers(sqrt), t, old(files), columns, i + 1);
          return;
        }
        var fitted := FitScaler(column, read.value.nums, sqrt);
        if fitted.Err? {
          r := Err(fitted.error);
          LoopStops(FitScalers(sqrt), t, old(files), columns, i + 1);
          return;
        }
        var scaler := fitted.value;
        frame := WithColumn(frame, column, Nums(Standardize(scaler, read.value.nums)));
        files := files[ScalerPath(column) := ScalerFile(scaler)];
        i := i + 1;
      }
      assert columns[..i] == columns;
      r := Ok(frame);
    }

    /** `save_encoders`: the same with a LabelEncoder per listed column, the
        column replaced by its codes. */
    method SaveEncoders(t: Table, columns: seq<string>) returns (r: Result<Table>)
      requires Valid(t)
      modifies this
      ensures var run := Loop(FitEncoders(), t, old(files), columns);
        files == run.files && r == Returned(run)
    {
      var frame := t;
      var i := 0;
      while i < |columns|
        invariant 0 <= i <= |columns|
        invariant Loop(FitEncoders(), t, old(files), columns[..i]) == Run(frame, files, None)
      {
        var column := columns[i];
        LoopExtend(FitEncoders(), t, old(files), columns, i);
        var read := Get(frame, column);
        if read.Err? || !read.value.Strs? {
          r := if read.Err? then Err(read.error) else Err(SchemaMismatch(column));
          LoopStops(FitEncoders(), t, old(files), columns, i + 1);
          return;
        }
        var encoder := FitEncoder(read.value.strs);
        var codes := Encode(column, encoder, read.value.strs);
        frame := WithColumn(frame, column, Nums(codes.value));
        files := files[EncoderPath(column) := EncoderFile(encoder)];
        i := i + 1;
      }
      assert columns[..i] == columns;
      r := Ok(frame);
    }
  }

  /** A pandas frame handed to the loaders, which overwrite its columns in place. */
  class Frame {
    var table: Table

    constructor(t: Table)
      ensures table == t
    {
      table := t;
    }

    /** `load_scalers`: loads each listed column's scaler and standardizes the
        column with it, in place. An exception leaves the columns before the
        failing one already transformed. */
    method LoadScalers(store: ArtifactStore, columns: seq<string>) returns (failure: Option<Error>)
      requires Valid(table)
      modifies this
      ensures var run := Loop(ApplyScalers(), old(table), store.files, columns);
        table == run.table && failure == run.failure
    {
      var i := 0;
      while i < |columns|
        invariant 0 <= i <= |columns|
        invariant Loop(ApplyScalers(), old(table), store.files, columns[..i]) == Run(table, store.files, None)
      {
        var column := columns[i];
        LoopExtend(ApplyScalers(), old(table), store.files, columns, i);
        var path := ScalerPath(column);
        var read := Get(table, column);
        if path !in store.files || !store.files[path].ScalerFile? || read.Err? || !read.value.Nums? {
          failure := Some(
            if path !in store.files then MissingArtifact(path)
            else if !store.files[path].ScalerFile? then WrongArtifact(path)
            else if read.Err? then read.error
            else SchemaMismatch(column));
          LoopStops(ApplyScalers(), old(table), store.files, columns, i + 1);
          return;
        }
        table := WithColumn(table, column, Nums(Standardize(store.files[path].scaler, read.value.nums)));
        i := i + 1;
      }
      assert columns[..i] == columns;
      failure := None;
    }

    /** `load_encoders`: loads each listed column's encoder and replaces the
        column by its codes, in place; an unseen label raises. */
    method LoadEncoders(store: ArtifactStore, columns: seq<string>) returns (failure: Option<Error>)
      requires Valid(table)
      modifies this
      ensures var run := Loop(ApplyEncoders(), old(table), store.files, columns);
        table == run.table && failure == run.failure
    {
      var i := 0;
      while i < |columns|
        invariant 0 <= i <= |columns|
        invariant Loop(ApplyEncoders(), old(table), store.files, columns[..i]) == Run(table, store.files, None)
      {
        var column := columns[i];
        LoopExtend(ApplyEncoders(), old(table), store.files, columns, i);
        var path := EncoderPath(column);
        var read := Get(table, column);
        if path !in store.files || !store.files[path].EncoderFile? || read.Err? || !read.value.Strs? {
          failure := Some(
            if path !in store.files then MissingArtifact(path)
            else if !store.files[path].EncoderFile? then WrongArtifact(path)
            else if read.Err? then read.error
            else SchemaMismatch(column));
          LoopStops(ApplyEncoders(), old(table), store.files, columns, i + 1);
          return;
        }
        var codes := Encode(column, store.files[path].encoder, read.value.strs);
        if codes.Err? {
          failure := Some(codes.error);
          LoopStops(ApplyEncoders(), old(table), store.files, columns, i + 1);
          return;
        }
        table := WithColumn(table, column, Nums(codes.value));
        i := i + 1;
      }
      assert columns[..i] == columns;
      failure := None;
    }
  }
}
