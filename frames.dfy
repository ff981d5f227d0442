/** In-memory data frames: the shape every step of the pipeline reads and returns.
    A table is an ordered list of column names, a map from each name to its series,
    and a row count shared by every series. A cell is an optional value; `None` is
    a null. */
module Frames {

  datatype Option<+T> = None | Some(value: T)

  /** Why an operation of the pipeline raised instead of returning a frame. */
  datatype Error =
    | ColumnNotFound(name: string)    // a column the step reads is absent
    | SchemaMismatch(name: string)    // the column has a dtype the step cannot work on
    | InvalidCast(text: string)       // the strict Float64 cast of a cleaned currency text failed
    | EmptyMode(name: string)         // `mode()[0]` of a String column with no rows
    | NullFill(name: string)          // `fill_null` was handed a null fill value
    | NoChoices                       // the fuzzy matcher was given an empty vocabulary
    | DivisionByZero(row: nat)        // the ratio feature met a zero denominator
    | NoSamples(name: string)         // a scaler was fitted on a column without values
    | MissingArtifact(path: string)   // no persisted file under that name
    | WrongArtifact(path: string)     // the persisted file holds another kind of state
    | UnseenLabel(name: string)       // an encoder met a label it was not fitted on
    | DuplicateColumn(name: string)   // a join or projection would repeat a column name

  datatype Result<+T> = Ok(value: T) | Err(error: Error)

  datatype Date = Date(year: int, month: int, day: int)

  /** The values of one column; the variant is the column's dtype. */
  datatype Series =
    | Strs(strs: seq<Option<string>>)
    | Nums(nums: seq<Option<real>>)
    | Dates(dates: seq<Option<Date>>)
  {
    function Len(): nat
    {
      match this
      case Strs(s) => |s|
      case Nums(s) => |s|
      case Dates(s) => |s|
    }
  }

  datatype Table = Table(names: seq<string>, cols: map<string, Series>, height: nat)

  ghost predicate Distinct<T>(s: seq<T>)
  {
    forall i, j :: 0 <= i < j < |s| ==> s[i] != s[j]
  }

  /** Column names are unique, name the columns of the map exactly, and every
      series has `height` cells. */
  ghost predicate Valid(t: Table)
  {
    && Distinct(t.names)
    && (forall n :: n in t.cols <==> n in t.names)
    && (forall n :: n in t.cols ==> t.cols[n].Len() == t.height)
  }

  function Get(t: Table, name: string): (r: Result<Series>)
    ensures r.Ok? <==> name in t.cols
    ensures r.Ok? ==> r.value == t.cols[name]
    ensures r.Err? ==> r.error == ColumnNotFound(name)
  {
    if name in t.cols then Ok(t.cols[name]) else Err(ColumnNotFound(name))
  }

  /** `with_columns(expr.alias(name))`: an existing column is overwritten where it
      stands, a new one is appended at the end. */
  function WithColumn(t: Table, name: string, s: Series): (r: Table)
    requires Valid(t) && s.Len() == t.height
    ensures Valid(r) && r.height == t.height
    ensures r.cols == t.cols[name := s]
    ensures r.names == if name in t.cols then t.names else t.names + [name]
  {
    Table(if name in t.cols then t.names else t.names + [name], t.cols[name := s], t.height)
  }

  /** The non-null cells of a column, in row order. */
  function Present<T(!new)>(s: seq<Option<T>>): (r: seq<T>)
    ensures |r| <= |s|
    ensures forall x :: x in r <==> Some(x) in s
  {
    if s == [] then []
    else
      var rest := Present(s[1..]);
      assert forall x :: Some(x) in s <==> s[0] == Some(x) || Some(x) in s[1..];
      if s[0].Some? then [s[0].value] + rest else rest
  }

  /** Takes rows by index; a `None` index yields a null (the unmatched side of a
      left join). */
  function GatherCells<T>(s: seq<Option<T>>, idx: seq<Option<nat>>): (r: seq<Option<T>>)
    requires forall k :: 0 <= k < |idx| && idx[k].Some? ==> idx[k].value < |s|
    ensures |r| == |idx|
    ensures forall k :: 0 <= k < |idx| ==> r[k] == if idx[k].Some? then s[idx[k].value] else None
  {
    seq(|idx|, k requires 0 <= k < |idx| => if idx[k].Some? then s[idx[k].value] else None)
  }

  function Gather(s: Series, idx: seq<Option<nat>>): (r: Series)
    requires forall k :: 0 <= k < |idx| && idx[k].Some? ==> idx[k].value < s.Len()
    ensures r.Len() == |idx|
    ensures r.Strs? == s.Strs? && r.Nums? == s.Nums? && r.Dates? == s.Dates?
  {
    match s
    case Strs(c) => assert |c| == s.Len(); Strs(GatherCells(c, idx))
    case Nums(c) => assert |c| == s.Len(); Nums(GatherCells(c, idx))
    case Dates(c) => assert |c| == s.Len(); Dates(GatherCells(c, idx))
  }

  /** The names with one name taken out, order kept. */
  function Without(names: seq<string>, name: string): (r: seq<string>)
    ensures forall n :: n in r <==> n in names && n != name
    ensures Distinct(names) ==> Distinct(r)
    ensures |r| <= |names|
  {
    if names == [] then []
    else if names[0] == name then Without(names[1..], name)
    else
      var rest := Without(names[1..], name);
      assert forall n :: n in names <==> n == names[0] || n in names[1..];
      assert Distinct(names) ==> names[0] !in names[1..] && Distinct(names[1..]) by {
        if Distinct(names) {
          forall j | 0 <= j < |names[1..]| ensures names[1..][j] != names[0] {
            assert names[1..][j] == names[j + 1];
          }
        }
      }
      [names[0]] + rest
  }

  /** `df.drop(name)`: a missing column raises. */
  function Drop(t: Table, name: string): (r: Result<Table>)
    requires Valid(t)
    ensures r.Ok? <==> name in t.cols
    ensures r.Err? ==> r.error == ColumnNotFound(name)
    ensures r.Ok? ==> Valid(r.value) && r.value.height == t.height && name !in r.value.cols
    ensures r.Ok? ==> forall n :: n in t.cols && n != name ==> n in r.value.cols && r.value.cols[n] == t.cols[n]
  {
    if name !in t.cols then Err(ColumnNotFound(name))
    else Ok(Table(Without(t.names, name), t.cols - {name}, t.height))
  }
}
