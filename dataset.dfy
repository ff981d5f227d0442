/** The dataset builder `criar_dataset.py`: label every approved credit request
    "ruim" when one of its instalments is overdue and "bom" otherwise, join the
    client and the financed product onto it, derive the age and the two parsed
    amounts, and keep the thirteen columns the training script reads. The four
    tables arrive already fetched from the database. */
module Dataset {
  import opened Frames
  import opened Processing

  const RequestId := "solicitacaoid"
  const ClientId := "clienteid"
  const ProductId := "produtoid"
  const Status := "status"
  const Overdue := "Vencido"
  const OverdueCount := "qtd_vencidos"
  const Class := "classe"
  const Bad := "ruim"
  const Good := "bom"
  const BirthDate := "datanascimento"

  /** The projection at the end of `gerar_base_ia`. */
  const FinalColumns: seq<string> := ["profissao", "tempoprofissao", "renda", "tiporesidencia",
                                      "escolaridade", "score", "idade", "dependentes",
                                      "estadocivil", "nomecomercial", "valor_solicitado",
                                      "valor_total_bem", "classe"]

  lemma FinalColumnsDistinct()
    ensures Distinct(FinalColumns) && |FinalColumns| == 13 && Class in FinalColumns
  {
  }

  // ---------------------------------------------------------------------------
  // Keys

  /** A non-null value of a key column. */
  datatype Key = StrKey(s: string) | NumKey(x: real) | DateKey(d: Date)

  function KeyAt(s: Series, i: nat): Option<Key>
    requires i < s.Len()
  {
    match s
    case Strs(c) => if c[i].Some? then Some(StrKey(c[i].value)) else None
    case Nums(c) => if c[i].Some? then Some(NumKey(c[i].value)) else None
    case Dates(c) => if c[i].Some? then Some(DateKey(c[i].value)) else None
  }

  /** The key of every row; `None` for a null. */
  function KeysOf(s: Series): (r: seq<Option<Key>>)
    ensures |r| == s.Len()
    ensures forall i :: 0 <= i < |r| ==> r[i] == KeyAt(s, i)
  {
    seq(s.Len(), i requires 0 <= i < s.Len() => KeyAt(s, i))
  }

  lemma KeysOfGather(s: Series, idx: seq<Option<nat>>)
    requires forall k :: 0 <= k < |idx| && idx[k].Some? ==> idx[k].value < s.Len()
    ensures forall k :: 0 <= k < |idx| ==>
      KeysOf(Gather(s, idx))[k] == if idx[k].Some? then KeysOf(s)[idx[k].value] else None
  {
  }

  predicate SameDtype(a: Series, b: Series)
  {
    a.Strs? == b.Strs? && a.Nums? == b.Nums? && a.Dates? == b.Dates?
  }

  // ---------------------------------------------------------------------------
  // Step 1: one label per request

  /** The first row of every group among the first `n` rows, in the order the
      groups first appear; the nulls form a group of their own. */
  function FirstRows(keys: seq<Option<Key>>, n: nat): (r: seq<nat>)
    requires n <= |keys|
    ensures forall j :: 0 <= j < |r| ==> r[j] < n
    ensures forall j, l :: 0 <= j < l < |r| ==> keys[r[j]] != keys[r[l]]
    ensures forall i :: 0 <= i < n ==> keys[i] in KeysAtRows(keys, r)
  {
    if n == 0 then []
    else
      var prev := FirstRows(keys, n - 1);
      if keys[n - 1] in KeysAtRows(keys, prev) then prev
      else
        NewGroup(keys, prev, n - 1);
        prev + [n - 1]
  }

  /** The keys of the listed rows. */
  function KeysAtRows(keys: seq<Option<Key>>, rows: seq<nat>): (r: seq<Option<Key>>)
    requires forall j :: 0 <= j < |rows| ==> rows[j] < |keys|
    ensures |r| == |rows|
    ensures forall j :: 0 <= j < |rows| ==> r[j] == keys[rows[j]]
  {
    seq(|rows|, j requires 0 <= j < |rows| => keys[rows[j]])
  }

  lemma NewGroup(keys: seq<Option<Key>>, prev: seq<nat>, m: nat)
    requires m < |keys|
    requires forall j :: 0 <= j < |prev| ==> prev[j] < m
    requires forall j, l :: 0 <= j < l < |prev| ==> keys[prev[j]] != keys[prev[l]]
    requires forall i :: 0 <= i < m ==> keys[i] in KeysAtRows(keys, prev)
    requires keys[m] !in KeysAtRows(keys, prev)
    ensures var r := prev + [m];
      && (forall j :: 0 <= j < |r| ==> r[j] < m + 1)
      && (forall j, l :: 0 <= j < l < |r| ==> keys[r[j]] != keys[r[l]])
      && (forall i :: 0 <= i < m + 1 ==> keys[i] in KeysAtRows(keys, r))
  {
    var r := prev + [m];
    assert KeysAtRows(keys, r) == KeysAtRows(keys, prev) + [keys[m]];
  }

  /** `filter(status == "Vencido").count()` within the group of `k`, over the
      first `n` instalments. */
  function CountOverdue(keys: seq<Option<Key>>, status: seq<Option<string>>, k: Option<Key>, n: nat): nat
    requires n <= |keys| && n <= |status|
  {
    if n == 0 then 0
    else CountOverdue(keys, status, k, n - 1) + if keys[n - 1] == k && status[n - 1] == Some(Overdue) then 1 else 0
  }

  /** The overdue instalments of the request `k`, by row. */
  ghost function OverdueRows(keys: seq<Option<Key>>, status: seq<Option<string>>, k: Option<Key>, n: nat): set<nat>
  {
    set i | 0 <= i < n && i < |keys| && i < |status| && keys[i] == k && status[i] == Some(Overdue)
  }

  /** The count is the number of the group's instalment rows whose status is
      "Vencido". */
  lemma {:induction false} CountOverdueCounts(keys: seq<Option<Key>>, status: seq<Option<string>>, k: Option<Key>, n: nat)
    requires n <= |keys| && n <= |status|
    ensures CountOverdue(keys, status, k, n) == |OverdueRows(keys, status, k, n)|
  {
    if n > 0 {
      CountOverdueCounts(keys, status, k, n - 1);
      var prev := OverdueRows(keys, status, k, n - 1);
      if keys[n - 1] == k && status[n - 1] == Some(Overdue) {
        assert OverdueRows(keys, status, k, n) == prev + {n - 1};
        assert n - 1 !in prev;
      } else {
        assert OverdueRows(keys, status, k, n) == prev;
      }
    }
  }

  /** A request without instalments has no overdue one. */
  lemma {:induction false} CountOverdueAbsent(keys: seq<Option<Key>>, status: seq<Option<string>>, k: Option<Key>, n: nat)
    requires n <= |keys| && n <= |status|
    requires forall i :: 0 <= i < n ==> keys[i] != k
    ensures CountOverdue(keys, status, k, n) == 0
  {
    if n > 0 {
      CountOverdueAbsent(keys, status, k, n - 1);
    }
  }

  /** `"ruim"` when the request has an overdue instalment, `"bom"` otherwise. */
  function LabelOf(count: nat): (r: string)
    ensures r == Bad <==> count > 0
    ensures r == Good <==> count == 0
  {
    if count > 0 then Bad else Good
  }

  /** The label the request with key `k` deserves: "ruim" when one of its
      instalments is overdue, "bom" otherwise (a null key has none). */
  ghost function ExpectedLabel(installments: Table, k: Option<Key>): string
    requires RequestId in installments.cols && Status in installments.cols && installments.cols[Status].Strs?
  {
    var ik := KeysOf(installments.cols[RequestId]);
    if k.Some? && |OverdueRows(ik, installments.cols[Status].strs, k, |ik|)| > 0 then Bad else Good
  }

  /** `df_target`: the instalments grouped by request, with the overdue count
      and the label. Comparing a non-text status with "Vencido" raises. */
  function Target(installments: Table): (r: Result<Table>)
    requires Valid(installments)
    ensures r.Ok? <==> RequestId in installments.cols && Status in installments.cols && installments.cols[Status].Strs?
    ensures r.Ok? ==> Valid(r.value) && r.value.names == [RequestId, OverdueCount, Class]
  {
    match (Get(installments, RequestId), Get(installments, Status))
    case (Err(e), _) => Err(e)
    case (_, Err(e)) => Err(e)
    case (Ok(ids), Ok(Strs(status))) =>
      var keys := KeysOf(ids);
      var firsts := FirstRows(keys, |keys|);
      var counts := seq(|firsts|, j requires 0 <= j < |firsts| => CountOverdue(keys, status, keys[firsts[j]], |keys|));
      Ok(Table([RequestId, OverdueCount, Class],
               map[RequestId := Gather(ids, seq(|firsts|, j requires 0 <= j < |firsts| => Some(firsts[j]))),
                   OverdueCount := Nums(seq(|counts|, j requires 0 <= j < |counts| => Some(counts[j] as real))),
                   Class := Strs(seq(|counts|, j requires 0 <= j < |counts| => Some(LabelOf(counts[j]))))],
               |firsts|))
    case (Ok(_), Ok(_)) => Err(SchemaMismatch(Status))
  }

  /** The target has one row per request: its keys are distinct, and they are
      exactly the requests that have instalments. */
  lemma TargetOnePerRequest(installments: Table)
    requires Valid(installments) && Target(installments).Ok?
    ensures var tk := KeysOf(Target(installments).value.cols[RequestId]);
      var ik := KeysOf(installments.cols[RequestId]);
      && (forall j, l :: 0 <= j < l < |tk| ==> tk[j] != tk[l])
      && (forall k :: k in tk <==> k in ik)
  {
    var ids := installments.cols[RequestId];
    var ik := KeysOf(ids);
    var firsts := FirstRows(ik, |ik|);
    var idx := seq(|firsts|, j requires 0 <= j < |firsts| => Some(firsts[j]));
    KeysOfGather(ids, idx);
    var tk := KeysOf(Target(installments).value.cols[RequestId]);
    assert forall j :: 0 <= j < |tk| ==> tk[j] == ik[firsts[j]];
    forall k | k in ik ensures k in tk {
      var i :| 0 <= i < |ik| && ik[i] == k;
      var j :| 0 <= j < |firsts| && KeysAtRows(ik, firsts)[j] == ik[i];
      assert tk[j] == k;
    }
  }

  /** Row by row, the target holds the request's overdue count, and the label
      is "ruim" exactly when that count is positive. */
  lemma TargetLabels(installments: Table, j: nat)
    requires Valid(installments) && Target(installments).Ok? && j < Target(installments).value.height
    ensures var t := Target(installments).value;
      var ik := KeysOf(installments.cols[RequestId]);
      var status := installments.cols[Status].strs;
      var k := KeysOf(t.cols[RequestId])[j];
      && t.cols[OverdueCount].nums[j] == Some(|OverdueRows(ik, status, k, |ik|)| as real)
      && t.cols[Class].strs[j] == Some(if |OverdueRows(ik, status, k, |ik|)| > 0 then Bad else Good)
  {
    var ids := installments.cols[RequestId];
    var ik := KeysOf(ids);
    var status := installments.cols[Status].strs;
    var firsts := FirstRows(ik, |ik|);
    var idx := seq(|firsts|, j requires 0 <= j < |firsts| => Some(firsts[j]));
    KeysOfGather(ids, idx);
    CountOverdueCounts(ik, status, ik[firsts[j]], |ik|);
  }

  // ---------------------------------------------------------------------------
  // Step 2: joins

  datatype How = Inner | Left

  /** The right rows among the first `n` whose key equals `k`, in order; a null
      key matches nothing. */
  function Matches(rk: seq<Option<Key>>, k: Option<Key>, n: nat): (r: seq<nat>)
    requires n <= |rk|
    ensures forall m :: 0 <= m < |r| ==> r[m] < n && k.Some? && rk[r[m]] == k
    ensures forall j :: 0 <= j < n && k.Some? && rk[j] == k ==> j in r
  {
    if n == 0 || k.None? then []
    else Matches(rk, k, n - 1) + if rk[n - 1] == k then [n - 1] else []
  }

  /** The matches come in row order. */
  lemma {:induction false} MatchesAscending(rk: seq<Option<Key>>, k: Option<Key>, n: nat)
    requires n <= |rk|
    ensures forall a, b :: 0 <= a < b < |Matches(rk, k, n)| ==> Matches(rk, k, n)[a] < Matches(rk, k, n)[b]
  {
    if n > 0 && k.Some? {
      MatchesAscending(rk, k, n - 1);
    }
  }

  /** The rows a join produces, as (left row, right row) pairs: left row by left
      row, each match in order; a left join keeps an unmatched left row once,
      with no right row. */
  function JoinPairs(lk: seq<Option<Key>>, rk: seq<Option<Key>>, how: How, n: nat): (r: seq<(nat, Option<nat>)>)
    requires n <= |lk|
    ensures forall p :: 0 <= p < |r| ==> r[p].0 < n && (r[p].1.Some? ==> r[p].1.value < |rk|)
  {
    if n == 0 then [] else JoinPairs(lk, rk, how, n - 1) + RowPairs(rk, lk[n - 1], n - 1, how)
  }

  /** The pairs of the left row `i` with key `k`: one per matching right row,
      in order, or for a left join a single pair without a right row when
      nothing matches. */
  function RowPairs(rk: seq<Option<Key>>, k: Option<Key>, i: nat, how: How): (r: seq<(nat, Option<nat>)>)
    ensures forall p :: 0 <= p < |r| ==> r[p].0 == i && (r[p].1.Some? ==> r[p].1.value < |rk|)
    ensures Matches(rk, k, |rk|) != [] ==>
      |r| == |Matches(rk, k, |rk|)| && forall m :: 0 <= m < |r| ==> r[m].1 == Some(Matches(rk, k, |rk|)[m])
    ensures Matches(rk, k, |rk|) == [] ==> r == if how == Left then [(i, None)] else []
  {
    var ms := Matches(rk, k, |rk|);
    if ms == [] then (if how == Left then [(i, None)] else [])
    else seq(|ms|, m requires 0 <= m < |ms| => (i, Some(ms[m])))
  }

  /** `a` comes before `b` in a join's output: an earlier left row, or the same
      left row and an earlier right row. */
  predicate Before(a: (nat, Option<nat>), b: (nat, Option<nat>))
  {
    a.0 < b.0 || (a.0 == b.0 && a.1.Some? && b.1.Some? && a.1.value < b.1.value)
  }

  /** Pairs in strictly increasing `Before` order. */
  ghost predicate Ordered(r: seq<(nat, Option<nat>)>)
  {
    forall p, q :: 0 <= p < q < |r| ==> Before(r[p], r[q])
  }

  /** Every pair joins a left row to a right row with the same non-null key. */
  ghost predicate PairsMatch(lk: seq<Option<Key>>, rk: seq<Option<Key>>, r: seq<(nat, Option<nat>)>)
  {
    forall p :: 0 <= p < |r| ==>
      && r[p].0 < |lk| && r[p].1.Some? && r[p].1.value < |rk|
      && lk[r[p].0].Some? && rk[r[p].1.value] == lk[r[p].0]
  }

  /** An inner join pairs each left row with each right row of the same non-null
      key, and with nothing else: every pair has a right row whose key equals
      the left row's, every such combination is there, and the pairs come left
      row by left row, then right row by right row, so none repeats. */
  lemma InnerJoinPairs(lk: seq<Option<Key>>, rk: seq<Option<Key>>, n: nat)
    requires n <= |lk|
    ensures PairsMatch(lk, rk, JoinPairs(lk, rk, Inner, n))
    ensures forall i, j :: 0 <= i < n && 0 <= j < |rk| && lk[i].Some? && rk[j] == lk[i] ==> (i, Some(j)) in JoinPairs(lk, rk, Inner, n)
    ensures Ordered(JoinPairs(lk, rk, Inner, n))
  {
    InnerPairsMatch(lk, rk, n);
    InnerPairsComplete(lk, rk, n);
    JoinPairsOrdered(lk, rk, Inner, n);
  }

  lemma {:induction false} InnerPairsMatch(lk: seq<Option<Key>>, rk: seq<Option<Key>>, n: nat)
    requires n <= |lk|
    ensures PairsMatch(lk, rk, JoinPairs(lk, rk, Inner, n))
  {
    if n == 0 {
      assert JoinPairs(lk, rk, Inner, 0) == [];
    } else {
      InnerPairsMatch(lk, rk, n - 1);
      MatchStep(lk, rk, n);
    }
  }

  lemma MatchStep(lk: seq<Option<Key>>, rk: seq<Option<Key>>, n: nat)
    requires 0 < n <= |lk| && PairsMatch(lk, rk, JoinPairs(lk, rk, Inner, n - 1))
    ensures PairsMatch(lk, rk, JoinPairs(lk, rk, Inner, n))
  {
    RowPairsMatch(lk, rk, n - 1);
    MatchConcat(lk, rk, JoinPairs(lk, rk, Inner, n - 1), RowPairs(rk, lk[n - 1], n - 1, Inner));
    assert JoinPairs(lk, rk, Inner, n) == JoinPairs(lk, rk, Inner, n - 1) + RowPairs(rk, lk[n - 1], n - 1, Inner);
  }

  lemma RowPairsMatch(lk: seq<Option<Key>>, rk: seq<Option<Key>>, i: nat)
    requires i < |lk|
    ensures PairsMatch(lk, rk, RowPairs(rk, lk[i], i, Inner))
  {
    var here := RowPairs(rk, lk[i], i, Inner);
    var ms := Matches(rk, lk[i], |rk|);
    forall p | 0 <= p < |here| ensures here[p].1.Some? && lk[here[p].0].Some? && rk[here[p].1.value] == lk[here[p].0] {
      assert here[p].1 == Some(ms[p]);
    }
  }

  lemma MatchConcat(lk: seq<Option<Key>>, rk: seq<Option<Key>>, a: seq<(nat, Option<nat>)>, b: seq<(nat, Option<nat>)>)
    requires PairsMatch(lk, rk, a) && PairsMatch(lk, rk, b)
    ensures PairsMatch(lk, rk, a + b)
  {
    forall p | 0 <= p < |a + b|
      ensures (a + b)[p].0 < |lk| && (a + b)[p].1.Some? && (a + b)[p].1.value < |rk|
           && lk[(a + b)[p].0].Some? && rk[(a + b)[p].1.value] == lk[(a + b)[p].0]
    {
      if p >= |a| {
        assert (a + b)[p] == b[p - |a|];
      }
    }
  }

  /** Every matching (left, right) pair among the first `n` left rows is in `r`. */
  ghost predicate CompleteUpTo(lk: seq<Option<Key>>, rk: seq<Option<Key>>, n: nat, r: seq<(nat, Option<nat>)>)
    requires n <= |lk|
  {
    forall i, j :: 0 <= i < n && 0 <= j < |rk| && lk[i].Some? && rk[j] == lk[i] ==> (i, Some(j)) in r
  }

  lemma {:induction false} InnerPairsComplete(lk: seq<Option<Key>>, rk: seq<Option<Key>>, n: nat)
    requires n <= |lk|
    ensures CompleteUpTo(lk, rk, n, JoinPairs(lk, rk, Inner, n))
  {
    if n > 0 {
      InnerPairsComplete(lk, rk, n - 1);
      CompleteStep(lk, rk, n);
    }
  }

  /** `here` pairs the left row `i`, with key `k`, with every right row it matches. */
  ghost predicate RowComplete(rk: seq<Option<Key>>, k: Option<Key>, i: nat, here: seq<(nat, Option<nat>)>)
  {
    forall j :: 0 <= j < |rk| && k.Some? && rk[j] == k ==> (i, Some(j)) in here
  }

  /** The inner pairs of one left row hold every right row it matches. */
  lemma RowPairsComplete(rk: seq<Option<Key>>, k: Option<Key>, i: nat)
    ensures RowComplete(rk, k, i, RowPairs(rk, k, i, Inner))
  {
    var here := RowPairs(rk, k, i, Inner);
    forall j | 0 <= j < |rk| && k.Some? && rk[j] == k ensures (i, Some(j)) in here {
      var ms := Matches(rk, k, |rk|);
      assert j in ms;
      var m :| 0 <= m < |ms| && ms[m] == j;
      assert here[m] == (i, Some(j));
    }
  }

  lemma CompleteStep(lk: seq<Option<Key>>, rk: seq<Option<Key>>, n: nat)
    requires 0 < n <= |lk| && CompleteUpTo(lk, rk, n - 1, JoinPairs(lk, rk, Inner, n - 1))
    ensures CompleteUpTo(lk, rk, n, JoinPairs(lk, rk, Inner, n))
  {
    var prev, here := JoinPairs(lk, rk, Inner, n - 1), RowPairs(rk, lk[n - 1], n - 1, Inner);
    assert JoinPairs(lk, rk, Inner, n) == prev + here;
    RowPairsComplete(rk, lk[n - 1], n - 1);
    CompleteAppend(lk, rk, n - 1, prev, here);
    RowCompletePrepend(rk, lk[n - 1], n - 1, prev, here);
    CompleteExtend(lk, rk, n, prev + here);
  }

  /** Pairs found among the first rows stay found when more pairs follow. */
  lemma CompleteAppend(lk: seq<Option<Key>>, rk: seq<Option<Key>>, n: nat, prev: seq<(nat, Option<nat>)>, here: seq<(nat, Option<nat>)>)
    requires n <= |lk| && CompleteUpTo(lk, rk, n, prev)
    ensures CompleteUpTo(lk, rk, n, prev + here)
  {
    forall i, j | 0 <= i < n && 0 <= j < |rk| && lk[i].Some? && rk[j] == lk[i]
      ensures (i, Some(j)) in prev + here
    {
      assert (i, Some(j)) in prev;
    }
  }

  /** A row's pairs stay found when other pairs come before them. */
  lemma RowCompletePrepend(rk: seq<Option<Key>>, k: Option<Key>, i: nat, prev: seq<(nat, Option<nat>)>, here: seq<(nat, Option<nat>)>)
    requires RowComplete(rk, k, i, here)
    ensures RowComplete(rk, k, i, prev + here)
  {
    forall j | 0 <= j < |rk| && k.Some? && rk[j] == k ensures (i, Some(j)) in prev + here {
      assert (i, Some(j)) in here;
    }
  }

  /** Completeness up to row `n - 1` and for row `n - 1` itself is completeness
      up to `n`. */
  lemma CompleteExtend(lk: seq<Option<Key>>, rk: seq<Option<Key>>, n: nat, r: seq<(nat, Option<nat>)>)
    requires 0 < n <= |lk| && CompleteUpTo(lk, rk, n - 1, r) && RowComplete(rk, lk[n - 1], n - 1, r)
    ensures CompleteUpTo(lk, rk, n, r)
  {
    forall i, j | 0 <= i < n && 0 <= j < |rk| && lk[i].Some? && rk[j] == lk[i]
      ensures (i, Some(j)) in r
    {
      if i == n - 1 {
        assert rk[j] == lk[n - 1];
      }
    }
  }

  /** Every join emits its pairs in left row order, then right row order. */
  lemma {:induction false} JoinPairsOrdered(lk: seq<Option<Key>>, rk: seq<Option<Key>>, how: How, n: nat)
    requires n <= |lk|
    ensures Ordered(JoinPairs(lk, rk, how, n))
  {
    if n > 0 {
      JoinPairsOrdered(lk, rk, how, n - 1);
      var prev := JoinPairs(lk, rk, how, n - 1);
      var here := RowPairs(rk, lk[n - 1], n - 1, how);
      RowPairsOrdered(rk, lk[n - 1], n - 1, how);
      ConcatOrdered(prev, here, n - 1);
      assert JoinPairs(lk, rk, how, n) == prev + here;
    }
  }

  lemma RowPairsOrdered(rk: seq<Option<Key>>, k: Option<Key>, i: nat, how: How)
    ensures Ordered(RowPairs(rk, k, i, how))
  {
    var r := RowPairs(rk, k, i, how);
    var ms := Matches(rk, k, |rk|);
    MatchesAscending(rk, k, |rk|);
    forall p, q | 0 <= p < q < |r| ensures Before(r[p], r[q]) {
      assert r[p].1 == Some(ms[p]) && r[q].1 == Some(ms[q]);
    }
  }

  lemma ConcatOrdered(a: seq<(nat, Option<nat>)>, b: seq<(nat, Option<nat>)>, i: nat)
    requires Ordered(a) && Ordered(b)
    requires forall p :: 0 <= p < |a| ==> a[p].0 < i
    requires forall p :: 0 <= p < |b| ==> b[p].0 == i
    ensures Ordered(a + b)
  {
  }

  /** No non-null key occurs twice. */
  ghost predicate UniqueKeys(rk: seq<Option<Key>>)
  {
    forall a, b :: 0 <= a < b < |rk| && rk[a].Some? ==> rk[a] != rk[b]
  }

  /** The right row a left row finds: the first with the same non-null key. */
  function Lookup(rk: seq<Option<Key>>, k: Option<Key>): (r: Option<nat>)
    ensures r.Some? ==> r.value < |rk| && k.Some? && rk[r.value] == k
    ensures r.None? ==> k.None? || k !in rk
  {
    var ms := Matches(rk, k, |rk|);
    if ms == [] then None
    else
      assert ms[0] in ms;
      Some(ms[0])
  }

  lemma {:induction false} MatchesUnique(rk: seq<Option<Key>>, k: Option<Key>, n: nat)
    requires n <= |rk| && UniqueKeys(rk)
    ensures |Matches(rk, k, n)| <= 1
  {
    if n > 0 && k.Some? {
      MatchesUnique(rk, k, n - 1);
      if rk[n - 1] == k {
        assert forall j :: 0 <= j < n - 1 ==> rk[j] != rk[n - 1];
        NoMatchBelow(rk, k, n - 1);
      }
    }
  }

  lemma {:induction false} NoMatchBelow(rk: seq<Option<Key>>, k: Option<Key>, n: nat)
    requires n <= |rk| && forall j :: 0 <= j < n ==> rk[j] != k
    ensures Matches(rk, k, n) == []
  {
    if n > 0 {
      NoMatchBelow(rk, k, n - 1);
    }
  }

  /** Against keys that are unique, a left join pairs every left row with
      exactly one result row, in order. */
  lemma LeftJoinPairs(lk: seq<Option<Key>>, rk: seq<Option<Key>>, n: nat)
    requires n <= |lk| && UniqueKeys(rk)
    ensures |JoinPairs(lk, rk, Left, n)| == n
    ensures forall i :: 0 <= i < n ==> JoinPairs(lk, rk, Left, n)[i] == (i, Lookup(rk, lk[i]))
  {
    forall i | 0 <= i < n ensures |Matches(rk, lk[i], |rk|)| <= 1 {
      MatchesUnique(rk, lk[i], |rk|);
    }
    SingleMatchPairs(lk, rk, n);
  }

  /** No left row among the first `n` matches two right rows. */
  ghost predicate SingleMatches(lk: seq<Option<Key>>, rk: seq<Option<Key>>, n: nat)
    requires n <= |lk|
  {
    forall i :: 0 <= i < n ==> |Matches(rk, lk[i], |rk|)| <= 1
  }

  /** `r` pairs each of the first `n` left rows, in order, with the right row it
      looks up. */
  ghost predicate LookedUp(lk: seq<Option<Key>>, rk: seq<Option<Key>>, n: nat, r: seq<(nat, Option<nat>)>)
    requires n <= |lk|
  {
    |r| == n && forall i :: 0 <= i < n ==> r[i] == (i, Lookup(rk, lk[i]))
  }

  /** When no left row has two matches, a left join emits one pair per left
      row, in order. */
  lemma {:induction false} SingleMatchPairs(lk: seq<Option<Key>>, rk: seq<Option<Key>>, n: nat)
    requires n <= |lk| && SingleMatches(lk, rk, n)
    ensures LookedUp(lk, rk, n, JoinPairs(lk, rk, Left, n))
  {
    if n > 0 {
      assert SingleMatches(lk, rk, n - 1);
      SingleMatchPairs(lk, rk, n - 1);
      SingleRowPair(rk, lk[n - 1], n - 1);
      LookedUpStep(lk, rk, n, JoinPairs(lk, rk, Left, n - 1));
    }
  }

  lemma LookedUpStep(lk: seq<Option<Key>>, rk: seq<Option<Key>>, n: nat, prev: seq<(nat, Option<nat>)>)
    requires 0 < n <= |lk| && LookedUp(lk, rk, n - 1, prev)
    ensures LookedUp(lk, rk, n, prev + [(n - 1, Lookup(rk, lk[n - 1]))])
  {
    var r := prev + [(n - 1, Lookup(rk, lk[n - 1]))];
    forall i | 0 <= i < n ensures r[i] == (i, Lookup(rk, lk[i])) {
      if i < n - 1 {
        assert r[i] == prev[i];
      }
    }
  }

  /** At most one match: a left join emits exactly one pair for the row. */
  lemma SingleRowPair(rk: seq<Option<Key>>, k: Option<Key>, i: nat)
    requires |Matches(rk, k, |rk|)| <= 1
    ensures RowPairs(rk, k, i, Left) == [(i, Lookup(rk, k))]
  {
    var here := RowPairs(rk, k, i, Left);
    if Matches(rk, k, |rk|) != [] {
      assert |here| == 1;
    }
  }

  /** A right column whose name the left side already has gets the suffix
      `_right`. */
  function Renamed(n: string, taken: set<string>): string
  {
    if n in taken then n + "_right" else n
  }

  /** Appends the right columns other than the key, gathered by the right rows
      of the pairs; a name that is already there raises. */
  function AddRightColumns(acc: Table, right: Table, names: seq<string>, key: string, taken: set<string>,
                           ridx: seq<Option<nat>>): (r: Result<Table>)
    requires Valid(acc) && Valid(right) && |ridx| == acc.height
    requires forall k :: 0 <= k < |ridx| && ridx[k].Some? ==> ridx[k].value < right.height
    requires forall n :: n in names ==> n in right.cols
    ensures r.Ok? ==> Valid(r.value) && r.value.height == acc.height
    ensures r.Ok? ==> forall n :: n in acc.cols ==> n in r.value.cols && r.value.cols[n] == acc.cols[n]
    ensures r.Ok? ==> forall n :: n in r.value.cols ==> n in acc.cols || exists m :: m in names && m != key && n == Renamed(m, taken)
    ensures r.Ok? ==> forall n :: n in names && n != key ==>
      Renamed(n, taken) in r.value.cols && r.value.cols[Renamed(n, taken)] == Gather(right.cols[n], ridx)
    decreases |names|
  {
    if names == [] then Ok(acc)
    else if names[0] == key then AddRightColumns(acc, right, names[1..], key, taken, ridx)
    else
      var n := Renamed(names[0], taken);
      if n in acc.cols then Err(DuplicateColumn(n))
      else AddRightColumns(WithColumn(acc, n, Gather(right.cols[names[0]], ridx)), right, names[1..], key, taken, ridx)
  }

  /** `left.join(right, on=key, how=how)`: the left columns, then the right
      columns but the key; null keys match nothing; a missing key column or
      keys of different dtypes raise. */
  function Join(left: Table, right: Table, key: string, how: How): (r: Result<Table>)
    requires Valid(left) && Valid(right)
    ensures r.Ok? ==> key in left.cols && key in right.cols && SameDtype(left.cols[key], right.cols[key])
    ensures r.Ok? ==> Valid(r.value)
    ensures key in left.cols && key in right.cols && SameDtype(left.cols[key], right.cols[key]) ==>
      r == JoinOn(left, right, key, how)
  {
    match (Get(left, key), Get(right, key))
    case (Err(e), _) => Err(e)
    case (_, Err(e)) => Err(e)
    case (Ok(a), Ok(b)) =>
      if !SameDtype(a, b) then Err(SchemaMismatch(key))
      else JoinOn(left, right, key, how)
  }

  /** The join once the key is known to be present on both sides. */
  function JoinOn(left: Table, right: Table, key: string, how: How): (r: Result<Table>)
    requires Valid(left) && Valid(right) && key in left.cols && key in right.cols
    ensures r.Ok? ==> Valid(r.value)
    ensures r.Ok? ==> forall n :: n in r.value.cols ==> n in left.cols || exists m :: m in right.names && m != key && n == Renamed(m, left.cols.Keys)
    ensures r.Ok? ==> var pairs := JoinPairs(KeysOf(left.cols[key]), KeysOf(right.cols[key]), how, left.height);
      && r.value.height == |pairs|
      && (forall n :: n in left.cols ==> n in r.value.cols && r.value.cols[n] == Gather(left.cols[n], LeftRows(pairs)))
      && (forall n :: n in right.names && n != key ==>
            Renamed(n, left.cols.Keys) in r.value.cols && r.value.cols[Renamed(n, left.cols.Keys)] == Gather(right.cols[n], RightRows(pairs)))
  {
    var pairs := JoinPairs(KeysOf(left.cols[key]), KeysOf(right.cols[key]), how, left.height);
    AddRightColumns(GatherRows(left, LeftRows(pairs)), right, right.names, key, left.cols.Keys, RightRows(pairs))
  }

  function LeftRows(pairs: seq<(nat, Option<nat>)>): (r: seq<Option<nat>>)
    ensures |r| == |pairs| && forall p :: 0 <= p < |pairs| ==> r[p] == Some(pairs[p].0)
  {
    seq(|pairs|, p requires 0 <= p < |pairs| => Some(pairs[p].0))
  }

  function RightRows(pairs: seq<(nat, Option<nat>)>): (r: seq<Option<nat>>)
    ensures |r| == |pairs| && forall p :: 0 <= p < |pairs| ==> r[p] == pairs[p].1
  {
    seq(|pairs|, p requires 0 <= p < |pairs| => pairs[p].1)
  }

  /** Every column of the table, taken at the listed rows. */
  function GatherRows(t: Table, idx: seq<Option<nat>>): (r: Table)
    requires Valid(t) && forall k :: 0 <= k < |idx| && idx[k].Some? ==> idx[k].value < t.height
    ensures Valid(r) && r.names == t.names && r.height == |idx|
    ensures forall n :: n in t.cols ==> n in r.cols && r.cols[n] == Gather(t.cols[n], idx)
  {
    Table(t.names, map n | n in t.cols :: Gather(t.cols[n], idx), |idx|)
  }

  /** Gathering every row in order gives the column back. */
  lemma GatherAll(s: Series, n: nat)
    requires s.Len() == n
    ensures Gather(s, seq(n, i requires 0 <= i < n => Some(i))) == s
  {
  }

  /** For every left row, the right row with the same key, if any. */
  function Found(left: Table, right: Table, key: string): (r: seq<Option<nat>>)
    requires Valid(left) && Valid(right) && key in left.cols && key in right.cols
    ensures |r| == left.height
    ensures forall i :: 0 <= i < |r| && r[i].Some? ==> r[i].value < right.height
  {
    var lk, rk := KeysOf(left.cols[key]), KeysOf(right.cols[key]);
    seq(left.height, i requires 0 <= i < left.height => Lookup(rk, lk[i]))
  }

  /** A left join against unique keys neither drops nor repeats a left row: the
      left columns come out unchanged, and each right column holds, row by row,
      the value of the right row with the same key, or a null. */
  lemma LeftJoinKeepsRows(left: Table, right: Table, key: string)
    requires Valid(left) && Valid(right) && key in left.cols && key in right.cols
    requires JoinOn(left, right, key, Left).Ok?
    requires UniqueKeys(KeysOf(right.cols[key]))
    ensures var r := JoinOn(left, right, key, Left).value;
      && r.height == left.height
      && (forall n :: n in left.cols ==> n in r.cols && r.cols[n] == left.cols[n])
      && (forall n :: n in right.names && n != key ==>
            Renamed(n, left.cols.Keys) in r.cols && r.cols[Renamed(n, left.cols.Keys)] == Gather(right.cols[n], Found(left, right, key)))
  {
    LeftJoinIsLookup(left, right, key);
  }

  lemma LeftJoinIsLookup(left: Table, right: Table, key: string)
    requires Valid(left) && Valid(right) && key in left.cols && key in right.cols
    requires UniqueKeys(KeysOf(right.cols[key]))
    ensures JoinOn(left, right, key, Left) == AddRightColumns(left, right, right.names, key, left.cols.Keys, Found(left, right, key))
  {
    var lk, rk := KeysOf(left.cols[key]), KeysOf(right.cols[key]);
    var pairs := JoinPairs(lk, rk, Left, left.height);
    LeftJoinRows(left, right, key);
    GatherEveryRow(left, LeftRows(pairs));
  }

  /** Against unique keys, the left join's pairs take every left row once, in
      order, with the right row `Found` for it. */
  lemma LeftJoinRows(left: Table, right: Table, key: string)
    requires Valid(left) && Valid(right) && key in left.cols && key in right.cols
    requires UniqueKeys(KeysOf(right.cols[key]))
    ensures var pairs := JoinPairs(KeysOf(left.cols[key]), KeysOf(right.cols[key]), Left, left.height);
      && RightRows(pairs) == Found(left, right, key)
      && LeftRows(pairs) == seq(left.height, i requires 0 <= i < left.height => Some(i))
  {
    LeftJoinPairs(KeysOf(left.cols[key]), KeysOf(right.cols[key]), left.height);
  }

  /** Taking every row in order gives the table back. */
  lemma GatherEveryRow(t: Table, idx: seq<Option<nat>>)
    requires Valid(t) && idx == seq(t.height, i requires 0 <= i < t.height => Some(i))
    ensures GatherRows(t, idx) == t
  {
    var g := GatherRows(t, idx);
    forall n | n in t.cols ensures g.cols[n] == t.cols[n] {
      GatherAll(t.cols[n], t.height);
    }
    assert g.cols == t.cols;
  }

  // ---------------------------------------------------------------------------
  // Steps 2 to 4: the dataset

  /** The approved requests with their client and financed product. */
  function Approved(requests: Table, clients: Table, products: Table): (r: Result<Table>)
    requires Valid(requests) && Valid(clients) && Valid(products)
    ensures r.Ok? ==> Valid(r.value)
  {
    match Join(requests, clients, ClientId, Inner)
    case Err(e) => Err(e)
    case Ok(t) => Join(t, products, ProductId, Inner)
  }

  /** The product key of the request `i` joined with the client `c`: the
      request's own `produtoid` column, or the client's when only the client
      table has one; None when neither has it. */
  ghost function ProductKeyOf(requests: Table, clients: Table, i: nat, c: nat): Option<Key>
  {
    if ProductId in requests.cols then
      var ks := KeysOf(requests.cols[ProductId]);
      if i < |ks| then ks[i] else None
    else if ProductId in clients.cols then
      var ks := KeysOf(clients.cols[ProductId]);
      if c < |ks| then ks[c] else None
    else None
  }

  /** The request-client pairs of the first join. */
  function ClientPairs(requests: Table, clients: Table): (r: seq<(nat, Option<nat>)>)
    requires Valid(requests) && Valid(clients) && ClientId in requests.cols && ClientId in clients.cols
    ensures PairsMatch(KeysOf(requests.cols[ClientId]), KeysOf(clients.cols[ClientId]), r)
  {
    InnerJoinPairs(KeysOf(requests.cols[ClientId]), KeysOf(clients.cols[ClientId]), requests.height);
    JoinPairs(KeysOf(requests.cols[ClientId]), KeysOf(clients.cols[ClientId]), Inner, requests.height)
  }

  /** The intermediate-row/product pairs of the second join. */
  function ProductPairs(t: Table, products: Table): (r: seq<(nat, Option<nat>)>)
    requires Valid(t) && Valid(products) && ProductId in t.cols && ProductId in products.cols
    ensures PairsMatch(KeysOf(t.cols[ProductId]), KeysOf(products.cols[ProductId]), r)
  {
    InnerJoinPairs(KeysOf(t.cols[ProductId]), KeysOf(products.cols[ProductId]), t.height);
    JoinPairs(KeysOf(t.cols[ProductId]), KeysOf(products.cols[ProductId]), Inner, t.height)
  }

  /** The rows of a join of a join, as (left, middle, right) triples: the
      second join's pairs with its left row replaced by the first join's pair. */
  ghost function Compose(p1: seq<(nat, Option<nat>)>, p2: seq<(nat, Option<nat>)>): (r: seq<(nat, nat, nat)>)
    requires forall k :: 0 <= k < |p1| ==> p1[k].1.Some?
    requires forall q :: 0 <= q < |p2| ==> p2[q].0 < |p1| && p2[q].1.Some?
    ensures |r| == |p2|
    ensures forall q :: 0 <= q < |p2| ==> r[q] == (p1[p2[q].0].0, p1[p2[q].0].1.value, p2[q].1.value)
  {
    seq(|p2|, q requires 0 <= q < |p2| => (p1[p2[q].0].0, p1[p2[q].0].1.value, p2[q].1.value))
  }

  /** A left row, a middle row and a right row that two chained inner joins put
      together: the left and middle keys agree, and the key `pk` of that pair
      agrees with the right key; nulls match nothing. */
  ghost predicate Chained(lk: seq<Option<Key>>, mk: seq<Option<Key>>, rk: seq<Option<Key>>,
                          pk: (nat, nat) -> Option<Key>, x: (nat, nat, nat))
  {
    && x.0 < |lk| && x.1 < |mk| && x.2 < |rk|
    && lk[x.0].Some? && mk[x.1] == lk[x.0]
    && pk(x.0, x.1).Some? && rk[x.2] == pk(x.0, x.1)
  }

  /** Lexicographic order on row triples. */
  predicate TripleBefore(a: (nat, nat, nat), b: (nat, nat, nat))
  {
    a.0 < b.0 || (a.0 == b.0 && (a.1 < b.1 || (a.1 == b.1 && a.2 < b.2)))
  }

  /** What an inner join's pairs are: matching, complete and ordered. */
  ghost predicate InnerPairs(lk: seq<Option<Key>>, rk: seq<Option<Key>>, p: seq<(nat, Option<nat>)>)
  {
    && PairsMatch(lk, rk, p)
    && (forall i, j :: 0 <= i < |lk| && 0 <= j < |rk| && lk[i].Some? && rk[j] == lk[i] ==> (i, Some(j)) in p)
    && Ordered(p)
  }

  /** Two inner joins in a row, the second on a key `pk` of the first join's
      pairs: the composed rows are exactly the chained triples, each once, in
      lexicographic order. */
  lemma ChainedInnerJoins(lk: seq<Option<Key>>, mk: seq<Option<Key>>, tk: seq<Option<Key>>, rk: seq<Option<Key>>,
                          pk: (nat, nat) -> Option<Key>, p1: seq<(nat, Option<nat>)>, p2: seq<(nat, Option<nat>)>)
    requires InnerPairs(lk, mk, p1) && InnerPairs(tk, rk, p2) && |tk| == |p1|
    requires forall k :: 0 <= k < |p1| ==> tk[k] == pk(p1[k].0, p1[k].1.value)
    ensures forall q :: 0 <= q < |p2| ==> Chained(lk, mk, rk, pk, Compose(p1, p2)[q])
    ensures forall x :: Chained(lk, mk, rk, pk, x) ==> x in Compose(p1, p2)
    ensures forall q, q' :: 0 <= q < q' < |p2| ==> TripleBefore(Compose(p1, p2)[q], Compose(p1, p2)[q'])
  {
    ChainedComplete(lk, mk, tk, rk, pk, p1, p2);
    ChainedOrdered(lk, mk, tk, rk, pk, p1, p2);
  }

  lemma ChainedComplete(lk: seq<Option<Key>>, mk: seq<Option<Key>>, tk: seq<Option<Key>>, rk: seq<Option<Key>>,
                        pk: (nat, nat) -> Option<Key>, p1: seq<(nat, Option<nat>)>, p2: seq<(nat, Option<nat>)>)
    requires InnerPairs(lk, mk, p1) && InnerPairs(tk, rk, p2) && |tk| == |p1|
    requires forall k :: 0 <= k < |p1| ==> tk[k] == pk(p1[k].0, p1[k].1.value)
    ensures forall x :: Chained(lk, mk, rk, pk, x) ==> x in Compose(p1, p2)
  {
    var tr := Compose(p1, p2);
    forall x | Chained(lk, mk, rk, pk, x) ensures x in tr {
      assert (x.0, Some(x.1)) in p1;
      var k :| 0 <= k < |p1| && p1[k] == (x.0, Some(x.1));
      assert (k, Some(x.2)) in p2;
      var q :| 0 <= q < |p2| && p2[q] == (k, Some(x.2));
      assert tr[q] == x;
    }
  }

  lemma ChainedOrdered(lk: seq<Option<Key>>, mk: seq<Option<Key>>, tk: seq<Option<Key>>, rk: seq<Option<Key>>,
                       pk: (nat, nat) -> Option<Key>, p1: seq<(nat, Option<nat>)>, p2: seq<(nat, Option<nat>)>)
    requires InnerPairs(lk, mk, p1) && InnerPairs(tk, rk, p2) && |tk| == |p1|
    requires forall k :: 0 <= k < |p1| ==> tk[k] == pk(p1[k].0, p1[k].1.value)
    ensures forall q, q' :: 0 <= q < q' < |p2| ==> TripleBefore(Compose(p1, p2)[q], Compose(p1, p2)[q'])
  {
    var tr := Compose(p1, p2);
    forall q, q' | 0 <= q < q' < |p2| ensures TripleBefore(tr[q], tr[q']) {
      assert Before(p2[q], p2[q']);
      if p2[q].0 < p2[q'].0 {
        assert Before(p1[p2[q].0], p1[p2[q'].0]);
      }
    }
  }

  /** The product key of each row of `Approved`'s first join as a function of
      its request and client rows. */
  ghost function ProductKeyFn(requests: Table, clients: Table): (nat, nat) -> Option<Key>
  {
    (i: nat, c: nat) => ProductKeyOf(requests, clients, i, c)
  }

  /** The (request, client, product) rows behind each row of `Approved`. */
  ghost function ApprovedTriples(requests: Table, clients: Table, products: Table): (r: seq<(nat, nat, nat)>)
    requires Valid(requests) && Valid(clients) && Valid(products) && Approved(requests, clients, products).Ok?
  {
    ApprovedJoins(requests, clients, products);
    Compose(ClientPairs(requests, clients), ProductPairs(JoinOn(requests, clients, ClientId, Inner).value, products))
  }

  /** A request, a client and a product that `Approved` puts together: the
      request's client id is the client's, and the product id the pair carries
      is the product's; nulls match nothing. */
  ghost predicate Belong(requests: Table, clients: Table, products: Table, x: (nat, nat, nat))
    requires ClientId in requests.cols && ClientId in clients.cols && ProductId in products.cols
  {
    Chained(KeysOf(requests.cols[ClientId]), KeysOf(clients.cols[ClientId]), KeysOf(products.cols[ProductId]),
            ProductKeyFn(requests, clients), x)
  }

  /** The rows of `Approved`: one per request, client and product that belong
      together, each exactly once, in request order, then client order, then
      product order. */
  lemma ApprovedRows(requests: Table, clients: Table, products: Table)
    requires Valid(requests) && Valid(clients) && Valid(products) && Approved(requests, clients, products).Ok?
    ensures ClientId in requests.cols && ClientId in clients.cols && ProductId in products.cols
    ensures |ApprovedTriples(requests, clients, products)| == Approved(requests, clients, products).value.height
    ensures forall q :: 0 <= q < |ApprovedTriples(requests, clients, products)| ==>
      Belong(requests, clients, products, ApprovedTriples(requests, clients, products)[q])
    ensures forall x :: Belong(requests, clients, products, x) ==> x in ApprovedTriples(requests, clients, products)
    ensures forall q, q' :: 0 <= q < q' < |ApprovedTriples(requests, clients, products)| ==>
      TripleBefore(ApprovedTriples(requests, clients, products)[q], ApprovedTriples(requests, clients, products)[q'])
  {
    ApprovedJoins(requests, clients, products);
    var t := JoinOn(requests, clients, ClientId, Inner).value;
    IntermediateProductKey(requests, clients);
    var lk, mk := KeysOf(requests.cols[ClientId]), KeysOf(clients.cols[ClientId]);
    var tk, rk := KeysOf(t.cols[ProductId]), KeysOf(products.cols[ProductId]);
    InnerJoinPairs(lk, mk, requests.height);
    InnerJoinPairs(tk, rk, t.height);
    ChainedInnerJoins(lk, mk, tk, rk, ProductKeyFn(requests, clients), ClientPairs(requests, clients), ProductPairs(t, products));
  }

  /** The request, client and product rows of the triples, as row indices. */
  ghost function Firsts(tr: seq<(nat, nat, nat)>): (r: seq<Option<nat>>)
    ensures |r| == |tr| && forall q :: 0 <= q < |tr| ==> r[q] == Some(tr[q].0)
  {
    seq(|tr|, q requires 0 <= q < |tr| => Some(tr[q].0))
  }

  ghost function Seconds(tr: seq<(nat, nat, nat)>): (r: seq<Option<nat>>)
    ensures |r| == |tr| && forall q :: 0 <= q < |tr| ==> r[q] == Some(tr[q].1)
  {
    seq(|tr|, q requires 0 <= q < |tr| => Some(tr[q].1))
  }

  ghost function Thirds(tr: seq<(nat, nat, nat)>): (r: seq<Option<nat>>)
    ensures |r| == |tr| && forall q :: 0 <= q < |tr| ==> r[q] == Some(tr[q].2)
  {
    seq(|tr|, q requires 0 <= q < |tr| => Some(tr[q].2))
  }

  /** Every triple's rows lie within the three tables. */
  ghost predicate Within(tr: seq<(nat, nat, nat)>, h0: nat, h1: nat, h2: nat)
  {
    forall q :: 0 <= q < |tr| ==> tr[q].0 < h0 && tr[q].1 < h1 && tr[q].2 < h2
  }

  /** The columns of `a` are those of two chained joins whose rows are the
      triples `tr`: every left column, then every middle and every right column
      but its key (renamed on a clash; `taken` is the names of the first
      join's result), each taken at the left, middle or right row of the
      triple behind each row. */
  ghost predicate ColumnsFrom(left: Table, mid: Table, right: Table, taken: set<string>, a: Table, tr: seq<(nat, nat, nat)>)
    requires Valid(left) && Valid(mid) && Valid(right)
  {
    && Within(tr, left.height, mid.height, right.height)
    && (forall n :: n in left.cols ==> n in a.cols && a.cols[n] == Gather(left.cols[n], Firsts(tr)))
    && (forall n :: n in mid.names && n != ClientId ==>
          Renamed(n, left.cols.Keys) in a.cols && a.cols[Renamed(n, left.cols.Keys)] == Gather(mid.cols[n], Seconds(tr)))
    && (forall n :: n in right.names && n != ProductId ==>
          Renamed(n, taken) in a.cols && a.cols[Renamed(n, taken)] == Gather(right.cols[n], Thirds(tr)))
  }

  /** The columns of `Approved`: every request column, then every client and
      every product column but the keys (renamed on a clash), each taken at the
      request, client or product row of the triple behind each row. */
  lemma ApprovedColumns(requests: Table, clients: Table, products: Table)
    requires Valid(requests) && Valid(clients) && Valid(products) && Approved(requests, clients, products).Ok?
    ensures ClientId in requests.cols && ClientId in clients.cols
    ensures JoinOn(requests, clients, ClientId, Inner).Ok?
    ensures ColumnsFrom(requests, clients, products, JoinOn(requests, clients, ClientId, Inner).value.cols.Keys,
                        Approved(requests, clients, products).value, ApprovedTriples(requests, clients, products))
  {
    ApprovedJoins(requests, clients, products);
    var t := JoinOn(requests, clients, ClientId, Inner).value;
    var p1, p2 := ClientPairs(requests, clients), ProductPairs(t, products);
    ChainedColumns(requests, clients, products, t, Approved(requests, clients, products).value, p1, p2);
  }

  /** The columns of two chained joins, in terms of the composed triples. */
  lemma ChainedColumns(left: Table, mid: Table, right: Table, t: Table, a: Table,
                       p1: seq<(nat, Option<nat>)>, p2: seq<(nat, Option<nat>)>)
    requires Valid(left) && Valid(mid) && Valid(right) && Valid(t)
    requires forall k :: 0 <= k < |p1| ==> p1[k].0 < left.height && p1[k].1.Some? && p1[k].1.value < mid.height
    requires forall q :: 0 <= q < |p2| ==> p2[q].0 < |p1| && p2[q].1.Some? && p2[q].1.value < right.height
    requires t.height == |p1|
    requires forall n :: n in left.cols ==> n in t.cols && t.cols[n] == Gather(left.cols[n], LeftRows(p1))
    requires forall n :: n in mid.names && n != ClientId ==>
      Renamed(n, left.cols.Keys) in t.cols && t.cols[Renamed(n, left.cols.Keys)] == Gather(mid.cols[n], RightRows(p1))
    requires forall n :: n in t.cols ==> n in a.cols && a.cols[n] == Gather(t.cols[n], LeftRows(p2))
    requires forall n :: n in right.names && n != ProductId ==>
      Renamed(n, t.cols.Keys) in a.cols && a.cols[Renamed(n, t.cols.Keys)] == Gather(right.cols[n], RightRows(p2))
    ensures ColumnsFrom(left, mid, right, t.cols.Keys, a, Compose(p1, p2))
  {
    var tr := Compose(p1, p2);
    forall n | n in left.cols ensures a.cols[n] == Gather(left.cols[n], Firsts(tr)) {
      GatherTwice(left.cols[n], LeftRows(p1), LeftRows(p2), Firsts(tr));
    }
    forall n | n in mid.names && n != ClientId
      ensures a.cols[Renamed(n, left.cols.Keys)] == Gather(mid.cols[n], Seconds(tr))
    {
      GatherTwice(mid.cols[n], RightRows(p1), LeftRows(p2), Seconds(tr));
    }
    assert RightRows(p2) == Thirds(tr);
  }

  /** Gathering twice is gathering once by the composed indices. */
  lemma GatherTwice(s: Series, inner: seq<Option<nat>>, outer: seq<Option<nat>>, both: seq<Option<nat>>)
    requires forall k :: 0 <= k < |inner| && inner[k].Some? ==> inner[k].value < s.Len()
    requires forall k :: 0 <= k < |outer| && outer[k].Some? ==> outer[k].value < |inner|
    requires |both| == |outer|
    requires forall k :: 0 <= k < |outer| ==> both[k] == if outer[k].Some? then inner[outer[k].value] else None
    ensures Gather(Gather(s, inner), outer) == Gather(s, both)
  {
    match s
    case Strs(c) => assert GatherCells(GatherCells(c, inner), outer) == GatherCells(c, both);
    case Nums(c) => assert GatherCells(GatherCells(c, inner), outer) == GatherCells(c, both);
    case Dates(c) => assert GatherCells(GatherCells(c, inner), outer) == GatherCells(c, both);
  }

  lemma ApprovedJoins(requests: Table, clients: Table, products: Table)
    requires Valid(requests) && Valid(clients) && Valid(products) && Approved(requests, clients, products).Ok?
    ensures ClientId in requests.cols && ClientId in clients.cols && ProductId in products.cols
    ensures JoinOn(requests, clients, ClientId, Inner).Ok?
    ensures var t := JoinOn(requests, clients, ClientId, Inner).value;
      && ProductId in t.cols && t.height == |ClientPairs(requests, clients)|
      && Approved(requests, clients, products) == JoinOn(t, products, ProductId, Inner)
  {
    var t := Join(requests, clients, ClientId, Inner).value;
    assert Approved(requests, clients, products) == Join(t, products, ProductId, Inner);
  }

  /** The product key of each row of the request-client join. */
  lemma IntermediateProductKey(requests: Table, clients: Table)
    requires Valid(requests) && Valid(clients) && ClientId in requests.cols && ClientId in clients.cols
    requires JoinOn(requests, clients, ClientId, Inner).Ok?
    requires ProductId in JoinOn(requests, clients, ClientId, Inner).value.cols
    ensures var t := JoinOn(requests, clients, ClientId, Inner).value;
      t.height == |ClientPairs(requests, clients)| &&
      forall r :: 0 <= r < t.height ==>
        KeysOf(t.cols[ProductId])[r] == ProductKeyOf(requests, clients, ClientPairs(requests, clients)[r].0, ClientPairs(requests, clients)[r].1.value)
  {
    var t := JoinOn(requests, clients, ClientId, Inner).value;
    var p1 := ClientPairs(requests, clients);
    if ProductId in requests.cols {
      KeysOfGather(requests.cols[ProductId], LeftRows(p1));
    } else {
      var m :| m in clients.names && m != ClientId && ProductId == Renamed(m, requests.cols.Keys);
      if m in requests.cols {
        assert ProductId[8] == (m + "_right")[8];
      }
      KeysOfGather(clients.cols[ProductId], RightRows(p1));
    }
  }

  /** `fill_null("bom")` on the label. */
  function FillClass(t: Table): (r: Result<Table>)
    requires Valid(t)
    ensures r.Ok? <==> Class in t.cols && t.cols[Class].Strs?
    ensures r.Ok? ==> Valid(r.value) && r.value.height == t.height
    ensures r.Ok? ==> Class in r.value.cols && r.value.cols == t.cols[Class := r.value.cols[Class]]
    ensures r.Ok? ==> r.value.cols[Class].Strs? && forall i :: 0 <= i < t.height ==>
      r.value.cols[Class].strs[i] == if t.cols[Class].strs[i].Some? then t.cols[Class].strs[i] else Some(Good)
  {
    match Get(t, Class)
    case Err(e) => Err(e)
    case Ok(Strs(c)) => Ok(WithColumn(t, Class, Strs(FillNullCells(c, Some(Good)))))
    case Ok(_) => Err(SchemaMismatch(Class))
  }

  /** The approved requests with their label, before the final columns. */
  function Labelled(requests: Table, clients: Table, products: Table, installments: Table): (r: Result<Table>)
    requires Valid(requests) && Valid(clients) && Valid(products) && Valid(installments)
  {
    match Approved(requests, clients, products)
    case Err(e) => Err(e)
    case Ok(t) => Label(t, installments)
  }

  /** The target joined onto the approved requests, and the missing labels
      filled with "bom". */
  function Label(approved: Table, installments: Table): (r: Result<Table>)
    requires Valid(approved) && Valid(installments)
    ensures r.Ok? ==> Valid(r.value)
  {
    match Target(installments)
    case Err(e) => Err(e)
    case Ok(target) =>
      match Join(approved, target, RequestId, Left)
      case Err(e) => Err(e)
      case Ok(joined) => FillClass(joined)
  }

  /** A left join of the target onto requests that have no label yet: the
      requests keep their rows and columns, and the joined label is the one the
      request deserves, or a null for a request the target does not list,
      which deserves "bom". */
  lemma JoinedLabels(a: Table, installments: Table)
    requires Valid(a) && Valid(installments) && Target(installments).Ok?
    requires RequestId in a.cols && Class !in a.cols
    requires JoinOn(a, Target(installments).value, RequestId, Left).Ok?
    ensures var j := JoinOn(a, Target(installments).value, RequestId, Left).value;
      var lk := KeysOf(a.cols[RequestId]);
      && j.height == a.height
      && (forall n :: n in a.cols ==> n in j.cols && j.cols[n] == a.cols[n])
      && Class in j.cols && j.cols[Class].Strs?
      && forall i :: 0 <= i < a.height ==> JoinedCell(j.cols[Class].strs[i], ExpectedLabel(installments, lk[i]))
  {
    var target := Target(installments).value;
    TargetOnePerRequest(installments);
    var tk := KeysOf(target.cols[RequestId]);
    assert UniqueKeys(tk);
    LeftJoinKeepsRows(a, target, RequestId);
    assert Class in target.names && Renamed(Class, a.cols.Keys) == Class;
    var j := JoinOn(a, target, RequestId, Left).value;
    var found := Found(a, target, RequestId);
    assert j.cols[Class] == Gather(target.cols[Class], found);
    var lk := KeysOf(a.cols[RequestId]);
    forall i | 0 <= i < a.height
      ensures JoinedCell(j.cols[Class].strs[i], ExpectedLabel(installments, lk[i]))
    {
      assert found[i] == Lookup(tk, lk[i]);
      JoinedRow(installments, lk[i]);
    }
  }

  /** The label a request finds in the target by its key. */
  lemma JoinedRow(installments: Table, k: Option<Key>)
    requires Valid(installments) && Target(installments).Ok?
    ensures var target := Target(installments).value;
      var found := Lookup(KeysOf(target.cols[RequestId]), k);
      && target.cols[Class].Strs?
      && JoinedCell(if found.Some? then target.cols[Class].strs[found.value] else None, ExpectedLabel(installments, k))
  {
    var target := Target(installments).value;
    TargetOnePerRequest(installments);
    var tk := KeysOf(target.cols[RequestId]);
    var ik := KeysOf(installments.cols[RequestId]);
    var status := installments.cols[Status].strs;
    var found := Lookup(tk, k);
    if found.Some? {
      TargetLabels(installments, found.value);
    } else if k.Some? {
      CountOverdueAbsent(ik, status, k, |ik|);
      CountOverdueCounts(ik, status, k, |ik|);
    }
  }

  /** A joined label cell: the deserved label, or a null standing for "bom". */
  ghost predicate JoinedCell(cell: Option<string>, expected: string)
  {
    if cell.Some? then cell.value == expected else expected == Good
  }

  /** The label rule: every approved request keeps exactly one row, unchanged,
      and its label is "ruim" when it has an overdue instalment and "bom"
      otherwise, a request without instalments or without a key included. */
  lemma LabelRule(a: Table, installments: Table)
    requires Valid(a) && Valid(installments) && Label(a, installments).Ok? && Class !in a.cols
    ensures var t := Label(a, installments).value;
      && RequestId in a.cols && Target(installments).Ok?
      && t.height == a.height
      && (forall n :: n in a.cols ==> n in t.cols && t.cols[n] == a.cols[n])
      && Class in t.cols && t.cols[Class].Strs?
      && forall i :: 0 <= i < t.height ==>
        t.cols[Class].strs[i] == Some(ExpectedLabel(installments, KeysOf(a.cols[RequestId])[i]))
  {
    LabelSteps(a, installments);
    JoinedLabels(a, installments);
  }

  /** `Label` succeeded: the target was built, the left join went through, and
      the result is its label column filled. */
  lemma LabelSteps(a: Table, installments: Table)
    requires Valid(a) && Valid(installments) && Label(a, installments).Ok?
    ensures Target(installments).Ok? && RequestId in a.cols && RequestId in Target(installments).value.cols
    ensures JoinOn(a, Target(installments).value, RequestId, Left).Ok?
    ensures Label(a, installments) == FillClass(JoinOn(a, Target(installments).value, RequestId, Left).value)
  {
    var target := Target(installments).value;
    assert Join(a, target, RequestId, Left) == JoinOn(a, target, RequestId, Left);
  }

  /** `select(columns)`: every listed column, in the listed order; a missing
      column or a repeated name raises. */
  function Project(t: Table, names: seq<string>, acc: Table): (r: Result<Table>)
    requires Valid(t) && Valid(acc) && acc.height == t.height
    requires forall n :: n in acc.cols ==> n in t.cols && acc.cols[n] == t.cols[n]
    ensures r.Ok? ==> Valid(r.value) && r.value.height == t.height && r.value.names == acc.names + names
    ensures r.Ok? ==> forall n :: n in r.value.cols ==> n in t.cols && r.value.cols[n] == t.cols[n]
    decreases |names|
  {
    if names == [] then Ok(acc)
    else if names[0] !in t.cols then Err(ColumnNotFound(names[0]))
    else if names[0] in acc.cols then Err(DuplicateColumn(names[0]))
    else
      var next := WithColumn(acc, names[0], t.cols[names[0]]);
      assert acc.names + names == next.names + names[1..];
      Project(t, names[1..], next)
  }

  function Select(t: Table, names: seq<string>): (r: Result<Table>)
    requires Valid(t)
    ensures r.Ok? ==> Valid(r.value) && r.value.height == t.height && r.value.names == names
    ensures r.Ok? ==> forall n :: n in names ==> n in t.cols && n in r.value.cols && r.value.cols[n] == t.cols[n]
    ensures Distinct(names) && (forall n :: n in names ==> n in t.cols) ==> r.Ok?
  {
    var r := Project(t, names, Table([], map[], t.height));
    assert Distinct(names) && (forall n :: n in names ==> n in t.cols) ==> r.Ok? by {
      if Distinct(names) && (forall n :: n in names ==> n in t.cols) {
        ProjectSucceeds(t, names, Table([], map[], t.height));
      }
    }
    r
  }

  lemma {:induction false} ProjectSucceeds(t: Table, names: seq<string>, acc: Table)
    requires Valid(t) && Valid(acc) && acc.height == t.height
    requires forall n :: n in acc.cols ==> n in t.cols && acc.cols[n] == t.cols[n]
    requires Distinct(names) && (forall n :: n in names ==> n in t.cols && n !in acc.cols)
    ensures Project(t, names, acc).Ok?
    decreases |names|
  {
    if names != [] {
      var acc' := WithColumn(acc, names[0], t.cols[names[0]]);
      assert forall n :: n in names[1..] ==> n != names[0] by {
        forall j | 0 <= j < |names[1..]| ensures names[1..][j] != names[0] {
          assert names[1..][j] == names[j + 1];
        }
      }
      assert Distinct(names[1..]) by {
        forall a, b | 0 <= a < b < |names[1..]| ensures names[1..][a] != names[1..][b] {
          assert names[1..][a] == names[a + 1] && names[1..][b] == names[b + 1];
        }
      }
      ProjectSucceeds(t, names[1..], acc');
    }
  }

  /** The three columns `gerar_base_ia` derives before the projection. */
  const AgeOut := "idade"
  const RequestedOut := "valor_solicitado"
  const TotalOut := "valor_total_bem"

  /** `gerar_base_ia` without the fetches and the parquet file: the labelled
      requests go through `Finish`. */
  function BuildDataset(requests: Table, clients: Table, products: Table, installments: Table, currentYear: int): (r: Result<Table>)
    requires Valid(requests) && Valid(clients) && Valid(products) && Valid(installments)
    ensures r.Ok? ==> Valid(r.value) && r.value.names == FinalColumns
  {
    match Labelled(requests, clients, products, installments)
    case Err(e) => Err(e)
    case Ok(t) => Finish(t, currentYear)
  }

  /** The age and the two parsed amounts, all three computed from the same
      frame, and then the thirteen final columns: the other ten come through
      unchanged, the derived ones hold what their operations compute, and the
      projection succeeds whenever the three derivations do and the ten
      columns exist (`FinishSucceeds`). */
  function Finish(t: Table, currentYear: int): (r: Result<Table>)
    requires Valid(t)
    ensures r.Ok? ==> Valid(r.value) && r.value.names == FinalColumns && r.value.height == t.height
    ensures r.Ok? ==> forall n :: n in FinalColumns && n != AgeOut && n != RequestedOut && n != TotalOut ==>
      n in t.cols && r.value.cols[n] == t.cols[n]
    ensures r.Ok? ==> && Age(t, BirthDate, currentYear).Ok? && r.value.cols[AgeOut] == Age(t, BirthDate, currentYear).value
                      && ParseCurrencyColumn(t, RequestedAmount).Ok?
                      && r.value.cols[RequestedOut] == ParseCurrencyColumn(t, RequestedAmount).value
                      && ParseCurrencyColumn(t, TotalValue).Ok?
                      && r.value.cols[TotalOut] == ParseCurrencyColumn(t, TotalValue).value
  {
    match (Age(t, BirthDate, currentYear), ParseCurrencyColumn(t, RequestedAmount), ParseCurrencyColumn(t, TotalValue))
    case (Err(e), _, _) => Err(e)
    case (_, Err(e), _) => Err(e)
    case (_, _, Err(e)) => Err(e)
    case (Ok(age), Ok(requested), Ok(total)) =>
      var w := WithDerived(t, age, requested, total);
      FinalColumnsDistinct();
      Select(w, FinalColumns)
  }

  /** The projection cannot fail once the derivations succeed and the ten
      columns that are not derived are present. */
  lemma FinishSucceeds(t: Table, currentYear: int)
    requires Valid(t)
    requires Age(t, BirthDate, currentYear).Ok?
    requires ParseCurrencyColumn(t, RequestedAmount).Ok? && ParseCurrencyColumn(t, TotalValue).Ok?
    requires forall n :: n in FinalColumns && n != AgeOut && n != RequestedOut && n != TotalOut ==> n in t.cols
    ensures Finish(t, currentYear).Ok?
  {
    var w := WithDerived(t, Age(t, BirthDate, currentYear).value, ParseCurrencyColumn(t, RequestedAmount).value,
                         ParseCurrencyColumn(t, TotalValue).value);
    FinalColumnsDistinct();
    forall n | n in FinalColumns ensures n in w.cols {
      if n != AgeOut && n != RequestedOut && n != TotalOut {
        assert n in t.cols;
      }
    }
    assert Select(w, FinalColumns).Ok?;
  }

  lemma FinishKeepsLabel(t: Table, currentYear: int)
    requires Valid(t) && Finish(t, currentYear).Ok?
    ensures Class in t.cols && Class in Finish(t, currentYear).value.cols
    ensures Finish(t, currentYear).value.cols[Class] == t.cols[Class]
  {
    FinalColumnsDistinct();
  }

  function WithDerived(t: Table, age: Series, requested: Series, total: Series): (w: Table)
    requires Valid(t) && age.Len() == t.height && requested.Len() == t.height && total.Len() == t.height
    ensures Valid(w) && w.height == t.height
    ensures AgeOut in w.cols && RequestedOut in w.cols && TotalOut in w.cols
    ensures w.cols[AgeOut] == age && w.cols[RequestedOut] == requested && w.cols[TotalOut] == total
    ensures forall n :: n in t.cols && n != AgeOut && n != RequestedOut && n != TotalOut ==> n in w.cols && w.cols[n] == t.cols[n]
    ensures forall n :: n in w.cols ==> n in t.cols || n == AgeOut || n == RequestedOut || n == TotalOut
  {
    var t1 := WithColumn(t, AgeOut, age);
    var t2 := WithColumn(t1, RequestedOut, requested);
    WithColumn(t2, TotalOut, total)
  }

  /** The dataset keeps one row per approved request, has exactly the thirteen
      columns in the listed order, and every label is "ruim" exactly for the
      requests with an overdue instalment and "bom" for all others. */
  lemma DatasetLabels(requests: Table, clients: Table, products: Table, installments: Table, currentYear: int)
    requires Valid(requests) && Valid(clients) && Valid(products) && Valid(installments)
    requires BuildDataset(requests, clients, products, installments, currentYear).Ok?
    requires Class !in Approved(requests, clients, products).value.cols
    ensures var d := BuildDataset(requests, clients, products, installments, currentYear).value;
      var a := Approved(requests, clients, products).value;
      && d.names == FinalColumns && d.height == a.height
      && RequestId in a.cols && Target(installments).Ok?
      && Class in d.cols && d.cols[Class].Strs? && |d.cols[Class].strs| == d.height
      && forall i :: 0 <= i < d.height ==>
        d.cols[Class].strs[i] == Some(ExpectedLabel(installments, KeysOf(a.cols[RequestId])[i]))
  {
    var a := Approved(requests, clients, products).value;
    LabelRule(a, installments);
    var t := Label(a, installments).value;
    assert BuildDataset(requests, clients, products, installments, currentYear) == Finish(t, currentYear);
    FinishKeepsLabel(t, currentYear);
  }

  /** Every label of the dataset is "bom" or "ruim". */
  lemma ExpectedLabelIsBinary(installments: Table, k: Option<Key>)
    requires Valid(installments) && RequestId in installments.cols && Status in installments.cols
    requires installments.cols[Status].Strs?
    ensures ExpectedLabel(installments, k) == Bad || ExpectedLabel(installments, k) == Good
    ensures ExpectedLabel(installments, k) == Bad <==>
      k.Some? && CountOverdue(KeysOf(installments.cols[RequestId]), installments.cols[Status].strs, k,
                              |KeysOf(installments.cols[RequestId])|) > 0
  {
    var ik := KeysOf(installments.cols[RequestId]);
    CountOverdueCounts(ik, installments.cols[Status].strs, k, |ik|);
  }
}
