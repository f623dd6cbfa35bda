/** The aggregate step of the first script: keep the rows whose pair index
    was requested (`df['index'].isin(...)`), then take the mean of their
    `J_ij(meV)` column the way pandas does (`.mean()`, skipping NaN). */
module Selection {
  import opened Numerals
  import opened Jij

  /** The rows of `table` whose index occurs in `wanted`, in table order. */
  function Select(table: seq<JijRow>, wanted: seq<int>): (kept: seq<JijRow>)
    ensures forall row :: row in kept <==> row in table && row.index in wanted
    ensures |kept| <= |table|
  {
    if |table| == 0 then []
    else (if table[0].index in wanted then [table[0]] else []) + Select(table[1..], wanted)
  }

  /** Filtering a concatenation filters each part in place: no row moves. */
  lemma {:induction false} SelectAppend(a: seq<JijRow>, b: seq<JijRow>, wanted: seq<int>)
    ensures Select(a + b, wanted) == Select(a, wanted) + Select(b, wanted)
    decreases |a|
  {
    if |a| == 0 {
      assert a + b == b;
    } else {
      assert (a + b)[1..] == a[1..] + b;
      SelectAppend(a[1..], b, wanted);
    }
  }

  /** `a` is `b` with some elements removed and the rest in their original order. */
  predicate IsSubsequence<T(==)>(a: seq<T>, b: seq<T>)
    decreases |b|
  {
    if |a| == 0 then true
    else if |b| == 0 then false
    else if a[0] == b[0] then IsSubsequence(a[1..], b[1..])
    else IsSubsequence(a, b[1..])
  }

  lemma {:induction false} SelectIsSubsequence(table: seq<JijRow>, wanted: seq<int>)
    ensures IsSubsequence(Select(table, wanted), table)
    decreases |table|
  {
    if |table| > 0 {
      SelectIsSubsequence(table[1..], wanted);
      var rest := Select(table[1..], wanted);
      if table[0].index in wanted {
        assert Select(table, wanted) == [table[0]] + rest;
        assert ([table[0]] + rest)[1..] == rest;
      } else {
        assert Select(table, wanted) == rest;
      }
    }
  }

  /** Every matching row is kept as often as it occurs, duplicates included,
      and no other row is kept. */
  lemma {:induction false} SelectCounts(table: seq<JijRow>, wanted: seq<int>, row: JijRow)
    ensures multiset(Select(table, wanted))[row] == if row.index in wanted then multiset(table)[row] else 0
    decreases |table|
  {
    if |table| > 0 {
      SelectCounts(table[1..], wanted, row);
      var rest := Select(table[1..], wanted);
      CountCons(table[0], table[1..], row);
      assert [table[0]] + table[1..] == table;
      if table[0].index in wanted {
        CountCons(table[0], rest, row);
        assert Select(table, wanted) == [table[0]] + rest;
      } else {
        assert Select(table, wanted) == rest;
      }
    }
  }

  lemma CountCons<T>(x: T, xs: seq<T>, y: T)
    ensures multiset([x] + xs)[y] == (if x == y then 1 else 0) + multiset(xs)[y]
  {
    assert multiset([x] + xs) == multiset{x} + multiset(xs);
  }

  /** Only which indices are requested matters: repeating or reordering the
      request changes nothing. */
  lemma {:induction false} SelectRequestIsASet(table: seq<JijRow>, wanted1: seq<int>, wanted2: seq<int>)
    requires forall i :: i in wanted1 <==> i in wanted2
    ensures Select(table, wanted1) == Select(table, wanted2)
    decreases |table|
  {
    if |table| > 0 {
      SelectRequestIsASet(table[1..], wanted1, wanted2);
    }
  }

  /** The `J_ij(meV)` column. */
  function MeVColumn(rows: seq<JijRow>): (col: seq<Float>)
    ensures |col| == |rows|
    ensures forall i :: 0 <= i < |rows| ==> col[i] == rows[i].jMeV
  {
    if |rows| == 0 then [] else [rows[0].jMeV] + MeVColumn(rows[1..])
  }

  /** Float addition on the values the model keeps: NaN absorbs, opposite
      infinities give NaN, an infinity absorbs any finite value. */
  function Add(a: Float, b: Float): Float {
    match (a, b)
    case (NaN, _) => NaN
    case (_, NaN) => NaN
    case (Infinite(p), Infinite(q)) => if p == q then a else NaN
    case (Infinite(_), Finite(_)) => a
    case (Finite(_), Infinite(_)) => b
    case (Finite(x), Finite(y)) => Finite(x + y)
  }

  /** The running sum pandas forms over the non-missing values. */
  function Total(xs: seq<Float>): Float
  {
    if |xs| == 0 then Finite(0.0) else Add(Total(xs[..|xs| - 1]), xs[|xs| - 1])
  }

  /** The non-NaN entries, in order: `xs` with every NaN removed. */
  function Present(xs: seq<Float>): (ys: seq<Float>)
    ensures forall y :: y in ys <==> y in xs && y != NaN
    ensures multiset(ys) == multiset(xs)[NaN := 0]
    ensures |ys| == |xs| - multiset(xs)[NaN]
    ensures IsSubsequence(ys, xs)
    decreases |xs|
  {
    if |xs| == 0 then []
    else
      assert xs == [xs[0]] + xs[1..];
      var rest := Present(xs[1..]);
      if xs[0] == NaN then
        assert |rest| > 0 ==> rest[0] in rest;
        rest
      else
        assert ([xs[0]] + rest)[1..] == rest;
        [xs[0]] + rest
  }

  /** pandas' `Series.mean()`: NaN entries are skipped; the sum of the rest is
      divided by how many there are; nothing left gives NaN. The result is
      NaN exactly when every entry is NaN or both infinities occur, an
      infinity exactly when one sign of infinity occurs, and otherwise the
      exact sum of the finite entries over their count. */
  function Mean(xs: seq<Float>): (r: Float)
    ensures r == NaN <==> (forall i :: 0 <= i < |xs| ==> xs[i] == NaN) || (Occurs(xs, Infinite(true)) && Occurs(xs, Infinite(false)))
    ensures r.Infinite? <==> Occurs(xs, Infinite(true)) != Occurs(xs, Infinite(false))
    ensures r.Infinite? ==> r.negative == Occurs(xs, Infinite(true))
    ensures r.Finite? ==> multiset(xs)[NaN] < |xs| && r.value == FiniteSum(xs) / (|xs| - multiset(xs)[NaN]) as real
  {
    var ys := Present(xs);
    PresentKeeps(xs);
    TotalCases(ys);
    if |ys| == 0 then NaN
    else match Total(ys)
      case Finite(s) => Finite(s / |ys| as real)
      case other => other
  }

  /** What skipping NaN keeps: every other value, the finite sum, and the
      count of the rest. */
  lemma PresentKeeps(xs: seq<Float>)
    ensures forall x :: x != NaN ==> (Occurs(Present(xs), x) <==> Occurs(xs, x))
    ensures !Occurs(Present(xs), NaN)
    ensures FiniteSum(Present(xs)) == FiniteSum(xs)
    ensures |Present(xs)| == 0 <==> forall i :: 0 <= i < |xs| ==> xs[i] == NaN
  {
    var ys := Present(xs);
    OccursIn(xs);
    OccursIn(ys);
    PresentSum(xs);
    if |ys| > 0 {
      assert ys[0] in ys;
    }
  }

  lemma OccursIn(xs: seq<Float>)
    ensures forall x :: Occurs(xs, x) <==> x in xs
  {
    forall x | x in xs
      ensures Occurs(xs, x)
    {
      var i :| 0 <= i < |xs| && xs[i] == x;
    }
  }

  lemma {:induction false} PresentSum(xs: seq<Float>)
    ensures FiniteSum(Present(xs)) == FiniteSum(xs)
    decreases |xs|
  {
    if |xs| > 0 {
      var init := xs[..|xs| - 1];
      var last := xs[|xs| - 1];
      assert xs == init + [last];
      PresentSum(init);
      PresentSnoc(init, last);
      FiniteSumSnoc(init, last);
      if last != NaN {
        FiniteSumSnoc(Present(init), last);
      }
    }
  }

  lemma PresentSnoc(init: seq<Float>, last: Float)
    ensures Present(init + [last]) == if last == NaN then Present(init) else Present(init) + [last]
  {
    PresentAppend(init, [last]);
    PresentOne(last);
    assert Present(init) + [] == Present(init);
  }

  lemma PresentOne(x: Float)
    ensures Present([x]) == if x == NaN then [] else [x]
  {
    assert [x][1..] == [];
  }

  lemma FiniteSumSnoc(xs: seq<Float>, x: Float)
    ensures FiniteSum(xs + [x]) == FiniteSum(xs) + match x case Finite(v) => v case _ => 0.0
  {
    assert (xs + [x])[..|xs|] == xs;
  }

  /** The exact sum of the finite entries. */
  function FiniteSum(xs: seq<Float>): real {
    if |xs| == 0 then 0.0
    else FiniteSum(xs[..|xs| - 1]) + (match xs[|xs| - 1] case Finite(v) => v case _ => 0.0)
  }

  predicate AllFinite(xs: seq<Float>) {
    forall i :: 0 <= i < |xs| ==> xs[i].Finite?
  }

  predicate Occurs(xs: seq<Float>, x: Float) {
    exists i :: 0 <= i < |xs| && xs[i] == x
  }

  /** What the running sum comes to, by the kinds of values present. */
  lemma {:induction false} TotalCases(xs: seq<Float>)
    ensures Total(xs) == NaN <==> Occurs(xs, NaN) || (Occurs(xs, Infinite(true)) && Occurs(xs, Infinite(false)))
    ensures Total(xs).Infinite? <==> !Occurs(xs, NaN) && (Occurs(xs, Infinite(true)) != Occurs(xs, Infinite(false)))
    ensures Total(xs).Infinite? ==> Occurs(xs, Infinite(Total(xs).negative))
    ensures Total(xs).Finite? <==> AllFinite(xs)
    ensures Total(xs).Finite? ==> Total(xs).value == FiniteSum(xs)
    decreases |xs|
  {
    if |xs| > 0 {
      var init := xs[..|xs| - 1];
      var last := xs[|xs| - 1];
      TotalCases(init);
      OccursSnoc(init, last);
      assert xs == init + [last];
    }
  }

  lemma OccursSnoc(init: seq<Float>, last: Float)
    ensures forall x :: Occurs(init + [last], x) <==> Occurs(init, x) || x == last
    ensures AllFinite(init + [last]) <==> AllFinite(init) && last.Finite?
  {
    var xs := init + [last];
    forall x
      ensures Occurs(xs, x) <==> Occurs(init, x) || x == last
    {
      if Occurs(init, x) {
        var i :| 0 <= i < |init| && init[i] == x;
        assert xs[i] == x;
      }
      if x == last {
        assert xs[|init|] == x;
      }
      if Occurs(xs, x) {
        var i :| 0 <= i < |xs| && xs[i] == x;
        if i < |init| {
          assert init[i] == x;
        }
      }
    }
    if AllFinite(xs) {
      assert forall i :: 0 <= i < |init| ==> init[i] == xs[i];
      assert xs[|init|] == last;
    }
  }

  /** The mean of finite values is their exact sum over their count. */
  lemma MeanOfFinite(xs: seq<Float>)
    requires AllFinite(xs) && |xs| > 0
    ensures Mean(xs) == Finite(FiniteSum(xs) / |xs| as real)
  {
    PresentOfFinite(xs);
    TotalCases(xs);
  }

  lemma {:induction false} PresentOfFinite(xs: seq<Float>)
    requires AllFinite(xs)
    ensures Present(xs) == xs
    decreases |xs|
  {
    if |xs| > 0 {
      assert xs[0] != NaN;
      PresentOfFinite(xs[1..]);
      assert xs == [xs[0]] + xs[1..];
    }
  }

  /** With no value left after skipping NaN the mean is NaN (an empty
      selection prints `nan`). */
  lemma MeanOfNothing(xs: seq<Float>)
    requires forall i :: 0 <= i < |xs| ==> xs[i] == NaN
    ensures Mean(xs) == NaN
  {
    PresentOfNaN(xs);
  }

  lemma {:induction false} PresentOfNaN(xs: seq<Float>)
    requires forall i :: 0 <= i < |xs| ==> xs[i] == NaN
    ensures Present(xs) == []
    decreases |xs|
  {
    if |xs| > 0 {
      PresentOfNaN(xs[1..]);
    }
  }

  /** The mean of finite values lies between their least and greatest. */
  lemma MeanBounds(xs: seq<Float>, lo: real, hi: real)
    requires AllFinite(xs) && |xs| > 0
    requires forall i :: 0 <= i < |xs| ==> lo <= xs[i].value <= hi
    ensures Mean(xs).Finite? && lo <= Mean(xs).value <= hi
  {
    SumBounds(xs, lo, hi);
    DivideBounds(FiniteSum(xs), |xs| as real, lo, hi);
    MeanOfFinite(xs);
  }

  lemma DivideBounds(s: real, n: real, lo: real, hi: real)
    requires n > 0.0 && lo * n <= s <= hi * n
    ensures lo <= s / n <= hi
  {
  }

  lemma {:induction false} SumBounds(xs: seq<Float>, lo: real, hi: real)
    requires AllFinite(xs)
    requires forall i :: 0 <= i < |xs| ==> lo <= xs[i].value <= hi
    ensures lo * |xs| as real <= FiniteSum(xs) <= hi * |xs| as real
    decreases |xs|
  {
    if |xs| > 0 {
      var init := xs[..|xs| - 1];
      assert forall i :: 0 <= i < |init| ==> init[i] == xs[i];
      SumBounds(init, lo, hi);
      var v := xs[|xs| - 1].value;
      assert lo <= v <= hi;
      assert FiniteSum(xs) == FiniteSum(init) + v;
      StepBounds(FiniteSum(init), v, |init| as real, lo, hi);
    }
  }

  lemma StepBounds(s: real, v: real, n: real, lo: real, hi: real)
    requires lo * n <= s <= hi * n && lo <= v <= hi
    ensures lo * (n + 1.0) <= s + v <= hi * (n + 1.0)
  {
  }

  lemma {:induction false} PresentAppend(a: seq<Float>, b: seq<Float>)
    ensures Present(a + b) == Present(a) + Present(b)
    decreases |a|
  {
    if |a| == 0 {
      assert a + b == b;
    } else {
      assert (a + b)[0] == a[0];
      assert (a + b)[1..] == a[1..] + b;
      PresentAppend(a[1..], b);
    }
  }

  /** A NaN anywhere in the column leaves the mean unchanged. */
  lemma MeanSkipsNaN(a: seq<Float>, b: seq<Float>)
    ensures Mean(a + [NaN] + b) == Mean(a + b)
  {
    PresentAppend(a + [NaN], b);
    PresentAppend(a, [NaN]);
    PresentAppend(a, b);
    assert Present([NaN]) == [];
    assert Present(a) + [] == Present(a);
  }

  /** Two rows with index 3 and `J_ij(meV)` values -0.43 and 0.57 average to 0.07. */
  lemma MeanExample()
    ensures Mean([Finite(-0.43), Finite(0.57)]) == Finite(0.07)
  {
    var xs := [Finite(-0.43), Finite(0.57)];
    MeanOfFinite(xs);
    assert xs[..1] == [Finite(-0.43)];
    assert [Finite(-0.43)][..0] == [];
  }
}
