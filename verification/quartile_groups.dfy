/**
 * The quartile grouping of the analysis dashboard: the five bounds of a metric
 * column (minimum, the three linear-interpolation quartiles, maximum), the
 * four groups they delimit, and the loop every `plot_*` function runs to keep
 * the stations of the selected groups.
 */
module QuartileGroups {
  import opened Sequences

  /** The four groups, in the order the selector lists them. */
  datatype Group = Low | MidLow | MidHigh | High

  const AllGroups: seq<Group> := [Low, MidLow, MidHigh, High]

  /**
   * The bounds of a metric column. `Undefined` is what pandas yields for an
   * empty column (every bound NaN, so every comparison with it is false).
   */
  datatype Bounds = Undefined | Bounds(min: real, q1: real, q2: real, q3: real, max: real)

  function Self(x: real): real { x }

  /** The point a fraction `f` of the way from `lo` to `hi`. */
  function Interpolate(lo: real, hi: real, f: real): real
  {
    lo + f * (hi - lo)
  }

  lemma InterpolateBetween(lo: real, hi: real, f: real)
    requires lo <= hi && 0.0 <= f <= 1.0
    ensures lo <= Interpolate(lo, hi, f) <= hi
  {
    var d := hi - lo;
    assert f * d >= 0.0;
    assert d - f * d == (1.0 - f) * d;
    assert (1.0 - f) * d >= 0.0;
  }

  lemma InterpolateMonotone(lo: real, hi: real, f: real, g: real)
    requires lo <= hi && f <= g
    ensures Interpolate(lo, hi, f) <= Interpolate(lo, hi, g)
  {
    assert g * (hi - lo) - f * (hi - lo) == (g - f) * (hi - lo);
  }

  /**
   * The `quarters`/4 quantile of an ascending column by linear interpolation
   * between closest ranks (pandas' default, type 7): the virtual index is
   * (n - 1) * quarters / 4, split into an integral rank and a fraction.
   */
  function Quantile(s: seq<real>, quarters: nat): (q: real)
    requires |s| > 0 && quarters <= 4 && SortedBy(s, Self)
    ensures s[0] <= q <= s[|s| - 1]
  {
    var h := (|s| - 1) * quarters;
    var rank := h / 4;
    assert rank <= |s| - 1 by {
      assert h <= (|s| - 1) * 4;
    }
    if h % 4 == 0 then s[rank]
    else
      assert rank + 1 < |s|;
      InterpolateBetween(s[rank], s[rank + 1], (h % 4) as real / 4.0);
      Interpolate(s[rank], s[rank + 1], (h % 4) as real / 4.0)
  }

  /** Quantiles of one column grow with the requested fraction. */
  lemma QuantileMonotone(s: seq<real>, a: nat, b: nat)
    requires |s| > 0 && a <= b <= 4 && SortedBy(s, Self)
    ensures Quantile(s, a) <= Quantile(s, b)
  {
    var ha, hb := (|s| - 1) * a, (|s| - 1) * b;
    assert ha <= hb by {
      assert hb - ha == (|s| - 1) * (b - a);
    }
    var ra, rb := ha / 4, hb / 4;
    assert ra <= rb <= |s| - 1 by {
      assert hb <= (|s| - 1) * 4;
    }
    var fa, fb := (ha % 4) as real / 4.0, (hb % 4) as real / 4.0;
    if ra < rb {
      // Quantile(a) lies at or below rank ra + 1, Quantile(b) at or above rank rb
      if ha % 4 != 0 {
        InterpolateBetween(s[ra], s[ra + 1], fa);
        assert Quantile(s, a) <= s[ra + 1] <= s[rb];
      }
      if hb % 4 != 0 {
        InterpolateBetween(s[rb], s[rb + 1], fb);
      }
    } else if ha % 4 != 0 {
      InterpolateMonotone(s[ra], s[ra + 1], fa, fb);
    } else if hb % 4 != 0 {
      InterpolateBetween(s[rb], s[rb + 1], fb);
    }
  }

  /** pandas' `min`, `quantile(0.25)`, `quantile(0.5)`, `quantile(0.75)` and `max` of a column. */
  function GroupBounds(values: seq<real>): (b: Bounds)
    ensures b.Undefined? <==> values == []
    ensures b.Bounds? ==> b.min in values && b.max in values
    ensures b.Bounds? ==> forall i :: 0 <= i < |values| ==> b.min <= values[i] <= b.max
  {
    if values == [] then Undefined
    else
      var s := SortBy(values, Self);
      SortedHoldsExtremes(values, s);
      Bounds(s[0], Quantile(s, 1), Quantile(s, 2), Quantile(s, 3), s[|s| - 1])
  }

  lemma SortedHoldsExtremes(values: seq<real>, s: seq<real>)
    requires |values| > 0 && SortedBy(s, Self) && multiset(s) == multiset(values)
    ensures |s| > 0 && s[0] in values && s[|s| - 1] in values
    ensures forall i :: 0 <= i < |values| ==> s[0] <= values[i] <= s[|s| - 1]
  {
    assert values[0] in multiset(s);
    assert s[0] in multiset(s) && s[|s| - 1] in multiset(s);
    forall i | 0 <= i < |values| ensures s[0] <= values[i] <= s[|s| - 1] {
      assert values[i] in multiset(s);
      var j :| 0 <= j < |s| && s[j] == values[i];
    }
  }

  /** The bounds of a non-empty column are ordered min <= q1 <= q2 <= q3 <= max. */
  lemma BoundsOrdered(values: seq<real>)
    requires values != []
    ensures var b := GroupBounds(values);
            b.min <= b.q1 <= b.q2 <= b.q3 <= b.max
  {
    var s := SortBy(values, Self);
    QuantileMonotone(s, 0, 1);
    QuantileMonotone(s, 1, 2);
    QuantileMonotone(s, 2, 3);
    QuantileMonotone(s, 3, 4);
  }

  /**
   * Membership of a value in a group: `[min, q1]` for the lowest group (its
   * boundary is 'inclusive'), `(lower, upper]` for the others ('exclusive_left').
   */
  predicate InGroup(v: real, b: Bounds, g: Group)
    ensures InGroup(v, b, g) ==>
      b.Bounds? && (b.min <= b.q1 <= b.q2 <= b.q3 <= b.max ==> b.min <= v <= b.max)
  {
    b.Bounds? &&
    match g
    case Low => b.min <= v <= b.q1
    case MidLow => b.q1 < v <= b.q2
    case MidHigh => b.q2 < v <= b.q3
    case High => b.q3 < v <= b.max
  }

  /** Reference classification: the first group whose upper bound reaches `v`. */
  function GroupOf(v: real, b: Bounds): Group
    requires b.Bounds?
  {
    if v <= b.q1 then Low
    else if v <= b.q2 then MidLow
    else if v <= b.q3 then MidHigh
    else High
  }

  /**
   * With ordered bounds, every value in [min, max] satisfies exactly one
   * group predicate, and that group is the first whose upper bound reaches it.
   */
  lemma ExactlyOneGroup(v: real, b: Bounds, g: Group)
    requires b.Bounds? && b.min <= b.q1 <= b.q2 <= b.q3 <= b.max
    requires b.min <= v <= b.max
    ensures InGroup(v, b, g) <==> g == GroupOf(v, b)
  {
  }

  /** Each station of a column lies in exactly one group of that column's bounds. */
  lemma StationInExactlyOneGroup(values: seq<real>, i: nat, g: Group)
    requires i < |values|
    ensures InGroup(values[i], GroupBounds(values), g) <==> g == GroupOf(values[i], GroupBounds(values))
  {
    BoundsOrdered(values);
    ExactlyOneGroup(values[i], GroupBounds(values), g);
  }

  /** A value equal to a quartile goes to the lower of the two groups meeting there. */
  lemma TiesGoToLowerGroup(b: Bounds)
    requires b.Bounds? && b.min <= b.q1 <= b.q2 <= b.q3 <= b.max
    ensures InGroup(b.q1, b, Low) && !InGroup(b.q1, b, MidLow)
    ensures b.q1 < b.q2 ==> InGroup(b.q2, b, MidLow) && !InGroup(b.q2, b, MidHigh)
    ensures b.q2 < b.q3 ==> InGroup(b.q3, b, MidHigh) && !InGroup(b.q3, b, High)
  {
  }

  /** A station row of the filtered table, tagged with its group name. */
  datatype Tagged = Tagged(row: nat, value: real, group: Group)

  function ValueOf(t: Tagged): real { t.value }

  ghost predicate RowsIncreasing(rs: seq<Tagged>)
  {
    forall i, j :: 0 <= i < j < |rs| ==> rs[i].row < rs[j].row
  }

  /** No station row occurs twice. */
  ghost predicate RowsDistinct(rs: seq<Tagged>)
  {
    forall i, j :: 0 <= i < j < |rs| ==> rs[i].row != rs[j].row
  }

  /** The rows among the first `n` whose value lies in group `g`, in table order. */
  function GroupRows(values: seq<real>, b: Bounds, g: Group, n: nat): seq<Tagged>
    requires n <= |values|
  {
    if n == 0 then []
    else
      GroupRows(values, b, g, n - 1)
      + if InGroup(values[n - 1], b, g) then [Tagged(n - 1, values[n - 1], g)] else []
  }

  /** The position of a group in selector order. */
  function Rank(g: Group): (r: nat)
    ensures r < 4 && AllGroups[r] == g
  {
    match g
    case Low => 0
    case MidLow => 1
    case MidHigh => 2
    case High => 3
  }

  /** The concatenation, over the first `k` groups in selector order, of the selected ones' rows. */
  function Collected(values: seq<real>, b: Bounds, selected: set<Group>, k: nat): seq<Tagged>
    requires k <= 4
  {
    if k == 0 then []
    else
      Collected(values, b, selected, k - 1)
      + if AllGroups[k - 1] in selected then GroupRows(values, b, AllGroups[k - 1], |values|) else []
  }

  /**
   * The loop of the `plot_*` functions: for each group in order, take the rows
   * of the metric column inside it, and append them, tagged, when the group is
   * selected.
   */
  method CollectSelected(values: seq<real>, selected: set<Group>) returns (filtered: seq<Tagged>)
    ensures filtered == Collected(values, GroupBounds(values), selected, 4)
  {
    var b := GroupBounds(values);
    filtered := [];
    for k := 0 to 4
      invariant filtered == Collected(values, b, selected, k)
    {
      var g := AllGroups[k];
      var groupData := [];
      for i := 0 to |values|
        invariant groupData == GroupRows(values, b, g, i)
      {
        if InGroup(values[i], b, g) {
          groupData := groupData + [Tagged(i, values[i], g)];
        }
      }
      assert groupData == GroupRows(values, b, g, |values|);
      if g in selected {
        filtered := filtered + groupData;
      }
      assert filtered == Collected(values, b, selected, k + 1);
    }
  }

  /** The rows of one group are exactly that group's members. */
  lemma {:induction false} GroupRowsMembers(values: seq<real>, b: Bounds, g: Group, n: nat)
    requires n <= |values|
    ensures forall t :: t in GroupRows(values, b, g, n) <==>
      (t.row < n && t.value == values[t.row] && t.group == g && InGroup(t.value, b, g))
  {
    if n > 0 {
      GroupRowsMembers(values, b, g, n - 1);
    }
  }

  /** The rows of one group come in strictly increasing row order. */
  lemma {:induction false} GroupRowsIncreasing(values: seq<real>, b: Bounds, g: Group, n: nat)
    requires n <= |values|
    ensures RowsIncreasing(GroupRows(values, b, g, n))
  {
    if n > 0 {
      GroupRowsIncreasing(values, b, g, n - 1);
      GroupRowsMembers(values, b, g, n - 1);
      var front := GroupRows(values, b, g, n - 1);
      var rs := GroupRows(values, b, g, n);
      assert rs == front + if InGroup(values[n - 1], b, g) then [Tagged(n - 1, values[n - 1], g)] else [];
      forall i, j | 0 <= i < j < |rs| ensures rs[i].row < rs[j].row {
        if j >= |front| {
          assert rs[j].row == n - 1;
          assert rs[i] == front[i] && rs[i] in front;
          assert rs[i].row < n - 1;
        } else {
          assert rs[i] == front[i] && rs[j] == front[j];
        }
      }
    }
  }

  /**
   * A tagged row is in the table collected over the first `k` groups exactly
   * when its group is one of them and selected, and it carries its station's
   * value, which lies in that group.
   */
  lemma {:induction false} CollectedMembers(values: seq<real>, b: Bounds, selected: set<Group>, k: nat, t: Tagged)
    requires k <= 4
    ensures t in Collected(values, b, selected, k) <==>
      (t.row < |values| && t.value == values[t.row] && t.group in selected
       && Rank(t.group) < k && InGroup(t.value, b, t.group))
  {
    if k > 0 {
      CollectedMembers(values, b, selected, k - 1, t);
      GroupRowsMembers(values, b, AllGroups[k - 1], |values|);
    }
  }

  /** No station appears twice in the filtered table. */
  lemma {:induction false} CollectedRowsDistinct(values: seq<real>, selected: set<Group>, k: nat)
    requires k <= 4
    ensures RowsDistinct(Collected(values, GroupBounds(values), selected, k))
  {
    if k > 0 {
      var b := GroupBounds(values);
      CollectedRowsDistinct(values, selected, k - 1);
      var g := AllGroups[k - 1];
      var front := Collected(values, b, selected, k - 1);
      var chunk := if g in selected then GroupRows(values, b, g, |values|) else [];
      GroupRowsIncreasing(values, b, g, |values|);
      GroupRowsMembers(values, b, g, |values|);
      assert Collected(values, b, selected, k) == front + chunk;
      forall t, u | t in front && u in chunk ensures t.row != u.row {
        RowsOfDifferentGroups(values, selected, k, t, u);
      }
      AppendDistinct(front, chunk);
    }
  }

  /** Joining distinct rows to increasing rows none of which they share stays distinct. */
  lemma AppendDistinct(front: seq<Tagged>, chunk: seq<Tagged>)
    requires RowsDistinct(front) && RowsIncreasing(chunk)
    requires forall t, u :: t in front && u in chunk ==> t.row != u.row
    ensures RowsDistinct(front + chunk)
  {
  }

  lemma RowsOfDifferentGroups(values: seq<real>, selected: set<Group>, k: nat, t: Tagged, u: Tagged)
    requires 0 < k <= 4
    requires t in Collected(values, GroupBounds(values), selected, k - 1)
    requires u in GroupRows(values, GroupBounds(values), AllGroups[k - 1], |values|)
    ensures t.row != u.row
  {
    var b := GroupBounds(values);
    CollectedMembers(values, b, selected, k - 1, t);
    GroupRowsMembers(values, b, AllGroups[k - 1], |values|);
    if t.row == u.row {
      StationInExactlyOneGroup(values, t.row, t.group);
      StationInExactlyOneGroup(values, t.row, u.group);
    }
  }

  /** `filtered_data.sort_values(metric, ascending=True)`. */
  function SortByMetric(filtered: seq<Tagged>): (sorted: seq<Tagged>)
    ensures SortedBy(sorted, ValueOf)
    ensures multiset(sorted) == multiset(filtered)
  {
    SortBy(filtered, ValueOf)
  }

  /**
   * A tagged row is in the filtered table exactly when it carries a station's
   * row number, value and group, and that group is selected.
   */
  lemma SelectionMembers(values: seq<real>, selected: set<Group>, t: Tagged)
    ensures t in Collected(values, GroupBounds(values), selected, 4) <==>
      (t.row < |values| && t.value == values[t.row]
       && t.group == GroupOf(t.value, GroupBounds(values)) && t.group in selected)
  {
    CollectedMembers(values, GroupBounds(values), selected, 4, t);
    if t.row < |values| && t.value == values[t.row] {
      StationInExactlyOneGroup(values, t.row, t.group);
    }
  }

  /**
   * The sorted selection of `plot_usage_rate`: ascending by value, and holding
   * exactly the stations of the selected groups, each once, with its group.
   */
  lemma SortedSelection(values: seq<real>, selected: set<Group>)
    ensures var sorted := SortByMetric(Collected(values, GroupBounds(values), selected, 4));
      && SortedBy(sorted, ValueOf)
      && (forall t :: t in sorted <==>
            (t.row < |values| && t.value == values[t.row]
             && t.group == GroupOf(t.value, GroupBounds(values)) && t.group in selected))
      && RowsDistinct(sorted)
  {
    var rs := Collected(values, GroupBounds(values), selected, 4);
    var sorted := SortByMetric(rs);
    forall t ensures t in sorted <==>
      (t.row < |values| && t.value == values[t.row]
       && t.group == GroupOf(t.value, GroupBounds(values)) && t.group in selected)
    {
      assert t in sorted <==> t in multiset(sorted);
      assert t in rs <==> t in multiset(rs);
      SelectionMembers(values, selected, t);
    }
    CollectedRowsDistinct(values, selected, 4);
    DistinctRowsSurviveSort(rs, sorted);
  }

  /**
   * A permutation of tagged rows whose rows are distinct and determined by the
   * row number still has distinct rows.
   */
  lemma DistinctRowsSurviveSort(rs: seq<Tagged>, sorted: seq<Tagged>)
    requires multiset(sorted) == multiset(rs)
    requires RowsDistinct(rs)
    ensures RowsDistinct(sorted)
  {
    forall i, j | 0 <= i < j < |sorted| ensures sorted[i].row != sorted[j].row {
      if sorted[i].row == sorted[j].row {
        assert sorted[i] in multiset(rs) && sorted[j] in multiset(rs);
        var p :| 0 <= p < |rs| && rs[p] == sorted[i];
        var q :| 0 <= q < |rs| && rs[q] == sorted[j];
        assert p == q;
        assert sorted[i] == sorted[j];
        CountAtLeastTwo(sorted, i, j);
        CountDistinct(rs, p);
        assert false;
      }
    }
  }

  lemma CountAtLeastTwo<T>(s: seq<T>, i: nat, j: nat)
    requires i < j < |s| && s[i] == s[j]
    ensures multiset(s)[s[i]] >= 2
  {
    assert s == s[..j] + [s[j]] + s[j + 1..];
    assert s[i] in s[..j];
    assert multiset(s[..j])[s[i]] >= 1;
  }

  lemma {:induction false} CountDistinct(rs: seq<Tagged>, p: nat)
    requires p < |rs|
    requires RowsDistinct(rs)
    ensures multiset(rs)[rs[p]] == 1
  {
    var x := rs[p];
    assert rs == rs[..p] + [x] + rs[p + 1..];
    assert x !in rs[..p] by {
      forall i | 0 <= i < p ensures rs[..p][i] != x {
        assert rs[i].row != rs[p].row;
      }
    }
    assert x !in rs[p + 1..] by {
      forall i | p + 1 <= i < |rs| ensures rs[i] != x {
        assert rs[p].row != rs[i].row;
      }
    }
    assert multiset(rs[..p])[x] == 0;
    assert multiset(rs[p + 1..])[x] == 0;
  }

  /**
   * Two stations with usage rates 0.25 and 0.8: the quartiles interpolate
   * between them, so the first station is 'low' and the second 'high'.
   */
  lemma TwoStationExample()
    ensures GroupBounds([0.25, 0.8]) == Bounds(0.25, 0.3875, 0.525, 0.6625, 0.8)
    ensures GroupOf(0.25, GroupBounds([0.25, 0.8])) == Low
    ensures GroupOf(0.8, GroupBounds([0.25, 0.8])) == High
  {
  }
}
