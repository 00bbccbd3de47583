/**
 * pandas `groupby` over a table held as a sequence of rows: the distinct keys
 * of a key function, and the rows that share one key.
 */
module Grouping {

  /** The distinct keys of `rows`, in order of first appearance. */
  function Keys<R, K(==,!new)>(rows: seq<R>, key: R -> K): (ks: seq<K>)
    ensures forall i, j :: 0 <= i < j < |ks| ==> ks[i] != ks[j]
    ensures forall k :: k in ks <==> exists i :: 0 <= i < |rows| && key(rows[i]) == k
  {
    if rows == [] then []
    else
      var init := Keys(rows[..|rows| - 1], key);
      assert forall i :: 0 <= i < |rows| - 1 ==> rows[..|rows| - 1][i] == rows[i];
      var k := key(rows[|rows| - 1]);
      if k in init then init else init + [k]
  }

  /** The rows whose key is `k`, in table order (one pandas group). */
  function Members<R(!new), K(==)>(rows: seq<R>, key: R -> K, k: K): (ms: seq<R>)
    ensures forall r :: r in ms <==> r in rows && key(r) == k
    ensures |ms| <= |rows|
  {
    Where(rows, r => key(r) == k)
  }

  /** A group holds each row of its key as often as the table does, and no other row. */
  lemma MembersCounts<R(!new), K>(rows: seq<R>, key: R -> K, k: K)
    ensures forall r :: multiset(Members(rows, key, k))[r] == if key(r) == k then multiset(rows)[r] else 0
  {
    WhereCounts(rows, r => key(r) == k);
  }

  /** The first row of a group is the first row of the table with that key (`groupby(...).first()`). */
  lemma MembersFirst<R(!new), K>(rows: seq<R>, key: R -> K, k: K)
    ensures Members(rows, key, k) != [] ==>
      exists i :: 0 <= i < |rows| && rows[i] == Members(rows, key, k)[0] && forall j :: 0 <= j < i ==> key(rows[j]) != k
  {
    WhereFirst(rows, r => key(r) == k);
  }

  /** A key of the table has a non-empty group. */
  lemma KeyHasMembers<R(!new), K(!new)>(rows: seq<R>, key: R -> K, k: K)
    requires k in Keys(rows, key)
    ensures |Members(rows, key, k)| > 0
  {
  }

  /** A boolean mask `rows[keep]`: the rows satisfying `keep`, in table order. */
  function Where<R(!new)>(rows: seq<R>, keep: R -> bool): (kept: seq<R>)
    ensures forall r :: r in kept <==> r in rows && keep(r)
    ensures |kept| <= |rows|
  {
    if rows == [] then []
    else
      var last := rows[|rows| - 1];
      var init := rows[..|rows| - 1];
      assert rows == init + [last];
      Where(init, keep) + if keep(last) then [last] else []
  }

  /** A mask keeps every row it selects as often as the table holds it, and no other row. */
  lemma {:induction false} WhereCounts<R(!new)>(rows: seq<R>, keep: R -> bool)
    ensures forall r :: multiset(Where(rows, keep))[r] == if keep(r) then multiset(rows)[r] else 0
  {
    if rows != [] {
      var last := rows[|rows| - 1];
      var init := rows[..|rows| - 1];
      assert rows == init + [last];
      assert multiset(rows) == multiset(init) + multiset{last};
      WhereCounts(init, keep);
      var tail := if keep(last) then [last] else [];
      assert Where(rows, keep) == Where(init, keep) + tail;
      assert multiset(Where(rows, keep)) == multiset(Where(init, keep)) + multiset(tail);
    }
  }

  /** The first row a mask keeps is the first row of the table satisfying it. */
  lemma {:induction false} WhereFirst<R(!new)>(rows: seq<R>, keep: R -> bool)
    ensures Where(rows, keep) != [] ==>
      exists i :: 0 <= i < |rows| && rows[i] == Where(rows, keep)[0] && forall j :: 0 <= j < i ==> !keep(rows[j])
  {
    if rows != [] {
      var last := rows[|rows| - 1];
      var init := rows[..|rows| - 1];
      assert rows == init + [last];
      var front := Where(init, keep);
      WhereFirst(init, keep);
      if front != [] {
        var i :| 0 <= i < |init| && init[i] == front[0] && forall j :: 0 <= j < i ==> !keep(init[j]);
        assert rows[i] == Where(rows, keep)[0];
      } else if keep(last) {
        forall j | 0 <= j < |init| ensures !keep(rows[j]) {
          assert init[j] in init;
        }
        assert rows[|init|] == Where(rows, keep)[0];
      }
    }
  }

  /** Masking a table with one more row at the end adds that row when it is kept. */
  lemma WhereSnoc<R(!new)>(rows: seq<R>, x: R, keep: R -> bool)
    ensures Where(rows + [x], keep) == Where(rows, keep) + if keep(x) then [x] else []
  {
    var t := rows + [x];
    assert t[..|t| - 1] == rows && t[|t| - 1] == x;
  }

  /** A mask keeps the table's order: masking two blocks of rows one after the other. */
  lemma {:induction false} WhereAppend<R(!new)>(a: seq<R>, b: seq<R>, keep: R -> bool)
    ensures Where(a + b, keep) == Where(a, keep) + Where(b, keep)
    decreases |b|
  {
    if b == [] {
      assert a + b == a;
    } else {
      var init, last := b[..|b| - 1], b[|b| - 1];
      assert b == init + [last];
      assert a + b == (a + init) + [last];
      var tail := if keep(last) then [last] else [];
      calc {
        Where(a + b, keep);
        { WhereSnoc(a + init, last, keep); }
        Where(a + init, keep) + tail;
        { WhereAppend(a, init, keep); }
        (Where(a, keep) + Where(init, keep)) + tail;
        Where(a, keep) + (Where(init, keep) + tail);
        { WhereSnoc(init, last, keep); }
        Where(a, keep) + Where(b, keep);
      }
    }
  }

  /** One column of the table, read through `f`. */
  function Column<R>(rows: seq<R>, f: R -> real): (col: seq<real>)
    ensures |col| == |rows|
    ensures forall i :: 0 <= i < |rows| ==> col[i] == f(rows[i])
  {
    seq(|rows|, i requires 0 <= i < |rows| => f(rows[i]))
  }
}
