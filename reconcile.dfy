// Pair reconciler: the sweep over the sorted mileage values that emits
// Entry/Exit pairs and folds neighbouring readings of one meter together
// (kilometre/app.py:136-152).

module Reconciler {

  /** One emitted pair, `(km1, km2)` at the moment of emission. */
  datatype Pair = Pair(entry: int, exit: int)

  /** One row of the result table: Entry, Exit and Difference. */
  datatype Row = Row(entry: int, exit: int, difference: int)

  /** What the reconciliation reports: a table, or that no pair could be
      formed. */
  datatype Verdict = InsufficientData | Table(rows: seq<Row>)

  function Abs(x: int): nat {
    if x < 0 then -x else x
  }

  /** The noise test: the two readings are equal or one unit apart. */
  predicate Near(km1: int, km2: int) {
    km1 == km2 || Abs(km2 - km1) == 1
  }

  predicate Ascending(s: seq<int>) {
    forall i, j :: 0 <= i < j < |s| ==> s[i] <= s[j]
  }

  // ---------------------------------------------------------------------
  // The sweep, as a function of the cells and the index
  // ---------------------------------------------------------------------

  /** The sweep from index `i` on: the final cells and the pairs emitted
      from step `i` on. */
  function SweepFrom(cells: seq<int>, i: nat): (r: (seq<int>, seq<Pair>))
    ensures |r.0| == |cells|
    ensures |r.1| <= if i < |cells| then |cells| - 1 - i else 0
    decreases |cells| - i
  {
    if i + 1 >= |cells| then (cells, [])
    else if Near(cells[i], cells[i + 1]) then SweepFrom(cells[i + 1 := cells[i + 1] - 1], i + 1)
    else
      var rest := SweepFrom(cells, i + 1);
      (rest.0, [Pair(cells[i], cells[i + 1])] + rest.1)
  }

  /** The cells after the whole sweep. */
  function Swept(s: seq<int>): seq<int> {
    SweepFrom(s, 0).0
  }

  /** The pairs the whole sweep emits, in order. */
  function SweepPairs(s: seq<int>): seq<Pair> {
    SweepFrom(s, 0).1
  }

  // ---------------------------------------------------------------------
  // A reference description of the outcome, by position
  // ---------------------------------------------------------------------

  /** The value cell `k` holds when its step comes, given the final value of
      cell `k - 1`: one less when the two are near, unchanged otherwise. */
  function Settle(prev: int, cur: int): int {
    if Near(prev, cur) then cur - 1 else cur
  }

  /** `c` is the column the sweep leaves behind for input `s`: the first
      cell as it was, every later cell settled against its final left
      neighbour. */
  predicate Settles(s: seq<int>, c: seq<int>) {
    |c| == |s|
    && (|s| > 0 ==> c[0] == s[0])
    && forall k :: 0 < k < |s| ==> c[k] == Settle(c[k - 1], s[k])
  }

  /** The pairs `(c[k], s[k + 1])`, for `k` from `i` on, whose two readings
      are not near. */
  function EmitFrom(c: seq<int>, s: seq<int>, i: nat): seq<Pair>
    requires |c| == |s|
    decreases |s| - i
  {
    if i + 1 >= |s| then []
    else (if Near(c[i], s[i + 1]) then [] else [Pair(c[i], s[i + 1])]) + EmitFrom(c, s, i + 1)
  }

  /** A column settled from `s` is unique. */
  lemma {:induction false} SettlesUnique(s: seq<int>, c1: seq<int>, c2: seq<int>)
    requires Settles(s, c1) && Settles(s, c2)
    ensures c1 == c2
  {
    var k := 0;
    while k < |s|
      invariant k <= |s|
      invariant c1[..k] == c2[..k]
    {
      if k > 0 {
        assert c1[k - 1] == c1[..k][k - 1] == c2[..k][k - 1] == c2[k - 1];
      }
      assert c1[..k + 1] == c1[..k] + [c1[k]];
      assert c2[..k + 1] == c2[..k] + [c2[k]];
      k := k + 1;
    }
    assert c1 == c1[..k] && c2 == c2[..k];
  }

  lemma {:induction false} EmitFromFrame(c: seq<int>, s: seq<int>, t: seq<int>, i: nat)
    requires |c| == |s| == |t|
    requires forall k :: i < k < |s| ==> s[k] == t[k]
    ensures EmitFrom(c, s, i) == EmitFrom(c, t, i)
    decreases |s| - i
  {
    if i + 1 < |s| {
      EmitFromFrame(c, s, t, i + 1);
      assert s[i + 1] == t[i + 1];
      assert EmitFrom(c, s, i) == (if Near(c[i], s[i + 1]) then [] else [Pair(c[i], s[i + 1])]) + EmitFrom(c, s, i + 1);
      assert EmitFrom(c, t, i) == (if Near(c[i], t[i + 1]) then [] else [Pair(c[i], t[i + 1])]) + EmitFrom(c, t, i + 1);
    }
  }

  /** Step `i` onwards leaves cells `0..i` alone, settles every later cell
      against its final left neighbour, and emits the non-near neighbour
      pairs of the settled column. */
  lemma {:induction false} SweepFromSettles(cells: seq<int>, i: nat)
    requires i < |cells|
    ensures SettledFrom(cells, i, SweepFrom(cells, i))
    decreases |cells| - i
  {
    if i + 1 >= |cells| {
    } else if Near(cells[i], cells[i + 1]) {
      var next := cells[i + 1 := cells[i + 1] - 1];
      SweepFromSettles(next, i + 1);
      NearStepSettles(cells, i, SweepFrom(next, i + 1));
    } else {
      SweepFromSettles(cells, i + 1);
      FarStepSettles(cells, i, SweepFrom(cells, i + 1));
    }
  }

  /** What step `i` onwards promises: cells `0..i` untouched, every later
      cell settled against its final left neighbour, and the pairs those
      of the settled column. */
  ghost predicate SettledFrom(cells: seq<int>, i: nat, r: (seq<int>, seq<Pair>))
    requires i < |cells|
  {
    |r.0| == |cells|
    && r.0[..i + 1] == cells[..i + 1]
    && (forall k :: i < k < |cells| ==> r.0[k] == Settle(r.0[k - 1], cells[k]))
    && r.1 == EmitFrom(r.0, cells, i)
  }

  lemma NearStepSettles(cells: seq<int>, i: nat, r: (seq<int>, seq<Pair>))
    requires i + 1 < |cells| && Near(cells[i], cells[i + 1])
    requires SettledFrom(cells[i + 1 := cells[i + 1] - 1], i + 1, r)
    ensures SettledFrom(cells, i, r)
  {
    var next := cells[i + 1 := cells[i + 1] - 1];
    assert r.0[i] == r.0[..i + 2][i] == next[..i + 2][i] == cells[i];
    assert r.0[i + 1] == r.0[..i + 2][i + 1] == next[..i + 2][i + 1];
    assert r.0[..i + 1] == r.0[..i + 2][..i + 1] == next[..i + 2][..i + 1] == cells[..i + 1];
    EmitFromFrame(r.0, next, cells, i + 1);
  }

  lemma FarStepSettles(cells: seq<int>, i: nat, rest: (seq<int>, seq<Pair>))
    requires i + 1 < |cells| && !Near(cells[i], cells[i + 1])
    requires SettledFrom(cells, i + 1, rest)
    ensures SettledFrom(cells, i, (rest.0, [Pair(cells[i], cells[i + 1])] + rest.1))
  {
    assert rest.0[i] == rest.0[..i + 2][i] == cells[i];
    assert rest.0[i + 1] == rest.0[..i + 2][i + 1] == cells[i + 1];
    assert rest.0[..i + 1] == rest.0[..i + 2][..i + 1] == cells[..i + 1];
  }

  /** The sweep's outcome agrees with the reference description: its cells
      are the settled column of the input, and its pairs are exactly that
      column's non-near neighbour pairs, in order. */
  lemma SweepMatchesReference(s: seq<int>)
    ensures Settles(s, Swept(s))
    ensures SweepPairs(s) == EmitFrom(Swept(s), s, 0)
  {
    if s != [] {
      SweepFromSettles(s, 0);
      assert SettledFrom(s, 0, SweepFrom(s, 0));
      assert Swept(s)[0] == Swept(s)[..1][0] == s[..1][0];
    }
  }

  // ---------------------------------------------------------------------
  // What the sweep promises
  // ---------------------------------------------------------------------

  /** The sweep takes one step per adjacent pair of cells, and so emits at
      most that many pairs; fewer than two readings give none. */
  lemma PairCountBound(s: seq<int>)
    ensures |SweepPairs(s)| <= if |s| == 0 then 0 else |s| - 1
    ensures |s| <= 1 ==> SweepPairs(s) == []
  {
  }

  /** The first cell never changes; every other cell is lowered by one
      exactly when it was near its (already final) left neighbour, and is
      otherwise untouched. So no cell is lowered twice. */
  lemma CellsLoweredAtMostOnce(s: seq<int>)
    ensures |Swept(s)| == |s|
    ensures |s| > 0 ==> Swept(s)[0] == s[0]
    ensures forall k :: 0 < k < |s| ==>
      (Swept(s)[k] == s[k] - 1 <==> Near(Swept(s)[k - 1], s[k]))
      && (Swept(s)[k] == s[k] || Swept(s)[k] == s[k] - 1)
  {
    SweepMatchesReference(s);
    forall k | 0 < k < |s|
      ensures Swept(s)[k] == s[k] - 1 <==> Near(Swept(s)[k - 1], s[k])
      ensures Swept(s)[k] == s[k] || Swept(s)[k] == s[k] - 1
    {
      assert Swept(s)[k] == Settle(Swept(s)[k - 1], s[k]);
    }
  }

  lemma {:induction false} EmitFromPositions(c: seq<int>, s: seq<int>, i: nat, p: Pair)
    requires |c| == |s|
    requires p in EmitFrom(c, s, i)
    ensures exists k :: i <= k < |s| - 1 && p == Pair(c[k], s[k + 1]) && !Near(c[k], s[k + 1])
    decreases |s| - i
  {
    if i + 1 < |s| {
      if !(p == Pair(c[i], s[i + 1]) && !Near(c[i], s[i + 1])) {
        EmitFromPositions(c, s, i + 1, p);
      }
    }
  }

  lemma {:induction false} EmitFromComplete(c: seq<int>, s: seq<int>, i: nat, k: nat)
    requires |c| == |s|
    requires i <= k < |s| - 1 && !Near(c[k], s[k + 1])
    ensures Pair(c[k], s[k + 1]) in EmitFrom(c, s, i)
    decreases k - i
  {
    if k > i {
      EmitFromComplete(c, s, i + 1, k);
      var head := if Near(c[i], s[i + 1]) then [] else [Pair(c[i], s[i + 1])];
      assert EmitFrom(c, s, i) == head + EmitFrom(c, s, i + 1);
    } else {
      assert EmitFrom(c, s, i) == [Pair(c[i], s[i + 1])] + EmitFrom(c, s, i + 1);
    }
  }

  /** A pair is emitted exactly when two neighbours are not near at their
      step: its entry is the (possibly lowered) left cell, its exit the
      untouched right cell. */
  lemma PairsAreFarNeighbours(s: seq<int>)
    ensures forall p :: p in SweepPairs(s) ==>
      exists k :: 0 <= k < |s| - 1 && p == Pair(Swept(s)[k], s[k + 1]) && !Near(Swept(s)[k], s[k + 1])
    ensures forall k :: 0 <= k < |s| - 1 && !Near(Swept(s)[k], s[k + 1]) ==>
      Pair(Swept(s)[k], s[k + 1]) in SweepPairs(s)
  {
    SweepMatchesReference(s);
    forall p | p in SweepPairs(s)
      ensures exists k :: 0 <= k < |s| - 1 && p == Pair(Swept(s)[k], s[k + 1]) && !Near(Swept(s)[k], s[k + 1])
    {
      EmitFromPositions(Swept(s), s, 0, p);
    }
    forall k | 0 <= k < |s| - 1 && !Near(Swept(s)[k], s[k + 1])
      ensures Pair(Swept(s)[k], s[k + 1]) in SweepPairs(s)
    {
      EmitFromComplete(Swept(s), s, 0, k);
    }
  }

  /** On ascending input every emitted pair goes forward by at least two:
      its entry is the original left reading or one less, its exit the
      original right reading. */
  lemma SortedPairsGoForward(s: seq<int>)
    requires Ascending(s)
    ensures forall p :: p in SweepPairs(s) ==> p.exit - p.entry >= 2
    ensures forall p :: p in SweepPairs(s) ==>
      exists k :: 0 <= k < |s| - 1 && (p.entry == s[k] || p.entry == s[k] - 1) && p.exit == s[k + 1]
  {
    PairsAreFarNeighbours(s);
    CellsLoweredAtMostOnce(s);
    forall p | p in SweepPairs(s)
      ensures p.exit - p.entry >= 2
      ensures exists k :: 0 <= k < |s| - 1 && (p.entry == s[k] || p.entry == s[k] - 1) && p.exit == s[k + 1]
    {
      var k :| 0 <= k < |s| - 1 && p == Pair(Swept(s)[k], s[k + 1]) && !Near(Swept(s)[k], s[k + 1]);
      assert s[k] <= s[k + 1];
    }
  }

  // ---------------------------------------------------------------------
  // Worked traces
  // ---------------------------------------------------------------------

  /** Three traces of the sweep of kilometre/app.py:137-148, worked by hand. */
  lemma WorkedTraces()
    ensures SweepPairs([100, 100, 250]) == [Pair(99, 250)]
    ensures SweepPairs([500, 501, 700]) == [Pair(500, 700)]
    ensures SweepPairs([100, 300, 500, 700]) == [Pair(100, 300), Pair(300, 500), Pair(500, 700)]
  {
    assert [100, 100, 250][1 := 99] == [100, 99, 250];
    assert SweepFrom([100, 99, 250], 2) == ([100, 99, 250], []);
    assert !Near(99, 250) && [Pair(99, 250)] + [] == [Pair(99, 250)];
    assert SweepFrom([100, 99, 250], 1) == ([100, 99, 250], [Pair(99, 250)]);
    assert [500, 501, 700][1 := 500] == [500, 500, 700];
    assert SweepFrom([500, 500, 700], 2) == ([500, 500, 700], []);
    assert !Near(500, 700) && [Pair(500, 700)] + [] == [Pair(500, 700)];
    assert SweepFrom([500, 500, 700], 1) == ([500, 500, 700], [Pair(500, 700)]);
    var t := [100, 300, 500, 700];
    assert SweepFrom(t, 3) == (t, []);
    assert !Near(500, 700) && [Pair(500, 700)] + [] == [Pair(500, 700)];
    assert SweepFrom(t, 2) == (t, [Pair(500, 700)]);
    assert !Near(300, 500) && !Near(100, 300);
    assert t[1] == 300 && t[2] == 500 && t[0] == 100;
    assert [Pair(300, 500)] + [Pair(500, 700)] == [Pair(300, 500), Pair(500, 700)];
    assert SweepFrom(t, 1) == (t, [Pair(300, 500), Pair(500, 700)]);
  }

  // ---------------------------------------------------------------------
  // The sweep as the source runs it: in place, on the value column
  // ---------------------------------------------------------------------

  /** The `while` loop of kilometre/app.py:137-148 on the value column `a`:
      lowers near neighbours in place and collects the other pairs. */
  method SweepInPlace(a: array<int>) returns (pairs: seq<Pair>, steps: nat)
    modifies a
    ensures a[..] == Swept(old(a[..]))
    ensures pairs == SweepPairs(old(a[..]))
    ensures steps == if a.Length == 0 then 0 else a.Length - 1
    ensures a.Length > 0 ==> a[0] == old(a[0])
    ensures forall k :: 0 < k < a.Length ==> a[k] == old(a[k]) || a[k] == old(a[k]) - 1
  {
    ghost var input := a[..];
    ghost var total := SweepFrom(a[..], 0);
    pairs, steps := [], 0;
    var i := 0;
    while i < a.Length - 1
      invariant i <= if a.Length == 0 then 0 else a.Length - 1
      invariant steps == i
      invariant forall k :: i < k < a.Length ==> a[k] == old(a[k])
      invariant SweepFrom(a[..], i).0 == total.0
      invariant pairs + SweepFrom(a[..], i).1 == total.1
    {
      var km1 := a[i];
      var km2 := a[i + 1];
      if km1 == km2 || Abs(km2 - km1) == 1 {
        // Always true inside the loop; kilometre/app.py:142 tests it all the same.
        if i + 1 < a.Length {
          a[i + 1] := a[i + 1] - 1;
        }
        i := i + 1;
      } else {
        pairs := pairs + [Pair(km1, km2)];
        i := i + 1;
      }
      steps := steps + 1;
    }
    CellsLoweredAtMostOnce(input);
  }

  /** The result table: one row per pair, Difference = Exit - Entry. */
  function Tabulate(pairs: seq<Pair>): (rows: seq<Row>)
    ensures |rows| == |pairs|
    ensures forall k :: 0 <= k < |rows| ==>
      rows[k].entry == pairs[k].entry && rows[k].exit == pairs[k].exit
      && rows[k].difference == rows[k].exit - rows[k].entry
  {
    seq(|pairs|, k requires 0 <= k < |pairs| => Row(pairs[k].entry, pairs[k].exit, pairs[k].exit - pairs[k].entry))
  }

  /** Runs the sweep over a copy of the sorted candidate values and reports
      a table, or insufficient data when no pair was formed
      (kilometre/app.py:136-152, 179-181). */
  method Reconcile(candidates: seq<int>) returns (verdict: Verdict)
    ensures verdict == InsufficientData <==> SweepPairs(candidates) == []
    ensures verdict.Table? ==> verdict.rows == Tabulate(SweepPairs(candidates))
    ensures |candidates| <= 1 ==> verdict == InsufficientData
    ensures Ascending(candidates) && verdict.Table? ==>
      forall row :: row in verdict.rows ==> row.difference >= 2
  {
    var a := new int[|candidates|](k requires 0 <= k < |candidates| => candidates[k]);
    assert a[..] == candidates;
    var pairs, _ := SweepInPlace(a);
    PairCountBound(candidates);
    if pairs == [] {
      verdict := InsufficientData;
    } else {
      verdict := Table(Tabulate(pairs));
      if Ascending(candidates) {
        SortedPairsGoForward(candidates);
        forall row | row in verdict.rows ensures row.difference >= 2 {
          var k :| 0 <= k < |verdict.rows| && verdict.rows[k] == row;
          assert pairs[k] in pairs;
        }
      }
    }
  }
}
