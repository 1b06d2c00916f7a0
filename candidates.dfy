// Frequency reducer: the `km` column of the collected answers becomes the
// ascending list of candidate mileage values (kilometre/app.py:122-133).
// The answers are deduplicated as strings before any number is read, so
// two different answers that read as the same number both stay.

module Candidates {
  import opened Normalizer
  import opened Sorting

  predicate NoDuplicates<T(==)>(s: seq<T>) {
    forall i, j :: 0 <= i < j < |s| ==> s[i] != s[j]
  }

  /** The distinct answers, the index of `value_counts()` (kilometre/app.py:122-124),
      here in order of first appearance; the order is lost to the sort
      that follows. */
  function Distinct(texts: seq<string>): (r: seq<string>)
    ensures NoDuplicates(r)
    ensures forall t :: t in r <==> t in texts
    ensures |r| <= |texts|
  {
    if texts == [] then []
    else
      var prefix := Distinct(texts[..|texts| - 1]);
      var last := texts[|texts| - 1];
      assert texts == texts[..|texts| - 1] + [last];
      if last in prefix then prefix else prefix + [last]
  }

  /** The values read from the answers, in order, dropping the answers that
      hold no digit (kilometre/app.py:127-130). */
  function Values(texts: seq<string>): (r: seq<nat>)
    ensures |r| <= |texts|
  {
    if texts == [] then [] else ValueOf(texts[0]) + Values(texts[1..])
  }

  /** What one answer contributes: its value, or nothing. */
  function ValueOf(t: string): (r: seq<nat>)
    ensures |r| <= 1
  {
    match Normalize(t)
    case Some(v) => [v]
    case None => []
  }

  lemma ValueOfCount(t: string, v: nat)
    ensures multiset(ValueOf(t))[v] == if Normalize(t) == Some(v) then 1 else 0
  {
  }

  function AtMost(x: nat, y: nat): bool {
    x <= y
  }

  lemma AtMostIsTotalOrder()
    ensures TotalPreorder(AtMost) && Antisymmetric(AtMost)
  {
  }

  /** The candidate column after `sort_values("km")` (kilometre/app.py:133). */
  function SortedCandidates(texts: seq<string>): (r: seq<nat>)
    ensures SortedBy(r, AtMost)
    ensures multiset(r) == multiset(Values(Distinct(texts)))
  {
    AtMostIsTotalOrder();
    Sort(Values(Distinct(texts)), AtMost)
  }

  /** The candidates come in ascending order, as the sweep expects. */
  lemma CandidatesAscending(texts: seq<string>)
    ensures var r := SortedCandidates(texts);
      forall i, j :: 0 <= i < j < |r| ==> r[i] <= r[j]
  {
    var r := SortedCandidates(texts);
    forall i, j | 0 <= i < j < |r| ensures r[i] <= r[j] {
      assert AtMost(r[i], r[j]);
    }
  }

  /** The distinct answers that read as `v`. */
  ghost function ReadingAs(texts: seq<string>, v: nat): set<string> {
    set t | t in texts && Normalize(t) == Some(v)
  }

  lemma {:induction false} ValuesCount(ds: seq<string>, v: nat)
    requires NoDuplicates(ds)
    ensures multiset(Values(ds))[v] == |ReadingAs(ds, v)|
    decreases |ds|
  {
    if ds != [] {
      var tail := ds[1..];
      assert NoDuplicates(tail) by {
        forall i, j | 0 <= i < j < |tail| ensures tail[i] != tail[j] {
          assert tail[i] == ds[i + 1] && tail[j] == ds[j + 1];
        }
      }
      ValuesCount(tail, v);
      assert ds[0] !in tail by {
        forall k | 0 <= k < |tail| ensures tail[k] != ds[0] {
          assert tail[k] == ds[k + 1];
        }
      }
      assert multiset(Values(ds)) == multiset(ValueOf(ds[0])) + multiset(Values(tail));
      ValueOfCount(ds[0], v);
      ReadingAsCons(ds, v);
    }
  }

  lemma ReadingAsCons(ds: seq<string>, v: nat)
    requires ds != [] && ds[0] !in ds[1..]
    ensures |ReadingAs(ds, v)| == |ReadingAs(ds[1..], v)| + if Normalize(ds[0]) == Some(v) then 1 else 0
  {
    assert ds == [ds[0]] + ds[1..];
    if Normalize(ds[0]) == Some(v) {
      assert ReadingAs(ds, v) == ReadingAs(ds[1..], v) + {ds[0]};
    } else {
      assert ReadingAs(ds, v) == ReadingAs(ds[1..], v);
    }
  }

  /** Each distinct answer gives at most one candidate: the candidate `v`
      occurs exactly as often as there are distinct answers that read as
      `v`. Repeating one answer adds nothing; two different answers that
      read alike (say "123 km" and "123") give `v` twice. */
  lemma CandidateCount(texts: seq<string>, v: nat)
    ensures multiset(SortedCandidates(texts))[v] == |ReadingAs(texts, v)|
  {
    ValuesCount(Distinct(texts), v);
    assert ReadingAs(Distinct(texts), v) == ReadingAs(texts, v);
  }

  /** Answers without a digit, the failure marker among them, give no
      candidate at all. */
  lemma NoDigitGivesNoCandidate(texts: seq<string>, v: nat)
    requires forall t :: t in texts ==> NoDigit(t)
    ensures v !in SortedCandidates(texts)
  {
    CandidateCount(texts, v);
    forall t | t in texts ensures Normalize(t) != Some(v) {
      NormalizeNoneIffNoDigit(t);
    }
    assert ReadingAs(texts, v) == {};
  }

  /** A number answered once with the unit and once without is a repeated
      candidate: the reduced list is not free of repeated values. */
  lemma SameNumberTwice(n: nat)
    ensures SortedCandidates([DecimalDigits(n) + " km", DecimalDigits(n)]) == [n, n]
  {
    var a, b := DecimalDigits(n) + " km", DecimalDigits(n);
    assert a != b by { assert |a| == |b| + 3; }
    DistinctOfTwo(a, b);
    SameNumberValues(n);
    AtMostIsTotalOrder();
    SortIdempotent([n, n], AtMost);
  }

  lemma SameNumberValues(n: nat)
    ensures Values([DecimalDigits(n) + " km", DecimalDigits(n)]) == [n, n]
  {
    var a, b := DecimalDigits(n) + " km", DecimalDigits(n);
    NormalizeReadsNumber(n);
    assert ValueOf(a) == [n] && ValueOf(b) == [n];
    ValuesOfTwo(a, b);
  }

  lemma DistinctOfTwo(a: string, b: string)
    requires a != b
    ensures Distinct([a, b]) == [a, b]
  {
    assert [a, b][..1] == [a];
    assert Distinct([a]) == [a] by { assert [a][..0] == []; }
  }

  lemma ValuesOfTwo(a: string, b: string)
    ensures Values([a, b]) == ValueOf(a) + ValueOf(b)
  {
    assert [a, b][1..] == [b];
    assert [b][1..] == [];
    assert ValueOf(b) + [] == ValueOf(b);
  }
}
