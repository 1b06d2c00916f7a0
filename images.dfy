// The photographs to read: the names in the extracted archive whose
// lower-case form ends in ".png", ".jpg" or ".jpeg", in sorted order
// (kilometre/app.py:50-54). Listing the directory is left to the caller.

module Images {
  import opened Sorting

  /** Lower-cases the ASCII capitals and leaves every other character. */
  function LowerChar(c: char): char {
    if 'A' <= c <= 'Z' then (c as int + 32) as char else c
  }

  function Lower(s: string): (r: string)
    ensures |r| == |s|
  {
    if s == [] then [] else [LowerChar(s[0])] + Lower(s[1..])
  }

  predicate EndsWith(s: string, suffix: string) {
    |suffix| <= |s| && s[|s| - |suffix|..] == suffix
  }

  /** The test of kilometre/app.py:52. */
  predicate IsImageName(name: string) {
    var l := Lower(name);
    EndsWith(l, ".png") || EndsWith(l, ".jpg") || EndsWith(l, ".jpeg")
  }

  /** The list comprehension of kilometre/app.py:50-53: the image names, in
      the order listed. */
  function ImageNames(names: seq<string>): (r: seq<string>)
    ensures forall n :: n in r <==> n in names && IsImageName(n)
    ensures forall n :: multiset(r)[n] == if IsImageName(n) then multiset(names)[n] else 0
  {
    if names == [] then []
    else
      assert names == [names[0]] + names[1..];
      (if IsImageName(names[0]) then [names[0]] else []) + ImageNames(names[1..])
  }

  /** Python's ordering of strings: by code point, a proper prefix first. */
  function CodeLe(a: string, b: string): bool {
    if a == [] then true
    else if b == [] then false
    else if a[0] != b[0] then a[0] < b[0]
    else CodeLe(a[1..], b[1..])
  }

  lemma {:induction false} CodeLeTotal(a: string, b: string)
    ensures CodeLe(a, b) || CodeLe(b, a)
    decreases |a|
  {
    if a != [] && b != [] && a[0] == b[0] {
      CodeLeTotal(a[1..], b[1..]);
    }
  }

  lemma {:induction false} CodeLeTransitive(a: string, b: string, c: string)
    requires CodeLe(a, b) && CodeLe(b, c)
    ensures CodeLe(a, c)
    decreases |a|
  {
    if a != [] && b != [] && c != [] && a[0] == b[0] == c[0] {
      CodeLeTransitive(a[1..], b[1..], c[1..]);
    }
  }

  lemma {:induction false} CodeLeAntisymmetric(a: string, b: string)
    requires CodeLe(a, b) && CodeLe(b, a)
    ensures a == b
    decreases |a|
  {
    if a != [] && b != [] {
      CodeLeAntisymmetric(a[1..], b[1..]);
      assert a == [a[0]] + a[1..] && b == [b[0]] + b[1..];
    }
  }

  /** The string order is a total order, so the sorted list of names is
      determined by the names alone. */
  lemma CodeLeIsTotalOrder()
    ensures TotalPreorder(CodeLe) && Antisymmetric(CodeLe)
  {
    forall a, b ensures CodeLe(a, b) || CodeLe(b, a) {
      CodeLeTotal(a, b);
    }
    forall a, b, c | CodeLe(a, b) && CodeLe(b, c) ensures CodeLe(a, c) {
      CodeLeTransitive(a, b, c);
    }
    forall a, b | CodeLe(a, b) && CodeLe(b, a) ensures a == b {
      CodeLeAntisymmetric(a, b);
    }
  }

  /** The files to read, `dosyalar` after `dosyalar.sort()`: exactly the
      image names, each as often as listed, in ascending order. */
  function SelectImages(names: seq<string>): (r: seq<string>)
    ensures SortedBy(r, CodeLe)
    ensures forall n :: n in r <==> n in names && IsImageName(n)
    ensures forall n :: multiset(r)[n] == if IsImageName(n) then multiset(names)[n] else 0
  {
    CodeLeIsTotalOrder();
    var r := Sort(ImageNames(names), CodeLe);
    assert forall n :: n in r <==> n in multiset(ImageNames(names));
    r
  }

  /** The test ignores the case of ASCII letters: two names that differ
      only there ("scan.JPG", "scan.jpg") are both accepted or both
      refused. */
  lemma ImageNameIgnoresCase(a: string, b: string)
    requires |a| == |b|
    requires forall k :: 0 <= k < |a| ==> LowerChar(a[k]) == LowerChar(b[k])
    ensures IsImageName(a) <==> IsImageName(b)
  {
    forall k | 0 <= k < |a| ensures Lower(a)[k] == Lower(b)[k] {
      LowerAt(a, k);
      LowerAt(b, k);
    }
    assert Lower(a) == Lower(b);
  }

  lemma {:induction false} LowerAt(s: string, k: nat)
    requires k < |s|
    ensures Lower(s)[k] == LowerChar(s[k])
    decreases k
  {
    if k > 0 {
      LowerAt(s[1..], k - 1);
    }
  }
}
