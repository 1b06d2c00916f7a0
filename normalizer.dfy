// Reading normalizer: turns the text answer for one photograph into a
// mileage value, or into no value at all (kilometre/app.py:97, 127-130).

module Normalizer {

  datatype Option<T> = None | Some(value: T)

  /** The marker recorded for a photograph whose recognition failed. */
  const FailureMarker: string := "Hata"

  // ---------------------------------------------------------------------
  // Characters
  // ---------------------------------------------------------------------

  /** An ASCII decimal digit, the class `\d` stands for in this model. */
  predicate IsDigit(c: char) {
    '0' <= c <= '9'
  }

  /** The characters Python's `str.strip()` removes (those `str.isspace` accepts). */
  predicate IsSpace(c: char) {
    var n := c as int;
    (9 <= n <= 13) || (28 <= n <= 32) || n == 0x85 || n == 0xA0 || n == 0x1680
    || (0x2000 <= n <= 0x200A) || n == 0x2028 || n == 0x2029 || n == 0x202F
    || n == 0x205F || n == 0x3000
  }

  predicate AllDigits(s: string) {
    forall k :: 0 <= k < |s| ==> IsDigit(s[k])
  }

  predicate NoDigit(s: string) {
    forall k :: 0 <= k < |s| ==> !IsDigit(s[k])
  }

  predicate AllSpace(s: string) {
    forall k :: 0 <= k < |s| ==> IsSpace(s[k])
  }

  /** The digits of `s`, in order. */
  function Digits(s: string): (r: string)
    ensures AllDigits(r)
  {
    if s == [] then []
    else (if IsDigit(s[0]) then [s[0]] else []) + Digits(s[1..])
  }

  // ---------------------------------------------------------------------
  // str.strip()
  // ---------------------------------------------------------------------

  function TrimStart(s: string): (r: string)
    ensures |r| <= |s|
    ensures r == [] || !IsSpace(r[0])
  {
    if s != [] && IsSpace(s[0]) then TrimStart(s[1..]) else s
  }

  function TrimEnd(s: string): (r: string)
    ensures |r| <= |s|
    ensures forall k :: 0 <= k < |r| ==> r[k] == s[k]
    ensures r == [] || !IsSpace(r[|r| - 1])
  {
    if s != [] && IsSpace(s[|s| - 1]) then
      var u := s[..|s| - 1];
      var r := TrimEnd(u);
      assert forall k :: 0 <= k < |r| ==> r[k] == u[k] == s[k];
      r
    else s
  }

  /** Python's `str.strip()` with no argument: the answer text with its
      surrounding white space removed (kilometre/app.py:97). */
  function Strip(s: string): (r: string)
    ensures |r| <= |s|
    ensures r == [] || (!IsSpace(r[0]) && !IsSpace(r[|r| - 1]))
  {
    TrimEnd(TrimStart(s))
  }

  /** Strip keeps exactly the text between the leading and the trailing
      white space. */
  lemma {:induction false} StripKeepsInnerText(s: string, i: nat, j: nat)
    requires i <= j <= |s|
    requires AllSpace(s[..i]) && AllSpace(s[j..])
    requires i < j ==> !IsSpace(s[i]) && !IsSpace(s[j - 1])
    ensures Strip(s) == s[i..j]
  {
    if i == j {
      assert AllSpace(s) by {
        assert forall k :: 0 <= k < i ==> s[..i][k] == s[k];
        assert forall k :: j <= k < |s| ==> s[j..][k - j] == s[k];
      }
      assert s[..|s|] == s;
      TrimStartSkips(s, |s|);
      return;
    }
    TrimStartSkips(s, i);
    var t := s[i..];
    assert t[..j - i] == s[i..j];
    assert t[j - i..] == s[j..];
    TrimEndSkips(t, j - i);
  }

  lemma {:induction false} TrimStartSkips(s: string, i: nat)
    requires i <= |s| && AllSpace(s[..i])
    requires i < |s| ==> !IsSpace(s[i])
    ensures TrimStart(s) == s[i..]
    decreases i
  {
    if i > 0 {
      assert IsSpace(s[..i][0]);
      assert s[1..][..i - 1] == s[1..i];
      TrimStartSkips(s[1..], i - 1);
      assert s[1..][i - 1..] == s[i..];
    }
  }

  lemma {:induction false} TrimEndSkips(s: string, j: nat)
    requires j <= |s| && AllSpace(s[j..])
    requires 0 < j ==> !IsSpace(s[j - 1])
    ensures TrimEnd(s) == s[..j]
    decreases |s| - j
  {
    if j < |s| {
      assert IsSpace(s[j..][|s| - 1 - j]);
      var u := s[..|s| - 1];
      assert u[j..] == s[j..|s| - 1];
      TrimEndSkips(u, j);
      assert u[..j] == s[..j];
    } else {
      assert s[..j] == s;
    }
  }

  // ---------------------------------------------------------------------
  // str.replace(pattern, "")
  // ---------------------------------------------------------------------

  /** `s.replace(pat, "")`: every occurrence of `pat` found scanning from
      the left, without overlap, is removed. */
  function RemoveAll(s: string, pat: string): (r: string)
    requires pat != []
    ensures |r| <= |s|
    decreases |s|
  {
    if |s| < |pat| then s
    else if s[..|pat|] == pat then RemoveAll(s[|pat|..], pat)
    else [s[0]] + RemoveAll(s[1..], pat)
  }

  /** `pat` occurs in `s` starting at index `j`. */
  predicate OccursAt(s: string, pat: string, j: nat) {
    j + |pat| <= |s| && s[j..j + |pat|] == pat
  }

  /** The leftmost occurrence of `pat` is removed: the text `p` before it
      is kept, and the scan goes on right after it. */
  lemma {:induction false} RemoveAllDropsLeftmost(p: string, pat: string, q: string)
    requires pat != []
    requires forall j: nat :: j < |p| ==> !OccursAt(p + pat + q, pat, j)
    ensures RemoveAll(p + pat + q, pat) == p + RemoveAll(q, pat)
    decreases |p|
  {
    var u := p + pat + q;
    if p == [] {
      assert u[..|pat|] == pat && u[|pat|..] == q;
    } else {
      assert !OccursAt(u, pat, 0);
      RemoveAllStepsOver(u, pat);
      assert u[1..] == p[1..] + pat + q;
      forall j: nat | j < |p| - 1 ensures !OccursAt(p[1..] + pat + q, pat, j) {
        OccursInTail(u, pat, j);
      }
      RemoveAllDropsLeftmost(p[1..], pat, q);
      assert [p[0]] + (p[1..] + RemoveAll(q, pat)) == p + RemoveAll(q, pat);
    }
  }

  /** Where `pat` does not start, the first character is kept. */
  lemma RemoveAllStepsOver(s: string, pat: string)
    requires pat != [] && |pat| < |s| && !OccursAt(s, pat, 0)
    ensures RemoveAll(s, pat) == [s[0]] + RemoveAll(s[1..], pat)
  {
    assert s[0..|pat|] == s[..|pat|];
  }

  lemma OccursInTail(s: string, pat: string, j: nat)
    requires s != []
    ensures OccursAt(s[1..], pat, j) <==> OccursAt(s, pat, j + 1)
  {
    if j + 1 + |pat| <= |s| {
      assert s[1..][j..j + |pat|] == s[j + 1..j + 1 + |pat|];
    }
  }

  /** A text in which `pat` does not occur is left as it is. */
  lemma {:induction false} RemoveAllNoOccurrence(s: string, pat: string)
    requires pat != []
    requires forall j: nat :: !OccursAt(s, pat, j)
    ensures RemoveAll(s, pat) == s
    decreases |s|
  {
    if |s| >= |pat| {
      assert !OccursAt(s, pat, 0);
      assert s[..|pat|] != pat;
      var t := s[1..];
      forall j: nat ensures !OccursAt(t, pat, j) {
        OccursInTail(s, pat, j);
      }
      RemoveAllNoOccurrence(t, pat);
      assert [s[0]] + t == s;
    }
  }

  /** One pass does not remove an occurrence that the pass itself forms:
      "kkmm" becomes "km". */
  lemma RemovalCanFormPattern()
    ensures RemoveAll("kkmm", "km") == "km"
  {
    assert "kkmm"[..2][1] == 'k' && "km"[1] == 'm';
    assert "kkmm"[1..] == "kmm";
    assert "kmm"[..2] == "km" && "kmm"[2..] == "m";
    assert RemoveAll("m", "km") == "m";
  }

  /** Removing a pattern that holds no digit keeps every digit, in order. */
  lemma {:induction false} RemoveAllKeepsDigits(s: string, pat: string)
    requires pat != [] && NoDigit(pat)
    ensures Digits(RemoveAll(s, pat)) == Digits(s)
    decreases |s|
  {
    if |s| < |pat| {
    } else if s[..|pat|] == pat {
      RemoveAllKeepsDigits(s[|pat|..], pat);
      DigitsAppend(s[..|pat|], s[|pat|..]);
      NoDigitHasNoDigits(pat);
      assert s == s[..|pat|] + s[|pat|..];
    } else {
      RemoveAllKeepsDigits(s[1..], pat);
      DigitsAppend([s[0]], RemoveAll(s[1..], pat));
      assert ([s[0]] + RemoveAll(s[1..], pat))[1..] == RemoveAll(s[1..], pat);
    }
  }

  /** When no character of `s` can start an occurrence of `pat`, removal
      leaves `s` alone and works on what follows it. */
  lemma {:induction false} RemoveAllSkipsPrefix(s: string, t: string, pat: string)
    requires pat != []
    requires forall k :: 0 <= k < |s| ==> s[k] != pat[0]
    ensures RemoveAll(s + t, pat) == s + RemoveAll(t, pat)
    decreases |s|
  {
    if s != [] {
      var u := s + t;
      if |u| < |pat| {
        assert |t| < |pat|;
      } else {
        assert u[..|pat|][0] == s[0];
        assert u[1..] == s[1..] + t;
        RemoveAllSkipsPrefix(s[1..], t, pat);
        assert [s[0]] + (s[1..] + RemoveAll(t, pat)) == s + RemoveAll(t, pat);
      }
    } else {
      assert s + t == t;
    }
  }

  lemma {:induction false} DigitsAppend(a: string, b: string)
    ensures Digits(a + b) == Digits(a) + Digits(b)
    decreases |a|
  {
    if a == [] {
      assert a + b == b;
    } else {
      var head := if IsDigit(a[0]) then [a[0]] else [];
      assert (a + b)[0] == a[0] && (a + b)[1..] == a[1..] + b;
      DigitsAppend(a[1..], b);
      assert Digits(a + b) == head + Digits(a[1..] + b);
      assert Digits(a) == head + Digits(a[1..]);
    }
  }

  lemma {:induction false} NoDigitHasNoDigits(s: string)
    requires NoDigit(s)
    ensures Digits(s) == []
    decreases |s|
  {
    if s != [] {
      NoDigitHasNoDigits(s[1..]);
    }
  }

  /** `s` has no digit exactly when its digit sequence is empty. */
  lemma {:induction false} NoDigitIffNoDigits(s: string)
    ensures NoDigit(s) <==> Digits(s) == []
    decreases |s|
  {
    if s != [] {
      NoDigitIffNoDigits(s[1..]);
      if Digits(s) == [] {
        assert !IsDigit(s[0]);
        assert forall k :: 1 <= k < |s| ==> s[1..][k - 1] == s[k];
      }
    }
  }

  // ---------------------------------------------------------------------
  // str.extract(r"(\d+)") and astype(int)
  // ---------------------------------------------------------------------

  /** The run of digits at the very start of `s` (possibly empty). */
  function LeadingDigits(s: string): (r: string)
    ensures |r| <= |s| && r == s[..|r|] && AllDigits(r)
    ensures |r| == |s| || !IsDigit(s[|r|])
  {
    if s != [] && IsDigit(s[0]) then [s[0]] + LeadingDigits(s[1..]) else []
  }

  /** The first maximal run of digits in `s`, what `re.search(r"\d+", s)`
      matches; empty when `s` has no digit. */
  function FirstDigitRun(s: string): (r: string)
    ensures AllDigits(r)
  {
    if s == [] then []
    else if IsDigit(s[0]) then LeadingDigits(s)
    else FirstDigitRun(s[1..])
  }

  /** The run found is the leftmost maximal run: digits from index `i` up to
      `j`, none before `i`, a non-digit (or the end) at `j`. */
  lemma {:induction false} FirstDigitRunIsLeftmostMaximal(s: string, i: nat, j: nat)
    requires i < j <= |s|
    requires NoDigit(s[..i]) && AllDigits(s[i..j])
    requires j == |s| || !IsDigit(s[j])
    ensures FirstDigitRun(s) == s[i..j]
    decreases i
  {
    if i > 0 {
      assert !IsDigit(s[..i][0]);
      assert s[1..][..i - 1] == s[1..i];
      assert s[1..][i - 1..j - 1] == s[i..j];
      FirstDigitRunIsLeftmostMaximal(s[1..], i - 1, j - 1);
    } else {
      LeadingDigitsIsMaximalRun(s, j);
    }
  }

  lemma {:induction false} LeadingDigitsIsMaximalRun(s: string, j: nat)
    requires j <= |s| && AllDigits(s[..j])
    requires j == |s| || !IsDigit(s[j])
    ensures LeadingDigits(s) == s[..j]
    decreases j
  {
    if j > 0 {
      assert IsDigit(s[..j][0]);
      assert s[1..][..j - 1] == s[1..j];
      LeadingDigitsIsMaximalRun(s[1..], j - 1);
    } else if s != [] {
      assert !IsDigit(s[0]);
    }
  }

  /** No run is found exactly when the text holds no digit. */
  lemma {:induction false} FirstDigitRunEmptyIffNoDigit(s: string)
    ensures FirstDigitRun(s) == [] <==> NoDigit(s)
    decreases |s|
  {
    if s != [] {
      FirstDigitRunEmptyIffNoDigit(s[1..]);
      if !IsDigit(s[0]) {
        assert forall k :: 1 <= k < |s| ==> s[1..][k - 1] == s[k];
      }
    }
  }

  function DigitValue(c: char): (d: nat)
    requires IsDigit(c)
    ensures d < 10
  {
    c as int - '0' as int
  }

  function DigitChar(d: nat): (c: char)
    requires d < 10
    ensures IsDigit(c) && DigitValue(c) == d
  {
    (d + '0' as int) as char
  }

  /** Python's `int()` of a string of decimal digits. */
  function DecimalValue(d: string): nat
    requires AllDigits(d)
  {
    if d == [] then 0
    else 10 * DecimalValue(d[..|d| - 1]) + DigitValue(d[|d| - 1])
  }

  /** The shortest decimal spelling of `n`, without leading zeros. */
  function DecimalDigits(n: nat): (r: string)
    ensures r != [] && AllDigits(r)
  {
    if n < 10 then [DigitChar(n)] else DecimalDigits(n / 10) + [DigitChar(n % 10)]
  }

  /** Reading back the spelling of a number gives that number. */
  lemma {:induction false} DecimalRoundTrip(n: nat)
    ensures DecimalValue(DecimalDigits(n)) == n
  {
    if n >= 10 {
      var d := DecimalDigits(n);
      assert d[..|d| - 1] == DecimalDigits(n / 10);
      DecimalRoundTrip(n / 10);
    }
  }

  /** Leading zeros do not change the value. */
  lemma {:induction false} LeadingZeroIgnored(d: string)
    requires AllDigits(d)
    ensures DecimalValue(['0'] + d) == DecimalValue(d)
    decreases |d|
  {
    if d != [] {
      var z := ['0'] + d;
      assert z[..|z| - 1] == ['0'] + d[..|d| - 1];
      LeadingZeroIgnored(d[..|d| - 1]);
    }
  }

  // ---------------------------------------------------------------------
  // One answer to one value
  // ---------------------------------------------------------------------

  /** The text after `.str.replace(" km", "").str.replace("km", "")`. */
  function WithoutUnit(raw: string): string {
    RemoveAll(RemoveAll(raw, " km"), "km")
  }

  /** The mileage read from one (stripped) answer: the integer value of the
      first digit run left after the unit is removed, or no value when
      there is no digit (kilometre/app.py:127-130). */
  function Normalize(raw: string): Option<nat> {
    var run := FirstDigitRun(WithoutUnit(raw));
    if run == [] then None else Some(DecimalValue(run))
  }

  /** Removing the unit keeps exactly the digits of the answer. */
  lemma WithoutUnitKeepsDigits(raw: string)
    ensures Digits(WithoutUnit(raw)) == Digits(raw)
  {
    assert NoDigit(" km") by {
      assert forall k :: 0 <= k < 3 ==> " km"[k] in {' ', 'k', 'm'};
    }
    assert NoDigit("km") by {
      assert forall k :: 0 <= k < 2 ==> "km"[k] in {'k', 'm'};
    }
    RemoveAllKeepsDigits(raw, " km");
    RemoveAllKeepsDigits(RemoveAll(raw, " km"), "km");
  }

  /** An answer yields no value exactly when it contains no digit; the
      failure marker is one such answer. */
  lemma NormalizeNoneIffNoDigit(raw: string)
    ensures Normalize(raw).None? <==> NoDigit(raw)
  {
    WithoutUnitKeepsDigits(raw);
    FirstDigitRunEmptyIffNoDigit(WithoutUnit(raw));
    NoDigitIffNoDigits(WithoutUnit(raw));
    NoDigitIffNoDigits(raw);
  }

  lemma FailureMarkerHasNoValue()
    ensures Normalize(FailureMarker).None?
  {
    assert NoDigit(FailureMarker) by {
      assert forall k :: 0 <= k < 4 ==> FailureMarker[k] in {'H', 'a', 't'};
    }
    NormalizeNoneIffNoDigit(FailureMarker);
  }

  /** A well-formed answer, the number with or without the unit, reads
      back as that number. */
  lemma NormalizeReadsNumber(n: nat)
    ensures Normalize(DecimalDigits(n)) == Some(n)
    ensures Normalize(DecimalDigits(n) + " km") == Some(n)
    ensures Normalize(DecimalDigits(n) + "km") == Some(n)
  {
    var d := DecimalDigits(n);
    DecimalRoundTrip(n);
    NoUnitInDigits(d, []);
    NoUnitInDigits(d, " km");
    NoUnitInDigits(d, "km");
    assert d + [] == d;
    assert RemoveAll(" km", " km") == [] by {
      assert " km"[..3] == " km";
      assert " km"[3..] == [];
    }
    assert RemoveAll("km", " km") == "km";
    assert RemoveAll("km", "km") == [] by {
      assert "km"[..2] == "km";
      assert "km"[2..] == [];
    }
    FirstDigitRunIsLeftmostMaximal(d, 0, |d|);
    assert d[..0] == [] && d[0..|d|] == d;
  }

  /** "km" followed by digits loses the unit and keeps the digits. */
  lemma UnitThenDigits(b: string)
    requires AllDigits(b)
    ensures WithoutUnit("km" + b) == b
  {
    assert RemoveAll("km" + b, " km") == "km" + b by {
      RemoveAllSkipsPrefix("km", b, " km");
      RemoveAllSkipsPrefix(b, [], " km");
      assert b + [] == b;
    }
    assert RemoveAll("km" + b, "km") == b by {
      assert ("km" + b)[..2] == "km";
      assert ("km" + b)[2..] == b;
      RemoveAllSkipsPrefix(b, [], "km");
      assert b + [] == b;
    }
  }

  lemma NoUnitInDigits(d: string, t: string)
    requires AllDigits(d)
    ensures WithoutUnit(d + t) == d + WithoutUnit(t)
  {
    RemoveAllSkipsPrefix(d, t, " km");
    RemoveAllSkipsPrefix(d, RemoveAll(t, " km"), "km");
  }

  /** Removing "km" joins the digits on either side of it into one number:
      "123km456" reads as 123456. */
  lemma UnitBetweenDigitsJoinsThem(a: string, b: string)
    requires a != [] && AllDigits(a) && AllDigits(b)
    ensures Normalize(a + "km" + b) == Some(DecimalValue(a + b))
  {
    assert a + "km" + b == a + ("km" + b);
    NoUnitInDigits(a, "km" + b);
    UnitThenDigits(b);
    var d := a + b;
    assert AllDigits(d);
    FirstDigitRunIsLeftmostMaximal(d, 0, |d|);
    assert d[..0] == [] && d[0..|d|] == d;
  }

  /** Removing " km" joins the digits on either side of it too: "12 km34"
      reads as 1234. */
  lemma SpacedUnitBetweenDigitsJoinsThem(a: string, b: string)
    requires a != [] && AllDigits(a) && AllDigits(b)
    ensures Normalize(a + " km" + b) == Some(DecimalValue(a + b))
  {
    var s := a + " km" + b;
    forall j: nat | j < |a| ensures !OccursAt(s, " km", j) {
      assert s[j] == a[j];
    }
    RemoveAllDropsLeftmost(a, " km", b);
    RemoveAllSkipsPrefix(b, [], " km");
    assert b + [] == b;
    var d := a + b;
    assert AllDigits(d);
    RemoveAllSkipsPrefix(d, [], "km");
    assert d + [] == d;
    FirstDigitRunIsLeftmostMaximal(d, 0, |d|);
    assert d[..0] == [] && d[0..|d|] == d;
  }
}
