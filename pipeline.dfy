// The whole run: select the photographs, read them, reduce the answers to
// sorted candidate values and reconcile those into Entry/Exit/Difference
// rows (kilometre/app.py:50-54, 74-152, 179-181).

module Pipeline {
  import opened Normalizer
  import opened Candidates
  import opened Reconciler
  import opened Images
  import opened Batch

  /** What a run shows: nothing after an image that could not be opened
      (the exception ends the script), nothing when no reading was collected
      (kilometre/app.py:118), otherwise the reconciliation's verdict. */
  datatype Report = Aborted | NoReadings | Reconciled(verdict: Verdict)

  /** The `km` column of the collected readings. */
  function KmColumn(readings: seq<Reading>): (column: seq<string>)
    ensures |column| == |readings|
    ensures forall k :: 0 <= k < |readings| ==> column[k] == readings[k].km
  {
    seq(|readings|, k requires 0 <= k < |readings| => readings[k].km)
  }

  /** The sorted candidate values of a run. */
  function RunCandidates(names: seq<string>, recognize: string -> Outcome): seq<nat> {
    SortedCandidates(KmColumn(Accumulate(SelectImages(names), recognize)))
  }

  /** One run over the names in the archive, with `recognize` standing for
      the recognition service. */
  method Run(names: seq<string>, recognize: string -> Outcome) returns (report: Report)
    ensures report == Aborted <==> Aborts(SelectImages(names), recognize)
    ensures report == NoReadings <==>
      !Aborts(SelectImages(names), recognize) && Accumulate(SelectImages(names), recognize) == []
    ensures report.Reconciled? ==>
      (report.verdict == InsufficientData <==> SweepPairs(RunCandidates(names, recognize)) == [])
    ensures report.Reconciled? && report.verdict.Table? ==>
      report.verdict.rows == Tabulate(SweepPairs(RunCandidates(names, recognize)))
    ensures report.Reconciled? && |RunCandidates(names, recognize)| <= 1 ==>
      report.verdict == InsufficientData
    ensures report.Reconciled? && report.verdict.Table? ==>
      forall row :: row in report.verdict.rows ==> row.difference >= 2
  {
    var files := SelectImages(names);
    var readings, aborted := Collect(files, recognize);
    if aborted {
      report := Aborted;
    } else if readings == [] {
      report := NoReadings;
    } else {
      var candidates := SortedCandidates(KmColumn(readings));
      CandidatesAscending(KmColumn(readings));
      var verdict := Reconcile(candidates);
      report := Reconciled(verdict);
    }
  }

  /** Every candidate value goes back to an answer of the service: some
      photograph of the run was answered with a text that reads as it. A
      failed call contributes nothing, since its marker holds no digit. */
  lemma CandidatesComeFromAnswers(names: seq<string>, recognize: string -> Outcome, v: nat)
    ensures v in RunCandidates(names, recognize) ==> exists file, answer ::
      file in SelectImages(names) && recognize(file) == Text(answer) && Normalize(Strip(answer)) == Some(v)
  {
    if v !in RunCandidates(names, recognize) {
      return;
    }
    var files := SelectImages(names);
    var readings := Accumulate(files, recognize);
    var column := KmColumn(readings);
    CandidateCount(column, v);
    assert multiset(RunCandidates(names, recognize))[v] > 0;
    var t :| t in ReadingAs(column, v);
    var k :| 0 <= k < |column| && column[k] == t;
    AccumulateStopsAtFirstEnd(files, recognize);
    assert readings[k] == Reading(files[k], KmText(recognize(files[k])));
    match recognize(files[k]) {
      case OtherFailure =>
        FailureMarkerHasNoValue();
        assert false;
      case Text(answer) =>
        assert files[k] in files;
    }
  }
}
