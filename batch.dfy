// The batch loop: one recognition call per photograph, in file order,
// collecting one reading per call until the service reports that its quota
// is used up (kilometre/app.py:68, 74-110). A photograph that cannot be
// opened stops the whole run, since it is opened outside the `try`.

module Batch {
  import opened Normalizer

  /** What happens to one photograph in the loop. */
  datatype Outcome =
    | Text(answer: string)  // the service answers with this text
    | QuotaExceeded         // the quota signal (ResourceExhausted)
    | OtherFailure          // any other exception inside the `try`
    | Unopenable            // opening, showing or shrinking the image raises (lines 83-88)

  /** The outcomes that end the loop: the quota signal leaves it by
      `break`, an image that cannot be opened aborts the run. */
  predicate EndsLoop(outcome: Outcome) {
    outcome.QuotaExceeded? || outcome.Unopenable?
  }

  /** One entry of `sonuçlar`: the file name and the `km` text. */
  datatype Reading = Reading(fileName: string, km: string)

  /** The `km` text recorded for an outcome that does not end the loop:
      the stripped answer, or the failure marker. */
  function KmText(outcome: Outcome): string
    requires !EndsLoop(outcome)
  {
    match outcome
    case Text(answer) => Strip(answer)
    case OtherFailure => FailureMarker
  }

  /** The readings the loop collects for `files`, where `recognize` stands
      for what happens to each photograph. */
  function Accumulate(files: seq<string>, recognize: string -> Outcome): seq<Reading> {
    if files == [] then []
    else
      var outcome := recognize(files[0]);
      if EndsLoop(outcome) then []
      else [Reading(files[0], KmText(outcome))] + Accumulate(files[1..], recognize)
  }

  /** Whether the loop is cut short by a photograph that cannot be opened,
      before any quota signal. */
  predicate Aborts(files: seq<string>, recognize: string -> Outcome) {
    if files == [] then false
    else
      var outcome := recognize(files[0]);
      if outcome.Unopenable? then true
      else if outcome.QuotaExceeded? then false
      else Aborts(files[1..], recognize)
  }

  /** The loop of kilometre/app.py:74-113, with the service as a parameter.
      `aborted` tells that the run stopped on an image it could not open. */
  method Collect(files: seq<string>, recognize: string -> Outcome) returns (readings: seq<Reading>, aborted: bool)
    ensures readings == Accumulate(files, recognize)
    ensures aborted == Aborts(files, recognize)
  {
    readings, aborted := [], false;
    for idx := 0 to |files|
      invariant Accumulate(files, recognize) == readings + Accumulate(files[idx..], recognize)
      invariant Aborts(files, recognize) == Aborts(files[idx..], recognize)
      invariant !aborted
    {
      var file := files[idx];
      assert files[idx..][1..] == files[idx + 1..];
      match recognize(file) {
        case Unopenable =>
          aborted := true;
          break;
        case QuotaExceeded =>
          break;
        case Text(answer) =>
          readings := readings + [Reading(file, Strip(answer))];
        case OtherFailure =>
          readings := readings + [Reading(file, FailureMarker)];
      }
    }
  }

  /** The loop records one reading per photograph, in file order, until the
      first outcome that ends it, and keeps every reading made before: the
      readings are exactly those of the files before that outcome, or of
      all files when none comes. The run is aborted exactly when that
      outcome is an image that cannot be opened. */
  lemma {:induction false} AccumulateStopsAtFirstEnd(files: seq<string>, recognize: string -> Outcome)
    ensures var r := Accumulate(files, recognize);
      |r| <= |files|
      && (forall k :: 0 <= k < |r| ==>
            !EndsLoop(recognize(files[k]))
            && r[k] == Reading(files[k], KmText(recognize(files[k]))))
      && (|r| < |files| ==> EndsLoop(recognize(files[|r|])))
      && (Aborts(files, recognize) <==> |r| < |files| && recognize(files[|r|]).Unopenable?)
    decreases |files|
  {
    if files != [] && !EndsLoop(recognize(files[0])) {
      AccumulateStopsAtFirstEnd(files[1..], recognize);
      var r := Accumulate(files, recognize);
      var rest := Accumulate(files[1..], recognize);
      assert r == [Reading(files[0], KmText(recognize(files[0])))] + rest;
      forall k | 1 <= k < |r|
        ensures !EndsLoop(recognize(files[k]))
        ensures r[k] == Reading(files[k], KmText(recognize(files[k])))
      {
        assert r[k] == rest[k - 1] && files[1..][k - 1] == files[k];
      }
      if |r| < |files| {
        assert files[1..][|rest|] == files[|r|];
      }
    }
  }
}
