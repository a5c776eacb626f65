/**
 What the process remembers about failed saves until it exits (Source/Application.cpp:69-110). Each
 method body is one or two critical sections of the exit mutex; the invariant holds between any two.
 */
module ExitStatus {
  datatype Status = Success | SaveFailed

  /** One change of the latch: how the latest save of a path went. */
  datatype Outcome = Failed(path: string) | Succeeded(path: string)

  /** The last outcome recorded for `path` is a failure. */
  predicate LatestFailed(outcomes: seq<Outcome>, path: string) {
    if outcomes == [] then false
    else
      var last := outcomes[|outcomes| - 1];
      if last.path == path then last.Failed? else LatestFailed(outcomes[..|outcomes| - 1], path)
  }

  const PREFIX := "ned: "

  /** The reason without its own "ned: ". */
  function Detail(reason: string): string {
    if PREFIX <= reason then reason[|PREFIX|..] else reason
  }

  /** The line queued for a failed save. */
  function FailureLine(bufferName: string, reason: string): string {
    PREFIX + "failed to save \"" + bufferName + "\"" + if Detail(reason) == "" then "" else ": " + Detail(reason)
  }

  class Application {
    var failures: set<string>
    var reports: seq<string>
    ghost var outcomes: seq<Outcome>  // every change of the latch, in order
    ghost var reported: seq<string>   // every line ever queued, in order
    ghost var drained: seq<string>    // every line taken so far, in order

    ghost predicate Valid()
      reads this
    {
      && (forall p :: p in failures <==> LatestFailed(outcomes, p))
      && reported == drained + reports
    }

    constructor ()
      ensures Valid() && outcomes == [] && reported == [] && drained == []
    {
      failures, reports := {}, [];
      outcomes, reported, drained := [], [], [];
    }

    method ReportOnExit(message: string)
      requires Valid()
      modifies `reports, `reported
      ensures Valid()
      ensures reported == if message == "" then old(reported) else old(reported) + [message]
    {
      if message == "" {
        return;
      }
      reports := reports + [message];
      reported := reported + [message];
    }

    method TakeExitReports() returns (taken: seq<string>)
      requires Valid()
      modifies `reports, `drained
      ensures Valid() && reports == []
      ensures drained == old(drained) + taken
    {
      taken := reports;
      reports := [];
      drained := drained + taken;
    }

    method LatchFailure(path: string)
      requires Valid()
      modifies `failures, `outcomes
      ensures Valid() && outcomes == old(outcomes) + [Failed(path)]
    {
      failures := failures + {path};
      outcomes := outcomes + [Failed(path)];
      LatestAfter(old(outcomes), Failed(path));
    }

    method NoteSaveFailed(path: string, bufferName: string, reason: string)
      requires Valid()
      modifies this
      ensures Valid()
      ensures outcomes == old(outcomes) + [Failed(path)]
      ensures reported == old(reported) + [FailureLine(bufferName, reason)] && drained == old(drained)
    {
      var detail := reason;
      if PREFIX <= detail {
        detail := detail[|PREFIX|..];
      }
      LatchFailure(path);
      ReportOnExit(PREFIX + "failed to save \"" + bufferName + "\"" + if detail == "" then "" else ": " + detail);
    }

    method NoteSaveSucceeded(path: string)
      requires Valid()
      modifies `failures, `outcomes
      ensures Valid() && outcomes == old(outcomes) + [Succeeded(path)]
    {
      failures := failures - {path};
      outcomes := outcomes + [Succeeded(path)];
      LatestAfter(old(outcomes), Succeeded(path));
    }

    method CurrentExitStatus() returns (status: Status)
      requires Valid()
      ensures status == SaveFailed <==> SomeFailed(outcomes)
    {
      status := if failures == {} then Success else SaveFailed;
      if failures != {} {
        var p :| p in failures;
        assert LatestFailed(outcomes, p);
      }
    }
  }

  /** Some path's last outcome is a failure. */
  ghost predicate SomeFailed(outcomes: seq<Outcome>) {
    exists p :: LatestFailed(outcomes, p)
  }

  lemma LatestAfter(outcomes: seq<Outcome>, last: Outcome)
    ensures forall p :: LatestFailed(outcomes + [last], p) <==>
      if p == last.path then last.Failed? else LatestFailed(outcomes, p)
  {
    assert (outcomes + [last])[..|outcomes|] == outcomes;
  }

  /** The reason, without the program's own prefix if it has one. */
  lemma DetailReads(reason: string)
    ensures Detail(reason) == if |reason| >= 5 && reason[..5] == "ned: " then reason[5..] else reason
  {
    assert PREFIX <= reason <==> |reason| >= 5 && reason[..5] == "ned: ";
  }

  /** The line names the buffer, and behind a colon the reason, if there is one. */
  lemma FailureLineReads(bufferName: string, reason: string, detail: string)
    requires detail == Detail(reason)
    ensures FailureLine(bufferName, reason) ==
      if detail == "" then "ned: failed to save \"" + bufferName + "\""
      else "ned: failed to save \"" + bufferName + "\"" + (": " + detail)
  {
  }

  /** A path counts as failed exactly when some failure of it has no success after it. */
  lemma {:induction false} LatestFailedMeans(outcomes: seq<Outcome>, path: string)
    ensures LatestFailed(outcomes, path) <==>
      exists i :: 0 <= i < |outcomes| && outcomes[i] == Failed(path) && Succeeded(path) !in outcomes[i + 1..]
  {
    if outcomes != [] {
      var front, last := outcomes[..|outcomes| - 1], outcomes[|outcomes| - 1];
      LatestFailedMeans(front, path);
      if last == Failed(path) {
        assert outcomes[|outcomes|..] == [];
      } else if LatestFailed(front, path) && last != Succeeded(path) {
        var i :| 0 <= i < |front| && front[i] == Failed(path) && Succeeded(path) !in front[i + 1..];
        assert outcomes[i + 1..] == front[i + 1..] + [last];
      }
      forall i | 0 <= i < |front| && outcomes[i] == Failed(path) && Succeeded(path) !in outcomes[i + 1..]
        ensures front[i] == Failed(path) && Succeeded(path) !in front[i + 1..] && last != Succeeded(path)
      {
        assert outcomes[i + 1..] == front[i + 1..] + [last];
      }
    }
  }
}
