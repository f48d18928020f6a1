/**
 * The life of the queue over any interleaving of intake requests and
 * scheduler ticks (server/index.js:34-141), with each tick's status updates
 * applied before the next event. Under that sequential reading, a job is
 * handed to the transport at most once, and a job that has left `pending`
 * never changes again.
 */
module Lifecycle {
  import opened Jobs

  /** An intake request answered with `insertOk` as the database's verdict, or a tick. */
  datatype Event =
    | Submitted(req: Request, now: int, insertOk: bool)
    | Ticked(now: int, sendOk: nat -> bool)

  function StepJobs(jobs: seq<Job>, e: Event): seq<Job>
  {
    match e
    case Submitted(req, now, insertOk) =>
      if insertOk && Intake(req, now).Success? then jobs + Intake(req, now).value else jobs
    case Ticked(now, sendOk) => TickJobs(jobs, now, sendOk)
  }

  function StepDispatches(jobs: seq<Job>, e: Event): seq<Dispatch>
  {
    match e
    case Submitted(_, _, _) => []
    case Ticked(now, _) => TickDispatches(jobs, now)
  }

  /** The store after the events, in order. */
  function Run(jobs: seq<Job>, events: seq<Event>): seq<Job>
    decreases |events|
  {
    if events == [] then jobs else Run(StepJobs(jobs, events[0]), events[1..])
  }

  /** Every sendMail call the events make, in order. */
  function RunDispatches(jobs: seq<Job>, events: seq<Event>): seq<Dispatch>
    decreases |events|
  {
    if events == [] then []
    else StepDispatches(jobs, events[0]) + RunDispatches(StepJobs(jobs, events[0]), events[1..])
  }

  /** How many of the calls `ds` were made for job `id`. */
  function SendCount(ds: seq<Dispatch>, id: nat): nat
    decreases |ds|
  {
    if ds == [] then 0 else (if ds[0].job == id then 1 else 0) + SendCount(ds[1..], id)
  }

  lemma {:induction false} SendCountAppend(a: seq<Dispatch>, b: seq<Dispatch>, id: nat)
    ensures SendCount(a + b, id) == SendCount(a, id) + SendCount(b, id)
    decreases |a|
  {
    if a != [] {
      assert (a + b)[1..] == a[1..] + b;
      SendCountAppend(a[1..], b, id);
    } else {
      assert a + b == b;
    }
  }

  /** Calls for pairwise different jobs count at most one per job, and one only for a job they name. */
  lemma {:induction false} SendCountDistinct(ds: seq<Dispatch>, id: nat)
    requires forall k, l :: 0 <= k < l < |ds| ==> ds[k].job != ds[l].job
    ensures SendCount(ds, id) <= 1
    ensures SendCount(ds, id) == 1 <==> exists k :: 0 <= k < |ds| && ds[k].job == id
    decreases |ds|
  {
    if ds != [] {
      SendCountDistinct(ds[1..], id);
      if ds[0].job == id {
        forall k | 0 <= k < |ds[1..]| ensures ds[1..][k].job != id {
          assert ds[1..][k] == ds[k + 1];
        }
      } else if exists k :: 0 <= k < |ds| && ds[k].job == id {
        var k :| 0 <= k < |ds| && ds[k].job == id;
        assert ds[1..][k - 1].job == id;
      }
    }
  }

  /** One event leaves a terminal job exactly as it was. */
  lemma StepKeepsTerminal(jobs: seq<Job>, e: Event, i: nat)
    requires i < |jobs| && IsTerminal(jobs[i].status)
    ensures i < |StepJobs(jobs, e)| && StepJobs(jobs, e)[i] == jobs[i]
    ensures SendCount(StepDispatches(jobs, e), i) == 0
  {
    match e
    case Submitted(_, _, _) =>
    case Ticked(now, sendOk) =>
      TickLeavesUndue(jobs, now, sendOk, i);
      var ds := TickDispatches(jobs, now);
      var h := Handled(jobs, now);
      TickDispatchesSpec(jobs, now, sendOk);
      forall k | 0 <= k < |ds| ensures ds[k].job != i {
        assert ds[k] in ds;
        var m :| 0 <= m < |h| && h[m] == ds[k].job;
      }
      SendCountDistinct(ds, i);
  }

  /** Once a job has left `pending`, no sequence of events changes it again or sends it. */
  lemma {:induction false} TerminalIsFinal(jobs: seq<Job>, events: seq<Event>, i: nat)
    requires i < |jobs| && IsTerminal(jobs[i].status)
    ensures i < |Run(jobs, events)| && Run(jobs, events)[i] == jobs[i]
    ensures SendCount(RunDispatches(jobs, events), i) == 0
    decreases |events|
  {
    if events != [] {
      var next := StepJobs(jobs, events[0]);
      StepKeepsTerminal(jobs, events[0], i);
      TerminalIsFinal(next, events[1..], i);
      SendCountAppend(StepDispatches(jobs, events[0]), RunDispatches(next, events[1..]), i);
    }
  }

  /** No sequence of intake requests and ticks hands any job to the transport twice. */
  lemma {:induction false} AtMostOneSend(jobs: seq<Job>, events: seq<Event>, i: nat)
    ensures SendCount(RunDispatches(jobs, events), i) <= 1
    decreases |events|
  {
    if events != [] {
      var e := events[0];
      var next := StepJobs(jobs, e);
      var first := StepDispatches(jobs, e);
      SendCountAppend(first, RunDispatches(next, events[1..]), i);
      match e
      case Submitted(_, _, _) =>
        AtMostOneSend(next, events[1..], i);
      case Ticked(now, sendOk) =>
        TickDispatchesSpec(jobs, now, sendOk);
        SendCountDistinct(first, i);
        if SendCount(first, i) == 1 {
          var k :| 0 <= k < |first| && first[k].job == i;
          assert first[k] in first;
          TerminalIsFinal(next, events[1..], i);
        } else {
          AtMostOneSend(next, events[1..], i);
        }
    }
  }
}
