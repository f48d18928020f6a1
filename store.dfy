/**
 * The running server's state: the `EmailJob` collection (server/index.js:31)
 * and the messages handed to the transport. `Submit` is the `POST /send-email`
 * handler (lines 34-68); `Tick` is one run of the scheduler callback (lines
 * 71-141), with each status update applied as soon as its send completes.
 */
module Store {
  import opened Strings
  import opened Template
  import opened Jobs

  /**
   * The handler's answer: 200 with its fixed success message (`count` is the
   * number of jobs queued, which the handler only logs), 400 with the reason,
   * or 500.
   */
  datatype Response = Queued(count: nat) | BadRequest(reason: Rejection) | DatabaseError

  /**
   * One turn of the tick's loop, on values: if the store held the first `k`
   * handled jobs' outcomes and their calls (after the earlier calls `log`),
   * then after `Process` on the `k`-th due job it holds the first `k + 1`.
   */
  lemma LoopStep(snapshot: seq<Job>, now: int, sendOk: nat -> bool, k: nat, log: seq<Dispatch>,
                 jobs0: seq<Job>, outbox0: seq<Dispatch>, jobs1: seq<Job>, outbox1: seq<Dispatch>)
    requires k < AbortPos(snapshot, DueIndices(snapshot, now))
    requires jobs0 == Apply(snapshot, DueIndices(snapshot, now)[..k], sendOk)
    requires outbox0 == log + DispatchesOf(snapshot, DueIndices(snapshot, now)[..k])
    requires var id := DueIndices(snapshot, now)[k]; var job := snapshot[id];
      && jobs1 == jobs0[id := jobs0[id].(status := Outcome(job, sendOk(id)))]
      && outbox1 == outbox0 + if HasCredentials(job) then [Dispatch(id, MailFor(job))] else []
    ensures jobs1 == Apply(snapshot, DueIndices(snapshot, now)[..k + 1], sendOk)
    ensures outbox1 == log + DispatchesOf(snapshot, DueIndices(snapshot, now)[..k + 1])
  {
    var due := DueIndices(snapshot, now);
    var id := due[k];
    HandleNext(snapshot, now, k, sendOk);
    AppendAssoc(log, DispatchesOf(snapshot, due[..k]),
                if HasCredentials(snapshot[id]) then [Dispatch(id, MailFor(snapshot[id]))] else []);
  }

  class JobStore {
    /** The stored job records; a record's position is its id. */
    var jobs: seq<Job>
    /** Every sendMail call made so far, oldest first. */
    var outbox: seq<Dispatch>

    constructor ()
      ensures jobs == [] && outbox == []
    {
      jobs := [];
      outbox := [];
    }

    /**
     * Validates the request and inserts one job per recipient. `insertOk` is
     * the outcome of `insertMany`, which stores all the jobs or none.
     */
    method Submit(req: Request, now: int, insertOk: bool) returns (resp: Response)
      modifies this
      ensures outbox == old(outbox)
      ensures Intake(req, now).Failure? ==> resp == BadRequest(Intake(req, now).error) && jobs == old(jobs)
      ensures Intake(req, now).Success? && !insertOk ==> resp == DatabaseError && jobs == old(jobs)
      ensures Intake(req, now).Success? && insertOk ==>
        resp == Queued(|Intake(req, now).value|) && jobs == old(jobs) + Intake(req, now).value
    {
      match Intake(req, now)
      case Failure(why) =>
        resp := BadRequest(why);
      case Success(batch) =>
        if insertOk {
          jobs := jobs + batch;
          resp := Queued(|batch|);
        } else {
          resp := DatabaseError;
        }
    }

    /**
     * The body of the tick's loop for the job `job` stored at `id` (lines
     * 93-136): fail it for missing credentials, or render and send it and
     * record the transport's verdict `ok`. The fields are read from `job`, the
     * copy the tick fetched, and only the stored record's status is updated.
     * Returns `true` when reading the absent content throws, in which case
     * nothing is changed.
     */
    method Process(id: nat, job: Job, ok: bool) returns (threw: bool)
      requires id < |jobs|
      modifies this
      ensures threw == AbortsTick(job)
      ensures threw ==> jobs == old(jobs) && outbox == old(outbox)
      ensures !threw ==> jobs == old(jobs)[id := old(jobs)[id].(status := Outcome(job, ok))]
      ensures !threw ==> outbox == old(outbox) + if HasCredentials(job) then [Dispatch(id, MailFor(job))] else []
    {
      if !HasCredentials(job) {
        jobs := jobs[id := jobs[id].(status := FailedMissingCreds)];
        return false;
      }
      if job.content.None? {
        return true;
      }
      var mail := Mail(FromHeader(job.senderName, job.senderEmail), job.email, job.subject,
                       Render(job.content.value, job.name));
      outbox := outbox + [Dispatch(id, mail)];
      jobs := jobs[id := jobs[id].(status := if ok then Sent else Failed)];
      return false;
    }

    /**
     * One scheduler tick at `now`: the due jobs, in store order, go through
     * `Process`; the first one that throws ends the tick, as the catch around
     * the loop does.
     */
    method Tick(now: int, sendOk: nat -> bool)
      modifies this
      ensures jobs == TickJobs(old(jobs), now, sendOk)
      ensures outbox == old(outbox) + TickDispatches(old(jobs), now)
    {
      var snapshot := jobs;
      var due := DueIndices(snapshot, now);
      ghost var stop := AbortPos(snapshot, due);
      ghost var log := outbox;
      var k := 0;
      while k < |due|
        invariant k <= stop <= |due|
        invariant jobs == Apply(snapshot, due[..k], sendOk)
        invariant outbox == log + DispatchesOf(snapshot, due[..k])
      {
        var id := due[k];
        var job := snapshot[id];
        assert k < stop || AbortsTick(job);
        ghost var jobs0, outbox0 := jobs, outbox;
        var threw := Process(id, job, sendOk(id));
        if threw {
          assert k == stop;
          assert due[..k] == Handled(snapshot, now);
          return;
        }
        LoopStep(snapshot, now, sendOk, k, log, jobs0, outbox0, jobs, outbox);
        k := k + 1;
      }
      assert due[..k] == Handled(snapshot, now);
    }
  }
}
