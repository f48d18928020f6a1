/**
 * The mail queue of server/index.js: the stored job record (lines 18-29), the
 * intake of a `POST /send-email` batch (lines 34-68), the due-job scan of a
 * scheduler tick (lines 77-81) and what a tick does to each due job (lines
 * 90-137), as functions on values. The `JobStore` class in module `Store`
 * runs these operations on its state; the lemmas here state what they mean.
 *
 * A job's position in the store stands for its database `_id`. Times are
 * integers. Sending is an oracle `sendOk(id)`: true when the transport
 * accepts the message.
 */
module Jobs {
  import opened Wrappers
  import opened Strings
  import opened Template

  datatype Status = Pending | Sent | Failed | FailedMissingCreds

  /**
   * A stored job record. A credential that is absent on the record is the
   * empty string (both are falsy in JavaScript); an absent `content` is
   * `None`, because dereferencing it throws.
   */
  datatype Job = Job(
    senderName: string,
    senderEmail: string,
    senderPass: string,
    email: string,
    name: string,
    subject: Option<string>,
    content: Option<string>,
    scheduledTime: int,
    status: Status)

  /**
   * The JSON body of `POST /send-email`; `None` is a field that is absent or
   * `null`. For `scheduledTime`, `None` is also any falsy value, and
   * `Some(t)` is a truthy value that the server reads as the instant `t`.
   */
  datatype Request = Request(
    senderName: Option<string>,
    senderEmail: Option<string>,
    appPassword: Option<string>,
    emails: Option<seq<string>>,
    names: Option<seq<string>>,
    subject: Option<string>,
    content: Option<string>,
    scheduledTime: Option<int>)

  /** The two 400 answers of the intake. */
  datatype Rejection = MissingSenderCredentials | CountMismatch

  /** A sendMail call: the job it was made for and the message handed to the transport. */
  datatype Mail = Mail(from: string, to: string, subject: Option<string>, html: string)
  datatype Dispatch = Dispatch(job: nat, mail: Mail)

  const DefaultSenderName: string := "Bulk Mailer"

  /** JavaScript truthiness of an optional string. */
  predicate Truthy(s: Option<string>)
  {
    s.Some? && s.value != ""
  }

  predicate HasCredentials(job: Job)
  {
    job.senderEmail != "" && job.senderPass != ""
  }

  predicate IsTerminal(s: Status)
  {
    s != Pending
  }

  /** The filter of the tick's query: pending and scheduled at or before `now`. */
  predicate IsDue(job: Job, now: int)
  {
    job.status == Pending && job.scheduledTime <= now
  }

  /**
   * A due job on which the tick throws: it has credentials, so the server
   * goes on to `job.content.replace`, and its content is absent.
   */
  predicate AbortsTick(job: Job)
  {
    HasCredentials(job) && job.content.None?
  }

  /** Job `i` exists and the tick gets as far as sending it. */
  predicate Sendable(jobs: seq<Job>, i: nat)
  {
    i < |jobs| && HasCredentials(jobs[i]) && jobs[i].content.Some?
  }

  // ---------------------------------------------------------------------
  // Batch intake
  // ---------------------------------------------------------------------

  /** The validation of lines 39-44, in its order. */
  function Validate(req: Request): (r: Option<Rejection>)
    ensures r.None? <==>
      (Truthy(req.senderEmail) && Truthy(req.appPassword)
       && req.emails.Some? && req.names.Some? && |req.emails.value| == |req.names.value|)
    ensures r == Some(MissingSenderCredentials) <==> !Truthy(req.senderEmail) || !Truthy(req.appPassword)
  {
    if !Truthy(req.senderEmail) || !Truthy(req.appPassword) then Some(MissingSenderCredentials)
    else if req.emails.None? || req.names.None? || |req.emails.value| != |req.names.value| then Some(CountMismatch)
    else None
  }

  /** The job built for recipient `i` of an accepted request (lines 47-58). */
  function NewJob(req: Request, i: nat, now: int): (job: Job)
    requires Validate(req).None? && i < |req.emails.value|
    ensures HasCredentials(job) && job.status == Pending
    ensures job.senderName != ""
  {
    Job(
      senderName := if Truthy(req.senderName) then req.senderName.value else DefaultSenderName,
      senderEmail := req.senderEmail.value,
      senderPass := req.appPassword.value,
      email := req.emails.value[i],
      name := req.names.value[i],
      subject := req.subject,
      content := req.content,
      scheduledTime := if req.scheduledTime.Some? then req.scheduledTime.value else now,
      status := Pending)
  }

  /** Validation followed by `emails.map(...)`: the rejection or the jobs to insert. */
  function Intake(req: Request, now: int): (r: Result<seq<Job>, Rejection>)
    ensures r.Failure? <==> Validate(req).Some?
    ensures r.Failure? ==> r.error == Validate(req).value
    ensures r.Success? ==> |r.value| == |req.emails.value| == |req.names.value|
  {
    match Validate(req)
    case Some(why) => Failure(why)
    case None => Success(seq(|req.emails.value|, i requires 0 <= i < |req.emails.value| => NewJob(req, i, now)))
  }

  /** Missing credentials are reported first, whatever the recipient lists are. */
  lemma IntakeRejectsMissingCredentials(req: Request, now: int)
    ensures Intake(req, now) == Failure(MissingSenderCredentials)
        <==> !Truthy(req.senderEmail) || !Truthy(req.appPassword)
  {
  }

  /**
   * With credentials present, the batch is refused for a count mismatch exactly
   * when a list is absent or the two lengths differ; two empty lists pass.
   */
  lemma IntakeRejectsCountMismatch(req: Request, now: int)
    requires Truthy(req.senderEmail) && Truthy(req.appPassword)
    ensures Intake(req, now) == Failure(CountMismatch)
        <==> req.emails.None? || req.names.None? || |req.emails.value| != |req.names.value|
    ensures req.emails == Some([]) && req.names == Some([]) ==> Intake(req, now) == Success([])
  {
    if req.emails == Some([]) && req.names == Some([]) {
      assert |Intake(req, now).value| == 0;
    }
  }

  /**
   * An accepted batch is one pending job per recipient, in order, each sharing
   * the sender, the subject and the content, scheduled at the requested instant
   * or at `now`, and sent under the requested display name or "Bulk Mailer".
   */
  lemma IntakeJobs(req: Request, now: int)
    requires Intake(req, now).Success?
    ensures req.emails.Some? && req.names.Some?
    ensures |Intake(req, now).value| == |req.emails.value| == |req.names.value|
    ensures forall i :: 0 <= i < |Intake(req, now).value| ==>
      var job := Intake(req, now).value[i];
      && job.email == req.emails.value[i]
      && job.name == req.names.value[i]
      && Some(job.senderEmail) == req.senderEmail
      && Some(job.senderPass) == req.appPassword
      && job.subject == req.subject
      && job.content == req.content
      && job.status == Pending
      && (req.scheduledTime.Some? ==> job.scheduledTime == req.scheduledTime.value)
      && (req.scheduledTime.None? ==> job.scheduledTime == now)
      && (Truthy(req.senderName) ==> Some(job.senderName) == req.senderName)
      && (!Truthy(req.senderName) ==> job.senderName == DefaultSenderName)
  {
  }

  /** Every job the intake creates carries both credentials. */
  lemma IntakeJobsHaveCredentials(req: Request, now: int)
    requires Intake(req, now).Success?
    ensures forall job :: job in Intake(req, now).value ==> HasCredentials(job)
  {
    forall job | job in Intake(req, now).value ensures HasCredentials(job) {
      var i :| 0 <= i < |Intake(req, now).value| && Intake(req, now).value[i] == job;
    }
  }

  // ---------------------------------------------------------------------
  // Due-job scan
  // ---------------------------------------------------------------------

  /** The positions the tick's query returns, in store order. */
  function DueIndices(jobs: seq<Job>, now: int): (due: seq<nat>)
    ensures forall k :: 0 <= k < |due| ==> due[k] < |jobs| && IsDue(jobs[due[k]], now)
    ensures forall i :: 0 <= i < |jobs| && IsDue(jobs[i], now) ==> i in due
    ensures forall k, l :: 0 <= k < l < |due| ==> due[k] < due[l]
    decreases |jobs|
  {
    if jobs == [] then []
    else
      var due := DueIndices(jobs[..|jobs| - 1], now);
      if IsDue(jobs[|jobs| - 1], now) then due + [|jobs| - 1] else due
  }

  // ---------------------------------------------------------------------
  // The tick
  // ---------------------------------------------------------------------

  /** The status a due job ends in once the tick has handled it. */
  function Outcome(job: Job, ok: bool): (s: Status)
    ensures IsTerminal(s)
    ensures s == FailedMissingCreds <==> !HasCredentials(job)
  {
    if !HasCredentials(job) then FailedMissingCreds
    else if ok then Sent
    else Failed
  }

  /** The message the tick hands to the transport for a job with credentials and content. */
  function MailFor(job: Job): Mail
    requires job.content.Some?
  {
    Mail(FromHeader(job.senderName, job.senderEmail), job.email, job.subject, Render(job.content.value, job.name))
  }

  /** The position in `due` of the first job on which the tick throws, or `|due|`. */
  function AbortPos(jobs: seq<Job>, due: seq<nat>): (p: nat)
    requires forall k :: 0 <= k < |due| ==> due[k] < |jobs|
    ensures p <= |due|
    ensures forall k :: 0 <= k < p ==> !AbortsTick(jobs[due[k]])
    ensures p < |due| ==> AbortsTick(jobs[due[p]])
    decreases |due|
  {
    if due == [] then 0
    else if AbortsTick(jobs[due[0]]) then 0
    else 1 + AbortPos(jobs, due[1..])
  }

  /** The due jobs the loop reaches before it throws (all of them when it does not). */
  function Handled(jobs: seq<Job>, now: int): (idx: seq<nat>)
    ensures forall k :: 0 <= k < |idx| ==> idx[k] < |jobs| && IsDue(jobs[idx[k]], now) && !AbortsTick(jobs[idx[k]])
    ensures forall k, l :: 0 <= k < l < |idx| ==> idx[k] < idx[l]
  {
    var due := DueIndices(jobs, now);
    due[..AbortPos(jobs, due)]
  }

  /** A handled job is due, and no due job at or before it throws. */
  lemma HandledSound(jobs: seq<Job>, now: int, i: nat)
    requires i in Handled(jobs, now)
    ensures i < |jobs| && IsDue(jobs[i], now)
    ensures forall j :: 0 <= j <= i && IsDue(jobs[j], now) ==> !AbortsTick(jobs[j])
  {
    var due := DueIndices(jobs, now);
    var h := Handled(jobs, now);
    var k :| 0 <= k < |h| && h[k] == i;
    forall j | 0 <= j <= i && IsDue(jobs[j], now) ensures !AbortsTick(jobs[j]) {
      var m :| 0 <= m < |due| && due[m] == j;
      assert m <= k;
    }
  }

  /** A due job with no throwing due job at or before it is handled. */
  lemma HandledComplete(jobs: seq<Job>, now: int, i: nat)
    requires i < |jobs| && IsDue(jobs[i], now)
    requires forall j :: 0 <= j <= i && IsDue(jobs[j], now) ==> !AbortsTick(jobs[j])
    ensures i in Handled(jobs, now)
  {
    var due := DueIndices(jobs, now);
    var p := AbortPos(jobs, due);
    var k :| 0 <= k < |due| && due[k] == i;
    if p < |due| {
      assert IsDue(jobs[due[p]], now) && AbortsTick(jobs[due[p]]);
      assert i < due[p];
    }
    assert k < p;
    assert Handled(jobs, now)[k] == i;
  }

  /**
   * A tick handles job `i` exactly when it is due and no due job at or before
   * it in the store throws.
   */
  lemma HandledIff(jobs: seq<Job>, now: int, i: nat)
    ensures i in Handled(jobs, now) <==>
      i < |jobs| && IsDue(jobs[i], now) && forall j :: 0 <= j <= i && IsDue(jobs[j], now) ==> !AbortsTick(jobs[j])
  {
    if i in Handled(jobs, now) {
      HandledSound(jobs, now, i);
    }
    if i < |jobs| && IsDue(jobs[i], now) && forall j :: 0 <= j <= i && IsDue(jobs[j], now) ==> !AbortsTick(jobs[j]) {
      HandledComplete(jobs, now, i);
    }
  }

  /** `jobs` with the jobs at positions `idx` moved to their outcome. */
  function Apply(jobs: seq<Job>, idx: seq<nat>, sendOk: nat -> bool): seq<Job>
  {
    seq(|jobs|, i requires 0 <= i < |jobs| =>
      if i in idx then jobs[i].(status := Outcome(jobs[i], sendOk(i))) else jobs[i])
  }

  /** The store after a tick at `now`. */
  function TickJobs(jobs: seq<Job>, now: int, sendOk: nat -> bool): seq<Job>
  {
    Apply(jobs, Handled(jobs, now), sendOk)
  }

  /** Handling one more job updates that job's record only. */
  lemma ApplyOneMore(jobs: seq<Job>, idx: seq<nat>, id: nat, sendOk: nat -> bool)
    requires id < |jobs| && id !in idx
    ensures Apply(jobs, idx + [id], sendOk)
         == Apply(jobs, idx, sendOk)[id := jobs[id].(status := Outcome(jobs[id], sendOk(id)))]
  {
  }

  /** The sendMail calls made for the handled jobs `idx`, in order. */
  function DispatchesOf(jobs: seq<Job>, idx: seq<nat>): seq<Dispatch>
    requires forall k :: 0 <= k < |idx| ==> idx[k] < |jobs| && !AbortsTick(jobs[idx[k]])
    decreases |idx|
  {
    if idx == [] then []
    else
      var i := idx[|idx| - 1];
      assert !AbortsTick(jobs[i]);
      var rest := DispatchesOf(jobs, idx[..|idx| - 1]);
      if HasCredentials(jobs[i]) then rest + [Dispatch(i, MailFor(jobs[i]))] else rest
  }

  /** Handling one more job adds its sendMail call, if it has credentials. */
  lemma DispatchesOfOneMore(jobs: seq<Job>, idx: seq<nat>, id: nat)
    requires forall k :: 0 <= k < |idx| ==> idx[k] < |jobs| && !AbortsTick(jobs[idx[k]])
    requires id < |jobs| && !AbortsTick(jobs[id])
    ensures DispatchesOf(jobs, idx + [id])
         == DispatchesOf(jobs, idx) + if HasCredentials(jobs[id]) then [Dispatch(id, MailFor(jobs[id]))] else []
  {
    assert (idx + [id])[..|idx|] == idx;
  }

  /**
   * One turn of the tick's loop: the `k`-th due job, reached before any job
   * that throws, has its record updated and its sendMail call appended.
   */
  lemma HandleNext(jobs: seq<Job>, now: int, k: nat, sendOk: nat -> bool)
    requires k < AbortPos(jobs, DueIndices(jobs, now))
    ensures var due := DueIndices(jobs, now);
      Apply(jobs, due[..k + 1], sendOk)
        == Apply(jobs, due[..k], sendOk)[due[k] := jobs[due[k]].(status := Outcome(jobs[due[k]], sendOk(due[k])))]
    ensures var due := DueIndices(jobs, now);
      Apply(jobs, due[..k], sendOk)[due[k]] == jobs[due[k]]
    ensures var due := DueIndices(jobs, now);
      DispatchesOf(jobs, due[..k + 1])
        == DispatchesOf(jobs, due[..k]) + if HasCredentials(jobs[due[k]]) then [Dispatch(due[k], MailFor(jobs[due[k]]))] else []
  {
    var due := DueIndices(jobs, now);
    var id := due[k];
    TakeOneMore(due, k);
    IncreasingNotEarlier(due, k);
    ApplyOneMore(jobs, due[..k], id, sendOk);
    DispatchesOfOneMore(jobs, due[..k], id);
  }

  /** The sendMail calls a tick at `now` makes. */
  function TickDispatches(jobs: seq<Job>, now: int): seq<Dispatch>
  {
    DispatchesOf(jobs, Handled(jobs, now))
  }

  /**
   * A tick changes nothing but the status of the jobs it handles; every other
   * job, and every field but the status, is left as it was.
   */
  lemma TickChangesOnlyStatus(jobs: seq<Job>, now: int, sendOk: nat -> bool)
    ensures |TickJobs(jobs, now, sendOk)| == |jobs|
    ensures forall i :: 0 <= i < |jobs| ==>
      TickJobs(jobs, now, sendOk)[i] == jobs[i].(status := TickJobs(jobs, now, sendOk)[i].status)
    ensures forall i :: 0 <= i < |jobs| && TickJobs(jobs, now, sendOk)[i] != jobs[i] ==> IsDue(jobs[i], now)
  {
    var after := TickJobs(jobs, now, sendOk);
    var h := Handled(jobs, now);
    forall i | 0 <= i < |jobs| && after[i] != jobs[i] ensures IsDue(jobs[i], now) {
      assert i in h;
      var k :| 0 <= k < |h| && h[k] == i;
    }
  }

  /** Jobs scheduled after `now`, and jobs already sent or failed, are left alone. */
  lemma TickLeavesUndue(jobs: seq<Job>, now: int, sendOk: nat -> bool, i: nat)
    requires i < |jobs|
    requires jobs[i].scheduledTime > now || IsTerminal(jobs[i].status)
    ensures i < |TickJobs(jobs, now, sendOk)| && TickJobs(jobs, now, sendOk)[i] == jobs[i]
  {
    TickChangesOnlyStatus(jobs, now, sendOk);
  }

  /** A status never goes back to pending, and a terminal status never changes. */
  lemma TickIsMonotone(jobs: seq<Job>, now: int, sendOk: nat -> bool, i: nat)
    requires i < |jobs|
    ensures i < |TickJobs(jobs, now, sendOk)|
    ensures TickJobs(jobs, now, sendOk)[i].status == Pending ==> jobs[i].status == Pending
    ensures IsTerminal(jobs[i].status) ==> TickJobs(jobs, now, sendOk)[i].status == jobs[i].status
  {
    if !IsDue(jobs[i], now) {
      TickLeavesUndue(jobs, now, sendOk, i);
    }
  }

  /**
   * A handled job ends in exactly one terminal status: missing credentials
   * first, then the transport's verdict.
   */
  lemma TickRoutesHandled(jobs: seq<Job>, now: int, sendOk: nat -> bool, i: nat)
    requires i in Handled(jobs, now)
    ensures i < |jobs| && i < |TickJobs(jobs, now, sendOk)|
    ensures var s := TickJobs(jobs, now, sendOk)[i].status;
      && (s == FailedMissingCreds <==> !HasCredentials(jobs[i]))
      && (s == Sent <==> HasCredentials(jobs[i]) && sendOk(i))
      && (s == Failed <==> HasCredentials(jobs[i]) && !sendOk(i))
  {
  }

  /**
   * When no due job lacks its content, the tick handles every due job:
   * each job that is pending and scheduled at or before `now` leaves pending.
   */
  lemma TickHandlesAllDue(jobs: seq<Job>, now: int, sendOk: nat -> bool)
    requires forall i :: 0 <= i < |jobs| && IsDue(jobs[i], now) ==> !AbortsTick(jobs[i])
    ensures forall i :: 0 <= i < |jobs| && IsDue(jobs[i], now) ==>
      i < |TickJobs(jobs, now, sendOk)| && TickJobs(jobs, now, sendOk)[i] == jobs[i].(status := Outcome(jobs[i], sendOk(i)))
  {
    var due := DueIndices(jobs, now);
    var p := AbortPos(jobs, due);
    if p < |due| {
      assert false;
    }
    assert Handled(jobs, now) == due;
  }

  /**
   * The first due job that lacks its content stops the tick: it and every due
   * job after it stay pending, so each later tick stops at it again.
   */
  lemma TickStopsAtMissingContent(jobs: seq<Job>, now: int, sendOk: nat -> bool, i: nat, j: nat)
    requires i <= j < |jobs| && IsDue(jobs[i], now) && AbortsTick(jobs[i]) && IsDue(jobs[j], now)
    ensures j < |TickJobs(jobs, now, sendOk)| && TickJobs(jobs, now, sendOk)[j] == jobs[j]
  {
    var due := DueIndices(jobs, now);
    var p := AbortPos(jobs, due);
    var ki :| 0 <= ki < |due| && due[ki] == i;
    assert p <= ki;
    forall k | 0 <= k < p ensures due[k] != j {
      assert due[k] < due[ki];
    }
    assert j !in due[..p];
  }

  /** Every sendMail call is for a listed job with credentials and content, with that job's message. */
  lemma {:induction false} DispatchesOfSound(jobs: seq<Job>, idx: seq<nat>)
    requires forall k :: 0 <= k < |idx| ==> idx[k] < |jobs| && !AbortsTick(jobs[idx[k]])
    ensures forall d :: d in DispatchesOf(jobs, idx) ==>
      d.job in idx && Sendable(jobs, d.job) && d.mail == MailFor(jobs[d.job])
    decreases |idx|
  {
    if idx != [] {
      var front := idx[..|idx| - 1];
      DispatchesOfSound(jobs, front);
      forall i | i in front ensures i in idx {
        var k :| 0 <= k < |front| && front[k] == i;
        assert idx[k] == i;
      }
    }
  }

  /** Every listed job with credentials gets its sendMail call. */
  lemma {:induction false} DispatchesOfComplete(jobs: seq<Job>, idx: seq<nat>)
    requires forall k :: 0 <= k < |idx| ==> idx[k] < |jobs| && !AbortsTick(jobs[idx[k]])
    ensures forall i :: i in idx && Sendable(jobs, i) ==> Dispatch(i, MailFor(jobs[i])) in DispatchesOf(jobs, idx)
    decreases |idx|
  {
    if idx != [] {
      var front := idx[..|idx| - 1];
      DispatchesOfComplete(jobs, front);
      forall i | i in idx ensures i in front || i == idx[|idx| - 1] {
        var k :| 0 <= k < |idx| && idx[k] == i;
        if k < |idx| - 1 { assert front[k] == i; }
      }
    }
  }

  /** For jobs listed in increasing order, the calls come in increasing job order, one per job. */
  lemma {:induction false} DispatchesOfOrdered(jobs: seq<Job>, idx: seq<nat>)
    requires forall k :: 0 <= k < |idx| ==> idx[k] < |jobs| && !AbortsTick(jobs[idx[k]])
    requires forall k, l :: 0 <= k < l < |idx| ==> idx[k] < idx[l]
    ensures forall k, l :: 0 <= k < l < |DispatchesOf(jobs, idx)| ==>
      DispatchesOf(jobs, idx)[k].job < DispatchesOf(jobs, idx)[l].job
    decreases |idx|
  {
    if idx != [] {
      var front := idx[..|idx| - 1];
      DispatchesOfOrdered(jobs, front);
      DispatchesOfSound(jobs, front);
      forall d | d in DispatchesOf(jobs, front) ensures d.job < idx[|idx| - 1] {
        var k :| 0 <= k < |front| && front[k] == d.job;
      }
    }
  }

  /** The sendMail calls of one tick: one per handled job with credentials, each job at most once. */
  lemma TickDispatchesSpec(jobs: seq<Job>, now: int, sendOk: nat -> bool)
    ensures forall d :: d in TickDispatches(jobs, now) ==>
      && d.job in Handled(jobs, now) && Sendable(jobs, d.job) && d.mail == MailFor(jobs[d.job])
      && d.job < |TickJobs(jobs, now, sendOk)| && TickJobs(jobs, now, sendOk)[d.job].status in {Sent, Failed}
    ensures forall i :: i in Handled(jobs, now) && HasCredentials(jobs[i]) ==>
      Sendable(jobs, i) && Dispatch(i, MailFor(jobs[i])) in TickDispatches(jobs, now)
    ensures forall k, l :: 0 <= k < l < |TickDispatches(jobs, now)| ==>
      TickDispatches(jobs, now)[k].job != TickDispatches(jobs, now)[l].job
  {
    var h := Handled(jobs, now);
    DispatchesOfSound(jobs, h);
    DispatchesOfComplete(jobs, h);
    DispatchesOfOrdered(jobs, h);
    forall i | i in h && HasCredentials(jobs[i]) ensures Sendable(jobs, i) {
      var k :| 0 <= k < |h| && h[k] == i;
    }
    forall d | d in TickDispatches(jobs, now)
      ensures d.job < |TickJobs(jobs, now, sendOk)| && TickJobs(jobs, now, sendOk)[d.job].status in {Sent, Failed}
    {
      TickRoutesHandled(jobs, now, sendOk, d.job);
    }
  }

  /** A job stored without credentials is failed by the tick and no message is sent for it. */
  lemma MissingCredentialsNotSent(jobs: seq<Job>, now: int, sendOk: nat -> bool, i: nat)
    requires i < |jobs| && IsDue(jobs[i], now) && !HasCredentials(jobs[i])
    requires forall j :: 0 <= j < i && IsDue(jobs[j], now) ==> !AbortsTick(jobs[j])
    ensures i < |TickJobs(jobs, now, sendOk)| && TickJobs(jobs, now, sendOk)[i].status == FailedMissingCreds
    ensures forall d :: d in TickDispatches(jobs, now) ==> d.job != i
  {
    var due := DueIndices(jobs, now);
    var p := AbortPos(jobs, due);
    var ki :| 0 <= ki < |due| && due[ki] == i;
    if p <= ki {
      assert false;
    }
    assert due[..p][ki] == i;
    TickRoutesHandled(jobs, now, sendOk, i);
    TickDispatchesSpec(jobs, now, sendOk);
  }

  /** A job built by the intake is never failed for missing credentials. */
  lemma IntakeJobsNeverMissCredentials(req: Request, now: int, job: Job, ok: bool)
    requires Intake(req, now).Success? && job in Intake(req, now).value
    ensures Outcome(job, ok) != FailedMissingCreds
  {
    IntakeJobsHaveCredentials(req, now);
  }
}
