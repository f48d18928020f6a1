/**
 * The batch as it travels from the form (client/client/src/App.jsx:44-52)
 * through the intake (server/index.js:34-68) to a scheduler tick
 * (server/index.js:71-141).
 */
module Pipeline {
  import opened Wrappers
  import opened ClientForm
  import opened Jobs

  /**
   * The request the server receives for a posted payload. The client sends
   * no `senderName`. `parseTime` stands for `new Date(scheduledTime)`.
   */
  function RequestOf(p: Payload, parseTime: string -> int): Request
  {
    Request(
      senderName := None,
      senderEmail := Some(p.senderEmail),
      appPassword := Some(p.appPassword),
      emails := Some(p.emails),
      names := Some(p.names),
      subject := Some(p.subject),
      content := Some(p.content),
      scheduledTime := if p.scheduledTime.Some? then Some(parseTime(p.scheduledTime.value)) else None)
  }

  /**
   * Every batch the form posts is queued: one job per address, each under the
   * display name "Bulk Mailer", with credentials and content, so that no tick
   * fails it for missing credentials or stops at it.
   */
  lemma FormBatchIsQueued(form: Form, parseTime: string -> int, now: int)
    requires HandleSend(form).Success?
    ensures var p := HandleSend(form).value;
      var r := Intake(RequestOf(p, parseTime), now);
      && r.Success? && |r.value| == |p.emails| > 0
      && forall k :: 0 <= k < |r.value| ==>
        && r.value[k].email == p.emails[k] && r.value[k].name == p.names[k]
        && r.value[k].senderName == DefaultSenderName
        && r.value[k].status == Pending
        && HasCredentials(r.value[k]) && !AbortsTick(r.value[k])
  {
    var p := HandleSend(form).value;
    HandleSendPayload(form);
    var req := RequestOf(p, parseTime);
    assert Truthy(req.senderEmail) && Truthy(req.appPassword) && |p.emails| == |p.names|;
    assert Validate(req).None?;
    IntakeJobs(req, now);
    IntakeJobsHaveCredentials(req, now);
    var r := Intake(req, now);
    forall k | 0 <= k < |r.value| ensures HasCredentials(r.value[k]) && !AbortsTick(r.value[k]) {
      assert r.value[k] in r.value;
    }
  }

  /**
   * A batch accepted with its content and no schedule, added to a store where
   * no due job lacks its content, is entirely handled by the next tick at or
   * after the submission time: each new job ends `sent` or `failed` as the
   * transport answers for it.
   */
  lemma SubmitThenTick(jobs: seq<Job>, req: Request, now: int, later: int, sendOk: nat -> bool)
    requires Intake(req, now).Success? && req.content.Some? && req.scheduledTime.None? && now <= later
    requires forall i :: 0 <= i < |jobs| && IsDue(jobs[i], later) ==> !AbortsTick(jobs[i])
    ensures var batch := Intake(req, now).value;
      var after := TickJobs(jobs + batch, later, sendOk);
      && |after| == |jobs| + |batch|
      && forall k :: 0 <= k < |batch| ==>
        after[|jobs| + k] == batch[k].(status := if sendOk(|jobs| + k) then Sent else Failed)
  {
    var batch := Intake(req, now).value;
    var all := jobs + batch;
    IntakeJobs(req, now);
    IntakeJobsHaveCredentials(req, now);
    forall i | 0 <= i < |all| && IsDue(all[i], later) ensures !AbortsTick(all[i]) {
      if i >= |jobs| {
        assert all[i] == batch[i - |jobs|];
      }
    }
    TickHandlesAllDue(all, later, sendOk);
    TickChangesOnlyStatus(all, later, sendOk);
    forall k | 0 <= k < |batch|
      ensures TickJobs(all, later, sendOk)[|jobs| + k] == batch[k].(status := if sendOk(|jobs| + k) then Sent else Failed)
    {
      assert all[|jobs| + k] == batch[k];
      assert batch[k] in batch;
    }
  }

  /** Two addresses submitted for immediate delivery are both sent by a tick whose transport always succeeds. */
  lemma TwoRecipientsSent(now: int)
    ensures var req := Request(None, Some("me@x.com"), Some("secret"), Some(["a@x.com", "b@x.com"]),
                               Some(["A", "B"]), Some("Hello"), Some("Hi {name}"), None);
      && Intake(req, now).Success?
      && var after := TickJobs(Intake(req, now).value, now, _ => true);
         |after| == 2 && after[0].status == Sent && after[1].status == Sent
  {
    var req := Request(None, Some("me@x.com"), Some("secret"), Some(["a@x.com", "b@x.com"]),
                       Some(["A", "B"]), Some("Hello"), Some("Hi {name}"), None);
    assert Validate(req).None?;
    var batch := Intake(req, now).value;
    assert |batch| == 2;
    SubmitThenTick([], req, now, now, _ => true);
    assert [] + batch == batch;
  }
}
