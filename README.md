# Bulk Mailer: the mail queue and the sending form

Bulk Mailer sends one personalised message to each address of a list, on
schedule, through the sender's own Gmail account.

The server (`server/index.js`) has two parts:

- **Intake.** `POST /send-email` checks a batch and stores one `pending` job
  per recipient.
- **Scheduler.** A callback runs every minute. It picks the pending jobs whose
  time has come. For each job it either fails it for missing credentials, or
  replaces `{name}` in the body, sends the message and records `sent` or
  `failed`.

The browser form (`client/client/src/App.jsx`) splits the comma-separated
address and name fields. It trims the entries, drops the empty ones, refuses
a form with missing credentials or mismatched lists, and posts the batch.

The Dafny model has one module per concern:

| module | file | contents |
|---|---|---|
| `Wrappers` | wrappers.dfy | `Option` and `Result` |
| `Strings` | strings.dfy | `JoinWith` (JavaScript's `join`) and small sequence facts |
| `Template` | template.dfy | `body.replace(/{name}/g, name)` as `Render`, and the `from` header |
| `Jobs` | jobs.dfy | the job record, the request, the intake, the due-job scan, and a tick as functions on values, with their lemmas |
| `Store` | store.dfy | class `JobStore`: the job collection and the transport's log, with the methods `Submit` (the handler), `Process` (one turn of the tick's loop) and `Tick` (one scheduler run) |
| `Lifecycle` | lifecycle.dfy | any interleaving of intakes and ticks |
| `ClientForm` | client_form.dfy | `handleSend`: `split`, `trim`, `filter`, the two guards and the payload |
| `Pipeline` | pipeline.dfy | a posted form through the intake and a tick |

Modelling choices:

- A job's position in the store stands for its `_id`.
- Times are integers.
- The transport is an oracle `sendOk(id)`. Each attempted `sendMail` call is
  recorded in `JobStore.outbox`.
- `insertMany` is all-or-nothing. Its verdict is the parameter `insertOk`.

`Render` follows `String.prototype.replace` exactly. It replaces every
non-overlapping `{name}` from left to right. In the name, `$$`, `$&`,
`` $` `` and `$'` are expanded. Any other `$` is kept, because the pattern
has no capture groups.

Three behaviours of the code shape the model:

- **Empty recipient lists.** The server refuses only absent lists or lists
  of different lengths (server/index.js:42-44). Two empty lists are accepted
  and insert nothing. Only the form refuses an empty address list
  (client/client/src/App.jsx:37).
- **A stored job without content.** `job.content.replace` throws. The `catch`
  around the whole loop (lines 138-140) then ends the tick. That job stays
  `pending`, and so does every due job after it. Every later tick stops at
  the same job again.
- **The display name.** The form never sends `senderName`, so every job
  posted from it is sent as "Bulk Mailer".

## Model

| member | source | states |
|---|---|---|
| `Jobs.Validate` | server/index.js:39-44 | A request passes if and only if both credentials are present and non-empty and both lists are present with equal lengths. Missing credentials are reported exactly when a credential is absent or empty, whatever the lists hold. |
| `Jobs.NewJob` | server/index.js:47-58 | Every job built for an accepted request is pending, has both credentials and has a non-empty display name. |
| `Jobs.Intake` | server/index.js:39-58 | The intake fails exactly when validation does, with its reason. Otherwise it gives as many jobs as there are addresses and names. |
| `Jobs.IntakeRejectsMissingCredentials` | server/index.js:39-41 | The batch is refused for missing credentials exactly when the sender address or the app password is absent or empty, whatever the lists hold. |
| `Jobs.IntakeRejectsCountMismatch` | server/index.js:42-44 | With credentials present, the batch is refused for a count mismatch exactly when a list is absent or the lengths differ. Two empty lists are accepted and give no jobs. |
| `Jobs.IntakeJobs` | server/index.js:47-58 | An accepted batch is one job per recipient, in order. Job i has address i and name i, the shared sender, password, subject and content, and status pending. It is scheduled at the given instant or at `now`, and named by the given display name or "Bulk Mailer". |
| `Jobs.IntakeJobsHaveCredentials` | server/index.js:39-50 | Every job the intake creates has a non-empty sender address and password. |
| `Jobs.IntakeJobsNeverMissCredentials` | server/index.js:93-96 | No outcome of a job built by the intake is `failed_missing_creds`. |
| `Jobs.DueIndices` | server/index.js:78-81 | The scan returns exactly the positions of the jobs that are pending and scheduled at or before `now`, in store order. |
| `Jobs.AbortPos` | server/index.js:90-140 | The loop reaches the due jobs before the first one whose content is missing while its credentials are present; that job throws. |
| `Jobs.Handled` | server/index.js:90-140 | The jobs a tick handles are due, in increasing store order, and none of them throws. |
| `Jobs.HandledSound` | server/index.js:78-140 | A handled job is due, and no due job at or before it in the store throws. |
| `Jobs.HandledComplete` | server/index.js:78-140 | A due job with no throwing due job at or before it is handled. |
| `Jobs.HandledIff` | server/index.js:78-140 | A tick handles job i if and only if it is due and no due job at or before it in the store throws. |
| `Jobs.Outcome` | server/index.js:93-135 | Every outcome is terminal. It is `failed_missing_creds` if and only if the job lacks a credential. |
| `Jobs.MailFor` | server/index.js:114-123 | Builds the message of a job. No contract of its own; `Jobs.DispatchesOfSound` states what a sent message carries. |
| `Jobs.Apply` | server/index.js:90-136 | Moves the jobs at the given positions to their outcome. No contract of its own; `Jobs.HandleNext` and the `Tick` lemmas state its effect. |
| `Jobs.TickJobs` | server/index.js:71-141 | The store after a tick. No contract of its own; `Jobs.TickChangesOnlyStatus`, `Jobs.TickLeavesUndue`, `Jobs.TickIsMonotone`, `Jobs.TickRoutesHandled`, `Jobs.TickHandlesAllDue` and `Jobs.TickStopsAtMissingContent` state its meaning. |
| `Jobs.DispatchesOf` | server/index.js:114-126 | The send calls made for a list of handled jobs. No contract of its own; `Jobs.DispatchesOfSound`, `Jobs.DispatchesOfComplete` and `Jobs.DispatchesOfOrdered` state its meaning. |
| `Jobs.HandleNext` | server/index.js:90-137 | Handling one more due job updates that job's record only and appends its send call, if it has credentials. |
| `Jobs.TickChangesOnlyStatus` | server/index.js:90-137 | A tick keeps the store's size and changes no field but the status, and it changes only due jobs. |
| `Jobs.TickLeavesUndue` | server/index.js:78-81 | Jobs scheduled after `now`, and jobs already out of pending, are left exactly as they were. |
| `Jobs.TickIsMonotone` | server/index.js:78-137 | A job that is pending after a tick was pending before it: no tick moves a job back to pending. A terminal status never changes. |
| `Jobs.TickRoutesHandled` | server/index.js:93-135 | A handled job ends `failed_missing_creds` if and only if it lacks credentials. With credentials it ends `sent` if and only if the transport accepts it, and `failed` if and only if it refuses. |
| `Jobs.TickHandlesAllDue` | server/index.js:90-137 | When no due job lacks its content, every due job moves to its outcome. |
| `Jobs.TickStopsAtMissingContent` | server/index.js:115-140 | A due job with credentials and no content, and every due job after it, are left unchanged. |
| `Jobs.DispatchesOfSound` | server/index.js:93-126 | Each send call is for a handled job with credentials and content. It carries that job's rendered message. |
| `Jobs.DispatchesOfComplete` | server/index.js:93-126 | Each handled job with credentials and content gets its send call. |
| `Jobs.DispatchesOfOrdered` | server/index.js:90-126 | The send calls come in increasing job order, at most one per job. |
| `Jobs.TickDispatches` | server/index.js:114-126 | The `sendMail` calls one tick makes. No contract of its own; `Jobs.TickDispatchesSpec`, `Jobs.MissingCredentialsNotSent` and `Store.JobStore.Tick` state its meaning. |
| `Jobs.TickDispatchesSpec` | server/index.js:90-137 | Each send call of a tick is for a handled job that ends `sent` or `failed`. Every handled job with credentials is sent once. No job is sent twice. |
| `Jobs.MissingCredentialsNotSent` | server/index.js:93-96 | A due job without credentials, reached by the loop, ends `failed_missing_creds`, and no message is sent for it. |
| `Store.JobStore.Submit` | server/index.js:34-68 | The handler answers 400 with the intake's reason and stores nothing. On a failed insert it answers 500 and stores nothing. Otherwise it answers 200 and appends exactly the intake's jobs. |
| `Store.JobStore.Process` | server/index.js:92-136 | One turn of the loop. It throws exactly when the job has credentials but no content, and then changes nothing. Otherwise it sets only the stored record's status to the job's outcome and, for a job with credentials, records its message. |
| `Store.JobStore.Tick` | server/index.js:71-141 | After a tick, the store equals the tick's specification on the old store, and the log gains exactly that tick's send calls. |
| `Lifecycle.StepKeepsTerminal` | server/index.js:78-81 | No intake and no tick changes or sends a job that is out of pending. |
| `Lifecycle.TerminalIsFinal` | server/index.js:78-81 | Over any sequence of intakes and ticks, a job out of pending keeps its record and is never sent again. This holds only because the model applies each status update when its send returns; see the asynchronous callback under "Left out". |
| `Lifecycle.AtMostOneSend` | server/index.js:78-137 | Over any sequence of intakes and ticks, each job is handed to the transport at most once. This holds only because the model applies each status update when its send returns; a send still in flight when the next tick starts is repeated by the server (see "Left out"). |
| `Template.FromHeader` | server/index.js:119 | The header is, character by character, a double quote, the display name, a double quote, a space, `<`, the address and `>`. |
| `Template.Expand` | server/index.js:115 | Computes the replacement text of one match, expanding `$$`, `$&`, `` $` `` and `$'`. No contract of its own; `Template.ExpandPlain` states its `$`-free behaviour, and `Template.ExpandDollar` states each pattern. |
| `Template.ExpandDollar` | server/index.js:115 | `$$` gives `$`, `$&` the matched `{name}`, `` $` `` the text before the match and `$'` the text after it. A `$` before any other character, or at the end, is kept. |
| `Template.Render` | server/index.js:115 | Computes `body.replace(/{name}/g, name)`. No contract of its own; its meaning is stated by `Template.RenderNoToken`, `Template.RenderFromPrefix`, `Template.RenderJoin` and `Template.RenderGreeting`. |
| `Template.FromHeaderInjective` | server/index.js:119 | When neither display name contains a double quote, the header determines both the display name and the address. |
| `Template.ExpandPlain` | server/index.js:115 | A replacement text without `$` is inserted as it is. |
| `Template.RenderNoToken` | server/index.js:115 | A body without `{name}` is returned unchanged, whatever the name. |
| `Template.RenderFromPrefix` | server/index.js:115 | A placeholder-free prefix is copied and the following `{name}` is replaced by a `$`-free name. |
| `Template.RenderJoin` | server/index.js:115 | Every `{name}` is replaced: placeholder-free parts joined by `{name}` render to the same parts joined by the name, when the name has no `$`. |
| `Template.RenderGreeting` | server/index.js:115 | "Hi {name}, bye {name}" with the name "Sam" renders as "Hi Sam, bye Sam". |
| `Template.RenderDollarAmpersand` | server/index.js:115 | The name `$&` puts the matched placeholder back instead of inserting itself. |
| `ClientForm.Split` | client/client/src/App.jsx:29-30 | Splitting gives at least one piece, and no piece contains the separator. |
| `ClientForm.SplitJoin` | client/client/src/App.jsx:29-30 | Joining the pieces with the separator gives the text back. |
| `ClientForm.JoinSplit` | client/client/src/App.jsx:29-30 | Splitting pieces that do not contain the separator, joined by it, gives the pieces back. |
| `ClientForm.Trim` | client/client/src/App.jsx:29-30 | A trimmed entry neither starts nor ends with white space. |
| `ClientForm.TrimAll` | client/client/src/App.jsx:29-30 | `.map(e => e.trim())`: each piece is trimmed in place. Its meaning comes from `ClientForm.Trim`, `ClientForm.TrimIsMiddle` and `ClientForm.TrimAllTrimmed`. |
| `ClientForm.TrimIsMiddle` | client/client/src/App.jsx:29-30 | Trimming removes only white space, and only from the two ends. The result is a contiguous stretch of the entry. |
| `ClientForm.TrimKeepsOut` | client/client/src/App.jsx:29-30 | Trimming adds no character. |
| `ClientForm.TrimTrimmed` | client/client/src/App.jsx:29-30 | Trimming an already trimmed entry changes nothing. |
| `ClientForm.DropEmpty` | client/client/src/App.jsx:29-30 | Filtering keeps exactly the non-empty entries. A list with no empty entry is unchanged. |
| `ClientForm.DropEmptyAppend` | client/client/src/App.jsx:29-30 | Filtering a concatenation filters each part and concatenates the results, so the kept entries keep their order and multiplicity. |
| `ClientForm.DropEmptySingle` | client/client/src/App.jsx:29-30 | A single entry is kept if and only if it is non-empty. With `ClientForm.DropEmptyAppend` this fixes the result of filtering any list. |
| `ClientForm.ParseList` | client/client/src/App.jsx:29-30 | Split on commas, trim each piece, drop the empty ones. No contract of its own; `ClientForm.ParseListClean`, `ClientForm.ParseRoundTrip` and `ClientForm.ParseSpacedList` state its meaning. |
| `ClientForm.ParseListClean` | client/client/src/App.jsx:29-30 | Every parsed entry is non-empty, trimmed and free of commas. |
| `ClientForm.ParseEmptyField` | client/client/src/App.jsx:29-30 | An empty field gives an empty list. |
| `ClientForm.ParseRoundTrip` | client/client/src/App.jsx:29-30 | Clean entries joined by commas parse back to the same entries. |
| `ClientForm.ParseSpacedList` | client/client/src/App.jsx:29-30 | Spaces after a comma are ignored: "a, b" parses to the two entries. |
| `ClientForm.HandleSend` | client/client/src/App.jsx:29-52 | The guards and the payload of the form. No contract of its own; `ClientForm.HandleSendRejects` and `ClientForm.HandleSendPayload` state its meaning. |
| `ClientForm.HandleSendRejects` | client/client/src/App.jsx:32-41 | The form is refused for missing credentials if and only if either credential field is empty. With credentials it is refused if and only if the address list is empty or the two lists differ in length. |
| `ClientForm.HandleSendPayload` | client/client/src/App.jsx:29-52 | A posted payload has both credentials and the two parsed lists, of equal, non-zero length, whose entries are non-empty, trimmed and free of commas. The subject and content are as typed, and the schedule is `null` exactly when its field is empty. |
| `Pipeline.RequestOf` | server/index.js:36 | The request body the server reads for a posted payload, with no `senderName`. No contract of its own; `Pipeline.FormBatchIsQueued` states what the server does with it. |
| `Pipeline.FormBatchIsQueued` | server/index.js:36-58 | The server accepts every batch the form posts. It stores one pending job per address, under the name "Bulk Mailer", with credentials, so no tick fails the job for missing credentials or stops at it. |
| `Pipeline.SubmitThenTick` | server/index.js:34-141 | A batch with content and no schedule is handled by the next tick at or after submission, provided the store has no due job without content. Each new job ends `sent` or `failed` as the transport answers. |
| `Pipeline.TwoRecipientsSent` | server/index.js:34-141 | Two addresses submitted for immediate delivery are both `sent` by a tick whose transport always succeeds. |

## Left out

- The database connection and storage errors in a tick (server/index.js:13-15, 78, 95, 130, 134) are not modelled. The collection is the `jobs` sequence of `JobStore`, and a record update always succeeds. `insertMany` errors are the `insertOk` parameter.
- The nodemailer transporter, SMTP and its timeouts (server/index.js:101-112) are not modelled. The transport's verdict for each job is the oracle `sendOk`.
- The send callback runs asynchronously (server/index.js:126-136), so a status update can land after the next tick has started. The model applies each update as soon as the send returns, so overlapping ticks are not modelled.
- Lifecycle.AtMostOneSend and Lifecycle.TerminalIsFinal hold of the model only. In the server a job stays `pending` until its callback runs, and SMTP may take up to the 30-second connection and greeting timeouts (server/index.js:110-111), so a tick starting in the meantime finds the job due and sends it again.
- Jobs.DueIndices takes the due jobs in store (insertion) order. `EmailJob.find` (server/index.js:78-81) has no sort, and MongoDB promises no order. Which jobs come before the one that throws, and so `Jobs.AbortPos`, `Jobs.TickStopsAtMissingContent` and the order of `Jobs.DispatchesOfOrdered`, depends on that order.
- The cron timing (server/index.js:71) and `new Date(...)` parsing (server/index.js:56, 72) are not modelled. Instants are integers. The form's schedule string is read by a function passed in to `Pipeline.RequestOf`.
- Express routing, CORS, the JSON bodies of the responses and all logging are not modelled. Responses are the three `Store.Response` cases. The 200 answer carries a fixed message (server/index.js:63); the number queued in `Queued` is the one the handler only logs (line 62).
- Request fields that are neither strings nor arrays (numbers, objects) are not modelled. A field is either present with its value or absent. A falsy schedule is absent.
- An `emails` field sent as a string passes the length check at server/index.js:42 when `names` has the same length, but `emails.map` then throws at line 47, before the `try` at line 60. The handler never answers that request.
- A `names` field sent as a string, with `emails` an array of the same length, passes line 42. Each job then stores a single character of that string as its name (`names[i]`, line 52), and the handler answers 200. The model's lists are always sequences, so neither string case is modelled.
- Job records: a missing credential is the empty string, because both are falsy. The `createdAt` field is not modelled, because nothing reads it.
- The React state updates, the status messages, the modal, the JSX and the axios call (client/client/src/App.jsx:22-27, 53-58, 61 onwards) are not modelled. A failed post changes nothing on the server.
- `client/client/src/config.js` is not modelled. It only chooses the server's URL.
- `Template.RenderJoin`: the literal substitution is stated only for names without `$`. Names with `$` patterns are expanded by `Expand`, and `Template.RenderDollarAmpersand` shows one case.
- `Template.FromHeaderInjective`: the display name and address are recovered from the header only for names without a double quote, because the header does not escape quotes.
