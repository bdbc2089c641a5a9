/** How the automation status of an issue moves: the webhook and the retry
    endpoint reset it to pending, the background task runner moves it to
    running and then to completed or failed. Threads, clocks and the agent
    call are inputs: a run is the sequence of store writes it performs. */
module Lifecycle {
  import opened Outcomes
  import opened Text
  import opened StatusStore

  /** The fixed text that replaces access-related failure messages. */
  const AccessDeniedMessage: string :=
    "GitHub " + "access" + " denied. Please authenticate with GitHub to enable automation."

  /** The record written by the webhook and by a retry: pending, every other field cleared. */
  const PendingStatus: AutomationStatus := AutomationStatus(Pending, None, None, None, None)

  function RunningStatus(startedAt: string): AutomationStatus
  {
    AutomationStatus(Running, Some(startedAt), None, None, None)
  }

  /** `w` occurs in `s` at `i` when both are compared in lower case. */
  predicate OccursIgnoringCaseAt(s: string, w: string, i: int)
  {
    0 <= i && i + |w| <= |s| && Lower(s[i..i + |w|]) == w
  }

  /** The message names an HTTP 403 or 401, or the word "access" in any case. */
  ghost predicate MentionsAccessProblem(msg: string)
  {
    exists i :: OccursAt(msg, "403", i) || OccursAt(msg, "401", i) || OccursIgnoringCaseAt(msg, "access", i)
  }

  lemma LowerOccurs(s: string, w: string)
    ensures (exists i :: OccursAt(Lower(s), w, i)) <==> (exists i :: OccursIgnoringCaseAt(s, w, i))
  {
    var l := Lower(s);
    forall i | 0 <= i && i + |w| <= |s|
      ensures OccursAt(l, w, i) <==> OccursIgnoringCaseAt(s, w, i)
    {
      assert l[i..i + |w|] == Lower(s[i..i + |w|]);
    }
  }

  /** The failure-message rule of the task runner: a message that mentions
      403, 401 or "access" (in any case) becomes the fixed access-denied text;
      any other message is kept verbatim. */
  function NormalizeError(msg: string): (r: string)
    ensures MentionsAccessProblem(msg) ==> r == AccessDeniedMessage
    ensures !MentionsAccessProblem(msg) ==> r == msg
  {
    ContainsIffOccurs(msg, "403");
    ContainsIffOccurs(msg, "401");
    ContainsIffOccurs(Lower(msg), "access");
    LowerOccurs(msg, "access");
    if Contains(msg, "403") || Contains(msg, "401") || Contains(Lower(msg), "access")
    then AccessDeniedMessage
    else msg
  }

  /** Normalising twice is normalising once: the fixed text itself mentions "access". */
  lemma NormalizeIdempotent(msg: string)
    ensures NormalizeError(NormalizeError(msg)) == NormalizeError(msg)
  {
    var w := AccessDeniedMessage[7..13];
    assert w == "access";
    assert forall i :: 0 <= i < |w| ==> !('A' <= w[i] <= 'Z');
    assert Lower(w) == w;
    assert OccursIgnoringCaseAt(AccessDeniedMessage, "access", 7);
  }

  /** The fields of a webhook payload the handler reads. A field is missing,
      present with the expected shape, or present but unusable (null or of
      another type), which makes the handler raise. */
  datatype Field<T> = Missing | Malformed | Present(value: T)

  datatype IssueObject = IssueObject(number: Option<int>, repositoryUrl: Option<string>)
  datatype OwnerObject = OwnerObject(login: Option<string>)
  datatype RepositoryObject = RepositoryObject(fullName: Option<string>, owner: Field<OwnerObject>)
  datatype WebhookPayload = WebhookPayload(
    action: Option<string>,
    issue: Field<IssueObject>,
    repository: Field<RepositoryObject>)

  /** The arguments handed to the background task runner. */
  datatype AutomationTask = AutomationTask(repo: string, issue: int, repositoryUrl: string, userId: Option<string>)

  datatype WebhookReply =
    | Acknowledged                          // not an "opened" issue event
    | AutomationQueued(task: AutomationTask)  // pending written, runner started
    | AutomationDisabled                    // pending written, no agent configured

  /** The new store together with the endpoint's reply. */
  datatype Step<R> = Step(store: Store, reply: Result<R, HttpError>)

  /** What FastAPI answers when a handler raises an unexpected exception. */
  const InternalError: HttpError := HttpError(500, "Internal Server Error")

  const RetryUnavailable: HttpError :=
    HttpError(503, "Automation service not available (Portia not configured)")

  /** The handler acts on a payload whose action is "opened" and that has an `issue` key. */
  predicate IsIssueOpened(p: WebhookPayload)
  {
    p.action == Some("opened") && !p.issue.Missing?
  }

  /** The task the handler builds from the payload, or `None` when one of the
      lookups it performs raises. The owner login stands in for the user id. */
  function TaskOf(p: WebhookPayload): (r: Option<AutomationTask>)
    ensures r.Some? <==>
              p.issue.Present? && p.issue.value.number.Some? && p.issue.value.repositoryUrl.Some?
              && p.repository.Present? && p.repository.value.fullName.Some?
              && !p.repository.value.owner.Malformed?
    ensures r.Some? ==>
              var repo := p.repository.value;
              r.value == AutomationTask(repo.fullName.value, p.issue.value.number.value, p.issue.value.repositoryUrl.value,
                                        if repo.owner.Present? then repo.owner.value.login else None)
  {
    if p.issue.Present? && p.repository.Present? then
      var issue, repo := p.issue.value, p.repository.value;
      if issue.number.Some? && issue.repositoryUrl.Some? && repo.fullName.Some? && !repo.owner.Malformed? then
        var user := if repo.owner.Present? then repo.owner.value.login else None;
        Some(AutomationTask(repo.fullName.value, issue.number.value, issue.repositoryUrl.value, user))
      else None
    else None
  }

  /** `handle_github_webhook`, its effect on the status store. Only an opened
      issue changes the store, and then only that issue's record, which
      becomes pending whether or not the agent is available. */
  function HandleWebhook(store: Store, agentAvailable: bool, p: WebhookPayload): (r: Step<WebhookReply>)
    ensures !IsIssueOpened(p) ==> r.store == store && r.reply == Ok(Acknowledged)
    ensures IsIssueOpened(p) && TaskOf(p).None? ==> r.store == store && r.reply == Err(InternalError)
    ensures IsIssueOpened(p) && TaskOf(p).Some? ==>
              var t := TaskOf(p).value;
              && GetAutomationStatus(r.store, t.repo, t.issue) == Some(PendingStatus)
              && (forall repo, issue :: (repo, issue) != (t.repo, t.issue) ==>
                    GetAutomationStatus(r.store, repo, issue) == GetAutomationStatus(store, repo, issue))
              && r.reply == Ok(if agentAvailable then AutomationQueued(t) else AutomationDisabled)
  {
    if !IsIssueOpened(p) then Step(store, Ok(Acknowledged))
    else
      match TaskOf(p)
      case None => Step(store, Err(InternalError))
      case Some(t) =>
        var s := UpdateAutomationStatus(store, t.repo, t.issue, PendingStatus);
        Step(s, Ok(if agentAvailable then AutomationQueued(t) else AutomationDisabled))
  }

  /** The repository URL a retry hands to the runner. */
  function RepositoryApiUrl(repo: string): string
  {
    "https://api.github.com/repos/" + repo
  }

  /** `retry_automation`, its effect on the status store: 503 and no change
      without an agent; otherwise the issue is reset to pending, every other
      record is untouched, and a run is started for it. */
  function RetryAutomation(store: Store, agentAvailable: bool, owner: string, name: string, issue: int, userId: Option<string>): (r: Step<AutomationTask>)
    ensures !agentAvailable ==> r.store == store && r.reply == Err(RetryUnavailable)
    ensures agentAvailable ==>
              && GetAutomationStatus(r.store, FullName(owner, name), issue) == Some(PendingStatus)
              && (forall repo, n :: (repo, n) != (FullName(owner, name), issue) ==>
                    GetAutomationStatus(r.store, repo, n) == GetAutomationStatus(store, repo, n))
              && r.reply.Ok? && r.reply.value.repo == FullName(owner, name) && r.reply.value.issue == issue
              && r.reply.value.userId == userId
  {
    if !agentAvailable then Step(store, Err(RetryUnavailable))
    else
      var repo := FullName(owner, name);
      var s := UpdateAutomationStatus(store, repo, issue, PendingStatus);
      Step(s, Ok(AutomationTask(repo, issue, RepositoryApiUrl(repo), userId)))
  }

  /** The GitHub token of a user, when the runner would use it: the user id
      and the stored token must both be non-empty. */
  function UsableToken(tokens: map<string, string>, userId: Option<string>): (r: Option<string>)
    ensures r.Some? ==> r.value != "" && userId.Some? && userId.value in tokens && tokens[userId.value] == r.value
    ensures r.None? ==> userId.None? || userId.value == "" || userId.value !in tokens || tokens[userId.value] == ""
  {
    if userId.Some? && userId.value != "" && userId.value in tokens && tokens[userId.value] != ""
    then Some(tokens[userId.value])
    else None
  }

  function PromptBase(issue: int, url: string): string
  {
    "give labels to this issue #" + IntToString(issue)
      + " from reading it title and body of github repository url: " + url
  }

  /** The instruction given to the agent. The token is appended, at the end,
      exactly when one is usable. */
  function TaskPrompt(issue: int, url: string, token: Option<string>): (r: string)
    ensures StartsWith(r, PromptBase(issue, url))
    ensures token.None? <==> r == PromptBase(issue, url)
    ensures token.Some? ==> EndsWith(r, token.value)
  {
    var base := PromptBase(issue, url);
    if token.Some? then
      var r := base + ". Use this GitHub token for authentication: " + token.value;
      assert r[..|base|] == base;
      r
    else base
  }

  /** What the agent call does: return a plan run, with or without an id, or raise. */
  datatype AgentOutcome = AgentSucceeded(runId: Option<string>) | AgentRaised(message: string)

  /** First write of a run: the issue becomes running with its start time,
      and no other issue's record changes. */
  function BeginRun(store: Store, t: AutomationTask, startedAt: string): (r: Store)
    ensures GetAutomationStatus(r, t.repo, t.issue) == Some(RunningStatus(startedAt))
    ensures forall repo, issue :: (repo, issue) != (t.repo, t.issue) ==>
              GetAutomationStatus(r, repo, issue) == GetAutomationStatus(store, repo, issue)
  {
    UpdateAutomationStatus(store, t.repo, t.issue, RunningStatus(startedAt))
  }

  /** Last write of a run: the start time is read back from the store's
      current record. With no record for the issue the lookup raises, the
      thread ends, and the store keeps what it had. */
  function FinishRun(store: Store, t: AutomationTask, completedAt: string, outcome: AgentOutcome): (r: Store)
    ensures GetAutomationStatus(store, t.repo, t.issue).None? ==> r == store
    ensures GetAutomationStatus(store, t.repo, t.issue).Some? ==>
              var before := GetAutomationStatus(store, t.repo, t.issue).value;
              var after := GetAutomationStatus(r, t.repo, t.issue);
              && after.Some? && after.value.startedAt == before.startedAt
              && after.value.completedAt == Some(completedAt)
              && (outcome.AgentSucceeded? ==> after.value.phase == Completed && after.value.errorMessage.None? && after.value.taskId == outcome.runId)
              && (outcome.AgentRaised? ==> after.value.phase == Failed && after.value.errorMessage == Some(NormalizeError(outcome.message)) && after.value.taskId.None?)
    ensures forall repo, issue :: (repo, issue) != (t.repo, t.issue) ==>
              GetAutomationStatus(r, repo, issue) == GetAutomationStatus(store, repo, issue)
  {
    match GetAutomationStatus(store, t.repo, t.issue)
    case None => store
    case Some(current) =>
      match outcome
      case AgentSucceeded(id) =>
        UpdateAutomationStatus(store, t.repo, t.issue,
          AutomationStatus(Completed, current.startedAt, Some(completedAt), None, id))
      case AgentRaised(msg) =>
        UpdateAutomationStatus(store, t.repo, t.issue,
          AutomationStatus(Failed, current.startedAt, Some(completedAt), Some(NormalizeError(msg)), None))
  }

  datatype TaskRun = TaskRun(store: Store, prompt: Option<string>)

  /** `run_automation_task` run to completion with no other write in between:
      nothing happens without an agent; otherwise the issue ends completed or
      failed, keeping the start time written when it went running, and no
      other issue's record changes. */
  function RunAutomationTask(store: Store, agentAvailable: bool, tokens: map<string, string>, t: AutomationTask,
                             startedAt: string, completedAt: string, outcome: AgentOutcome): (r: TaskRun)
    ensures !agentAvailable ==> r.store == store && r.prompt.None?
    ensures agentAvailable ==> r.prompt == Some(TaskPrompt(t.issue, t.repositoryUrl, UsableToken(tokens, t.userId)))
    ensures agentAvailable && outcome.AgentSucceeded? ==>
              GetAutomationStatus(r.store, t.repo, t.issue) ==
              Some(AutomationStatus(Completed, Some(startedAt), Some(completedAt), None, outcome.runId))
    ensures agentAvailable && outcome.AgentRaised? ==>
              GetAutomationStatus(r.store, t.repo, t.issue) ==
              Some(AutomationStatus(Failed, Some(startedAt), Some(completedAt), Some(NormalizeError(outcome.message)), None))
    ensures forall repo, issue :: (repo, issue) != (t.repo, t.issue) ==>
              GetAutomationStatus(r.store, repo, issue) == GetAutomationStatus(store, repo, issue)
  {
    if !agentAvailable then TaskRun(store, None)
    else
      var running := BeginRun(store, t, startedAt);
      var prompt := TaskPrompt(t.issue, t.repositoryUrl, UsableToken(tokens, t.userId));
      TaskRun(FinishRun(running, t, completedAt, outcome), Some(prompt))
  }

  /** The shape each phase's record has when written by the handlers above:
      pending clears everything; every later phase carries a start time; a
      finished record carries a completion time; only a failure carries a
      message, and a failure never carries a task id. */
  predicate WellFormedStatus(st: AutomationStatus)
  {
    match st.phase
    case Pending => st.startedAt.None? && st.completedAt.None? && st.errorMessage.None? && st.taskId.None?
    case Running => st.startedAt.Some? && st.completedAt.None? && st.errorMessage.None? && st.taskId.None?
    case Completed => st.startedAt.Some? && st.completedAt.Some? && st.errorMessage.None?
    case Failed => st.startedAt.Some? && st.completedAt.Some? && st.errorMessage.Some? && st.taskId.None?
  }

  predicate ConsistentStore(s: Store)
  {
    forall i :: 0 <= i < |s| ==> WellFormedStatus(s[i].status)
  }

  lemma UpdateKeepsConsistent(store: Store, repo: string, issue: int, st: AutomationStatus)
    requires ConsistentStore(store) && WellFormedStatus(st)
    ensures ConsistentStore(UpdateAutomationStatus(store, repo, issue, st))
  {
  }

  /** One thing that can happen to the store. */
  datatype Event =
    | WebhookDelivered(payload: WebhookPayload)
    | RetryRequested(owner: string, name: string, issue: int, userId: Option<string>)
    | TaskRan(task: AutomationTask, startedAt: string, completedAt: string, outcome: AgentOutcome)

  function Apply(store: Store, agentAvailable: bool, tokens: map<string, string>, e: Event): Store
  {
    match e
    case WebhookDelivered(p) => HandleWebhook(store, agentAvailable, p).store
    case RetryRequested(owner, name, issue, user) => RetryAutomation(store, agentAvailable, owner, name, issue, user).store
    case TaskRan(t, started, completed, outcome) =>
      RunAutomationTask(store, agentAvailable, tokens, t, started, completed, outcome).store
  }

  /** The events, oldest first, applied one after the other. */
  function Replay(store: Store, agentAvailable: bool, tokens: map<string, string>, events: seq<Event>): Store
    decreases |events|
  {
    if |events| == 0 then store
    else Replay(Apply(store, agentAvailable, tokens, events[0]), agentAvailable, tokens, events[1..])
  }

  /** Every handler writes only well-formed records. */
  lemma ApplyKeepsConsistent(store: Store, agentAvailable: bool, tokens: map<string, string>, e: Event)
    requires ConsistentStore(store)
    ensures ConsistentStore(Apply(store, agentAvailable, tokens, e))
  {
    match e
    case WebhookDelivered(p) =>
      if IsIssueOpened(p) && TaskOf(p).Some? {
        var t := TaskOf(p).value;
        UpdateKeepsConsistent(store, t.repo, t.issue, PendingStatus);
      }
    case RetryRequested(owner, name, issue, user) =>
      if agentAvailable {
        UpdateKeepsConsistent(store, FullName(owner, name), issue, PendingStatus);
      }
    case TaskRan(t, started, completed, outcome) =>
      if agentAvailable {
        var running := BeginRun(store, t, started);
        UpdateKeepsConsistent(store, t.repo, t.issue, RunningStatus(started));
        FinishKeepsConsistent(running, t, completed, outcome);
      }
  }

  /** Finishing a run whose record carries a start time writes a well-formed record. */
  lemma FinishKeepsConsistent(store: Store, t: AutomationTask, completedAt: string, outcome: AgentOutcome)
    requires ConsistentStore(store)
    requires GetAutomationStatus(store, t.repo, t.issue).Some? ==> GetAutomationStatus(store, t.repo, t.issue).value.startedAt.Some?
    ensures ConsistentStore(FinishRun(store, t, completedAt, outcome))
  {
    match GetAutomationStatus(store, t.repo, t.issue)
    case None =>
    case Some(current) =>
      match outcome
      case AgentSucceeded(id) =>
        UpdateKeepsConsistent(store, t.repo, t.issue, AutomationStatus(Completed, current.startedAt, Some(completedAt), None, id));
      case AgentRaised(msg) =>
        UpdateKeepsConsistent(store, t.repo, t.issue, AutomationStatus(Failed, current.startedAt, Some(completedAt), Some(NormalizeError(msg)), None));
  }

  /** Any sequence of webhooks, retries and uninterrupted runs keeps every
      record well-formed. */
  lemma {:induction false} ReplayKeepsConsistent(store: Store, agentAvailable: bool, tokens: map<string, string>, events: seq<Event>)
    requires ConsistentStore(store)
    ensures ConsistentStore(Replay(store, agentAvailable, tokens, events))
    decreases |events|
  {
    if |events| > 0 {
      ApplyKeepsConsistent(store, agentAvailable, tokens, events[0]);
      ReplayKeepsConsistent(Apply(store, agentAvailable, tokens, events[0]), agentAvailable, tokens, events[1..]);
    }
  }

  /** The repository name an event writes under, if it writes at all. */
  function EventRepo(e: Event): Option<string>
  {
    match e
    case WebhookDelivered(p) => if TaskOf(p).Some? then Some(TaskOf(p).value.repo) else None
    case RetryRequested(owner, name, _, _) => Some(FullName(owner, name))
    case TaskRan(t, _, _, _) => Some(t.repo)
  }

  predicate HashFreeRepo(e: Event)
  {
    EventRepo(e).None? || '#' !in EventRepo(e).value
  }

  lemma ApplyKeepsValid(store: Store, agentAvailable: bool, tokens: map<string, string>, e: Event)
    requires ValidStore(store) && HashFreeRepo(e)
    ensures ValidStore(Apply(store, agentAvailable, tokens, e))
  {
    match e
    case WebhookDelivered(p) =>
      if IsIssueOpened(p) && TaskOf(p).Some? {
        var t := TaskOf(p).value;
        UpdateKeepsValid(store, t.repo, t.issue, PendingStatus);
      }
    case RetryRequested(owner, name, issue, user) =>
      if agentAvailable {
        UpdateKeepsValid(store, FullName(owner, name), issue, PendingStatus);
      }
    case TaskRan(t, started, completed, outcome) =>
      if agentAvailable {
        var running := BeginRun(store, t, started);
        UpdateKeepsValid(store, t.repo, t.issue, RunningStatus(started));
        FinishKeepsValid(running, t, completed, outcome);
      }
  }

  /** Finishing a run of a `#`-free repository keeps the store valid. */
  lemma FinishKeepsValid(store: Store, t: AutomationTask, completedAt: string, outcome: AgentOutcome)
    requires ValidStore(store) && '#' !in t.repo
    ensures ValidStore(FinishRun(store, t, completedAt, outcome))
  {
    match GetAutomationStatus(store, t.repo, t.issue)
    case None =>
    case Some(current) =>
      match outcome
      case AgentSucceeded(id) =>
        UpdateKeepsValid(store, t.repo, t.issue, AutomationStatus(Completed, current.startedAt, Some(completedAt), None, id));
      case AgentRaised(msg) =>
        UpdateKeepsValid(store, t.repo, t.issue, AutomationStatus(Failed, current.startedAt, Some(completedAt), Some(NormalizeError(msg)), None));
  }

  /** While every repository name involved is free of `#`, the store stays
      valid, so the per-repository listing stays exact (`ListingExact`). */
  lemma {:induction false} ReplayKeepsValid(store: Store, agentAvailable: bool, tokens: map<string, string>, events: seq<Event>)
    requires ValidStore(store)
    requires forall i :: 0 <= i < |events| ==> HashFreeRepo(events[i])
    ensures ValidStore(Replay(store, agentAvailable, tokens, events))
    decreases |events|
  {
    if |events| > 0 {
      ApplyKeepsValid(store, agentAvailable, tokens, events[0]);
      assert forall i :: 0 <= i < |events| - 1 ==> events[1..][i] == events[i + 1];
      ReplayKeepsValid(Apply(store, agentAvailable, tokens, events[0]), agentAvailable, tokens, events[1..]);
    }
  }

  /** The runner reads the start time back from the store instead of keeping
      it: a retry landing between its two writes resets the record, and the
      run then finishes as completed with no start time. */
  lemma RetryDuringRunDropsStartTime(store: Store, t: AutomationTask, owner: string, name: string,
                                     startedAt: string, completedAt: string, runId: Option<string>, userId: Option<string>)
    requires t.repo == FullName(owner, name)
    ensures var s1 := BeginRun(store, t, startedAt);
            var s2 := RetryAutomation(s1, true, owner, name, t.issue, userId).store;
            var s3 := FinishRun(s2, t, completedAt, AgentSucceeded(runId));
            && GetAutomationStatus(s3, t.repo, t.issue) == Some(AutomationStatus(Completed, None, Some(completedAt), None, runId))
            && !WellFormedStatus(GetAutomationStatus(s3, t.repo, t.issue).value)
  {
    var s1 := BeginRun(store, t, startedAt);
    var s2 := RetryAutomation(s1, true, owner, name, t.issue, userId).store;
    assert GetAutomationStatus(s2, t.repo, t.issue) == Some(PendingStatus);
  }
}
