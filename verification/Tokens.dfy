/** The cached access token and the retry that invalidates it: `CachedTokenProvider` and
    `LayerReader::with_token`. Times and durations are whole nanoseconds. */
module Tokens {
  import opened Text
  import opened Versions

  const SECOND: nat := 1_000_000_000
  const REFRESH_SKEW: nat := 30 * SECOND
  const MIN_TTL: nat := 15 * SECOND

  function Min(a: nat, b: nat): nat { if a <= b then a else b }
  function Max(a: nat, b: nat): nat { if a <= b then b else a }
  function SaturatingSub(a: nat, b: nat): nat { if a <= b then 0 else a - b }

  /** How long a token is cached. The skew ahead of the reported expiry is kept exactly when the
      report is at least the skew and the minimum together. */
  function Lifetime(ceiling: nat, reported: Option<nat>): (life: nat)
    ensures MIN_TTL <= life <= Max(ceiling, MIN_TTL)
    ensures reported.Some? ==> life <= Max(SaturatingSub(reported.value, REFRESH_SKEW), MIN_TTL)
    ensures reported.Some? ==> (life + REFRESH_SKEW <= reported.value <==> REFRESH_SKEW + MIN_TTL <= reported.value)
    ensures reported.None? && MIN_TTL <= ceiling ==> life == ceiling
    ensures reported.Some? && 45 * SECOND <= reported.value && reported.value <= ceiling + 30 * SECOND ==>
              life == reported.value - 30 * SECOND
    ensures reported.Some? && 15 * SECOND <= ceiling && ceiling + 30 * SECOND <= reported.value ==> life == ceiling
    ensures (reported.Some? && reported.value < 45 * SECOND) || ceiling < 15 * SECOND ==> life == 15 * SECOND
  {
    var wanted := match reported case None => ceiling case Some(life) => SaturatingSub(life, REFRESH_SKEW);
    Max(Min(wanted, ceiling), MIN_TTL)
  }

  datatype Cached<T> = Cached(token: T, expiresAt: nat)
  datatype Issued<T> = Issued(token: T, expiresIn: Option<nat>)

  /** `cached_token`. */
  function Served<T>(cached: Option<Cached<T>>, now: nat): Option<T> {
    if cached.Some? && now < cached.value.expiresAt then Some(cached.value.token) else None
  }

  function Caching<T>(ceiling: nat, issued: Issued<T>, now: nat): Cached<T> {
    Cached(issued.token, now + Lifetime(ceiling, issued.expiresIn))
  }

  /** A token cached at one time is served at a later one exactly while its lifetime lasts. */
  lemma CachedWhileItLasts<T>(ceiling: nat, issued: Issued<T>, cachedAt: nat, now: nat)
    ensures Served(Some(Caching(ceiling, issued, cachedAt)), now)
         == if now < cachedAt + Lifetime(ceiling, issued.expiresIn) then Some(issued.token) else None
    ensures Served<T>(None, now) == None
  {
  }

  class CachedTokenProvider<T(==)> {
    const ceiling: nat
    var cached: Option<Cached<T>>

    constructor (ceiling: nat)
      ensures this.ceiling == ceiling && cached == None
    {
      this.ceiling := ceiling;
      cached := None;
    }

    /** `access_token`: looked up at `now`; on a miss the issuer answers `grant` at `later`. */
    method AccessToken(now: nat, grant: Result<Issued<T>>, later: nat) returns (r: Result<T>)
      modifies this
      ensures Served(old(cached), now).Some? ==> r == Ok(Served(old(cached), now).value) && cached == old(cached)
      ensures Served(old(cached), now).None? && grant.Err? ==> r == Err(grant.kind) && cached == old(cached)
      ensures Served(old(cached), now).None? && grant.Ok? ==>
                r == Ok(grant.value.token) && cached == Some(Caching(ceiling, grant.value, later))
    {
      if cached.Some? && now < cached.value.expiresAt {
        return Ok(cached.value.token);
      }
      if grant.Err? {
        return Err(grant.kind);
      }
      var expiresAt := later + Lifetime(ceiling, grant.value.expiresIn);
      cached := Some(Cached(grant.value.token, expiresAt));
      return Ok(grant.value.token);
    }

    method Invalidate()
      modifies this
      ensures cached == None
    {
      cached := None;
    }
  }

  /** `with_token` with nothing else running: `grant(i)` and `call(i, _)` are the issuer's and the
      service's answers in attempt `i`, which looks at the cache at `looked(i)` and hears from the
      issuer at `heard(i)`. The tokens sent are reported in order. */
  method WithToken<T(==), R>(tokens: CachedTokenProvider<T>, grant: nat -> Result<Issued<T>>, call: (nat, T) -> Result<R>,
                             looked: nat -> nat, heard: nat -> nat)
    returns (r: Result<R>, sent: seq<T>)
    modifies tokens
    ensures |sent| <= 2
    ensures sent == [] ==> r.Err? && Served(old(tokens.cached), looked(0)).None? && grant(0) == Err(r.kind)
    ensures sent != [] && call(0, sent[0]) != Err(Unauthenticated) ==> |sent| == 1 && r == call(0, sent[0])
    ensures |sent| >= 1 && Served(old(tokens.cached), looked(0)).Some? ==> sent[0] == Served(old(tokens.cached), looked(0)).value
    ensures |sent| >= 1 && Served(old(tokens.cached), looked(0)).None? ==> grant(0).Ok? && sent[0] == grant(0).value.token
    ensures sent == [] ==> tokens.cached == old(tokens.cached)
    ensures sent != [] && call(0, sent[0]) != Err(Unauthenticated) ==>
              tokens.cached == (if Served(old(tokens.cached), looked(0)).Some? then old(tokens.cached)
                                else Some(Caching(tokens.ceiling, grant(0).value, heard(0))))
    ensures |sent| == 1 && call(0, sent[0]) == Err(Unauthenticated) ==>
              r.Err? && grant(1) == Err(r.kind) && tokens.cached == None
    ensures |sent| == 2 ==> call(0, sent[0]) == Err(Unauthenticated) && r == call(1, sent[1])
                            && grant(1).Ok? && sent[1] == grant(1).value.token
                            && tokens.cached == Some(Caching(tokens.ceiling, grant(1).value, heard(1)))
  {
    sent := [];
    var first := tokens.AccessToken(looked(0), grant(0), heard(0));
    if first.Err? {
      return Err(first.kind), sent;
    }
    sent := [first.value];
    var answer := call(0, first.value);
    if !(answer.Err? && answer.kind == Unauthenticated) {
      return answer, sent;
    }
    tokens.Invalidate();
    var second := tokens.AccessToken(looked(1), grant(1), heard(1));
    if second.Err? {
      return Err(second.kind), sent;
    }
    sent := [first.value, second.value];
    return call(1, second.value), sent;
  }

  // ---------- Interleaved tasks sharing one cache ----------

  /** Tokens are numbered in the order the issuer grants them; `received` is when the grant reached
      the task that asked and was cached. */
  datatype Grant = Grant(reported: Option<nat>, received: Option<nat>)

  /** Asking: waiting for the issuer. Granted: the issuer has granted, the task has not resumed.
      Calling: the request is out with a token. */
  datatype Phase = Asking | Granted(token: nat) | Calling(token: nat) | Finished

  /** One RPC made through `with_token`, in its first or second attempt. */
  datatype Task = Task(phase: Phase, attempt: nat)

  /** What happened: a request went out with a token at a time; a rejection dropped the cache when
      `granted` tokens existed. */
  datatype Event = Sent(task: nat, token: nat, at: nat) | Dropped(task: nat, token: nat, granted: nat)

  datatype State = State(now: nat, cached: Option<Cached<nat>>, grants: seq<Grant>, tasks: map<nat, Task>, log: seq<Event>)

  datatype Step =
    | Wait(duration: nat)
    | Begin(task: nat)
    | Issue(task: nat, reported: Option<nat>)
    | Resume(task: nat)
    | Answer(task: nat, rejected: bool)
    | Abandon(task: nat)

  const INITIAL := State(0, None, [], map[], [])

  /** An attempt starts by looking at the cache; nothing else runs between the look and the send,
      nor between a rejection, its invalidation and the second look. */
  function Look(s: State, task: nat, attempt: nat): State {
    match Served(s.cached, s.now)
    case Some(token) =>
      s.(tasks := s.tasks[task := Task(Calling(token), attempt)], log := s.log + [Sent(task, token, s.now)])
    case None => s.(tasks := s.tasks[task := Task(Asking, attempt)])
  }

  function ResumeWith(ceiling: nat, s: State, task: nat, token: nat, attempt: nat): State
    requires token < |s.grants|
  {
    var grant := s.grants[token];
    s.(cached := Some(Caching(ceiling, Issued(token, grant.reported), s.now)),
       grants := s.grants[token := grant.(received := Some(s.now))],
       tasks := s.tasks[task := Task(Calling(token), attempt)],
       log := s.log + [Sent(task, token, s.now)])
  }

  function Drop(s: State, task: nat, token: nat): State {
    s.(cached := None, log := s.log + [Dropped(task, token, |s.grants|)])
  }

  function Next(ceiling: nat, s: State, step: Step): Option<State> {
    match step
    case Wait(duration) => Some(s.(now := s.now + duration))
    case Begin(task) => if task in s.tasks then None else Some(Look(s, task, 1))
    case Issue(task, reported) =>
      if task !in s.tasks || s.tasks[task].phase != Asking then None else
        Some(s.(grants := s.grants + [Grant(reported, None)],
                tasks := s.tasks[task := Task(Granted(|s.grants|), s.tasks[task].attempt)]))
    case Resume(task) =>
      if task !in s.tasks || !s.tasks[task].phase.Granted? || s.tasks[task].phase.token >= |s.grants| then None else
        Some(ResumeWith(ceiling, s, task, s.tasks[task].phase.token, s.tasks[task].attempt))
    case Answer(task, rejected) =>
      if task !in s.tasks || !s.tasks[task].phase.Calling? then None
      else if rejected && s.tasks[task].attempt == 1 then Some(Look(Drop(s, task, s.tasks[task].phase.token), task, 2))
      else Some(s.(tasks := s.tasks[task := Task(Finished, s.tasks[task].attempt)]))
    case Abandon(task) =>
      if task !in s.tasks then None else Some(s.(tasks := s.tasks[task := Task(Finished, s.tasks[task].attempt)]))
  }

  function Run(ceiling: nat, s: State, steps: seq<Step>): Option<State>
    decreases steps
  {
    if steps == [] then Some(s) else
      match Next(ceiling, s, steps[0])
      case None => None
      case Some(t) => Run(ceiling, t, steps[1..])
  }

  // ---------- The invariant ----------

  function Sends(log: seq<Event>, task: nat): nat {
    if log == [] then 0 else
      Sends(log[..|log| - 1], task) + if log[|log| - 1].Sent? && log[|log| - 1].task == task then 1 else 0
  }

  predicate Received(s: State, token: nat) { token < |s.grants| && s.grants[token].received.Some? }

  /** The token was sent while its cached lifetime lasted. */
  predicate SentInTime(ceiling: nat, s: State, e: Event)
    requires e.Sent?
  {
    && Received(s, e.token)
    && var grant := s.grants[e.token];
       grant.received.value <= e.at < grant.received.value + Lifetime(ceiling, grant.reported)
  }

  ghost predicate LogOk(ceiling: nat, s: State) {
    forall i :: 0 <= i < |s.log| ==>
      match s.log[i]
      case Sent(_, token, _) => SentInTime(ceiling, s, s.log[i])
      case Dropped(_, token, granted) => Received(s, token) && token < granted <= |s.grants|
  }

  predicate CacheOk(ceiling: nat, s: State) {
    s.cached.Some? ==>
      && Received(s, s.cached.value.token)
      && var grant := s.grants[s.cached.value.token];
         grant.received.value <= s.now && s.cached.value.expiresAt == grant.received.value + Lifetime(ceiling, grant.reported)
  }

  /** A dropped token is never sent again, by any task. */
  ghost predicate DropsStick(s: State) {
    && (forall i, j :: 0 <= i < j < |s.log| && s.log[i].Dropped? && s.log[j].Sent? ==> s.log[i].token != s.log[j].token)
    && (forall i :: 0 <= i < |s.log| && s.log[i].Dropped? && s.cached.Some? ==> s.log[i].token != s.cached.value.token)
  }

  predicate TaskOk(s: State, task: nat)
    requires task in s.tasks
  {
    var t := s.tasks[task];
    && 1 <= t.attempt <= 2
    && (t.phase.Granted? ==> t.phase.token < |s.grants| && s.grants[t.phase.token].received.None?)
    && (t.phase.Calling? ==> Received(s, t.phase.token))
  }

  ghost predicate TasksOk(s: State) {
    && (forall k :: k in s.tasks ==> TaskOk(s, k))
    && (forall k, l :: k in s.tasks && l in s.tasks && s.tasks[k].phase.Granted? && s.tasks[k].phase == s.tasks[l].phase ==> k == l)
  }

  /** A task sends at most once per attempt. */
  predicate SendBound(log: seq<Event>, tasks: map<nat, Task>, k: nat) {
    if k !in tasks then Sends(log, k) == 0
    else Sends(log, k) + (if tasks[k].phase.Asking? || tasks[k].phase.Granted? then 1 else 0) <= tasks[k].attempt
  }

  ghost predicate SendsOk(s: State) { forall k: nat :: SendBound(s.log, s.tasks, k) }

  /** What a task sends, or is about to send, after its rejection was granted after it. */
  ghost predicate RetriesFresh(s: State) {
    && (forall i, j :: 0 <= i < j < |s.log| && s.log[i].Dropped? && s.log[j].Sent? && s.log[i].task == s.log[j].task ==>
          s.log[i].granted <= s.log[j].token)
    && (forall i :: 0 <= i < |s.log| && s.log[i].Dropped? ==>
          && s.log[i].task in s.tasks
          && s.tasks[s.log[i].task].attempt == 2
          && (s.tasks[s.log[i].task].phase.Granted? ==> s.log[i].granted <= s.tasks[s.log[i].task].phase.token))
  }

  ghost predicate Inv(ceiling: nat, s: State) {
    LogOk(ceiling, s) && CacheOk(ceiling, s) && DropsStick(s) && TasksOk(s) && SendsOk(s) && RetriesFresh(s)
  }

  lemma SendsSnoc(log: seq<Event>, e: Event, task: nat)
    ensures Sends(log + [e], task) == Sends(log, task) + if e.Sent? && e.task == task then 1 else 0
  {
    assert (log + [e])[..|log|] == log;
  }

  /** Beginning a task's first attempt. */
  lemma BeginKeepsLog(ceiling: nat, s: State, task: nat)
    requires Inv(ceiling, s) && task !in s.tasks
    ensures var t := Look(s, task, 1); LogOk(ceiling, t) && CacheOk(ceiling, t) && DropsStick(t)
  {
  }

  lemma BeginKeepsTasks(ceiling: nat, s: State, task: nat)
    requires Inv(ceiling, s) && task !in s.tasks
    ensures var t := Look(s, task, 1); TasksOk(t) && RetriesFresh(t)
  {
    var t := Look(s, task, 1);
    forall k | k in t.tasks ensures TaskOk(t, k) {
      if k != task { assert TaskOk(s, k); }
    }
  }

  lemma BeginKeepsSends(ceiling: nat, s: State, task: nat)
    requires SendsOk(s) && task !in s.tasks
    ensures SendsOk(Look(s, task, 1))
  {
    var t := Look(s, task, 1);
    forall k: nat ensures SendBound(t.log, t.tasks, k) {
      assert SendBound(s.log, s.tasks, k);
      if Served(s.cached, s.now).Some? { SendsSnoc(s.log, Sent(task, s.cached.value.token, s.now), k); }
    }
  }

  lemma IssueKeepsLog(ceiling: nat, s: State, task: nat, reported: Option<nat>)
    requires Inv(ceiling, s) && task in s.tasks && s.tasks[task].phase == Asking
    ensures var t := Next(ceiling, s, Issue(task, reported)).value;
            LogOk(ceiling, t) && CacheOk(ceiling, t) && DropsStick(t)
  {
  }

  lemma IssueKeepsTasks(ceiling: nat, s: State, task: nat, reported: Option<nat>)
    requires Inv(ceiling, s) && task in s.tasks && s.tasks[task].phase == Asking
    ensures var t := Next(ceiling, s, Issue(task, reported)).value; TasksOk(t) && RetriesFresh(t)
  {
    var t := Next(ceiling, s, Issue(task, reported)).value;
    forall k | k in t.tasks ensures TaskOk(t, k) {
      assert TaskOk(s, k);
    }
  }

  lemma IssueKeepsSends(ceiling: nat, s: State, task: nat, reported: Option<nat>)
    requires SendsOk(s) && task in s.tasks && s.tasks[task].phase == Asking
    ensures SendsOk(Next(ceiling, s, Issue(task, reported)).value)
  {
    var t := Next(ceiling, s, Issue(task, reported)).value;
    forall k: nat ensures SendBound(t.log, t.tasks, k) {
      assert SendBound(s.log, s.tasks, k);
    }
  }

  lemma ResumeKeepsLog(ceiling: nat, s: State, task: nat)
    requires Inv(ceiling, s) && task in s.tasks && s.tasks[task].phase.Granted?
    ensures var t := Next(ceiling, s, Resume(task)).value;
            LogOk(ceiling, t) && CacheOk(ceiling, t) && DropsStick(t)
  {
    var t := Next(ceiling, s, Resume(task)).value;
    forall token: nat | Received(s, token) ensures Received(t, token) && t.grants[token] == s.grants[token] {
      assert TaskOk(s, task);
    }
  }

  lemma ResumeKeepsTasks(ceiling: nat, s: State, task: nat)
    requires Inv(ceiling, s) && task in s.tasks && s.tasks[task].phase.Granted?
    ensures var t := Next(ceiling, s, Resume(task)).value; TasksOk(t) && RetriesFresh(t)
  {
    var t := Next(ceiling, s, Resume(task)).value;
    forall k | k in t.tasks ensures TaskOk(t, k) {
      assert k in s.tasks && TaskOk(s, k);
    }
  }

  lemma ResumeKeepsSends(ceiling: nat, s: State, task: nat)
    requires SendsOk(s) && task in s.tasks && Next(ceiling, s, Resume(task)).Some?
    ensures SendsOk(Next(ceiling, s, Resume(task)).value)
  {
    var t := Next(ceiling, s, Resume(task)).value;
    forall k: nat ensures SendBound(t.log, t.tasks, k) {
      assert SendBound(s.log, s.tasks, k);
      SendsSnoc(s.log, Sent(task, s.tasks[task].phase.token, s.now), k);
    }
  }

  /** A rejected first attempt: the cache is dropped and the second look finds nothing. */
  lemma DropKeepsLog(ceiling: nat, s: State, task: nat)
    requires Inv(ceiling, s) && task in s.tasks && s.tasks[task].phase.Calling? && s.tasks[task].attempt == 1
    ensures var t := Next(ceiling, s, Answer(task, true)).value;
            LogOk(ceiling, t) && CacheOk(ceiling, t) && DropsStick(t)
  {
    assert TaskOk(s, task);
  }

  lemma DropKeepsTasks(ceiling: nat, s: State, task: nat)
    requires Inv(ceiling, s) && task in s.tasks && s.tasks[task].phase.Calling? && s.tasks[task].attempt == 1
    ensures var t := Next(ceiling, s, Answer(task, true)).value; TasksOk(t) && RetriesFresh(t)
  {
    var t := Next(ceiling, s, Answer(task, true)).value;
    forall k | k in t.tasks ensures TaskOk(t, k) {
      assert k in s.tasks && TaskOk(s, k);
    }
  }

  lemma DropKeepsSends(ceiling: nat, s: State, task: nat)
    requires SendsOk(s) && task in s.tasks && s.tasks[task].phase.Calling? && s.tasks[task].attempt == 1
    ensures SendsOk(Next(ceiling, s, Answer(task, true)).value)
  {
    var e := Dropped(task, s.tasks[task].phase.token, |s.grants|);
    var t := Next(ceiling, s, Answer(task, true)).value;
    assert t.log == s.log + [e] && t.tasks == s.tasks[task := Task(Asking, 2)];
    forall k: nat ensures SendBound(t.log, t.tasks, k) {
      assert SendBound(s.log, s.tasks, k);
      SendsSnoc(s.log, e, k);
    }
  }

  lemma FinishKeepsInv(ceiling: nat, s: State, task: nat)
    requires Inv(ceiling, s) && task in s.tasks
    ensures Inv(ceiling, s.(tasks := s.tasks[task := Task(Finished, s.tasks[task].attempt)]))
  {
    assert TaskOk(s, task);
    var t := s.(tasks := s.tasks[task := Task(Finished, s.tasks[task].attempt)]);
    forall k: nat ensures SendBound(t.log, t.tasks, k) {
      assert SendBound(s.log, s.tasks, k);
    }
  }

  lemma NextKeepsInv(ceiling: nat, s: State, step: Step)
    requires Inv(ceiling, s) && Next(ceiling, s, step).Some?
    ensures Inv(ceiling, Next(ceiling, s, step).value)
  {
    match step
    case Wait(_) =>
    case Begin(task) =>
      BeginKeepsLog(ceiling, s, task);
      BeginKeepsTasks(ceiling, s, task);
      BeginKeepsSends(ceiling, s, task);
    case Issue(task, reported) =>
      IssueKeepsLog(ceiling, s, task, reported);
      IssueKeepsTasks(ceiling, s, task, reported);
      IssueKeepsSends(ceiling, s, task, reported);
    case Resume(task) =>
      ResumeKeepsLog(ceiling, s, task);
      ResumeKeepsTasks(ceiling, s, task);
      ResumeKeepsSends(ceiling, s, task);
    case Answer(task, rejected) =>
      if rejected && s.tasks[task].attempt == 1 {
        DropKeepsLog(ceiling, s, task);
        DropKeepsTasks(ceiling, s, task);
        DropKeepsSends(ceiling, s, task);
      } else {
        FinishKeepsInv(ceiling, s, task);
      }
    case Abandon(task) => FinishKeepsInv(ceiling, s, task);
  }

  lemma {:induction false} RunKeepsInv(ceiling: nat, s: State, steps: seq<Step>)
    requires Inv(ceiling, s) && Run(ceiling, s, steps).Some?
    ensures Inv(ceiling, Run(ceiling, s, steps).value)
    decreases steps
  {
    if steps != [] {
      NextKeepsInv(ceiling, s, steps[0]);
      RunKeepsInv(ceiling, Next(ceiling, s, steps[0]).value, steps[1..]);
    }
  }

  // ---------- Over every run ----------

  /** Every RPC is attempted at most twice; no token is sent outside its lifetime; what a task
      sends after its rejection was granted after that rejection; and a token whose rejection
      dropped the cache is never sent again by any task. All interleavings of tasks are covered. */
  lemma TokensOverRuns(ceiling: nat, steps: seq<Step>)
    requires Run(ceiling, INITIAL, steps).Some?
    ensures var s := Run(ceiling, INITIAL, steps).value;
            && (forall k: nat :: Sends(s.log, k) <= 2)
            && (forall i :: 0 <= i < |s.log| && s.log[i].Sent? ==> SentInTime(ceiling, s, s.log[i]))
            && (forall i, j :: 0 <= i < j < |s.log| && s.log[i].Dropped? && s.log[j].Sent? ==>
                  s.log[i].token != s.log[j].token
                  && (s.log[i].task == s.log[j].task ==> s.log[i].granted <= s.log[j].token))
  {
    RunKeepsInv(ceiling, INITIAL, steps);
    var s := Run(ceiling, INITIAL, steps).value;
    forall k: nat ensures Sends(s.log, k) <= 2 {
      assert SendBound(s.log, s.tasks, k);
      if k in s.tasks { assert TaskOk(s, k); }
    }
  }

  /** A rejected second attempt leaves the cache alone, so the token just rejected can be the next
      one served. */
  lemma SecondRejectionKeepsTheToken(ceiling: nat, s: State, task: nat, later: nat)
    requires Inv(ceiling, s) && task in s.tasks && s.tasks[task].phase.Calling?
    requires later !in s.tasks && Served(s.cached, s.now) == Some(s.tasks[task].phase.token)
    ensures var token := s.tasks[task].phase.token;
            var t := Run(ceiling, s, [Answer(task, true), Begin(later)]);
            && t.Some?
            && t.value.log == s.log + [if s.tasks[task].attempt == 1 then Dropped(task, token, |s.grants|)
                                       else Sent(later, token, s.now)]
  {
    var answered := Next(ceiling, s, Answer(task, true)).value;
    var begun := Next(ceiling, answered, Begin(later)).value;
    var steps := [Answer(task, true), Begin(later)];
    assert steps[1..] == [Begin(later)] && steps[1..][1..] == [];
    calc {
      Run(ceiling, s, steps);
      Run(ceiling, answered, steps[1..]);
      Run(ceiling, begun, []);
      Some(begun);
    }
  }

  lemma RunOne(ceiling: nat, s: State, step: Step, rest: seq<Step>)
    requires Next(ceiling, s, step).Some?
    ensures Run(ceiling, s, [step] + rest) == Run(ceiling, Next(ceiling, s, step).value, rest)
  {
    assert ([step] + rest)[1..] == rest;
  }

  /** The steps of one request both of whose attempts are rejected. */
  const REJECTED_TWICE: seq<Step> :=
    [Begin(0)] + ([Issue(0, None)] + ([Resume(0)] + ([Answer(0, true)] + ([Issue(0, None)] + ([Resume(0)] + [])))))

  /** One attempt that finds no token to serve: ask, be granted one, resume with it and cache it. */
  lemma AttemptAsksAndSends(ceiling: nat, s: State, task: nat, attempt: nat, reported: Option<nat>)
    requires task in s.tasks && s.tasks[task] == Task(Asking, attempt)
    ensures var token: nat := |s.grants|;
            var asked := Next(ceiling, s, Issue(task, reported));
            && asked.Some? && asked.value.cached == s.cached && asked.value.log == s.log
            && var sent := Next(ceiling, asked.value, Resume(task));
               && sent.Some?
               && sent.value.now == s.now && sent.value.tasks == s.tasks[task := Task(Calling(token), attempt)]
               && sent.value.cached == Some(Cached(token, s.now + Lifetime(ceiling, reported)))
               && |sent.value.grants| == token + 1 && sent.value.log == s.log + [Sent(task, token, s.now)]
  {
    var asked := Next(ceiling, s, Issue(task, reported)).value;
    assert asked.tasks[task] == Task(Granted(|s.grants|), attempt);
  }

  /** A cached token is served until it expires and not after: a request that begins is sent with it, or
      asks the issuer. */
  lemma BeginLaw(ceiling: nat, s: State, task: nat)
    requires task !in s.tasks
    ensures var t := Next(ceiling, s, Begin(task));
            && t.Some? && t.value.cached == s.cached && t.value.grants == s.grants
            && (if s.cached.Some? && s.now < s.cached.value.expiresAt
                then t.value.tasks == s.tasks[task := Task(Calling(s.cached.value.token), 1)]
                     && t.value.log == s.log + [Sent(task, s.cached.value.token, s.now)]
                else t.value.tasks == s.tasks[task := Task(Asking, 1)] && t.value.log == s.log)
  {
  }

  /** A first rejection drops the cache and starts the second attempt, which must ask the issuer; any
      other answer ends the request and leaves the cache alone. */
  lemma AnswerLaw(ceiling: nat, s: State, task: nat, rejected: bool)
    requires task in s.tasks && s.tasks[task].phase.Calling?
    ensures var t := Next(ceiling, s, Answer(task, rejected));
            && t.Some? && t.value.grants == s.grants
            && (if rejected && s.tasks[task].attempt == 1
                then t.value.tasks == s.tasks[task := Task(Asking, 2)] && t.value.cached == None
                     && t.value.log == s.log + [Dropped(task, s.tasks[task].phase.token, |s.grants|)]
                else t.value.tasks == s.tasks[task := Task(Finished, s.tasks[task].attempt)] && t.value.cached == s.cached
                     && t.value.log == s.log)
  {
  }

  /** It does happen, whatever the ceiling: the first request is rejected twice, and the second is
      sent with the token just rejected. */
  lemma RejectedTokenIsResent(ceiling: nat)
    ensures var s := Run(ceiling, INITIAL, REJECTED_TWICE);
            && s.Some? && s.value.tasks.Keys == {0} && s.value.tasks[0] == Task(Calling(1), 2)
            && s.value.log == [Sent(0, 0, 0), Dropped(0, 0, 1), Sent(0, 1, 0)]
            && var t := Run(ceiling, s.value, [Answer(0, true), Begin(1)]);
               t.Some? && t.value.log == s.value.log + [Sent(1, 1, 0)]
  {
    var s1 := Next(ceiling, INITIAL, Begin(0)).value;
    AttemptAsksAndSends(ceiling, s1, 0, 1, None);
    var s2 := Next(ceiling, s1, Issue(0, None)).value;
    var s3 := Next(ceiling, s2, Resume(0)).value;
    var s4 := Next(ceiling, s3, Answer(0, true)).value;
    assert s4.log == [Sent(0, 0, 0), Dropped(0, 0, 1)] && |s4.grants| == 1 && s4.now == 0;
    AttemptAsksAndSends(ceiling, s4, 0, 2, None);
    var s5 := Next(ceiling, s4, Issue(0, None)).value;
    var s6 := Next(ceiling, s5, Resume(0)).value;
    RunOne(ceiling, INITIAL, Begin(0), [Issue(0, None)] + ([Resume(0)] + ([Answer(0, true)] + ([Issue(0, None)] + ([Resume(0)] + [])))));
    RunOne(ceiling, s1, Issue(0, None), [Resume(0)] + ([Answer(0, true)] + ([Issue(0, None)] + ([Resume(0)] + []))));
    RunOne(ceiling, s2, Resume(0), [Answer(0, true)] + ([Issue(0, None)] + ([Resume(0)] + [])));
    RunOne(ceiling, s3, Answer(0, true), [Issue(0, None)] + ([Resume(0)] + []));
    RunOne(ceiling, s4, Issue(0, None), [Resume(0)] + []);
    RunOne(ceiling, s5, Resume(0), []);
    RunKeepsInv(ceiling, INITIAL, REJECTED_TWICE);
    SecondRejectionKeepsTheToken(ceiling, s6, 0, 1);
  }
}
