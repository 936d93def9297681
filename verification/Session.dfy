/** `Session::call` as a protocol: any number of concurrent calls share one mutex-guarded session,
    while the service's served set changes at will. Each step is atomic and any interleaving of
    steps is a run. A call that is refused for its version re-handshakes once and retries. */
module Session {
  import opened Text
  import opened Versions
  import opened Routes

  /** A transport is bound for life to the version it was built for. */
  datatype Transport = Transport(speaks: ProtocolVersion)

  datatype SessionState = SessionState(version: ProtocolVersion, date: Option<string>, transport: Transport)

  /** The session as `open` and `renegotiate` mean to leave it. */
  function Bound(status: ServiceStatus): SessionState {
    SessionState(status.version, status.date, Transport(status.version))
  }

  /** What the service answers one RPC with. */
  datatype Reply = Answer(payload: string) | Failure(kind: ErrorKind)

  /** One successful reply as an operation collects it. */
  datatype Piece = Piece(attempt: nat, version: ProtocolVersion, payload: string)

  /** One execution by the service behind its catch-all, and what it answered. */
  datatype Execution = Execution(attempt: nat, version: ProtocolVersion, reply: Reply)

  datatype Pc =
    | Start
    | Ready(attempt: nat, transport: Transport, got: seq<Piece>)
    | InFlight(attempt: nat, transport: Transport, got: seq<Piece>)
    | Replied(attempt: nat, transport: Transport, got: seq<Piece>, reply: Reply)
    | Handshaking
    | AskingLegacy
    | Negotiated(status: ServiceStatus)
    | Swapping(status: ServiceStatus, written: nat)
    | Done(result: Result<seq<Piece>>)

  /** One `Session::call`. `single` is an operation of exactly one RPC; otherwise the operation
      issues as many as it likes on its transport, stopping at the first failure. `answeredIn` is
      the served set's revision that the handshake reported, when a handshake answered. */
  datatype Call = Call(single: bool, pc: Pc, handshakes: nat, legacyCalls: nat,
                       executed: seq<Execution>, answeredIn: Option<nat>)

  /** `served` holds every revision of the served set so far, the current one last. `negotiated` is
      the status of the last completed negotiation. */
  datatype State = State(served: seq<seq<ServedVersion>>, session: SessionState, negotiated: ServiceStatus,
                         lock: Option<nat>, calls: map<nat, Call>)

  /** What happens to a request on its way: lost (or refused by something in between), or handled,
      in which case the catch-all decides first. `executes` says whether the operation ran. */
  datatype Fate = Lost(kind: ErrorKind) | Handled(executes: bool, reply: Reply)

  datatype Step =
    | ServedChanges(revision: seq<ServedVersion>)
    | Begin(id: nat, single: bool)
    | TakeTransport(id: nat)
    | Send(id: nat)
    | Deliver(id: nat, fate: Fate)
    | Handle(id: nat, finished: bool)
    | HandshakeAnswered(id: nat, failure: Option<ErrorKind>)
    | LegacyAnswered(id: nat, reply: Result<VersionReply>)
    | Lock(id: nat)
    | Assign(id: nat)
    | Unlock(id: nat)

  function ServedLabels(served: seq<ServedVersion>): (r: seq<string>)
    ensures |r| == |served|
    ensures forall i :: 0 <= i < |served| ==> r[i] == served[i].version
  {
    seq(|served|, i requires 0 <= i < |served| => served[i].version)
  }

  /** The catch-all's verdict on a call the transport makes. */
  predicate Refused(transport: Transport, served: seq<ServedVersion>) {
    CatchAllRefuses(Post, VersionedPath(AsStr(transport.speaks), "Configuration", "Call"), ServedLabels(served))
  }

  function Current(s: State): seq<ServedVersion>
    requires s.served != []
  {
    s.served[|s.served| - 1]
  }

  function At(s: State, id: nat, pc: Pc): State
    requires id in s.calls
  {
    s.(calls := s.calls[id := s.calls[id].(pc := pc)])
  }

  /** The state once a list of served versions is known: selection, or its failure. */
  function AfterServed(s: State, id: nat, served: seq<ServedVersion>): State
    requires id in s.calls
  {
    match Select(served)
    case Ok(status) => At(s, id, Negotiated(status))
    case Err(kind) => At(s, id, Done(Err(kind)))
  }

  /** The handshake reports the whole current served set, or fails. */
  function AfterHandshake(s: State, id: nat, failure: Option<ErrorKind>): State
    requires id in s.calls && s.served != []
  {
    var c := s.calls[id];
    match failure
    case None => AfterServed(s.(calls := s.calls[id := c.(answeredIn := Some(|s.served| - 1))]), id, Current(s))
    case Some(kind) =>
      if PredatesTheHandshake(kind)
      then s.(calls := s.calls[id := c.(pc := AskingLegacy, legacyCalls := c.legacyCalls + 1)])
      else At(s, id, Done(Err(kind)))
  }

  /** The call once its request has been answered. */
  function Answered(c: Call, reply: Reply, executes: bool): Call
    requires c.pc.InFlight?
  {
    c.(pc := Replied(c.pc.attempt, c.pc.transport, c.pc.got, reply),
       executed := if executes then c.executed + [Execution(c.pc.attempt, c.pc.transport.speaks, reply)] else c.executed)
  }

  function Delivered(s: State, id: nat, fate: Fate): Option<State>
    requires id in s.calls && s.calls[id].pc.InFlight? && s.served != []
  {
    var c := s.calls[id];
    match fate
    case Lost(kind) =>
      if kind == VersionNotServed then None
      else Some(s.(calls := s.calls[id := Answered(c, Failure(kind), false)]))
    case Handled(executes, reply) =>
      if Refused(c.pc.transport, Current(s)) then
        Some(s.(calls := s.calls[id := Answered(c, Failure(VersionNotServed), false)]))
      else if reply == Failure(VersionNotServed) || (!executes && reply.Answer?) then None
      else Some(s.(calls := s.calls[id := Answered(c, reply, executes)]))
  }

  /** The client's side of a reply: collect and go on, finish, re-handshake once, or fail. */
  function AfterReply(c: Call, finished: bool): Option<Call>
    requires c.pc.Replied?
  {
    var Replied(attempt, transport, got, reply) := c.pc;
    match reply
    case Answer(payload) =>
      var got' := got + [Piece(attempt, transport.speaks, payload)];
      if finished then Some(c.(pc := Done(Ok(got'))))
      else if c.single then None
      else Some(c.(pc := Ready(attempt, transport, got')))
    case Failure(kind) =>
      if kind == VersionNotServed && attempt == 1
      then Some(c.(pc := Handshaking, handshakes := c.handshakes + 1))
      else Some(c.(pc := Done(Err(kind))))
  }

  /** One step, or `None` where it is not enabled. */
  function Next(s: State, step: Step): Option<State> {
    if s.served == [] then None else
      match step
      case ServedChanges(revision) => Some(s.(served := s.served + [revision]))
      case Begin(id, single) =>
        if id in s.calls then None else Some(s.(calls := s.calls[id := Call(single, Start, 0, 0, [], None)]))
      case TakeTransport(id) =>
        if id !in s.calls || s.calls[id].pc != Start || s.lock.Some? then None
        else Some(At(s, id, Ready(1, s.session.transport, [])))
      case Send(id) =>
        if id !in s.calls || !s.calls[id].pc.Ready? then None
        else Some(At(s, id, InFlight(s.calls[id].pc.attempt, s.calls[id].pc.transport, s.calls[id].pc.got)))
      case Deliver(id, fate) =>
        if id !in s.calls || !s.calls[id].pc.InFlight? then None else Delivered(s, id, fate)
      case Handle(id, finished) =>
        if id !in s.calls || !s.calls[id].pc.Replied? then None else
          var c := AfterReply(s.calls[id], finished);
          if c.None? then None else Some(s.(calls := s.calls[id := c.value]))
      case HandshakeAnswered(id, failure) =>
        if id !in s.calls || s.calls[id].pc != Handshaking then None else
          Some(AfterHandshake(s, id, failure))
      case LegacyAnswered(id, reply) =>
        if id !in s.calls || s.calls[id].pc != AskingLegacy then None else
          Some(if reply.Err? then At(s, id, Done(Err(reply.kind))) else AfterServed(s, id, LegacyServed(reply.value)))
      case Lock(id) =>
        if id !in s.calls || !s.calls[id].pc.Negotiated? || s.lock.Some? then None
        else Some(At(s, id, Swapping(s.calls[id].pc.status, 0)).(lock := Some(id)))
      case Assign(id) =>
        if id !in s.calls || !s.calls[id].pc.Swapping? || s.calls[id].pc.written > 2 then None else
          var status, n := s.calls[id].pc.status, s.calls[id].pc.written;
          var session := if n == 0 then s.session.(version := status.version)
                         else if n == 1 then s.session.(date := status.date)
                         else s.session.(transport := Transport(status.version));
          Some(At(s, id, Swapping(status, n + 1)).(session := session))
      case Unlock(id) =>
        if id !in s.calls || !s.calls[id].pc.Swapping? || s.calls[id].pc.written < 3 then None else
          var status := s.calls[id].pc.status;
          Some(At(s, id, Ready(2, Transport(status.version), [])).(lock := None, negotiated := status))
  }

  function Run(s: State, steps: seq<Step>): Option<State>
    decreases steps
  {
    if steps == [] then Some(s) else
      match Next(s, steps[0])
      case None => None
      case Some(s') => Run(s', steps[1..])
  }

  /** `Session::open` has negotiated and nothing has been called yet. */
  ghost predicate Initial(s: State) {
    s.served != [] && s.session == Bound(s.negotiated) && s.lock.None? && s.calls == map[]
  }

  // ---------- What every step keeps ----------

  /** The session while `n` of its three fields have been written. */
  function HalfSwapped(before: ServiceStatus, status: ServiceStatus, n: nat): SessionState {
    SessionState(if n >= 1 then status.version else before.version,
                 if n >= 2 then status.date else before.date,
                 Transport(if n >= 3 then status.version else before.version))
  }

  ghost predicate LockInv(s: State) {
    && (forall id :: id in s.calls ==> (s.calls[id].pc.Swapping? <==> s.lock == Some(id)))
    && match s.lock
       case None => s.session == Bound(s.negotiated)
       case Some(id) => id in s.calls && s.calls[id].pc.Swapping? && s.calls[id].pc.written <= 3
                        && s.session == HalfSwapped(s.negotiated, s.calls[id].pc.status, s.calls[id].pc.written)
  }

  /** The executions of one attempt, in order. */
  function OfAttempt(executed: seq<Execution>, attempt: nat): seq<Execution> {
    if executed == [] then [] else
      var last := executed[|executed| - 1];
      OfAttempt(executed[..|executed| - 1], attempt) + if last.attempt == attempt then [last] else []
  }

  /** The executions that answered these pieces. */
  function ExecutionsOf(got: seq<Piece>): (r: seq<Execution>)
    ensures |r| == |got|
    ensures forall i :: 0 <= i < |got| ==> r[i] == Execution(got[i].attempt, got[i].version, Answer(got[i].payload))
  {
    seq(|got|, i requires 0 <= i < |got| => Execution(got[i].attempt, got[i].version, Answer(got[i].payload)))
  }

  predicate PiecesOf(got: seq<Piece>, attempt: nat, version: ProtocolVersion) {
    forall i :: 0 <= i < |got| ==> got[i].attempt == attempt && got[i].version == version
  }

  /** Attempt `attempt` is under way and has executed exactly `execs`. */
  ghost predicate Attempting(c: Call, attempt: nat, execs: seq<Execution>) {
    && 1 <= attempt <= 2
    && c.handshakes == attempt - 1
    && OfAttempt(c.executed, attempt) == execs
    && (attempt == 1 || c.single ==> c.executed == execs)
  }

  predicate ServedIn(served: seq<ServedVersion>, version: ProtocolVersion) {
    exists i :: 0 <= i < |served| && served[i].version == AsStr(version)
  }

  /** When the handshake itself answered, the version chosen was in the set it reported. */
  predicate Reported(served: seq<seq<ServedVersion>>, c: Call, version: ProtocolVersion) {
    c.answeredIn.Some? ==> c.answeredIn.value < |served| && ServedIn(served[c.answeredIn.value], version)
  }

  /** The served set has been revised since the handshake answered. */
  predicate RevisedSince(served: seq<seq<ServedVersion>>, c: Call) {
    c.answeredIn.Some? ==> c.answeredIn.value < |served| - 1
  }

  predicate Collecting(served: seq<seq<ServedVersion>>, c: Call, attempt: nat, transport: Transport, got: seq<Piece>) {
    && PiecesOf(got, attempt, transport.speaks)
    && (c.single ==> got == [])
    && (attempt == 2 ==> Reported(served, c, transport.speaks))
  }

  ghost predicate RepliedInv(served: seq<seq<ServedVersion>>, c: Call, attempt: nat, transport: Transport, got: seq<Piece>, reply: Reply) {
    var before, after := ExecutionsOf(got), ExecutionsOf(got) + [Execution(attempt, transport.speaks, reply)];
    && (Attempting(c, attempt, before) || Attempting(c, attempt, after))
    && (reply.Answer? ==> Attempting(c, attempt, after))
    && (reply == Failure(VersionNotServed) ==> Attempting(c, attempt, before) && RevisedSince(served, c))
  }

  /** Between a refusal and the retry. */
  ghost predicate Renegotiating(c: Call) {
    c.handshakes == 1 && (c.single ==> c.executed == []) && OfAttempt(c.executed, 2) == []
  }

  /** Executions belong to attempts begun; a call negotiates at most once. */
  predicate Bookkept(c: Call) {
    && (forall i :: 0 <= i < |c.executed| ==> c.executed[i].attempt <= 1 + c.handshakes)
    && c.handshakes <= 1 && c.legacyCalls <= c.handshakes && (c.handshakes == 0 ==> c.answeredIn.None?)
  }

  ghost predicate Finished(served: seq<seq<ServedVersion>>, c: Call, result: Result<seq<Piece>>) {
    && (c.single ==> |c.executed| <= 1)
    && (result.Ok? ==> exists attempt, version :: WholeAttempt(c, result.value, attempt, version))
    && (result == Err(VersionNotServed) ==> RevisedSince(served, c))
  }

  ghost predicate CallInv(served: seq<seq<ServedVersion>>, c: Call) {
    && Bookkept(c)
    && match c.pc
       case Start => c.handshakes == 0 && c.executed == []
       case Ready(attempt, transport, got) =>
         Attempting(c, attempt, ExecutionsOf(got)) && Collecting(served, c, attempt, transport, got)
       case InFlight(attempt, transport, got) =>
         Attempting(c, attempt, ExecutionsOf(got)) && Collecting(served, c, attempt, transport, got)
       case Replied(attempt, transport, got, reply) =>
         RepliedInv(served, c, attempt, transport, got, reply) && Collecting(served, c, attempt, transport, got)
       case Handshaking => Renegotiating(c) && c.legacyCalls == 0 && c.answeredIn.None?
       case AskingLegacy => Renegotiating(c) && c.answeredIn.None?
       case Negotiated(status) => Renegotiating(c) && Reported(served, c, status.version)
       case Swapping(status, _) => Renegotiating(c) && Reported(served, c, status.version)
       case Done(result) => Finished(served, c, result)
  }

  /** The pieces are, one for one and in order, what one attempt on one version had executed. */
  ghost predicate WholeAttempt(c: Call, got: seq<Piece>, attempt: nat, version: ProtocolVersion) {
    && Attempting(c, attempt, ExecutionsOf(got))
    && PiecesOf(got, attempt, version)
  }

  ghost predicate Inv(s: State) {
    s.served != [] && LockInv(s) && forall id :: id in s.calls ==> CallInv(s.served, s.calls[id])
  }

  lemma RefusedIffNotServed(transport: Transport, served: seq<ServedVersion>)
    ensures Refused(transport, served) <==> !ServedIn(served, transport.speaks)
  {
    var version := AsStr(transport.speaks);
    assert version[0] == 'v' && |version| == 2 && '.' !in version && '/' !in version;
    CallsOnServedVersionsPass(version, "Configuration", "Call", ServedLabels(served));
    if ServedIn(served, transport.speaks) {
      var i :| 0 <= i < |served| && served[i].version == version;
      assert ServedLabels(served)[i] == version;
    }
    if version in ServedLabels(served) {
      var i :| 0 <= i < |ServedLabels(served)| && ServedLabels(served)[i] == version;
    }
  }

  lemma SelectedIsServed(served: seq<ServedVersion>)
    requires Select(served).Ok?
    ensures ServedIn(served, Select(served).value.version)
  {
    SelectFollowsTheService(served);
    var i :| 0 <= i < |served| && Spoken(served[i]) && Select(served).value == StatusOf(served[i]);
    ParseVersionInverts(served[i].version, Select(served).value.version);
  }

  /** Revisions are only ever added, so what was reported stays reported. */
  lemma CallInvGrows(served: seq<seq<ServedVersion>>, served': seq<seq<ServedVersion>>, c: Call)
    requires CallInv(served, c) && served <= served'
    ensures CallInv(served', c)
  {
    if c.answeredIn.Some? && c.answeredIn.value < |served| {
      assert served'[c.answeredIn.value] == served[c.answeredIn.value];
    }
  }

  /** Changing one call, and neither the lock nor the session, keeps the invariant if the call's
      own invariant holds again and it did not hold the lock. */
  lemma OneCallMoves(s: State, s': State, id: nat)
    requires Inv(s) && s' == s.(calls := s'.calls) && id in s'.calls && s'.calls == s.calls[id := s'.calls[id]]
    requires id in s.calls ==> !s.calls[id].pc.Swapping?
    requires !s'.calls[id].pc.Swapping? && CallInv(s'.served, s'.calls[id])
    ensures Inv(s')
  {
    forall j | j in s'.calls ensures CallInv(s'.served, s'.calls[j]) {
      if j != id { CallInvGrows(s.served, s'.served, s.calls[j]); }
    }
  }

  lemma AnsweredExecuted(served: seq<seq<ServedVersion>>, c: Call, reply: Reply)
    requires c.pc.InFlight? && CallInv(served, c) && reply != Failure(VersionNotServed)
    ensures CallInv(served, Answered(c, reply, true))
  {
    var InFlight(attempt, transport, got) := c.pc;
    var c' := Answered(c, reply, true);
    assert Bookkept(c');
    ExecutedOnce(c, c', attempt, ExecutionsOf(got), Execution(attempt, transport.speaks, reply));
    assert RepliedInv(served, c', attempt, transport, got, reply);
    assert Collecting(served, c', attempt, transport, got);
  }

  lemma AnsweredUnexecuted(served: seq<seq<ServedVersion>>, c: Call, reply: Reply)
    requires c.pc.InFlight? && CallInv(served, c) && reply.Failure?
    requires reply == Failure(VersionNotServed) ==> RevisedSince(served, c)
    ensures CallInv(served, Answered(c, reply, false))
  {
    var InFlight(attempt, transport, got) := c.pc;
    var c' := Answered(c, reply, false);
    assert Bookkept(c');
    AttemptingSame(c, c', attempt, ExecutionsOf(got));
    assert RepliedInv(served, c', attempt, transport, got, reply);
    assert Collecting(served, c', attempt, transport, got);
  }

  lemma RefusalMeansRevised(served: seq<seq<ServedVersion>>, c: Call)
    requires c.pc.InFlight? && CallInv(served, c) && served != []
    requires Refused(c.pc.transport, served[|served| - 1])
    ensures RevisedSince(served, c)
  {
    RefusedIffNotServed(c.pc.transport, served[|served| - 1]);
  }

  lemma DeliveredCall(s: State, id: nat, fate: Fate)
    requires Inv(s) && id in s.calls && s.calls[id].pc.InFlight? && Delivered(s, id, fate).Some?
    ensures CallInv(s.served, Delivered(s, id, fate).value.calls[id])
  {
    var c := s.calls[id];
    assert CallInv(s.served, c);
    match fate
    case Lost(kind) => AnsweredUnexecuted(s.served, c, Failure(kind));
    case Handled(executes, reply) =>
      if Refused(c.pc.transport, Current(s)) {
        RefusalMeansRevised(s.served, c);
        AnsweredUnexecuted(s.served, c, Failure(VersionNotServed));
      } else if executes {
        AnsweredExecuted(s.served, c, reply);
      } else {
        AnsweredUnexecuted(s.served, c, reply);
      }
  }

  lemma DeliverKeepsInv(s: State, id: nat, fate: Fate)
    requires Inv(s) && Next(s, Deliver(id, fate)).Some?
    ensures Inv(Next(s, Deliver(id, fate)).value)
  {
    DeliveredCall(s, id, fate);
    OneCallMoves(s, Delivered(s, id, fate).value, id);
  }

  lemma OfAttemptSnoc(executed: seq<Execution>, e: Execution, attempt: nat)
    ensures OfAttempt(executed + [e], attempt) == OfAttempt(executed, attempt) + if e.attempt == attempt then [e] else []
  {
    assert (executed + [e])[..|executed|] == executed;
  }

  lemma {:induction false} NoneOfAttempt(executed: seq<Execution>, attempt: nat)
    requires forall i :: 0 <= i < |executed| ==> executed[i].attempt != attempt
    ensures OfAttempt(executed, attempt) == []
  {
    if executed != [] {
      NoneOfAttempt(executed[..|executed| - 1], attempt);
    }
  }

  lemma ExecutionsSnoc(got: seq<Piece>, p: Piece)
    ensures ExecutionsOf(got + [p]) == ExecutionsOf(got) + [Execution(p.attempt, p.version, Answer(p.payload))]
  {
  }

  lemma ExecutedOnce(c: Call, c': Call, attempt: nat, execs: seq<Execution>, e: Execution)
    requires Attempting(c, attempt, execs) && e.attempt == attempt
    requires c'.executed == c.executed + [e]
    requires c'.single == c.single && c'.handshakes == c.handshakes
    ensures Attempting(c', attempt, execs + [e])
  {
    OfAttemptSnoc(c.executed, e, attempt);
  }

  lemma CallReplaced(s: State, id: nat, c: Call)
    requires Inv(s) && id in s.calls && !s.calls[id].pc.Swapping? && !c.pc.Swapping? && CallInv(s.served, c)
    ensures Inv(s.(calls := s.calls[id := c]))
  {
    OneCallMoves(s, s.(calls := s.calls[id := c]), id);
  }

  /** A reply that answers: its piece joins the attempt's. */
  lemma AfterAnswerInv(served: seq<seq<ServedVersion>>, c: Call, finished: bool)
    requires c.pc.Replied? && c.pc.reply.Answer? && CallInv(served, c) && AfterReply(c, finished).Some?
    ensures CallInv(served, AfterReply(c, finished).value)
  {
    var Replied(attempt, transport, got, reply) := c.pc;
    var c' := AfterReply(c, finished).value;
    var got' := got + [Piece(attempt, transport.speaks, reply.payload)];
    assert PiecesOf(got', attempt, transport.speaks);
    ExecutionsSnoc(got, Piece(attempt, transport.speaks, reply.payload));
    AttemptingSame(c, c', attempt, ExecutionsOf(got'));
    if finished {
      assert WholeAttempt(c', got', attempt, transport.speaks);
    } else {
      assert Collecting(served, c', attempt, transport, got');
    }
  }

  lemma AttemptingSame(c: Call, c': Call, attempt: nat, execs: seq<Execution>)
    requires Attempting(c, attempt, execs)
    requires c'.executed == c.executed && c'.single == c.single && c'.handshakes == c.handshakes
    ensures Attempting(c', attempt, execs)
  {
  }

  lemma AfterFailureInv(served: seq<seq<ServedVersion>>, c: Call, finished: bool)
    requires c.pc.Replied? && c.pc.reply.Failure? && CallInv(served, c) && AfterReply(c, finished).Some?
    ensures CallInv(served, AfterReply(c, finished).value)
  {
    if c.pc.reply.kind == VersionNotServed && c.pc.attempt == 1 {
      NoneOfAttempt(c.executed, 2);
      assert Renegotiating(AfterReply(c, finished).value);
    } else {
      assert c.single ==> |c.executed| <= 1;
    }
  }

  lemma HandleKeepsInv(s: State, id: nat, finished: bool)
    requires Inv(s) && Next(s, Handle(id, finished)).Some?
    ensures Inv(Next(s, Handle(id, finished)).value)
  {
    var c := s.calls[id];
    assert CallInv(s.served, c);
    if c.pc.reply.Answer? { AfterAnswerInv(s.served, c, finished); } else { AfterFailureInv(s.served, c, finished); }
    CallReplaced(s, id, AfterReply(c, finished).value);
  }

  lemma HandshakeCall(s: State, id: nat, failure: Option<ErrorKind>)
    requires Inv(s) && Next(s, HandshakeAnswered(id, failure)).Some?
    ensures CallInv(s.served, Next(s, HandshakeAnswered(id, failure)).value.calls[id])
  {
    assert CallInv(s.served, s.calls[id]);
    if failure.None? {
      SelectFollowsTheService(Current(s));
      if Select(Current(s)).Ok? { SelectedIsServed(Current(s)); }
    }
  }

  lemma HandshakeKeepsInv(s: State, id: nat, failure: Option<ErrorKind>)
    requires Inv(s) && Next(s, HandshakeAnswered(id, failure)).Some?
    ensures Inv(Next(s, HandshakeAnswered(id, failure)).value)
  {
    var s' := Next(s, HandshakeAnswered(id, failure)).value;
    HandshakeCall(s, id, failure);
    assert s'.calls == s.calls[id := s'.calls[id]];
    CallReplaced(s, id, s'.calls[id]);
  }

  lemma LegacyKeepsInv(s: State, id: nat, reply: Result<VersionReply>)
    requires Inv(s) && Next(s, LegacyAnswered(id, reply)).Some?
    ensures Inv(Next(s, LegacyAnswered(id, reply)).value)
  {
    assert CallInv(s.served, s.calls[id]);
    OneCallMoves(s, Next(s, LegacyAnswered(id, reply)).value, id);
  }

  /** The steps that take, write under, and release the lock. */
  predicate UnderLock(step: Step) { step.Lock? || step.Assign? || step.Unlock? }

  lemma SwapKeepsCall(s: State, step: Step)
    requires Inv(s) && UnderLock(step) && Next(s, step).Some?
    ensures var s' := Next(s, step).value; s'.served == s.served && CallInv(s.served, s'.calls[step.id])
  {
    var c' := Next(s, step).value.calls[step.id];
    assert CallInv(s.served, s.calls[step.id]);
    if step.Unlock? { assert Attempting(c', 2, ExecutionsOf([])); }
  }

  lemma SwapKeepsLock(s: State, step: Step)
    requires Inv(s) && UnderLock(step) && Next(s, step).Some?
    ensures LockInv(Next(s, step).value)
  {
  }

  lemma SwapKeepsInv(s: State, step: Step)
    requires Inv(s) && UnderLock(step) && Next(s, step).Some?
    ensures Inv(Next(s, step).value)
  {
    var s' := Next(s, step).value;
    SwapKeepsLock(s, step);
    SwapKeepsCall(s, step);
    assert forall j :: j in s'.calls && j != step.id ==> j in s.calls && s'.calls[j] == s.calls[j];
  }

  lemma PlainStepKeepsInv(s: State, step: Step)
    requires Inv(s) && (step.ServedChanges? || step.Begin? || step.TakeTransport? || step.Send?) && Next(s, step).Some?
    ensures Inv(Next(s, step).value)
  {
    var s' := Next(s, step).value;
    if step.ServedChanges? {
      forall j | j in s'.calls ensures CallInv(s'.served, s'.calls[j]) {
        CallInvGrows(s.served, s'.served, s.calls[j]);
      }
    } else {
      if !step.Begin? { assert CallInv(s.served, s.calls[step.id]); }
      OneCallMoves(s, s', step.id);
    }
  }

  lemma NextKeepsInv(s: State, step: Step)
    requires Inv(s) && Next(s, step).Some?
    ensures Inv(Next(s, step).value)
  {
    match step
    case Deliver(id, fate) => DeliverKeepsInv(s, id, fate);
    case Handle(id, finished) => HandleKeepsInv(s, id, finished);
    case HandshakeAnswered(id, failure) => HandshakeKeepsInv(s, id, failure);
    case LegacyAnswered(id, reply) => LegacyKeepsInv(s, id, reply);
    case Lock(_) => SwapKeepsInv(s, step);
    case Assign(_) => SwapKeepsInv(s, step);
    case Unlock(_) => SwapKeepsInv(s, step);
    case _ => PlainStepKeepsInv(s, step);
  }

  lemma {:induction false} RunKeepsInv(s: State, steps: seq<Step>)
    requires Inv(s) && Run(s, steps).Some?
    ensures Inv(Run(s, steps).value)
    decreases steps
  {
    if steps != [] {
      NextKeepsInv(s, steps[0]);
      RunKeepsInv(Next(s, steps[0]).value, steps[1..]);
    }
  }

  // ---------- Safety over every run ----------

  /** In every reachable state of every interleaving, whenever no swap is under way, the stored
      version, date and transport all belong to the last completed negotiation. */
  lemma SessionIsCoherent(s: State, steps: seq<Step>)
    requires Initial(s) && Run(s, steps).Some?
    ensures var t := Run(s, steps).value;
            t.lock.None? ==> t.session == Bound(t.negotiated) && t.session.transport.speaks == t.session.version
  {
    RunKeepsInv(s, steps);
  }

  /** The attempt a call is making or has made. */
  function AttemptOf(pc: Pc): nat {
    match pc
    case Ready(attempt, _, _) => attempt
    case InFlight(attempt, _, _) => attempt
    case Replied(attempt, _, _, _) => attempt
    case _ => 0
  }

  /** However the calls interleave and the served set changes: a call makes at most two attempts, one
      re-handshake and one legacy call; an operation of one RPC is executed at most once; a refused
      RPC was not executed at all. */
  lemma AtMostOnce(s: State, steps: seq<Step>, id: nat)
    requires Initial(s) && Run(s, steps).Some? && id in Run(s, steps).value.calls
    ensures var c := Run(s, steps).value.calls[id];
            && c.handshakes <= 1 && c.legacyCalls <= c.handshakes
            && AttemptOf(c.pc) <= 1 + c.handshakes
            && (c.single ==> |c.executed| <= 1)
            && (c.single && c.pc.Replied? && c.pc.reply == Failure(VersionNotServed) ==> c.executed == [])
            && (forall i :: 0 <= i < |c.executed| ==> c.executed[i].attempt <= 1 + c.handshakes)
  {
    RunKeepsInv(s, steps);
    assert CallInv(Run(s, steps).value.served, Run(s, steps).value.calls[id]);
  }

  /** A result never mixes attempts or versions and loses nothing: its pieces are, one for one and in
      order, the answers of all that one attempt had executed, on the one version it was given. */
  lemma ResultsAreNeverStitched(s: State, steps: seq<Step>, id: nat)
    requires Initial(s) && Run(s, steps).Some? && id in Run(s, steps).value.calls
    ensures var c := Run(s, steps).value.calls[id];
            c.pc.Done? && c.pc.result.Ok? ==>
              var got := c.pc.result.value;
              exists attempt, version ::
                && attempt == 1 + c.handshakes
                && OfAttempt(c.executed, attempt) == ExecutionsOf(got)
                && PiecesOf(got, attempt, version)
  {
    RunKeepsInv(s, steps);
    var c := Run(s, steps).value.calls[id];
    assert CallInv(Run(s, steps).value.served, c);
    if c.pc.Done? && c.pc.result.Ok? {
      var attempt, version :| WholeAttempt(c, c.pc.result.value, attempt, version);
      assert attempt == 1 + c.handshakes && OfAttempt(c.executed, attempt) == ExecutionsOf(c.pc.result.value);
    }
  }

  /** A call whose re-handshake was answered is refused again only if the served set was revised
      after that answer. */
  lemma RefusedTwiceMeansRevised(s: State, steps: seq<Step>, id: nat)
    requires Initial(s) && Run(s, steps).Some? && id in Run(s, steps).value.calls
    ensures var t := Run(s, steps).value;
            var c := t.calls[id];
            c.pc == Done(Err(VersionNotServed)) && c.answeredIn.Some? ==> c.answeredIn.value < |t.served| - 1
  {
    RunKeepsInv(s, steps);
    assert CallInv(Run(s, steps).value.served, Run(s, steps).value.calls[id]);
  }
}
