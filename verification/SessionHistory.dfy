/** What every call of a session did, read off the steps of a run: which transport it took, whether it
    was refused for its version, what it then negotiated, and why it ended as it did. */
module SessionHistory {
  import opened Text
  import opened Versions
  import opened Session

  /** Things that happen to one call. */
  datatype Event =
    | Took(id: nat, transport: Transport)              // the stored transport, for the first attempt
    | Refused(id: nat)                                 // the first attempt, for its version
    | FellBack(id: nat)                                // the service has no handshake
    | Agreed(id: nat, status: ServiceStatus)           // a version was chosen
    | Disagreed(id: nat, kind: ErrorKind)              // the negotiation failed
    | Failed(id: nat, attempt: nat, kind: ErrorKind)   // an attempt failed for good
    | Finished(id: nat, got: seq<Piece>)               // an attempt completed

  /** The call is handling this reply. */
  predicate Handles(a: State, step: Step, id: nat, attempt: nat, reply: Reply) {
    && step.Handle? && step.id == id && id in a.calls
    && a.calls[id].pc.Replied? && a.calls[id].pc.attempt == attempt && a.calls[id].pc.reply == reply
  }

  /** The lists of served versions a negotiation can be answered with. */
  predicate Offered(a: State, step: Step, id: nat, served: seq<ServedVersion>) {
    || (step == HandshakeAnswered(id, None) && a.served != [] && served == a.served[|a.served| - 1])
    || (step.LegacyAnswered? && step.id == id && step.reply.Ok? && served == LegacyServed(step.reply.value))
  }

  /** The event happens when this step is taken from this state. */
  ghost predicate Occurs(e: Event, a: State, step: Step) {
    e.id in a.calls
    && match e
       case Took(id, transport) => step == TakeTransport(id) && transport == a.session.transport
       case Refused(id) => Handles(a, step, id, 1, Failure(VersionNotServed))
       case FellBack(id) =>
         step == HandshakeAnswered(id, Some(Unauthenticated)) || step == HandshakeAnswered(id, Some(IncompatibleProtocol))
       case Agreed(id, status) => exists served :: Offered(a, step, id, served) && Select(served) == Ok(status)
       case Disagreed(id, kind) =>
         || (step == HandshakeAnswered(id, Some(kind)) && kind != Unauthenticated && kind != IncompatibleProtocol)
         || step == LegacyAnswered(id, Err(kind))
         || exists served :: Offered(a, step, id, served) && Select(served) == Err(kind)
       case Failed(id, attempt, kind) =>
         Handles(a, step, id, attempt, Failure(kind)) && !(attempt == 1 && kind == VersionNotServed)
       case Finished(id, got) =>
         && step == Handle(id, true) && a.calls[id].pc.Replied? && a.calls[id].pc.reply.Answer?
         && var Replied(attempt, transport, before, reply) := a.calls[id].pc;
            got == before + [Piece(attempt, transport.speaks, reply.payload)]
  }

  ghost predicate HappenedAt(s: State, steps: seq<Step>, e: Event, k: nat) {
    k < |steps| && Run(s, steps[..k]).Some? && Occurs(e, Run(s, steps[..k]).value, steps[k])
  }

  /** The event has happened somewhere in the run. */
  ghost predicate Happened(s: State, steps: seq<Step>, e: Event) { exists k: nat :: HappenedAt(s, steps, e, k) }

  lemma HappenedBefore(s: State, steps: seq<Step>, step: Step, e: Event, k: nat)
    requires k < |steps|
    ensures HappenedAt(s, steps + [step], e, k) <==> HappenedAt(s, steps, e, k)
  {
    assert (steps + [step])[..k] == steps[..k] && (steps + [step])[k] == steps[k];
  }

  lemma HappenedLast(s: State, steps: seq<Step>, step: Step, e: Event)
    requires Run(s, steps).Some?
    ensures HappenedAt(s, steps + [step], e, |steps|) <==> Occurs(e, Run(s, steps).value, step)
  {
    assert (steps + [step])[..|steps|] == steps && (steps + [step])[|steps|] == step;
  }

  lemma HappenedSnoc(s: State, steps: seq<Step>, step: Step, e: Event)
    requires Run(s, steps).Some?
    ensures Happened(s, steps + [step], e) <==> Happened(s, steps, e) || Occurs(e, Run(s, steps).value, step)
  {
    HappenedLast(s, steps, step, e);
    if Happened(s, steps, e) {
      var k: nat :| HappenedAt(s, steps, e, k);
      HappenedBefore(s, steps, step, e, k);
    }
    if Happened(s, steps + [step], e) {
      var k: nat :| HappenedAt(s, steps + [step], e, k);
      if k < |steps| { HappenedBefore(s, steps, step, e, k); }
    }
  }

  lemma {:induction false} RunSnoc(s: State, steps: seq<Step>, step: Step)
    ensures Run(s, steps + [step]) == match Run(s, steps) case None => None case Some(t) => Next(t, step)
    decreases steps
  {
    if steps == [] {
      assert steps + [step] == [step] && [step][1..] == [];
      if Next(s, step).Some? { assert Run(Next(s, step).value, []) == Some(Next(s, step).value); }
    } else {
      assert (steps + [step])[1..] == steps[1..] + [step];
      match Next(s, steps[0])
      case None =>
      case Some(t) => RunSnoc(t, steps[1..], step);
    }
  }

  // ---------- A call accounts for itself ----------

  /** How the call got where it is, given what has happened. */
  ghost predicate Reason(h: Event -> bool, c: Call, id: nat) {
    match c.pc
    case Start => true
    case Ready(attempt, transport, _) => OnTransport(h, id, attempt, transport)
    case InFlight(attempt, transport, _) => OnTransport(h, id, attempt, transport)
    case Replied(attempt, transport, _, _) => OnTransport(h, id, attempt, transport)
    case Handshaking => h(Refused(id))
    case AskingLegacy => h(Refused(id)) && h(FellBack(id))
    case Negotiated(status) => h(Agreed(id, status))
    case Swapping(status, _) => h(Agreed(id, status))
    case Done(Ok(got)) => h(Finished(id, got))
    case Done(Err(kind)) =>
      if c.handshakes == 0 then kind != VersionNotServed && h(Failed(id, 1, kind))
      else h(Disagreed(id, kind)) || h(Failed(id, 2, kind))
  }

  /** A first attempt is on the transport stored when it was taken, a second on one for the version
      the call itself negotiated. */
  ghost predicate OnTransport(h: Event -> bool, id: nat, attempt: nat, transport: Transport) {
    if attempt == 1 then h(Took(id, transport))
    else exists status :: h(Agreed(id, status)) && transport == Transport(status.version)
  }

  /** And what has happened shows. */
  ghost predicate Shows(h: Event -> bool, c: Call, id: nat) {
    && (h(Refused(id)) <==> c.handshakes == 1)
    && (h(FellBack(id)) <==> c.legacyCalls == 1)
    && (forall attempt: nat, kind :: h(Failed(id, attempt, kind)) ==> c.pc == Done(Err(kind)) && c.handshakes == attempt - 1)
    && (forall kind :: h(Disagreed(id, kind)) ==> c.pc == Done(Err(kind)) && c.handshakes == 1)
    && (forall got :: h(Finished(id, got)) ==> c.pc == Done(Ok(got)))
  }

  ghost predicate Accounted(h: Event -> bool, t: State, id: nat) {
    if id in t.calls then Reason(h, t.calls[id], id) && Shows(h, t.calls[id], id)
    else forall e: Event :: e.id == id ==> !h(e)
  }

  /** The one thing that happens to a call when this step about it is taken, if anything does. */
  ghost function New(t: State, step: Step, id: nat): Option<Event>
    requires t.served != []
  {
    if id !in t.calls then None else
      match step
      case TakeTransport(k) => if k == id then Some(Took(id, t.session.transport)) else None
      case Handle(k, finished) =>
        if k != id || !t.calls[id].pc.Replied? then None else
          var Replied(attempt, transport, got, reply) := t.calls[id].pc;
          (match reply
           case Answer(payload) =>
             if finished then Some(Finished(id, got + [Piece(attempt, transport.speaks, payload)])) else None
           case Failure(kind) =>
             if attempt == 1 && kind == VersionNotServed then Some(Refused(id)) else Some(Failed(id, attempt, kind)))
      case HandshakeAnswered(k, failure) =>
        if k != id then None else
          (match failure
           case None => Some(Selected(id, t.served[|t.served| - 1]))
           case Some(kind) =>
             if kind == Unauthenticated || kind == IncompatibleProtocol then Some(FellBack(id)) else Some(Disagreed(id, kind)))
      case LegacyAnswered(k, reply) =>
        if k != id then None else
          (match reply
           case Ok(answer) => Some(Selected(id, LegacyServed(answer)))
           case Err(kind) => Some(Disagreed(id, kind)))
      case _ => None
  }

  ghost function Selected(id: nat, served: seq<ServedVersion>): Event {
    match Select(served) case Ok(status) => Agreed(id, status) case Err(kind) => Disagreed(id, kind)
  }

  lemma OccursIsNew(t: State, step: Step, e: Event)
    requires t.served != []
    ensures Occurs(e, t, step) <==> New(t, step, e.id) == Some(e)
  {
    match step
    case HandshakeAnswered(id, None) => OneOffer(t, step, e, t.served[|t.served| - 1]);
    case LegacyAnswered(id, Ok(answer)) => OneOffer(t, step, e, LegacyServed(answer));
    case _ =>
  }

  lemma OneOffer(t: State, step: Step, e: Event, served: seq<ServedVersion>)
    requires (step.HandshakeAnswered? && step.failure.None?) || (step.LegacyAnswered? && step.reply.Ok?)
    requires Offered(t, step, step.id, served)
    ensures Occurs(e, t, step) <==> e.id in t.calls && step.id == e.id && e == Selected(e.id, served)
  {
    forall id, other | Offered(t, step, id, other) ensures id == step.id && other == served {
    }
  }

  /** With one event more about the call, or none. */
  ghost predicate Adds(h: Event -> bool, h': Event -> bool, id: nat, n: Option<Event>) {
    forall e: Event :: e.id == id ==> (h'(e) <==> h(e) || n == Some(e))
  }

  lemma StillOnTransport(h: Event -> bool, h': Event -> bool, id: nat, n: Option<Event>, attempt: nat, transport: Transport)
    requires Adds(h, h', id, n) && OnTransport(h, id, attempt, transport)
    ensures OnTransport(h', id, attempt, transport)
  {
    if attempt != 1 {
      var status :| h(Agreed(id, status)) && transport == Transport(status.version);
      assert h'(Agreed(id, status));
    }
  }

  /** A call that has not ended shows what is new, and nothing else changes what it shows. */
  lemma ShowsNew(h: Event -> bool, h': Event -> bool, c: Call, c': Call, id: nat, n: Option<Event>)
    requires Adds(h, h', id, n) && Shows(h, c, id) && !c.pc.Done?
    requires c'.handshakes == (if n == Some(Refused(id)) then 1 else c.handshakes)
    requires c'.legacyCalls == (if n == Some(FellBack(id)) then 1 else c.legacyCalls)
    requires n.Some? && n.value.Failed? ==> c'.pc == Done(Err(n.value.kind)) && c'.handshakes == n.value.attempt - 1
    requires n.Some? && n.value.Disagreed? ==> c'.pc == Done(Err(n.value.kind)) && c'.handshakes == 1
    requires n.Some? && n.value.Finished? ==> c'.pc == Done(Ok(n.value.got))
    ensures Shows(h', c', id)
  {
  }

  /** The call as it was, seen with one event more. */
  lemma NothingNew(h: Event -> bool, h': Event -> bool, c: Call, id: nat)
    requires Adds(h, h', id, None) && Reason(h, c, id) && Shows(h, c, id)
    ensures Reason(h', c, id) && Shows(h', c, id)
  {
    match c.pc
    case Ready(attempt, transport, _) => StillOnTransport(h, h', id, None, attempt, transport);
    case InFlight(attempt, transport, _) => StillOnTransport(h, h', id, None, attempt, transport);
    case Replied(attempt, transport, _, _) => StillOnTransport(h, h', id, None, attempt, transport);
    case _ =>
  }

  /** The call a step is about. */
  function About(step: Step): Option<nat> { if step.ServedChanges? then None else Some(step.id) }

  lemma OthersUntouched(t: State, step: Step, id: nat)
    requires Next(t, step).Some? && About(step) != Some(id)
    ensures New(t, step, id) == None
    ensures id in Next(t, step).value.calls <==> id in t.calls
    ensures id in t.calls ==> Next(t, step).value.calls[id] == t.calls[id]
  {
  }

  lemma ReplyAccounted(h: Event -> bool, h': Event -> bool, served: seq<seq<ServedVersion>>, c: Call, id: nat, finished: bool, n: Option<Event>)
    requires c.pc.Replied? && CallInv(served, c) && AfterReply(c, finished).Some?
    requires Adds(h, h', id, n) && Reason(h, c, id) && Shows(h, c, id)
    requires n == match c.pc.reply
                  case Answer(payload) =>
                    if finished then Some(Finished(id, c.pc.got + [Piece(c.pc.attempt, c.pc.transport.speaks, payload)])) else None
                  case Failure(kind) =>
                    if c.pc.attempt == 1 && kind == VersionNotServed then Some(Refused(id)) else Some(Failed(id, c.pc.attempt, kind))
    ensures Reason(h', AfterReply(c, finished).value, id) && Shows(h', AfterReply(c, finished).value, id)
  {
    var c' := AfterReply(c, finished).value;
    assert 1 <= c.pc.attempt <= 2 && c.handshakes == c.pc.attempt - 1;
    StillOnTransport(h, h', id, n, c.pc.attempt, c.pc.transport);
    ShowsNew(h, h', c, c', id, n);
  }

  lemma HandleAccounted(h: Event -> bool, h': Event -> bool, t: State, id: nat, finished: bool)
    requires Inv(t) && Next(t, Handle(id, finished)).Some? && Accounted(h, t, id)
    requires Adds(h, h', id, New(t, Handle(id, finished), id))
    ensures Accounted(h', Next(t, Handle(id, finished)).value, id)
  {
    var c := t.calls[id];
    assert CallInv(t.served, c);
    ReplyAccounted(h, h', t.served, c, id, finished, New(t, Handle(id, finished), id));
  }

  /** A negotiation's answer. */
  lemma AnswerAccounted(h: Event -> bool, h': Event -> bool, c: Call, c': Call, id: nat, n: Event)
    requires (c.pc == Handshaking || c.pc == AskingLegacy) && c.handshakes == 1 && n.id == id
    requires Adds(h, h', id, Some(n)) && Reason(h, c, id) && Shows(h, c, id)
    requires c'.handshakes == c.handshakes && c'.legacyCalls == (if n.FellBack? then 1 else c.legacyCalls)
    requires match n
             case Agreed(_, status) => c'.pc == Negotiated(status)
             case Disagreed(_, kind) => c'.pc == Done(Err(kind))
             case FellBack(_) => c'.pc == AskingLegacy
             case _ => false
    ensures Reason(h', c', id) && Shows(h', c', id)
  {
    ShowsNew(h, h', c, c', id, Some(n));
    assert h'(n) && h'(Refused(id));
  }

  lemma HandshakeAccounted(h: Event -> bool, h': Event -> bool, t: State, id: nat, failure: Option<ErrorKind>)
    requires Inv(t) && Next(t, HandshakeAnswered(id, failure)).Some? && Accounted(h, t, id)
    requires Adds(h, h', id, New(t, HandshakeAnswered(id, failure), id))
    ensures Accounted(h', Next(t, HandshakeAnswered(id, failure)).value, id)
  {
    var step := HandshakeAnswered(id, failure);
    assert CallInv(t.served, t.calls[id]);
    AnswerAccounted(h, h', t.calls[id], Next(t, step).value.calls[id], id, New(t, step, id).value);
  }

  lemma LegacyAccounted(h: Event -> bool, h': Event -> bool, t: State, id: nat, reply: Result<VersionReply>)
    requires Inv(t) && Next(t, LegacyAnswered(id, reply)).Some? && Accounted(h, t, id)
    requires Adds(h, h', id, New(t, LegacyAnswered(id, reply), id))
    ensures Accounted(h', Next(t, LegacyAnswered(id, reply)).value, id)
  {
    var step := LegacyAnswered(id, reply);
    assert CallInv(t.served, t.calls[id]);
    AnswerAccounted(h, h', t.calls[id], Next(t, step).value.calls[id], id, New(t, step, id).value);
  }

  lemma TakeAccounted(h: Event -> bool, h': Event -> bool, t: State, id: nat)
    requires Inv(t) && Next(t, TakeTransport(id)).Some? && Accounted(h, t, id)
    requires Adds(h, h', id, New(t, TakeTransport(id), id))
    ensures Accounted(h', Next(t, TakeTransport(id)).value, id)
  {
    ShowsNew(h, h', t.calls[id], Next(t, TakeTransport(id)).value.calls[id], id, New(t, TakeTransport(id), id));
  }

  /** Where a call that is not at a decision moves to. */
  predicate MovesOn(c: Call, c': Call) {
    && c'.handshakes == c.handshakes && c'.legacyCalls == c.legacyCalls
    && match c.pc
       case Ready(attempt, transport, got) => c'.pc == InFlight(attempt, transport, got)
       case InFlight(attempt, transport, got) => c'.pc.Replied? && c'.pc.attempt == attempt && c'.pc.transport == transport
       case Negotiated(status) => c'.pc == Swapping(status, 0)
       case Swapping(status, n) => c'.pc == Swapping(status, n + 1) || c'.pc == Ready(2, Transport(status.version), [])
       case _ => false
  }

  predicate Moves(step: Step) { step.Send? || step.Deliver? || step.Lock? || step.Assign? || step.Unlock? }

  lemma StepMovesOn(t: State, step: Step)
    requires Next(t, step).Some? && Moves(step)
    ensures MovesOn(t.calls[step.id], Next(t, step).value.calls[step.id]) && New(t, step, step.id) == None
  {
  }

  lemma MovedAccounted(h: Event -> bool, h': Event -> bool, c: Call, c': Call, id: nat)
    requires MovesOn(c, c') && Adds(h, h', id, None) && Reason(h, c, id) && Shows(h, c, id)
    ensures Reason(h', c', id) && Shows(h', c', id)
  {
    NothingNew(h, h', c, id);
    ShowsNew(h, h', c, c', id, None);
  }

  lemma StepAccounted(h: Event -> bool, h': Event -> bool, t: State, step: Step, id: nat)
    requires Inv(t) && Next(t, step).Some? && Accounted(h, t, id) && Adds(h, h', id, New(t, step, id))
    ensures Accounted(h', Next(t, step).value, id)
  {
    if About(step) != Some(id) {
      OthersUntouched(t, step, id);
      if id in t.calls { NothingNew(h, h', t.calls[id], id); }
    } else if Moves(step) {
      StepMovesOn(t, step);
      MovedAccounted(h, h', t.calls[id], Next(t, step).value.calls[id], id);
    } else {
      match step
      case TakeTransport(_) => TakeAccounted(h, h', t, id);
      case Handle(_, finished) => HandleAccounted(h, h', t, id, finished);
      case HandshakeAnswered(_, failure) => HandshakeAccounted(h, h', t, id, failure);
      case LegacyAnswered(_, reply) => LegacyAccounted(h, h', t, id, reply);
      case Begin(_, _) =>
    }
  }

  ghost function History(s: State, steps: seq<Step>): Event -> bool { (e: Event) => Happened(s, steps, e) }

  /** In every run of every interleaving, every call is where it is for a reason found in the steps,
      and what the steps did to it shows. */
  lemma {:induction false} EveryCallIsAccounted(s: State, steps: seq<Step>, id: nat)
    requires Initial(s) && Run(s, steps).Some?
    ensures Accounted(History(s, steps), Run(s, steps).value, id)
  {
    if steps != [] {
      var init, last := steps[..|steps| - 1], steps[|steps| - 1];
      assert steps == init + [last];
      RunSnoc(s, init, last);
      EveryCallIsAccounted(s, init, id);
      RunKeepsInv(s, init);
      var t := Run(s, init).value;
      forall e: Event | e.id == id ensures History(s, steps)(e) <==> History(s, init)(e) || New(t, last, id) == Some(e) {
        HappenedSnoc(s, init, last, e);
        OccursIsNew(t, last, e);
      }
      StepAccounted(History(s, init), History(s, steps), t, last, id);
    }
  }

  /** Over every run. A call re-handshakes exactly when its first attempt was refused for its version, so
      one that ends refused was refused twice or by its negotiation. Any other failure of the first
      attempt ends the call with that kind and no handshake. The first attempt travels on the
      transport stored when it was taken, a second on one for the version the call negotiated. */
  lemma RefusedCallsRenegotiate(s: State, steps: seq<Step>, id: nat)
    requires Initial(s) && Run(s, steps).Some? && id in Run(s, steps).value.calls
    ensures var c := Run(s, steps).value.calls[id];
            && (c.handshakes == 1 <==> Happened(s, steps, Refused(id)))
            && (c.legacyCalls == 1 <==> Happened(s, steps, FellBack(id)))
            && (c.pc == Done(Err(VersionNotServed)) ==> c.handshakes == 1 && Happened(s, steps, Refused(id)))
            && (forall kind :: Happened(s, steps, Failed(id, 1, kind)) ==> c.pc == Done(Err(kind)) && c.handshakes == 0)
            && (forall kind :: Happened(s, steps, Failed(id, 2, kind)) ==> c.pc == Done(Err(kind)) && c.handshakes == 1)
            && (forall kind :: Happened(s, steps, Disagreed(id, kind)) ==> c.pc == Done(Err(kind)))
            && (c.pc.Done? && c.pc.result.Err? ==>
                  var kind := c.pc.result.kind;
                  if c.handshakes == 0 then Happened(s, steps, Failed(id, 1, kind))
                  else Happened(s, steps, Disagreed(id, kind)) || Happened(s, steps, Failed(id, 2, kind)))
            && (c.pc.InFlight? && c.pc.attempt == 1 ==> Happened(s, steps, Took(id, c.pc.transport)))
            && (c.pc.InFlight? && c.pc.attempt == 2 ==>
                  exists status :: Happened(s, steps, Agreed(id, status)) && c.pc.transport == Transport(status.version))
  {
    EveryCallIsAccounted(s, steps, id);
    RunKeepsInv(s, steps);
    var t := Run(s, steps).value;
    var c, h := t.calls[id], History(s, steps);
    assert CallInv(t.served, c);
    assert Shows(h, c, id) && Reason(h, c, id);
    forall attempt: nat, kind | Happened(s, steps, Failed(id, attempt, kind)) ensures c.pc == Done(Err(kind)) && c.handshakes == attempt - 1 {
      assert h(Failed(id, attempt, kind));
    }
    forall kind | Happened(s, steps, Disagreed(id, kind)) ensures c.pc == Done(Err(kind)) {
      assert h(Disagreed(id, kind));
    }
    if c.pc.InFlight? && c.pc.attempt == 2 {
      var status :| h(Agreed(id, status)) && c.pc.transport == Transport(status.version);
      assert Happened(s, steps, Agreed(id, status));
    }
  }

  // ---------- What the service does with a request ----------

  /** A request that arrives while its version is not served is refused without being executed; one whose
      version is served is executed or not, answered only if executed, and never refused so; one that
      is lost fails some other way. */
  lemma DeliveryLaw(s: State, id: nat, fate: Fate)
    requires s.served != [] && id in s.calls && s.calls[id].pc.InFlight?
    ensures var t := Next(s, Deliver(id, fate));
            var InFlight(attempt, transport, got) := s.calls[id].pc;
            var served := exists i :: 0 <= i < |Current(s)| && Current(s)[i].version == AsStr(transport.speaks);
            && (t.Some? ==> id in t.value.calls && t.value.calls[id].pc.Replied?
                            && t.value.session == s.session && t.value.served == s.served)
            && (fate.Handled? && !served ==>
                  && t.Some? && t.value.calls[id].executed == s.calls[id].executed
                  && t.value.calls[id].pc == Replied(attempt, transport, got, Failure(VersionNotServed)))
            && (fate.Handled? && served && t.Some? ==>
                  && t.value.calls[id].pc == Replied(attempt, transport, got, fate.reply) && fate.reply != Failure(VersionNotServed)
                  && t.value.calls[id].executed
                     == s.calls[id].executed + (if fate.executes then [Execution(attempt, transport.speaks, fate.reply)] else [])
                  && (fate.reply.Answer? ==> fate.executes))
            && (fate.Handled? && served && fate.executes && fate.reply != Failure(VersionNotServed) ==> t.Some?)
            && (fate.Lost? && t.Some? ==>
                  && t.value.calls[id].pc == Replied(attempt, transport, got, Failure(fate.kind)) && fate.kind != VersionNotServed
                  && t.value.calls[id].executed == s.calls[id].executed)
  {
    RefusedIffNotServed(s.calls[id].pc.transport, Current(s));
    assert s.calls[id].executed + [] == s.calls[id].executed;
  }

  // ---------- The retry can be made ----------

  /** What a refused call does next when nothing else moves: handshake, swap under the lock, send again. */
  function Retry(id: nat): seq<Step> {
    [Handle(id, false), HandshakeAnswered(id, None), Lock(id), Assign(id), Assign(id), Assign(id), Unlock(id), Send(id)]
  }

  lemma RunCons(s: State, steps: seq<Step>)
    requires steps != [] && Next(s, steps[0]).Some?
    ensures Run(s, steps) == Run(Next(s, steps[0]).value, steps[1..])
  {
  }

  predicate At(s: State, id: nat, pc: Pc) { id in s.calls && s.calls[id].pc == pc }

  lemma RenegotiationSteps(s: State, id: nat)
    requires s.served != [] && id in s.calls && s.calls[id].pc.Replied?
    requires s.calls[id].pc.attempt == 1 && s.calls[id].pc.reply == Failure(VersionNotServed) && Select(Current(s)).Ok?
    ensures var s1 := Next(s, Handle(id, false));
            && s1.Some?
            && var s2 := Next(s1.value, HandshakeAnswered(id, None));
               && s2.Some? && At(s2.value, id, Negotiated(Select(Current(s)).value))
               && s2.value.lock == s.lock && s2.value.served == s.served && s2.value.session == s.session
  {
    var s1 := Next(s, Handle(id, false)).value;
    assert At(s1, id, Handshaking) && s1.served == s.served;
  }

  lemma AssignStep(s: State, id: nat, status: ServiceStatus, n: nat)
    requires s.served != [] && At(s, id, Swapping(status, n)) && n < 3
    ensures var t := Next(s, Assign(id));
            && t.Some? && At(t.value, id, Swapping(status, n + 1)) && t.value.served == s.served && t.value.lock == s.lock
            && t.value.session == (if n == 0 then s.session.(version := status.version)
                                   else if n == 1 then s.session.(date := status.date)
                                   else s.session.(transport := Transport(status.version)))
  {
  }

  lemma LockStep(s: State, id: nat, status: ServiceStatus)
    requires s.served != [] && At(s, id, Negotiated(status)) && s.lock.None?
    ensures var t := Next(s, Lock(id)); t.Some? && At(t.value, id, Swapping(status, 0)) && t.value.served == s.served
  {
  }

  lemma UnlockAndSend(s: State, id: nat, status: ServiceStatus)
    requires s.served != [] && At(s, id, Swapping(status, 3))
    ensures var t := Next(s, Unlock(id));
            && t.Some?
            && var u := Next(t.value, Send(id));
               && u.Some? && At(u.value, id, InFlight(2, Transport(status.version), []))
               && u.value.session == s.session && u.value.lock.None?
  {
    var t := Next(s, Unlock(id)).value;
    assert At(t, id, Ready(2, Transport(status.version), []));
  }

  /** Whenever a first attempt has been refused and the lock is free, a service whose current list shares a
      version with this build gets the operation again, on the version selected, which the session
      then stores. */
  lemma RefusedCallRetries(s: State, id: nat)
    requires s.served != [] && s.lock.None? && id in s.calls && s.calls[id].pc.Replied?
    requires s.calls[id].pc.attempt == 1 && s.calls[id].pc.reply == Failure(VersionNotServed)
    requires Select(Current(s)).Ok?
    ensures var t := Run(s, Retry(id));
            var status := Select(Current(s)).value;
            && t.Some? && t.value.lock.None?
            && At(t.value, id, InFlight(2, Transport(status.version), []))
            && t.value.session == SessionState(status.version, status.date, Transport(status.version))
  {
    var status := Select(Current(s)).value;
    RenegotiationSteps(s, id);
    var s1 := Next(s, Handle(id, false)).value;
    var s2 := Next(s1, HandshakeAnswered(id, None)).value;
    LockStep(s2, id, status);
    var s3 := Next(s2, Lock(id)).value;
    AssignStep(s3, id, status, 0);
    var s4 := Next(s3, Assign(id)).value;
    AssignStep(s4, id, status, 1);
    var s5 := Next(s4, Assign(id)).value;
    AssignStep(s5, id, status, 2);
    var s6 := Next(s5, Assign(id)).value;
    UnlockAndSend(s6, id, status);
    var s7 := Next(s6, Unlock(id)).value;
    var s8 := Next(s7, Send(id)).value;
    RunRetry(s, id, s1, s2, s3, s4, s5, s6, s7, s8);
  }

  lemma RunRetry(s: State, id: nat, s1: State, s2: State, s3: State, s4: State, s5: State, s6: State, s7: State, s8: State)
    requires Next(s, Handle(id, false)) == Some(s1) && Next(s1, HandshakeAnswered(id, None)) == Some(s2)
    requires Next(s2, Lock(id)) == Some(s3) && Next(s3, Assign(id)) == Some(s4) && Next(s4, Assign(id)) == Some(s5)
    requires Next(s5, Assign(id)) == Some(s6) && Next(s6, Unlock(id)) == Some(s7) && Next(s7, Send(id)) == Some(s8)
    ensures Run(s, Retry(id)) == Some(s8)
  {
    var steps := Retry(id);
    RunCons(s, steps);
    RunCons(s1, steps[1..]);
    RunCons(s2, steps[1..][1..]);
    RunCons(s3, steps[1..][1..][1..]);
    RunCons(s4, steps[1..][1..][1..][1..]);
    RunCons(s5, steps[1..][1..][1..][1..][1..]);
    RunCons(s6, steps[1..][1..][1..][1..][1..][1..]);
    RunCons(s7, steps[1..][1..][1..][1..][1..][1..][1..]);
  }
}
