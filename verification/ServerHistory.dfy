/** Where every request stands, read off the steps of a run and the text of the request alone: what
    the catch-all refuses, what passes unauthenticated, what is challenged, and what each counter
    has counted. */
module ServerHistory {
  import opened Text
  import opened Routes
  import opened ProtocolCounters
  import opened ServerPipeline

  // ---------- Verdicts, by the request's own text ----------

  /** A `POST` calling this version. */
  ghost predicate PostsTo(request: Request, version: string) { request.verb == Post && CallOn(request.path, version) }

  ghost predicate PostsToUnserved(request: Request, labels: seq<string>) {
    exists version :: PostsTo(request, version) && version !in labels
  }

  /** A `POST` inside the namespace that is neither an unversioned call nor a call on a served version. */
  ghost predicate PostsToNothingServed(request: Request, labels: seq<string>) {
    && request.verb == Post && "/sovereign.config." <= request.path && !UnversionedCallOn(request.path)
    && forall i :: 0 <= i < |labels| ==> !CallOn(request.path, labels[i])
  }

  predicate TelemetryRoute(path: string) { path == "/v1" || (|path| >= 4 && path[..4] == "/v1/") }

  /** Served without a token: a page request, or an operational route under any verb. */
  ghost predicate Open(request: Request, labels: seq<string>) {
    request.verb == Get || request.verb == Head || OperationalRoute(request.path, labels)
  }

  ghost function GateVerdict(request: Request, labels: seq<string>): Stage {
    if TelemetryRoute(request.path) then NotFound else if Open(request, labels) then Exempt else Challenged
  }

  /** Where a request stands after the steps. */
  ghost function Standing(steps: seq<Step>, id: nat, request: Request, labels: seq<string>): Stage {
    if CountAuthenticated(id) in steps then Counted
    else if Authenticate(id, true) in steps then Accepted
    else if Authenticate(id, false) in steps then Rejected
    else if Gate(id) in steps then GateVerdict(request, labels)
    else if CatchAll(id) in steps then (if PostsToUnserved(request, labels) then NotServed else PastCatchAll)
    else if VersionLayer(id) in steps then Tagged
    else Arrived
  }

  /** Each layer is reached only through the ones outside it, and each passes on only what it should. */
  ghost predicate InOrder(steps: seq<Step>, id: nat, request: Request, labels: seq<string>) {
    && (CountAuthenticated(id) in steps ==> Authenticate(id, true) in steps)
    && !(Authenticate(id, true) in steps && Authenticate(id, false) in steps)
    && (Authenticate(id, true) in steps || Authenticate(id, false) in steps ==>
          Gate(id) in steps && GateVerdict(request, labels) == Challenged)
    && (Gate(id) in steps ==> CatchAll(id) in steps && !PostsToUnserved(request, labels))
    && (CatchAll(id) in steps ==> VersionLayer(id) in steps)
  }

  // ---------- The tests of the code are those verdicts ----------

  lemma RefusedIsUnserved(request: Request, labels: seq<string>)
    ensures CatchAllRefuses(request.verb, request.path, labels) <==> PostsToUnserved(request, labels)
  {
    CatchAllIsUnservedVersion(request.verb, request.path, labels);
    if version :| CallOn(request.path, version) && version !in labels {
      assert request.verb == Post ==> PostsTo(request, version);
    }
  }

  lemma GateIsVerdict(request: Request, labels: seq<string>)
    ensures GateVerdict(request, labels) ==
            if IsClientTelemetryPath(request.path) then NotFound
            else if IsWebAssetRequest(request.verb, request.path, labels) || IsOperationalRpc(request.path, labels) then Exempt
            else Challenged
  {
    OperationalIsByText(request.path, labels);
    TelemetryByText(request.path);
  }

  lemma TelemetryByText(path: string)
    ensures IsClientTelemetryPath(path) <==> TelemetryRoute(path)
  {
    if "/v1/" <= path { assert path[..4] == "/v1/"; }
  }

  /** The label a request is counted under, or none: exactly the version it calls, if served. */
  lemma TagIsByText(request: Request, labels: seq<string>, name: string)
    requires Labels(labels)
    ensures Tag(request, labels) == Some(Some(name)) <==> name in labels && PostsTo(request, name)
    ensures Tag(request, labels) == Some(None) <==> PostsToNothingServed(request, labels)
  {
    ClassifyEveryPath(request.path);
    ClassifyExactly(request.path, name);
    if request.verb == Post && Classify(request.path).Some? && Classify(request.path).value.Versioned? {
      ClassifyExactly(request.path, Classify(request.path).value.version);
    }
    forall i | 0 <= i < |labels|
      ensures CallOn(request.path, labels[i]) <==> Classify(request.path) == Some(Versioned(labels[i]))
    {
      ClassifyExactly(request.path, labels[i]);
    }
  }

  // ---------- Over every run ----------

  ghost predicate Stands(steps: seq<Step>, s: State, id: nat, labels: seq<string>) {
    if id !in s.requests then
      && (forall request :: Arrive(id, request) !in steps)
      && VersionLayer(id) !in steps && CatchAll(id) !in steps && Gate(id) !in steps
      && Authenticate(id, true) !in steps && Authenticate(id, false) !in steps && CountAuthenticated(id) !in steps
    else
      var p := s.requests[id];
      && Arrive(id, p.request) in steps
      && (forall request :: Arrive(id, request) in steps ==> request == p.request)
      && InOrder(steps, id, p.request, labels)
      && p.stage == Standing(steps, id, p.request, labels)
  }

  lemma {:induction false} RunSnoc(s: State, steps: seq<Step>, step: Step, labels: seq<string>)
    ensures Run(s, steps + [step], labels) ==
            match Run(s, steps, labels) case None => None case Some(t) => Next(t, step, labels)
    decreases steps
  {
    if steps == [] {
      assert steps + [step] == [step] && [step][1..] == [];
      if Next(s, step, labels).Some? { assert Run(Next(s, step, labels).value, [], labels) == Some(Next(s, step, labels).value); }
    } else {
      assert (steps + [step])[1..] == steps[1..] + [step];
      match Next(s, steps[0], labels)
      case None =>
      case Some(t) => RunSnoc(t, steps[1..], step, labels);
    }
  }

  lemma InSnoc(steps: seq<Step>, step: Step)
    ensures forall x :: x in steps + [step] <==> x in steps || x == step
  {
  }

  lemma OthersStand(steps: seq<Step>, s: State, step: Step, id: nat, labels: seq<string>)
    requires Stands(steps, s, id, labels) && Next(s, step, labels).Some? && step.id != id
    ensures Stands(steps + [step], Next(s, step, labels).value, id, labels)
  {
    InSnoc(steps, step);
  }

  lemma ArrivalStands(steps: seq<Step>, s: State, id: nat, request: Request, labels: seq<string>)
    requires Stands(steps, s, id, labels) && id !in s.requests
    ensures Stands(steps + [Arrive(id, request)], Next(s, Arrive(id, request), labels).value, id, labels)
  {
    InSnoc(steps, Arrive(id, request));
  }

  lemma MoverStands(steps: seq<Step>, s: State, step: Step, labels: seq<string>)
    requires Stands(steps, s, step.id, labels) && Next(s, step, labels).Some? && !step.Arrive?
    ensures Stands(steps + [step], Next(s, step, labels).value, step.id, labels)
  {
    InSnoc(steps, step);
    var request := s.requests[step.id].request;
    RefusedIsUnserved(request, labels);
    GateIsVerdict(request, labels);
  }

  lemma {:induction false} EveryRequestStands(steps: seq<Step>, labels: seq<string>, id: nat)
    requires Run(Initial(labels), steps, labels).Some?
    ensures Stands(steps, Run(Initial(labels), steps, labels).value, id, labels)
  {
    if steps != [] {
      var init, last := steps[..|steps| - 1], steps[|steps| - 1];
      assert steps == init + [last];
      RunSnoc(Initial(labels), init, last, labels);
      EveryRequestStands(init, labels, id);
      var s := Run(Initial(labels), init, labels).value;
      if last.id != id {
        OthersStand(init, s, last, id, labels);
      } else if last.Arrive? {
        ArrivalStands(init, s, id, last.request, labels);
      } else {
        MoverStands(init, s, last, labels);
      }
    }
  }

  /** In every run, for every request that arrived: which layers it has passed and what each answered are
      settled by its own text and by the authenticator's answers. In particular nothing reaches the
      inner service but what is open and what the authenticator accepted. */
  lemma RequestsGoWhereTheyShould(steps: seq<Step>, labels: seq<string>, id: nat)
    requires Run(Initial(labels), steps, labels).Some? && id in Run(Initial(labels), steps, labels).value.requests
    ensures var p := Run(Initial(labels), steps, labels).value.requests[id];
            && Arrive(id, p.request) in steps
            && InOrder(steps, id, p.request, labels)
            && p.stage == Standing(steps, id, p.request, labels)
            && (p.stage == Exempt <==> Gate(id) in steps && !TelemetryRoute(p.request.path) && Open(p.request, labels))
            && (p.stage == Counted <==> CountAuthenticated(id) in steps)
            && (p.stage in {Accepted, Counted} <==> Authenticate(id, true) in steps)
            && (p.stage == Rejected <==> Authenticate(id, false) in steps)
  {
    EveryRequestStands(steps, labels, id);
  }

  /** The requests calling a version that the version layer has seen, and those of them let in. */
  ghost function Seen(steps: seq<Step>, s: State, version: string): set<nat> {
    set id | id in s.requests && VersionLayer(id) in steps && PostsTo(s.requests[id].request, version)
  }

  ghost function LetIn(steps: seq<Step>, s: State, version: string): set<nat> {
    set id | id in s.requests && CountAuthenticated(id) in steps && PostsTo(s.requests[id].request, version)
  }

  ghost function SeenOnNothing(steps: seq<Step>, s: State, labels: seq<string>): set<nat> {
    set id | id in s.requests && VersionLayer(id) in steps && PostsToNothingServed(s.requests[id].request, labels)
  }

  lemma SeenByText(steps: seq<Step>, s: State, labels: seq<string>, id: nat, name: string)
    requires ValidLabels(labels) && Run(Initial(labels), steps, labels) == Some(s) && Inv(s, labels) && id in s.requests
    ensures var p := s.requests[id];
            && (p.tag == Some(Some(name)) <==> VersionLayer(id) in steps && name in labels && PostsTo(p.request, name))
            && (p.tag == Some(None) <==> VersionLayer(id) in steps && PostsToNothingServed(p.request, labels))
            && (p.stage == Counted <==> CountAuthenticated(id) in steps)
            && (CountAuthenticated(id) in steps ==> VersionLayer(id) in steps)
  {
    EveryRequestStands(steps, labels, id);
    assert ProgressInv(s.requests[id], labels);
    TagIsByText(s.requests[id].request, labels, name);
  }

  lemma SetsAreByText(steps: seq<Step>, s: State, labels: seq<string>, name: string)
    requires ValidLabels(labels) && Run(Initial(labels), steps, labels) == Some(s) && Inv(s, labels) && name in labels
    ensures TaggedWith(s, name) == Seen(steps, s, name) && AuthenticatedWith(s, name) == LetIn(steps, s, name)
  {
    forall id | id in s.requests
      ensures id in TaggedWith(s, name) <==> id in Seen(steps, s, name)
      ensures id in AuthenticatedWith(s, name) <==> id in LetIn(steps, s, name)
    {
      SeenByText(steps, s, labels, id, name);
    }
  }

  lemma NothingIsByText(steps: seq<Step>, s: State, labels: seq<string>)
    requires ValidLabels(labels) && Run(Initial(labels), steps, labels) == Some(s) && Inv(s, labels)
    ensures Unattributed(s) == SeenOnNothing(steps, s, labels)
  {
    forall id | id in s.requests ensures id in Unattributed(s) <==> id in SeenOnNothing(steps, s, labels) {
      SeenByText(steps, s, labels, id, "");
    }
  }

  /** Each counter counts exactly the requests it is for: per served version the `POST`s calling it that
      the version layer has seen, and of those the ones accepted and counted; and as unrecognised the
      `POST`s in the namespace that are neither unversioned nor on a served version. */
  lemma CountersCountByText(steps: seq<Step>, labels: seq<string>)
    requires ValidLabels(labels) && Run(Initial(labels), steps, labels).Some?
    ensures var s := Run(Initial(labels), steps, labels).value;
            && LabelledBy(s.counters, labels)
            && (forall i :: 0 <= i < |labels| ==>
                  && s.counters.versions[i].attempted == |Seen(steps, s, labels[i])|
                  && s.counters.versions[i].authenticated == |LetIn(steps, s, labels[i])|)
            && s.counters.unrecognised == |SeenOnNothing(steps, s, labels)|
  {
    InitialInv(labels);
    ServerPipeline.RunKeepsInv(Initial(labels), steps, labels);
    var s := Run(Initial(labels), steps, labels).value;
    NothingIsByText(steps, s, labels);
    forall i | 0 <= i < |labels|
      ensures s.counters.versions[i].attempted == |Seen(steps, s, labels[i])|
      ensures s.counters.versions[i].authenticated == |LetIn(steps, s, labels[i])|
    {
      assert Tallied(s, s.counters.versions[i], labels[i]);
      SetsAreByText(steps, s, labels, labels[i]);
    }
  }
}
