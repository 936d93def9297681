/** Reading ordered configuration layers: `LayerReader::{read, fetch}` over a fixed store, and the
    merge loop of the CLI's `render`. */
module Layers {
  import opened Text
  import opened Paths
  import opened Values
  import opened Versions

  /** What the service answers for a fixed store; tokens are dealt with elsewhere. */
  datatype Store = Store(subtree: ConfigPath -> Result<seq<SubTreeValue>>, secretAt: ConfigPath -> Result<string>)

  datatype OnMissing = Skip | Fail
  datatype Naming = Folded | AsStored
  datatype Reader = Reader(onMissing: OnMissing, naming: Naming)

  datatype Binding = Binding(name: string, text: string)

  /** `Naming::apply`. */
  function NameAs(naming: Naming, name: string): string {
    match naming
    case Folded => Fold(name)
    case AsStored => name
  }

  // ---------- One layer ----------

  /** What one listed value contributes: nothing, one binding, or a failure. */
  function Contribution(store: Store, reader: Reader, layer: ConfigPath, v: SubTreeValue): Result<seq<Binding>> {
    match DirectChildName(layer, v.path)
    case None => Ok([])
    case Some(child) =>
      var name := NameAs(reader.naming, child);
      match v.content
      case Plain(text) => Ok([Binding(name, text)])
      case Secret =>
        match store.secretAt(v.path)
        case Ok(text) => Ok([Binding(name, text)])
        case Err(kind) => if reader.onMissing == Skip && kind == NotFound then Ok([]) else Err(kind)
  }

  function Collect(store: Store, reader: Reader, layer: ConfigPath, values: seq<SubTreeValue>): Result<seq<Binding>> {
    if values == [] then Ok([]) else
      match Contribution(store, reader, layer, values[0])
      case Err(kind) => Err(kind)
      case Ok(here) =>
        match Collect(store, reader, layer, values[1..])
        case Err(kind) => Err(kind)
        case Ok(rest) => Ok(here + rest)
  }

  /** The service refused the layer itself, in a way the policy may skip. */
  predicate Unreadable(store: Store, layer: ConfigPath) {
    store.subtree(layer) == Err(PermissionDenied) || store.subtree(layer) == Err(NotFound)
  }

  function Read(store: Store, reader: Reader, layer: ConfigPath): Result<seq<Binding>> {
    match store.subtree(layer)
    case Ok(values) => Collect(store, reader, layer, values)
    case Err(kind) => if reader.onMissing == Skip && Unreadable(store, layer) then Ok([]) else Err(kind)
  }

  function Then(done: seq<Binding>, rest: Result<seq<Binding>>): Result<seq<Binding>> {
    if rest.Err? then rest else Ok(done + rest.value)
  }

  lemma CollectNext(store: Store, reader: Reader, layer: ConfigPath, done: seq<Binding>, values: seq<SubTreeValue>, i: nat)
    requires i < |values|
    ensures Then(done, Collect(store, reader, layer, values[i..])) ==
            match Contribution(store, reader, layer, values[i])
            case Err(kind) => Err(kind)
            case Ok(here) => Then(done + here, Collect(store, reader, layer, values[i + 1..]))
  {
    assert values[i..][0] == values[i] && values[i..][1..] == values[i + 1..];
    var here, rest := Contribution(store, reader, layer, values[i]), Collect(store, reader, layer, values[i + 1..]);
    if here.Ok? && rest.Ok? { assert done + (here.value + rest.value) == (done + here.value) + rest.value; }
  }

  lemma CollectEnds(store: Store, reader: Reader, layer: ConfigPath, done: seq<Binding>, values: seq<SubTreeValue>)
    ensures Then([], Collect(store, reader, layer, values[0..])) == Collect(store, reader, layer, values)
    ensures Then(done, Collect(store, reader, layer, values[|values|..])) == Ok(done)
  {
    var all := Collect(store, reader, layer, values);
    assert values[0..] == values && values[|values|..] == [];
    if all.Ok? { assert [] + all.value == all.value; }
    assert done + [] == done;
  }

  /** `LayerReader::read`. */
  method ReadLayer(store: Store, reader: Reader, layer: ConfigPath) returns (r: Result<seq<Binding>>)
    ensures r == Read(store, reader, layer)
  {
    var skipping := reader.onMissing == Skip;
    var subtree := store.subtree(layer);
    if subtree.Err? {
      if skipping && subtree.kind == PermissionDenied { return Ok([]); }
      if skipping && subtree.kind == NotFound { return Ok([]); }
      return Err(subtree.kind);
    }
    r := ReadListed(store, reader, layer, subtree.value);
  }

  /** The loop of `read`, over what the layer lists. */
  method ReadListed(store: Store, reader: Reader, layer: ConfigPath, listed: seq<SubTreeValue>) returns (r: Result<seq<Binding>>)
    ensures r == Collect(store, reader, layer, listed)
  {
    var values: seq<Binding> := [];
    CollectEnds(store, reader, layer, values, listed);
    for i := 0 to |listed|
      invariant Collect(store, reader, layer, listed) == Then(values, Collect(store, reader, layer, listed[i..]))
    {
      CollectNext(store, reader, layer, values, listed, i);
      assert values + [] == values;
      var child := DirectChildName(layer, listed[i].path);
      if child.None? { continue; }
      var name := NameAs(reader.naming, child.value);
      var text: string;
      match listed[i].content {
        case Plain(plain) => text := plain;
        case Secret =>
          var revealed := store.secretAt(listed[i].path);
          if revealed.Err? {
            if reader.onMissing == Skip && revealed.kind == NotFound { continue; }
            return Err(revealed.kind);
          }
          text := revealed.value;
      }
      values := values + [Binding(name, text)];
    }
    CollectEnds(store, reader, layer, values, listed);
    return Ok(values);
  }

  /** The path is the layer joined with one more segment, up to letter case. */
  predicate IsChildOf(layer: ConfigPath, path: ConfigPath) {
    var name := Name(path);
    name.Some? && ValidSegment(name.value) && Fold(path) == Fold(JoinName(layer, name.value).value)
  }

  lemma ChildNamesAreOwnNames(layer: ConfigPath, path: ConfigPath)
    ensures DirectChildName(layer, path) == if IsChildOf(layer, path) then Name(path) else None
  {
    var child := DirectChildName(layer, path);
    if child.Some? { DirectChildNameIsJoin(layer, path, child.value); }
    if IsChildOf(layer, path) { DirectChildNameIsJoin(layer, path, Name(path).value); }
  }

  /** What the value reads as: its text, or what revealing it answers. */
  function Reading(store: Store, v: SubTreeValue): Result<string> {
    match v.content
    case Plain(text) => Ok(text)
    case Secret => store.secretAt(v.path)
  }

  /** A value is bound exactly when it is the layer joined with one more segment, up to case, and
      its text is had; it fails the layer exactly when it is such a child and its reveal fails in
      a way the policy does not skip; otherwise it contributes nothing. */
  lemma ContributionIsDirectChild(store: Store, reader: Reader, layer: ConfigPath, v: SubTreeValue)
    ensures var r := Contribution(store, reader, layer, v);
            var reading := Reading(store, v);
            var skipped := reader.onMissing == Skip && reading == Err(NotFound);
            && (IsChildOf(layer, v.path) && reading.Ok? ==>
                  r == Ok([Binding(NameAs(reader.naming, Name(v.path).value), reading.value)]))
            && (IsChildOf(layer, v.path) && reading.Err? && !skipped ==> r == Err(reading.kind))
            && (!IsChildOf(layer, v.path) || skipped ==> r == Ok([]))
  {
    ChildNamesAreOwnNames(layer, v.path);
  }

  /** The name a child is bound to: its last segment as stored, or that segment without capitals. */
  lemma NamesAreAsAsked(name: string)
    ensures NameAs(AsStored, name) == name
    ensures |NameAs(Folded, name)| == |name|
    ensures forall i :: 0 <= i < |name| ==>
              SameLetter(name[i], NameAs(Folded, name)[i]) && !('A' <= NameAs(Folded, name)[i] <= 'Z')
  {
    FoldIsLowercase(name, Fold(name));
  }

  /** A listing the service refuses: passed over when skipping exactly if denied or not found, and the
      layer's failure in every other case. */
  lemma RefusedListings(store: Store, reader: Reader, layer: ConfigPath)
    requires store.subtree(layer).Err?
    ensures var kind := store.subtree(layer).kind;
            Read(store, reader, layer) ==
            if reader.onMissing == Skip && (kind == PermissionDenied || kind == NotFound) then Ok([]) else Err(kind)
    ensures Unreadable(store, layer) <==> Read(store, Reader(Skip, reader.naming), layer).Ok?
  {
  }

  // ---------- Merging layers ----------

  function Overlay(merged: map<string, string>, bindings: seq<Binding>): map<string, string>
    decreases bindings
  {
    if bindings == [] then merged else Overlay(merged[bindings[0].name := bindings[0].text], bindings[1..])
  }

  function FetchFrom(store: Store, reader: Reader, layers: seq<ConfigPath>, merged: map<string, string>): Result<map<string, string>>
    decreases layers
  {
    if layers == [] then Ok(merged) else
      match Read(store, reader, layers[0])
      case Err(kind) => Err(kind)
      case Ok(bindings) => FetchFrom(store, reader, layers[1..], Overlay(merged, bindings))
  }

  function Fetch(store: Store, reader: Reader, layers: seq<ConfigPath>): Result<map<string, string>> {
    FetchFrom(store, reader, layers, map[])
  }

  /** `LayerReader::fetch`. */
  method FetchLayers(store: Store, reader: Reader, layers: seq<ConfigPath>) returns (r: Result<map<string, string>>)
    ensures r == Fetch(store, reader, layers)
  {
    var merged: map<string, string> := map[];
    for i := 0 to |layers|
      invariant Fetch(store, reader, layers) == FetchFrom(store, reader, layers[i..], merged)
    {
      assert layers[i..][0] == layers[i] && layers[i..][1..] == layers[i + 1..];
      var read := ReadLayer(store, reader, layers[i]);
      if read.Err? { return Err(read.kind); }
      ghost var before := merged;
      for k := 0 to |read.value|
        invariant Overlay(before, read.value) == Overlay(merged, read.value[k..])
      {
        assert read.value[k..][0] == read.value[k] && read.value[k..][1..] == read.value[k + 1..];
        merged := merged[read.value[k].name := read.value[k].text];
      }
      assert read.value[|read.value|..] == [];
    }
    assert layers[|layers|..] == [];
    return Ok(merged);
  }

  /** The text a list of bindings ends up giving a name. */
  function LastText(bindings: seq<Binding>, name: string): Option<string> {
    if bindings == [] then None
    else if bindings[|bindings| - 1].name == name then Some(bindings[|bindings| - 1].text)
    else LastText(bindings[..|bindings| - 1], name)
  }

  /** The text of the last listed value that is a direct child under the name and can be read. */
  function LastChild(store: Store, naming: Naming, layer: ConfigPath, values: seq<SubTreeValue>, name: string): Option<string> {
    if values == [] then None else
      var v := values[|values| - 1];
      if IsChildOf(layer, v.path) && NameAs(naming, Name(v.path).value) == name && Reading(store, v).Ok?
      then Some(Reading(store, v).value)
      else LastChild(store, naming, layer, values[..|values| - 1], name)
  }

  /** The text in the last layer whose listing holds the name at all. */
  function LastHolder(store: Store, naming: Naming, layers: seq<ConfigPath>, name: string): Option<string> {
    if layers == [] then None else
      var last, before := layers[|layers| - 1], layers[..|layers| - 1];
      var listing := store.subtree(last);
      var here := if listing.Ok? then LastChild(store, naming, last, listing.value, name) else None;
      if here.Some? then here else LastHolder(store, naming, before, name)
  }

  lemma {:induction false} CollectSnoc(store: Store, reader: Reader, layer: ConfigPath, values: seq<SubTreeValue>, v: SubTreeValue)
    ensures Collect(store, reader, layer, values + [v]) ==
            if Collect(store, reader, layer, values).Err? then Collect(store, reader, layer, values)
            else Then(Collect(store, reader, layer, values).value, Contribution(store, reader, layer, v))
  {
    if values == [] {
      assert values + [v] == [v] && [v][1..] == [];
      var here := Contribution(store, reader, layer, v);
      if here.Ok? { assert here.value + [] == [] + here.value; }
    } else {
      assert (values + [v])[1..] == values[1..] + [v];
      CollectSnoc(store, reader, layer, values[1..], v);
      var here, rest, last := Contribution(store, reader, layer, values[0]), Collect(store, reader, layer, values[1..]),
          Contribution(store, reader, layer, v);
      if here.Ok? && rest.Ok? && last.Ok? {
        assert here.value + (rest.value + last.value) == (here.value + rest.value) + last.value;
      }
    }
  }

  lemma LastTextSnoc(a: seq<Binding>, b: Binding, name: string)
    ensures LastText(a + [b], name) == if b.name == name then Some(b.text) else LastText(a, name)
  {
    assert (a + [b])[..|a|] == a;
  }

  lemma {:induction false} CollectedText(store: Store, reader: Reader, layer: ConfigPath, values: seq<SubTreeValue>, name: string)
    requires Collect(store, reader, layer, values).Ok?
    ensures LastText(Collect(store, reader, layer, values).value, name) == LastChild(store, reader.naming, layer, values, name)
  {
    if values != [] {
      var init, v := values[..|values| - 1], values[|values| - 1];
      assert values == init + [v];
      CollectSnoc(store, reader, layer, init, v);
      CollectedText(store, reader, layer, init, name);
      ContributionIsDirectChild(store, reader, layer, v);
      var before := Collect(store, reader, layer, init).value;
      if IsChildOf(layer, v.path) && Reading(store, v).Ok? {
        LastTextSnoc(before, Binding(NameAs(reader.naming, Name(v.path).value), Reading(store, v).value), name);
      } else {
        assert before + [] == before;
      }
    }
  }

  function At(m: map<string, string>, name: string): Option<string> { if name in m then Some(m[name]) else None }

  lemma OverlaySnoc(merged: map<string, string>, bindings: seq<Binding>, b: Binding)
    ensures Overlay(merged, bindings + [b]) == Overlay(merged, bindings)[b.name := b.text]
    decreases bindings
  {
    if bindings == [] {
      assert [b][1..] == [];
      assert bindings + [b] == [b];
    } else {
      assert (bindings + [b])[1..] == bindings[1..] + [b];
      OverlaySnoc(merged[bindings[0].name := bindings[0].text], bindings[1..], b);
    }
  }

  lemma {:induction false} OverlayAt(merged: map<string, string>, bindings: seq<Binding>, name: string)
    ensures At(Overlay(merged, bindings), name) ==
            if LastText(bindings, name).Some? then LastText(bindings, name) else At(merged, name)
  {
    if bindings != [] {
      var init, b := bindings[..|bindings| - 1], bindings[|bindings| - 1];
      assert bindings == init + [b];
      OverlaySnoc(merged, init, b);
      OverlayAt(merged, init, name);
    }
  }

  /** Fetching splits over concatenation: the later layers are read over what the earlier gave. */
  lemma {:induction false} FetchConcat(store: Store, reader: Reader, a: seq<ConfigPath>, b: seq<ConfigPath>, merged: map<string, string>)
    ensures FetchFrom(store, reader, a + b, merged) ==
            match FetchFrom(store, reader, a, merged) case Err(kind) => Err(kind) case Ok(m) => FetchFrom(store, reader, b, m)
    decreases a
  {
    if a == [] {
      assert a + b == b;
    } else {
      assert (a + b)[1..] == a[1..] + b;
      match Read(store, reader, a[0])
      case Err(_) =>
      case Ok(bindings) => FetchConcat(store, reader, a[1..], b, Overlay(merged, bindings));
    }
  }

  /** Each name has its text from the last layer holding it as a direct child. */
  lemma {:induction false} LastLayerWins(store: Store, reader: Reader, layers: seq<ConfigPath>, name: string)
    requires Fetch(store, reader, layers).Ok?
    ensures At(Fetch(store, reader, layers).value, name) == LastHolder(store, reader.naming, layers, name)
  {
    if layers != [] {
      var init, last := layers[..|layers| - 1], layers[|layers| - 1];
      assert layers == init + [last];
      FetchConcat(store, reader, init, [last], map[]);
      LastLayerWins(store, reader, init, name);
      var m := Fetch(store, reader, init).value;
      assert [last][1..] == [];
      var bindings := Read(store, reader, last).value;
      assert FetchFrom(store, reader, [last], m) == FetchFrom(store, reader, [], Overlay(m, bindings));
      OverlayAt(m, bindings, name);
      if store.subtree(last).Ok? { CollectedText(store, reader, last, store.subtree(last).value, name); }
    }
  }

  lemma {:induction false} OverlayIsUnion(merged: map<string, string>, bindings: seq<Binding>)
    ensures Overlay(merged, bindings) == merged + Overlay(map[], bindings)
  {
    var m := Overlay(merged, bindings);
    var n := merged + Overlay(map[], bindings);
    forall name ensures At(m, name) == At(n, name) {
      OverlayAt(merged, bindings, name);
      OverlayAt(map[], bindings, name);
    }
    assert m.Keys == n.Keys by {
      forall name ensures name in m <==> name in n { assert At(m, name) == At(n, name); }
    }
    forall name | name in m ensures m[name] == n[name] { assert At(m, name) == At(n, name); }
  }

  lemma {:induction false} FetchFromIsUnion(store: Store, reader: Reader, layers: seq<ConfigPath>, merged: map<string, string>)
    ensures FetchFrom(store, reader, layers, merged) ==
            match Fetch(store, reader, layers) case Err(kind) => Err(kind) case Ok(m) => Ok(merged + m)
    decreases layers
  {
    if layers == [] {
      assert merged + map[] == merged;
    } else {
      match Read(store, reader, layers[0])
      case Err(_) =>
      case Ok(bindings) =>
        var first := Overlay(map[], bindings);
        FetchFromIsUnion(store, reader, layers[1..], Overlay(merged, bindings));
        FetchFromIsUnion(store, reader, layers[1..], first);
        OverlayIsUnion(merged, bindings);
        var rest := Fetch(store, reader, layers[1..]);
        if rest.Ok? { assert (merged + first) + rest.value == merged + (first + rest.value); }
    }
  }

  /** Two lists of layers, one after the other: the second's result overrides the first's. */
  lemma FetchSplits(store: Store, reader: Reader, a: seq<ConfigPath>, b: seq<ConfigPath>)
    ensures Fetch(store, reader, a + b) ==
            if Fetch(store, reader, a).Err? then Fetch(store, reader, a)
            else if Fetch(store, reader, b).Err? then Fetch(store, reader, b)
            else Ok(Fetch(store, reader, a).value + Fetch(store, reader, b).value)
  {
    FetchConcat(store, reader, a, b, map[]);
    if Fetch(store, reader, a).Ok? { FetchFromIsUnion(store, reader, b, Fetch(store, reader, a).value); }
  }

  // ---------- Policies ----------

  function Readable(store: Store, layers: seq<ConfigPath>): seq<ConfigPath> {
    if layers == [] then []
    else (if Unreadable(store, layers[0]) then [] else [layers[0]]) + Readable(store, layers[1..])
  }

  /** Skipping is exactly leaving the unreadable layers out. */
  lemma {:induction false} SkipIsReadableOnly(store: Store, naming: Naming, layers: seq<ConfigPath>, merged: map<string, string>)
    ensures FetchFrom(store, Reader(Skip, naming), layers, merged) ==
            FetchFrom(store, Reader(Skip, naming), Readable(store, layers), merged)
    decreases layers
  {
    var reader := Reader(Skip, naming);
    if layers != [] {
      if Unreadable(store, layers[0]) {
        assert Readable(store, layers) == Readable(store, layers[1..]);
        SkipIsReadableOnly(store, naming, layers[1..], merged);
      } else {
        assert Readable(store, layers)[1..] == Readable(store, layers[1..]);
        match Read(store, reader, layers[0])
        case Err(_) =>
        case Ok(bindings) => SkipIsReadableOnly(store, naming, layers[1..], Overlay(merged, bindings));
      }
    }
  }

  /** What a scan of listed values, or of layers, meets first: nothing that fails, a secret gone by the
      time it is revealed, or any other failure. */
  datatype Scan = Clean | Race | OtherFailure

  /** A direct-child secret whose reveal fails in this way. */
  predicate FailsAs(store: Store, layer: ConfigPath, v: SubTreeValue, kind: ErrorKind) {
    v.content.Secret? && IsChildOf(layer, v.path) && store.secretAt(v.path) == Err(kind)
  }

  function ScanValue(store: Store, layer: ConfigPath, v: SubTreeValue): Scan {
    if FailsAs(store, layer, v, NotFound) then Race
    else if v.content.Secret? && IsChildOf(layer, v.path) && store.secretAt(v.path).Err? then OtherFailure
    else Clean
  }

  /** The first direct-child secret whose reveal fails decides. */
  function ScanValues(store: Store, layer: ConfigPath, values: seq<SubTreeValue>): Scan {
    if values == [] then Clean else
      var here := ScanValue(store, layer, values[0]);
      if here.Clean? then ScanValues(store, layer, values[1..]) else here
  }

  /** Unreadable layers are passed over; a listing that fails otherwise decides. */
  function ScanLayers(store: Store, layers: seq<ConfigPath>): Scan {
    if layers == [] then Clean
    else if Unreadable(store, layers[0]) then ScanLayers(store, layers[1..])
    else
      var listing := store.subtree(layers[0]);
      if listing.Err? then OtherFailure else
        var here := ScanValues(store, layers[0], listing.value);
        if here.Clean? then ScanLayers(store, layers[1..]) else here
  }

  /** Over the readable layers in order, the first failure is a secret listed and then not found. */
  predicate FirstFailureIsARace(store: Store, layers: seq<ConfigPath>) { ScanLayers(store, layers) == Race }

  /** What two runs under the two policies give, by what the scan meets. */
  ghost predicate Policies<T>(scan: Scan, skip: Result<T>, fail: Result<T>) {
    match scan
    case Clean => skip.Ok? && skip == fail
    case Race => fail == Err(NotFound) && skip != Err(NotFound)
    case OtherFailure => fail.Err? && skip == fail && fail != Err(NotFound)
  }

  /** On one value the policies differ only over a race. */
  lemma PoliciesOnOne(store: Store, naming: Naming, layer: ConfigPath, v: SubTreeValue)
    ensures Policies(ScanValue(store, layer, v), Contribution(store, Reader(Skip, naming), layer, v),
                     Contribution(store, Reader(Fail, naming), layer, v))
    ensures ScanValue(store, layer, v) == Race ==> Contribution(store, Reader(Skip, naming), layer, v) == Ok([])
  {
    ContributionIsDirectChild(store, Reader(Skip, naming), layer, v);
    ContributionIsDirectChild(store, Reader(Fail, naming), layer, v);
  }

  lemma {:induction false} PoliciesCollect(store: Store, naming: Naming, layer: ConfigPath, values: seq<SubTreeValue>)
    ensures Collect(store, Reader(Skip, naming), layer, values) != Err(NotFound)
    ensures Policies(ScanValues(store, layer, values), Collect(store, Reader(Skip, naming), layer, values),
                     Collect(store, Reader(Fail, naming), layer, values))
  {
    if values != [] {
      PoliciesOnOne(store, naming, layer, values[0]);
      PoliciesCollect(store, naming, layer, values[1..]);
    }
  }

  lemma PoliciesRead(store: Store, naming: Naming, layer: ConfigPath)
    requires !Unreadable(store, layer)
    ensures Read(store, Reader(Skip, naming), layer) != Err(NotFound)
    ensures Policies(if store.subtree(layer).Err? then OtherFailure else ScanValues(store, layer, store.subtree(layer).value),
                     Read(store, Reader(Skip, naming), layer), Read(store, Reader(Fail, naming), layer))
  {
    var subtree := store.subtree(layer);
    if subtree.Ok? { PoliciesCollect(store, naming, layer, subtree.value); }
  }

  lemma {:induction false} FetchCons(store: Store, reader: Reader, first: ConfigPath, rest: seq<ConfigPath>, layers: seq<ConfigPath>, merged: map<string, string>)
    requires layers != [] && layers[0] == first && layers[1..] == rest
    ensures FetchFrom(store, reader, layers, merged) ==
            var read := Read(store, reader, first);
            if read.Err? then Err(read.kind) else FetchFrom(store, reader, rest, Overlay(merged, read.value))
  {
  }

  lemma ReadableCons(store: Store, layers: seq<ConfigPath>)
    requires layers != []
    ensures Unreadable(store, layers[0]) ==> Readable(store, layers) == Readable(store, layers[1..])
    ensures !Unreadable(store, layers[0]) ==>
              Readable(store, layers) != [] && Readable(store, layers)[0] == layers[0]
              && Readable(store, layers)[1..] == Readable(store, layers[1..])
  {
  }

  lemma {:induction false} SkipNeverNotFound(store: Store, naming: Naming, layers: seq<ConfigPath>, merged: map<string, string>)
    ensures FetchFrom(store, Reader(Skip, naming), layers, merged) != Err(NotFound)
    decreases layers
  {
    if layers != [] {
      var read := Read(store, Reader(Skip, naming), layers[0]);
      if !Unreadable(store, layers[0]) { PoliciesRead(store, naming, layers[0]); }
      if read.Ok? { SkipNeverNotFound(store, naming, layers[1..], Overlay(merged, read.value)); }
    }
  }

  lemma {:induction false} PoliciesFetch(store: Store, naming: Naming, layers: seq<ConfigPath>, merged: map<string, string>)
    ensures Policies(ScanLayers(store, layers), FetchFrom(store, Reader(Skip, naming), layers, merged),
                     FetchFrom(store, Reader(Fail, naming), Readable(store, layers), merged))
    decreases layers
  {
    SkipNeverNotFound(store, naming, layers, merged);
    if layers != [] {
      ReadableCons(store, layers);
      if Unreadable(store, layers[0]) {
        PoliciesFetch(store, naming, layers[1..], merged);
      } else {
        PoliciesRead(store, naming, layers[0]);
        FetchCons(store, Reader(Skip, naming), layers[0], layers[1..], layers, merged);
        FetchCons(store, Reader(Fail, naming), layers[0], Readable(store, layers[1..]), Readable(store, layers), merged);
        var read := Read(store, Reader(Skip, naming), layers[0]);
        if read.Ok? { PoliciesFetch(store, naming, layers[1..], Overlay(merged, read.value)); }
      }
    }
  }

  /** Skipping all layers is failing over the readable ones if and only if the first failure there, if
      any, is not a race; over a race failing reports not found, which skipping never does. */
  lemma SkipIsFailOnReadable(store: Store, naming: Naming, layers: seq<ConfigPath>, merged: map<string, string>)
    ensures var skip := FetchFrom(store, Reader(Skip, naming), layers, merged);
            var fail := FetchFrom(store, Reader(Fail, naming), Readable(store, layers), merged);
            && (skip == fail <==> !FirstFailureIsARace(store, layers))
            && (FirstFailureIsARace(store, layers) <==> fail == Err(NotFound))
            && skip != Err(NotFound)
  {
    SkipNeverNotFound(store, naming, layers, merged);
    PoliciesFetch(store, naming, layers, merged);
  }

  /** A direct-child secret the layer lists, gone when revealed. */
  predicate RacedIn(store: Store, layer: ConfigPath, v: SubTreeValue) {
    store.subtree(layer).Ok? && v in store.subtree(layer).value && FailsAs(store, layer, v, NotFound)
  }

  lemma {:induction false} RacedValue(store: Store, layer: ConfigPath, values: seq<SubTreeValue>) returns (v: SubTreeValue)
    requires ScanValues(store, layer, values) == Race
    ensures v in values && FailsAs(store, layer, v, NotFound)
  {
    v := values[0];
    if ScanValue(store, layer, v) != Race { v := RacedValue(store, layer, values[1..]); }
  }

  /** So where nothing listed is gone when revealed, the policies agree on the readable layers. */
  lemma {:induction false} RaceIsListed(store: Store, layers: seq<ConfigPath>) returns (layer: ConfigPath, v: SubTreeValue)
    requires FirstFailureIsARace(store, layers)
    ensures layer in layers && !Unreadable(store, layer) && RacedIn(store, layer, v)
  {
    layer := layers[0];
    if !Unreadable(store, layer) && ScanValues(store, layer, store.subtree(layer).value) == Race {
      v := RacedValue(store, layer, store.subtree(layer).value);
    } else {
      layer, v := RaceIsListed(store, layers[1..]);
    }
  }

  /** A store with one secret, listed under every layer and gone when revealed. */
  function RacedStore(path: ConfigPath): Store {
    Store(_ => Ok([SubTreeValue(path, Secret)]), _ => Err(NotFound))
  }

  /** They do differ: one layer, one secret listed directly below it and gone when revealed. */
  lemma RacedSecretSplitsThePolicies(layer: ConfigPath, path: ConfigPath, naming: Naming)
    requires IsChildOf(layer, path)
    ensures Fetch(RacedStore(path), Reader(Skip, naming), [layer]) == Ok(map[])
    ensures Fetch(RacedStore(path), Reader(Fail, naming), [layer]) == Err(NotFound)
    ensures Readable(RacedStore(path), [layer]) == [layer] && FirstFailureIsARace(RacedStore(path), [layer])
  {
    var store, v := RacedStore(path), SubTreeValue(path, Secret);
    PoliciesOnOne(store, naming, layer, v);
    assert [v][1..] == [] && [layer][1..] == [];
    assert Collect(store, Reader(Skip, naming), layer, [v]) == Ok([] + []);
    assert Collect(store, Reader(Fail, naming), layer, [v]) == Err(NotFound);
    FetchCons(store, Reader(Skip, naming), layer, [], [layer], map[]);
    FetchCons(store, Reader(Fail, naming), layer, [], [layer], map[]);
  }

  /** The input: the tree root as the layer and a secret at `/a`. */
  lemma RacedSecretAtA(naming: Naming)
    ensures ValidSegments(["a"])
    ensures var store := RacedStore(PathOf(["a"]));
            Fetch(store, Reader(Skip, naming), ["/"]) == Ok(map[]) && Fetch(store, Reader(Fail, naming), ["/"]) == Err(NotFound)
  {
    assert ValidSegment("a");
    ChildOfRoot("a");
    RacedSecretSplitsThePolicies("/", PathOf(["a"]), naming);
  }

  lemma ChildOfRoot(name: string)
    requires ValidSegment(name)
    ensures ValidSegments([name]) && IsChildOf("/", PathOf([name]))
  {
    var path := PathOf([name]);
    NameIsLastSegment(path);
    SegmentsInjective(path, JoinName("/", name).value);
  }

  // ---------- render ----------

  /** The CLI's outcome: values, a read failure, or the layer that contributed nothing. */
  datatype Rendered = Environment(values: map<string, string>) | ReadFailed(kind: ErrorKind) | EmptyLayer(layer: ConfigPath)

  const RENDER_READER := Reader(Fail, AsStored)

  function RenderFrom(store: Store, layers: seq<ConfigPath>, values: map<string, string>): Rendered
    decreases layers
  {
    if layers == [] then Environment(values) else
      match Read(store, RENDER_READER, layers[0])
      case Err(kind) => ReadFailed(kind)
      case Ok(read) =>
        if read == [] then EmptyLayer(layers[0])
        else RenderFrom(store, layers[1..], Overlay(values, read))
  }

  /** The merge loop of `render`. */
  method RenderLayers(store: Store, layers: seq<ConfigPath>) returns (r: Rendered)
    ensures r == RenderFrom(store, layers, map[])
  {
    var values: map<string, string> := map[];
    for i := 0 to |layers|
      invariant RenderFrom(store, layers, map[]) == RenderFrom(store, layers[i..], values)
    {
      assert layers[i..][0] == layers[i] && layers[i..][1..] == layers[i + 1..];
      var read := ReadLayer(store, RENDER_READER, layers[i]);
      if read.Err? { return ReadFailed(read.kind); }
      if read.value == [] { return EmptyLayer(layers[i]); }
      ghost var before := values;
      for k := 0 to |read.value|
        invariant Overlay(before, read.value) == Overlay(values, read.value[k..])
      {
        assert read.value[k..][0] == read.value[k] && read.value[k..][1..] == read.value[k + 1..];
        values := values[read.value[k].name := read.value[k].text];
      }
      assert read.value[|read.value|..] == [];
    }
    assert layers[|layers|..] == [];
    return Environment(values);
  }

  /** The layer at `i` reads as empty, and every one before it gave something. */
  predicate FirstEmpty(store: Store, layers: seq<ConfigPath>, i: nat) {
    && i < |layers| && Read(store, Reader(Fail, AsStored), layers[i]) == Ok([])
    && forall j :: 0 <= j < i ==> Read(store, Reader(Fail, AsStored), layers[j]).Ok? && Read(store, Reader(Fail, AsStored), layers[j]).value != []
  }

  lemma FirstEmptyLater(store: Store, layers: seq<ConfigPath>, i: nat)
    requires layers != [] && Read(store, Reader(Fail, AsStored), layers[0]).Ok? && Read(store, Reader(Fail, AsStored), layers[0]).value != []
    ensures FirstEmpty(store, layers[1..], i) <==> FirstEmpty(store, layers, i + 1)
  {
    var rest := layers[1..];
    if FirstEmpty(store, layers, i + 1) {
      assert forall j :: 0 <= j < |rest| ==> rest[j] == layers[j + 1];
    }
    if FirstEmpty(store, rest, i) {
      forall j | 0 <= j < i + 1 ensures Read(store, Reader(Fail, AsStored), layers[j]).Ok? && Read(store, Reader(Fail, AsStored), layers[j]).value != [] {
        if j > 0 { assert layers[j] == rest[j - 1]; }
      }
    }
  }

  /** `render` differs from `fetch` only in refusing the first layer that reads as empty, and only
      when every layer before it gave something; otherwise it gives the same map or failure. */
  lemma {:induction false} RenderAgreesWithFetch(store: Store, layers: seq<ConfigPath>, values: map<string, string>)
    ensures var r := RenderFrom(store, layers, values);
            var f := FetchFrom(store, Reader(Fail, AsStored), layers, values);
            && (r.EmptyLayer? <==> exists i: nat :: FirstEmpty(store, layers, i))
            && (r.EmptyLayer? ==> exists i: nat :: FirstEmpty(store, layers, i) && layers[i] == r.layer)
            && (r.Environment? ==> f == Ok(r.values))
            && (r.ReadFailed? ==> f == Err(r.kind))
    decreases layers
  {
    if layers != [] {
      match Read(store, Reader(Fail, AsStored), layers[0])
      case Err(_) =>
      case Ok(read) =>
        if read == [] {
          assert FirstEmpty(store, layers, 0);
        } else {
          RenderAgreesWithFetch(store, layers[1..], Overlay(values, read));
          EmptyIsLater(store, layers);
        }
    }
  }

  lemma EmptyIsLater(store: Store, layers: seq<ConfigPath>)
    requires layers != [] && Read(store, Reader(Fail, AsStored), layers[0]).Ok? && Read(store, Reader(Fail, AsStored), layers[0]).value != []
    ensures forall i: nat :: FirstEmpty(store, layers[1..], i) ==> FirstEmpty(store, layers, i + 1) && layers[i + 1] == layers[1..][i]
    ensures forall i: nat :: FirstEmpty(store, layers, i) ==> i > 0 && FirstEmpty(store, layers[1..], i - 1)
  {
    forall i: nat | FirstEmpty(store, layers[1..], i) ensures FirstEmpty(store, layers, i + 1) && layers[i + 1] == layers[1..][i] {
      FirstEmptyLater(store, layers, i);
    }
    forall i: nat | FirstEmpty(store, layers, i) ensures i > 0 && FirstEmpty(store, layers[1..], i - 1) {
      FirstEmptyLater(store, layers, i - 1);
    }
  }
}
