/** The provider's `build_tree`: the same nesting written a second time over exact, folded keys and
    real texts. It is proved to be the JSON renderer's tree with keys folded and masks replaced. */
module ProviderTree {
  import opened Text
  import opened Paths
  import opened Sorting
  import opened Values
  import opened JsonTree
  import opened JsonRender
  import opened TreeFolding

  /** Revealed secrets, keyed by path: equality of paths is equality of folds. */
  type Revealed = map<string, string>

  // ---------- `BTreeMap<String, Tree>` and `insert` ----------

  predicate KeysAbove(k: string, ms: Members) {
    ms.Cons? ==> StrLt(k, ms.key) && KeysAbove(k, ms.rest)
  }

  predicate KeyOrdered(ms: Members) {
    ms.Cons? ==> KeysAbove(ms.key, ms.rest) && (ms.node.Obj? ==> KeyOrdered(ms.node.members)) && KeyOrdered(ms.rest)
  }

  function Lookup(ms: Members, key: string): Option<Node> {
    match ms
    case Nil => None
    case Cons(k, n, rest) => if k == key then Some(n) else Lookup(rest, key)
  }

  function Store(ms: Members, key: string, node: Node): Members {
    match ms
    case Nil => Cons(key, node, Nil)
    case Cons(k, n, rest) =>
      if k == key then Cons(k, node, rest)
      else if StrLt(key, k) then Cons(key, node, ms)
      else Cons(k, n, Store(rest, key, node))
  }

  function TreeInsert(ms: Members, segs: seq<string>, text: string): Option<Members> {
    if segs == [] then None else
      match ms
      case Nil => Some(Cons(segs[0], Chain(segs[1..], text), Nil))
      case Cons(k, n, rest) =>
        if StrLt(segs[0], k) then Some(Cons(segs[0], Chain(segs[1..], text), ms))
        else if segs[0] == k then
          if n.Str? || |segs| == 1 then None else
            match TreeInsert(n.members, segs[1..], text)
            case None => None
            case Some(child) => Some(Cons(k, Obj(child), rest))
        else
          match TreeInsert(rest, segs, text)
          case None => None
          case Some(rest') => Some(Cons(k, n, rest'))
  }

  lemma KeysAboveHasNoKey(ms: Members, k: string, key: string)
    requires KeysAbove(k, ms) && (k == key || StrLt(key, k))
    ensures Lookup(ms, key).None?
  {
    if ms.Cons? {
      StrLtTotal(key, ms.key);
      if StrLt(key, k) { StrLtTransitive(key, k, ms.key); }
      KeysAboveHasNoKey(ms.rest, k, key);
    }
  }

  lemma LookupOrdered(ms: Members, key: string)
    requires KeyOrdered(ms) && Lookup(ms, key).Some? && Lookup(ms, key).value.Obj?
    ensures KeyOrdered(Lookup(ms, key).value.members)
  {
  }

  lemma TreeInsertEmpty(segs: seq<string>, text: string)
    requires segs != []
    ensures TreeInsert(Nil, segs, text).Some? && Obj(TreeInsert(Nil, segs, text).value) == Chain(segs, text)
  {
  }

  lemma {:induction false} TreeInsertByLookup(ms: Members, segs: seq<string>, text: string)
    requires KeyOrdered(ms) && segs != []
    ensures |segs| == 1 ==>
              TreeInsert(ms, segs, text) ==
              if Lookup(ms, segs[0]).Some? then None else Some(Store(ms, segs[0], Str(text)))
    ensures |segs| > 1 ==>
              var node := if Lookup(ms, segs[0]).None? then Obj(Nil) else Lookup(ms, segs[0]).value;
              TreeInsert(ms, segs, text) ==
              if node.Str? || TreeInsert(node.members, segs[1..], text).None? then None
              else Some(Store(ms, segs[0], Obj(TreeInsert(node.members, segs[1..], text).value)))
  {
    if |segs| > 1 { TreeInsertEmpty(segs[1..], text); }
    if ms.Cons? {
      StrLtTotal(segs[0], ms.key);
      if StrLt(segs[0], ms.key) {
        KeysAboveHasNoKey(ms.rest, ms.key, segs[0]);
      } else if segs[0] != ms.key {
        TreeInsertByLookup(ms.rest, segs, text);
      }
    }
  }

  /** `insert`. */
  method InsertLeaf(tree: Members, segments: seq<string>, value: string) returns (r: Option<Members>)
    requires KeyOrdered(tree)
    ensures r == TreeInsert(tree, segments, value)
    decreases |segments|
  {
    if segments == [] { return None; }
    var segment, remaining := segments[0], segments[1..];
    TreeInsertByLookup(tree, segments, value);
    var entry := Lookup(tree, segment);
    if remaining == [] {
      if entry.Some? { return None; }
      return Some(Store(tree, segment, Str(value)));
    }
    var node := if entry.None? then Obj(Nil) else entry.value;
    if node.Str? { return None; }
    if entry.Some? { LookupOrdered(tree, segment); }
    var child := InsertLeaf(node.members, remaining, value);
    if child.None? { return None; }
    return Some(Store(tree, segment, Obj(child.value)));
  }

  /** Over folded keys the exact-key insertion is the fold-keyed one. */
  lemma {:induction false} TreeInsertFolds(ms: Members, segs: seq<string>, text: string)
    ensures TreeInsert(FoldKeys(ms), FoldAll(segs), text) ==
            match Insert(ms, segs, text) case None => None case Some(ms') => Some(FoldKeys(ms'))
    decreases ms
  {
    if segs != [] {
      assert FoldAll(segs)[1..] == FoldAll(segs[1..]);
      FoldChain(segs[1..], text);
      if ms.Cons? {
        if Fold(segs[0]) == Fold(ms.key) {
          if ms.node.Obj? { TreeInsertFolds(ms.node.members, segs[1..], text); }
        } else {
          TreeInsertFolds(ms.rest, segs, text);
        }
      }
    }
  }

  lemma FoldChain(segs: seq<string>, text: string)
    ensures FoldNode(Chain(segs, text)) == Chain(FoldAll(segs), text)
  {
    if segs != [] {
      assert FoldAll(segs)[1..] == FoldAll(segs[1..]);
      FoldChain(segs[1..], text);
      assert FoldKeys(Cons(segs[0], Chain(segs[1..], text), Nil)) ==
             Cons(Fold(segs[0]), FoldNode(Chain(segs[1..], text)), FoldKeys(Nil));
    }
  }

  lemma FoldKeysKeyOrdered(ms: Members)
    requires Ordered(ms)
    ensures KeyOrdered(FoldKeys(ms))
    ensures forall k :: Above(k, ms) ==> KeysAbove(k, FoldKeys(ms))
  {
    if ms.Cons? {
      FoldKeysKeyOrdered(ms.rest);
      if ms.node.Obj? { FoldKeysKeyOrdered(ms.node.members); }
    }
  }

  // ---------- build_tree ----------

  /** `leaf_text`. */
  function LeafText(value: SubTreeValue, revealed: Revealed): Option<string> {
    match value.content
    case Plain(text) => Some(text)
    case Secret => if Fold(value.path) in revealed then Some(revealed[Fold(value.path)]) else None
  }

  function BuildStep(root: ConfigPath, v: SubTreeValue, revealed: Revealed, s: State): Option<State> {
    if v.path == "/" || !IsAtOrBelow(v.path, root) then None else
      match LeafText(v, revealed)
      case None => None
      case Some(text) =>
        if Fold(v.path) == Fold(root) then
          if s.exact.Some? then None else Some(s.(exact := Some(text)))
        else
          match RelativeSegments(root, v.path)
          case None => None
          case Some(segs) =>
            match TreeInsert(s.tree, segs, text)
            case None => None
            case Some(tree) => Some(s.(tree := tree))
  }

  function BuildFrom(root: ConfigPath, values: seq<SubTreeValue>, revealed: Revealed, s: State): Option<Node>
    decreases values
  {
    if values == [] then
      match s.exact
      case Some(text) => if s.tree == Nil then Some(Str(text)) else None
      case None => Some(Obj(s.tree))
    else
      match BuildStep(root, values[0], revealed, s)
      case None => None
      case Some(s') => BuildFrom(root, values[1..], revealed, s')
  }

  function Build(root: ConfigPath, values: seq<SubTreeValue>, revealed: Revealed): Option<Node> {
    BuildFrom(root, values, revealed, State(Nil, None))
  }

  /** A value with its real text in the clear. */
  function Expose(value: SubTreeValue, revealed: Revealed): SubTreeValue {
    match LeafText(value, revealed)
    case None => value
    case Some(text) => value.(content := Plain(text))
  }

  function ExposeAll(values: seq<SubTreeValue>, revealed: Revealed): (r: seq<SubTreeValue>)
    ensures |r| == |values|
    ensures forall i :: 0 <= i < |values| ==> r[i] == Expose(values[i], revealed)
  {
    seq(|values|, i requires 0 <= i < |values| => Expose(values[i], revealed))
  }

  predicate AllRevealed(values: seq<SubTreeValue>, revealed: Revealed) {
    forall i :: 0 <= i < |values| ==> LeafText(values[i], revealed).Some?
  }

  lemma BuildStepFolds(root: ConfigPath, v: SubTreeValue, revealed: Revealed, s: State)
    ensures BuildStep(root, v, revealed, State(FoldKeys(s.tree), s.exact)) ==
            if LeafText(v, revealed).None? then None else
              match Step(root, Expose(v, revealed), s)
              case None => None
              case Some(s') => Some(State(FoldKeys(s'.tree), s'.exact))
  {
    if v.path != "/" && IsAtOrBelow(v.path, root) && LeafText(v, revealed).Some? && Fold(v.path) != Fold(root) {
      PlacedFolds(root, v.path, LeafText(v, revealed).value, s.tree);
    }
  }

  function PlacedJson(root: ConfigPath, path: ConfigPath, text: string, tree: Members): Option<Members> {
    match JsonSegments(root, path)
    case None => None
    case Some(segs) => Insert(tree, segs, text)
  }

  lemma PlacedFolds(root: ConfigPath, path: ConfigPath, text: string, tree: Members)
    requires path != "/"
    ensures (match RelativeSegments(root, path)
             case None => None
             case Some(segs) => TreeInsert(FoldKeys(tree), segs, text))
         == match PlacedJson(root, path, text, tree)
            case None => None
            case Some(placed) => Some(FoldKeys(placed))
  {
    RelativeSegmentsAreJsonSegmentsFolded(root, path);
    var segs := JsonSegments(root, path);
    if segs.Some? { TreeInsertFolds(tree, segs.value, text); }
  }

  lemma {:induction false} BuildFromFolds(root: ConfigPath, values: seq<SubTreeValue>, revealed: Revealed, s: State)
    ensures BuildFrom(root, values, revealed, State(FoldKeys(s.tree), s.exact)) ==
            if !AllRevealed(values, revealed) then None else
              match RenderFrom(root, ExposeAll(values, revealed), s)
              case None => None
              case Some(n) => Some(FoldNode(n))
    decreases values
  {
    if values != [] {
      var v, rest := values[0], values[1..];
      BuildStepFolds(root, v, revealed, s);
      assert ExposeAll(values, revealed)[1..] == ExposeAll(rest, revealed);
      assert AllRevealed(values, revealed) <==> LeafText(v, revealed).Some? && AllRevealed(rest, revealed) by {
        assert forall i :: 1 <= i < |values| ==> values[i] == rest[i - 1];
        assert forall i :: 0 <= i < |rest| ==> rest[i] == values[i + 1];
      }
      var r := Step(root, Expose(v, revealed), s);
      if r.Some? { BuildFromFolds(root, rest, revealed, r.value); }
    }
  }

  /** `build_tree`. */
  method BuildTree(root: ConfigPath, values: seq<SubTreeValue>, revealed: Revealed) returns (r: Option<Node>)
    ensures r == Build(root, values, revealed)
  {
    var tree: Members := Nil;
    var exact: Option<string> := None;
    ghost var json := State(Nil, None);
    for i := 0 to |values|
      invariant Inv(json) && tree == FoldKeys(json.tree) && exact == json.exact
      invariant Build(root, values, revealed) == BuildFrom(root, values[i..], revealed, State(tree, exact))
    {
      var value := values[i];
      assert values[i..][0] == value && values[i..][1..] == values[i + 1..];
      BuildStepFolds(root, value, revealed, json);
      FoldKeysKeyOrdered(json.tree);
      if value.path == "/" || !IsAtOrBelow(value.path, root) { return None; }
      var text := LeafText(value, revealed);
      if text.None? { return None; }
      ghost var stepped := Step(root, Expose(value, revealed), json);
      if stepped.Some? {
        IsAtOrBelowIsWithin(value.path, root);
        StepSorts(root, Expose(value, revealed), json);
        json := stepped.value;
      }
      if Fold(value.path) == Fold(root) {
        if exact.Some? { return None; }
        exact := text;
        continue;
      }
      var segments := RelativeSegments(root, value.path);
      if segments.None? { return None; }
      var inserted := InsertLeaf(tree, segments.value, text.value);
      if inserted.None? { return None; }
      tree := inserted.value;
    }
    assert values[|values|..] == [];
    match exact
    case Some(text) => return if tree == Nil then Some(Str(text)) else None;
    case None => return Some(Obj(tree));
  }

  // ---------- The provider's tree refines the JSON renderer's ----------

  /** The real text of each value, by folded path. */
  function RealTexts(values: seq<SubTreeValue>, revealed: Revealed): map<seq<string>, string> {
    if values == [] then map[] else
      var texts := RealTexts(values[1..], revealed);
      match LeafText(values[0], revealed)
      case None => texts
      case Some(text) => texts[FoldSegments(values[0].path) := text]
  }

  /** The tree with each text replaced by the one recorded for its path. */
  function Retext(n: Node, at: seq<string>, texts: map<seq<string>, string>): Node
    decreases n
  {
    match n
    case Str(text) => Str(if at in texts then texts[at] else text)
    case Obj(ms) => Obj(RetextMembers(ms, at, texts))
  }

  function RetextMembers(ms: Members, at: seq<string>, texts: map<seq<string>, string>): Members
    decreases ms
  {
    match ms
    case Nil => Nil
    case Cons(k, n, rest) => Cons(k, Retext(n, at + [k], texts), RetextMembers(rest, at, texts))
  }

  function RetextLeaves(es: seq<Entry<string>>, at: seq<string>, texts: map<seq<string>, string>): (r: seq<Entry<string>>)
    ensures |r| == |es|
    ensures forall i :: 0 <= i < |es| ==>
              r[i] == Entry(es[i].key, if at + es[i].key in texts then texts[at + es[i].key] else es[i].value)
  {
    seq(|es|, i requires 0 <= i < |es| =>
      Entry(es[i].key, if at + es[i].key in texts then texts[at + es[i].key] else es[i].value))
  }

  lemma RetextLeavesUnder(k: string, es: seq<Entry<string>>, at: seq<string>, texts: map<seq<string>, string>)
    ensures Under([k], RetextLeaves(es, at + [k], texts)) == RetextLeaves(Under([k], es), at, texts)
  {
    forall i | 0 <= i < |es| ensures at + [k] + es[i].key == at + ([k] + es[i].key) {
    }
  }

  lemma RetextAbove(ms: Members, at: seq<string>, texts: map<seq<string>, string>, k: string)
    ensures Above(k, RetextMembers(ms, at, texts)) <==> Above(k, ms)
  {
  }

  lemma {:induction false} RetextShape(ms: Members, at: seq<string>, texts: map<seq<string>, string>)
    ensures Leaves(RetextMembers(ms, at, texts)) == RetextLeaves(Leaves(ms), at, texts)
    ensures Ordered(ms) ==> Ordered(RetextMembers(ms, at, texts))
    ensures Pruned(ms) ==> Pruned(RetextMembers(ms, at, texts))
    decreases ms
  {
    if ms == Nil {
      assert Leaves(ms) == [];
    } else {
      RetextShape(ms.rest, at, texts);
      RetextAbove(ms.rest, at, texts, Fold(ms.key));
      RetextNodeShape(ms.node, at + [ms.key], texts);
      RetextLeavesUnder(ms.key, LeavesOf(ms.node), at, texts);
      assert RetextLeaves(Under([ms.key], LeavesOf(ms.node)) + Leaves(ms.rest), at, texts)
          == RetextLeaves(Under([ms.key], LeavesOf(ms.node)), at, texts) + RetextLeaves(Leaves(ms.rest), at, texts);
    }
  }

  lemma {:induction false} RetextNodeShape(n: Node, at: seq<string>, texts: map<seq<string>, string>)
    ensures LeavesOf(Retext(n, at, texts)) == RetextLeaves(LeavesOf(n), at, texts)
    ensures OrderedNode(n) ==> OrderedNode(Retext(n, at, texts))
    ensures PrunedNode(n) ==> PrunedNode(Retext(n, at, texts))
    ensures PrunedTop(n) ==> PrunedTop(Retext(n, at, texts))
    decreases n
  {
    if n.Obj? { RetextShape(n.members, at, texts); } else { assert at + [] == at; }
  }

  lemma RealTextAt(values: seq<SubTreeValue>, revealed: Revealed, i: nat)
    requires NoCollisions(values) && AllRevealed(values, revealed) && i < |values|
    ensures FoldSegments(values[i].path) in RealTexts(values, revealed)
    ensures RealTexts(values, revealed)[FoldSegments(values[i].path)] == LeafText(values[i], revealed).value
  {
    assert LeafText(values[0], revealed).Some?;
    if i > 0 {
      assert forall j :: 0 <= j < |values[1..]| ==> values[1..][j] == values[j + 1];
      RealTextAt(values[1..], revealed, i - 1);
      assert !Conflict(FoldSegments(values[0].path), FoldSegments(values[i].path));
    }
  }

  lemma {:induction false} ExposeSorted(es: seq<Entry<SubTreeValue>>, xs: seq<SubTreeValue>, revealed: Revealed)
    ensures ExposeEntries(InsertEntries(es, ByPath(xs)), revealed)
         == InsertEntries(ExposeEntries(es, revealed), ByPath(ExposeAll(xs, revealed)))
    decreases xs
  {
    if xs != [] {
      var x := ByPath(xs)[0];
      ExposeInsert(es, x, revealed);
      ExposeSorted(InsertEntry(es, x), xs[1..], revealed);
      assert ByPath(xs)[1..] == ByPath(xs[1..]);
      assert ByPath(ExposeAll(xs, revealed))[1..] == ByPath(ExposeAll(xs[1..], revealed));
    }
  }

  function ExposeEntries(es: seq<Entry<SubTreeValue>>, revealed: Revealed): (r: seq<Entry<SubTreeValue>>)
    ensures |r| == |es|
    ensures forall i :: 0 <= i < |es| ==> r[i] == Entry(es[i].key, Expose(es[i].value, revealed))
  {
    seq(|es|, i requires 0 <= i < |es| => Entry(es[i].key, Expose(es[i].value, revealed)))
  }

  lemma {:induction false} ExposeInsert(es: seq<Entry<SubTreeValue>>, x: Entry<SubTreeValue>, revealed: Revealed)
    ensures ExposeEntries(InsertEntry(es, x), revealed)
         == InsertEntry(ExposeEntries(es, revealed), Entry(x.key, Expose(x.value, revealed)))
  {
    if es != [] && !SegsLt(x.key, es[0].key) {
      ExposeInsert(es[1..], x, revealed);
      assert ExposeEntries(es, revealed)[1..] == ExposeEntries(es[1..], revealed);
    }
  }

  lemma ExposingKeepsPaths(root: ConfigPath, values: seq<SubTreeValue>, revealed: Revealed)
    ensures AllPlaced(root, values) <==> AllPlaced(root, ExposeAll(values, revealed))
    ensures NoCollisions(values) <==> NoCollisions(ExposeAll(values, revealed))
  {
    var xs := ExposeAll(values, revealed);
    assert forall i :: 0 <= i < |values| ==> xs[i].path == values[i].path;
    if AllPlaced(root, xs) {
      forall i | 0 <= i < |values| ensures Placed(root, values[i]) { assert Placed(root, xs[i]); }
    }
    if NoCollisions(xs) {
      forall i, j | 0 <= i < j < |values| ensures !Conflict(FoldSegments(values[i].path), FoldSegments(values[j].path)) {
        assert !Conflict(FoldSegments(xs[i].path), FoldSegments(xs[j].path));
      }
    }
  }

  lemma ExposedLeaf(r: seq<string>, a: seq<Entry<string>>, b: seq<Entry<string>>, sorted: seq<Entry<SubTreeValue>>,
                    revealed: Revealed, texts: map<seq<string>, string>, i: nat)
    requires Under(r, a) == Shown(sorted) && Under(r, b) == Shown(ExposeEntries(sorted, revealed))
    requires i < |a| && i < |b| && i < |sorted|
    requires LeafText(sorted[i].value, revealed).Some?
    requires sorted[i].key in texts && texts[sorted[i].key] == LeafText(sorted[i].value, revealed).value
    ensures b[i] == RetextLeaves(a, r, texts)[i]
  {
    assert Under(r, a)[i] == Shown(sorted)[i];
    assert Under(r, b)[i] == Shown(ExposeEntries(sorted, revealed))[i];
    assert a[i].key == (r + a[i].key)[|r|..] && b[i].key == (r + b[i].key)[|r|..];
  }

  lemma SortedRealText(values: seq<SubTreeValue>, revealed: Revealed, i: nat)
    requires NoCollisions(values) && AllRevealed(values, revealed) && i < |values|
    ensures var e := StableSort(ByPath(values))[i];
            LeafText(e.value, revealed).Some? && e.key in RealTexts(values, revealed)
            && RealTexts(values, revealed)[e.key] == LeafText(e.value, revealed).value
  {
    StableSortIsStable(ByPath(values));
    assert StableSort(ByPath(values))[i] in multiset(ByPath(values));
    var m :| 0 <= m < |values| && ByPath(values)[m] == StableSort(ByPath(values))[i];
    RealTextAt(values, revealed, m);
  }

  /** The leaves of the exposed rendering are those of the masked one with each text replaced. */
  lemma ExposedLeaves(root: ConfigPath, values: seq<SubTreeValue>, revealed: Revealed)
    requires Render(root, values).Some? && AllRevealed(values, revealed)
    ensures Render(root, ExposeAll(values, revealed)).Some?
    ensures Folded(LeavesOf(Render(root, ExposeAll(values, revealed)).value))
         == RetextLeaves(Folded(LeavesOf(Render(root, values).value)), FoldSegments(root), RealTexts(values, revealed))
  {
    var xs, r := ExposeAll(values, revealed), FoldSegments(root);
    RenderExactly(root, values);
    RenderExactly(root, xs);
    ExposingKeepsPaths(root, values, revealed);
    ExposeSorted([], values, revealed);
    assert ExposeEntries([], revealed) == [];
    var a, b := Folded(LeavesOf(Render(root, values).value)), Folded(LeavesOf(Render(root, xs).value));
    var sorted, texts := StableSort(ByPath(values)), RealTexts(values, revealed);
    assert |a| == |Under(r, a)| == |sorted| == |Under(r, b)| == |b|;
    forall i | 0 <= i < |a| ensures b[i] == RetextLeaves(a, r, texts)[i] {
      SortedRealText(values, revealed, i);
      ExposedLeaf(r, a, b, sorted, revealed, texts, i);
    }
  }

  /** The provider accepts exactly the subtrees the JSON renderer accepts, given every secret's
      text, and its tree is the JSON tree with keys folded and every text the real one. */
  lemma BuildRefinesRender(root: ConfigPath, values: seq<SubTreeValue>, revealed: Revealed)
    ensures Build(root, values, revealed).Some? <==> Render(root, values).Some? && AllRevealed(values, revealed)
    ensures Build(root, values, revealed).Some? ==>
              Build(root, values, revealed).value ==
              Retext(FoldNode(Render(root, values).value), FoldSegments(root), RealTexts(values, revealed))
  {
    var xs := ExposeAll(values, revealed);
    BuildFromFolds(root, values, revealed, State(Nil, None));
    RenderExactly(root, values);
    RenderExactly(root, xs);
    ExposingKeepsPaths(root, values, revealed);
    if Build(root, values, revealed).Some? {
      var m, n := Render(root, values).value, Render(root, xs).value;
      ExposedLeaves(root, values, revealed);
      FoldNodeShape(m);
      FoldNodeShape(n);
      RetextNodeShape(FoldNode(m), FoldSegments(root), RealTexts(values, revealed));
      SameLeavesSameTree(FoldNode(n), Retext(FoldNode(m), FoldSegments(root), RealTexts(values, revealed)));
    }
  }
}
