/** `render_subtree_json`: exactly which subtrees can be rendered, and what the rendering holds. */
module JsonRender {
  import opened Text
  import opened Paths
  import opened Sorting
  import opened Values
  import opened JsonTree

  /** What the renderer's loop carries: the object being built, and the text of a value found at
      the selected root itself. */
  datatype State = State(tree: Members, exact: Option<string>)

  /** One iteration. `None` is the one bounded validation error. */
  function Step(root: ConfigPath, v: SubTreeValue, s: State): Option<State> {
    var text := DisplayText(v.content);
    if v.path == "/" || !IsAtOrBelow(v.path, root) then None
    else if Fold(v.path) == Fold(root) then
      if s.exact.Some? then None else Some(s.(exact := Some(text)))
    else
      match JsonSegments(root, v.path)
      case None => None
      case Some(segs) =>
        match Insert(s.tree, segs, text)
        case None => None
        case Some(tree) => Some(s.(tree := tree))
  }

  function RenderFrom(root: ConfigPath, values: seq<SubTreeValue>, s: State): Option<Node>
    decreases values
  {
    if values == [] then
      match s.exact
      case Some(text) => if s.tree == Nil then Some(Str(text)) else None
      case None => Some(Obj(s.tree))
    else
      match Step(root, values[0], s)
      case None => None
      case Some(s') => RenderFrom(root, values[1..], s')
  }

  function Render(root: ConfigPath, values: seq<SubTreeValue>): Option<Node> {
    RenderFrom(root, values, State(Nil, None))
  }

  /** `render_subtree_json`, up to the text encoding of the finished tree. */
  method RenderSubtreeJson(root: ConfigPath, values: seq<SubTreeValue>) returns (r: Option<Node>)
    ensures r == Render(root, values)
  {
    var tree: Members := Nil;
    var exact: Option<string> := None;
    for i := 0 to |values|
      invariant Ordered(tree) && Pruned(tree)
      invariant Render(root, values) == RenderFrom(root, values[i..], State(tree, exact))
    {
      var value := values[i];
      assert values[i..][0] == value && values[i..][1..] == values[i + 1..];
      if value.path == "/" || !IsAtOrBelow(value.path, root) { return None; }
      if Fold(value.path) == Fold(root) {
        if exact.Some? { return None; }
        exact := Some(DisplayText(value.content));
        continue;
      }
      var segments := JsonSegments(root, value.path);
      if segments.None? { return None; }
      var inserted := InsertJsonValue(tree, segments.value, DisplayText(value.content));
      if inserted.None? { return None; }
      InsertIsSortedInsertion(tree, segments.value, DisplayText(value.content));
      tree := inserted.value;
    }
    assert values[|values|..] == [];
    match exact
    case Some(text) => return if tree == Nil then Some(Str(text)) else None;
    case None => return Some(Obj(tree));
  }

  // ---------- Which subtrees can be rendered ----------

  predicate Placed(root: ConfigPath, value: SubTreeValue) {
    value.path != "/" && Within(root, value.path)
  }

  predicate AllPlaced(root: ConfigPath, values: seq<SubTreeValue>) {
    forall i :: 0 <= i < |values| ==> Placed(root, values[i])
  }

  /** What is shown, keyed by folded segments below the root. */
  function Relative(root: ConfigPath, values: seq<SubTreeValue>): (r: seq<Entry<string>>)
    requires AllPlaced(root, values)
    ensures |r| == |values|
    ensures forall i :: 0 <= i < |values| ==>
              r[i] == Entry(FoldSegments(values[i].path)[|FoldSegments(root)|..], DisplayText(values[i].content))
  {
    seq(|values|, i requires 0 <= i < |values| =>
      Entry(FoldSegments(values[i].path)[|FoldSegments(root)|..], DisplayText(values[i].content)))
  }

  lemma RelativeCons(root: ConfigPath, values: seq<SubTreeValue>)
    requires AllPlaced(root, values) && values != []
    ensures Placed(root, values[0]) && AllPlaced(root, values[1..])
    ensures Relative(root, values)[1..] == Relative(root, values[1..])
  {
  }

  lemma RelativeUnderRoot(root: ConfigPath, values: seq<SubTreeValue>)
    requires AllPlaced(root, values)
    ensures Under(FoldSegments(root), Relative(root, values)) == Shown(ByPath(values))
  {
    var r := FoldSegments(root);
    var under, shown := Under(r, Relative(root, values)), Shown(ByPath(values));
    forall i | 0 <= i < |values| ensures under[i] == shown[i] {
      assert Placed(root, values[i]);
      assert FoldSegments(values[i].path) == r + FoldSegments(values[i].path)[|r|..];
    }
    assert |under| == |shown|;
  }

  lemma {:induction false} UnplacedFails(root: ConfigPath, values: seq<SubTreeValue>, s: State)
    requires !AllPlaced(root, values)
    ensures RenderFrom(root, values, s).None?
    decreases values
  {
    IsAtOrBelowIsWithin(values[0].path, root);
    if Placed(root, values[0]) && Step(root, values[0], s).Some? {
      var i :| 0 <= i < |values| && !Placed(root, values[i]);
      assert values[1..][i - 1] == values[i];
      UnplacedFails(root, values[1..], Step(root, values[0], s).value);
    }
  }

  ghost predicate Inv(s: State) { Ordered(s.tree) && Pruned(s.tree) }

  /** The loop can still succeed. */
  predicate Consistent(s: State) { s.exact.None? || s.tree == Nil }

  /** The intermediate state as leaves: the value at the root itself, then the tree's. */
  function StateLeaves(s: State): seq<Entry<string>> {
    (if s.exact.Some? then [Entry([], s.exact.value)] else []) + FoldLeaves(s.tree)
  }

  lemma RootConflictsWithAll(s: State)
    requires Inv(s)
    ensures Clear(StateLeaves(s), []) <==> s == State(Nil, None)
    ensures s.exact.Some? ==> forall key :: !Clear(StateLeaves(s), key)
    ensures s.exact.None? ==> StateLeaves(s) == FoldLeaves(s.tree)
    ensures s == State(Nil, None) ==> StateLeaves(s) == []
  {
    var leaves := StateLeaves(s);
    if s.tree.Cons? { PrunedHasLeaves(s.tree); } else { assert FoldLeaves(s.tree) == []; }
    if leaves != [] { assert Conflict(leaves[0].key, []); }
    if s.exact.Some? {
      forall key ensures !Clear(leaves, key) { assert Conflict(leaves[0].key, key); }
    }
  }

  /** One iteration either keeps the leaves sorted or dooms the rendering. */
  ghost predicate Sorts(s: State, x: Entry<string>, r: Option<State>) {
    && (r.Some? ==> Inv(r.value))
    && (r.Some? && Consistent(r.value) <==> Consistent(s) && Clear(StateLeaves(s), x.key))
    && (r.Some? && Consistent(r.value) ==> StateLeaves(r.value) == InsertEntry(StateLeaves(s), x))
  }

  lemma EmptyStateLeaves(text: string)
    ensures StateLeaves(State(Nil, None)) == []
    ensures StateLeaves(State(Nil, Some(text))) == [Entry([], text)]
    ensures InsertEntry([], Entry([], text)) == [Entry([], text)]
  {
    assert FoldLeaves(Nil) == [];
  }

  /** A value at the root itself. */
  lemma RootStepSorts(s: State, text: string)
    requires Inv(s)
    ensures Sorts(s, Entry([], text), if s.exact.Some? then None else Some(s.(exact := Some(text))))
  {
    RootConflictsWithAll(s);
    EmptyStateLeaves(text);
  }

  /** A value below the root. */
  lemma InsertStepSorts(s: State, segs: seq<string>, text: string)
    requires Inv(s) && segs != []
    ensures Sorts(s, Entry(FoldAll(segs), text),
                  match Insert(s.tree, segs, text) case None => None case Some(tree) => Some(s.(tree := tree)))
  {
    RootConflictsWithAll(s);
    InsertIsSortedInsertion(s.tree, segs, text);
    var inserted := Insert(s.tree, segs, text);
    if inserted.Some? { RootConflictsWithAll(s.(tree := inserted.value)); }
  }

  lemma StepSorts(root: ConfigPath, v: SubTreeValue, s: State)
    requires Placed(root, v) && Inv(s)
    ensures Sorts(s, Entry(FoldSegments(v.path)[|FoldSegments(root)|..], DisplayText(v.content)), Step(root, v, s))
  {
    var key := FoldSegments(v.path)[|FoldSegments(root)|..];
    IsAtOrBelowIsWithin(v.path, root);
    FoldEqualIffFoldSegmentsEqual(v.path, root);
    if Fold(v.path) == Fold(root) {
      assert key == [];
      RootStepSorts(s, DisplayText(v.content));
    } else {
      StepBelowRoot(root, v, key);
      InsertStepSorts(s, JsonSegments(root, v.path).value, DisplayText(v.content));
    }
  }

  lemma StepBelowRoot(root: ConfigPath, v: SubTreeValue, key: seq<string>)
    requires Placed(root, v) && FoldSegments(v.path) != FoldSegments(root)
    requires key == FoldSegments(v.path)[|FoldSegments(root)|..]
    ensures JsonSegments(root, v.path).Some?
    ensures JsonSegments(root, v.path).value != [] && FoldAll(JsonSegments(root, v.path).value) == key
  {
    JsonSegmentsAreTheRest(root, v.path);
    var segs := JsonSegments(root, v.path).value;
    assert FoldSegments(v.path) == FoldSegments(root) + key;
    assert FoldAll(segs) == key;
  }

  ghost predicate RendersAsSorted(root: ConfigPath, values: seq<SubTreeValue>, s: State)
    requires AllPlaced(root, values)
  {
    var r, leaves, es := RenderFrom(root, values, s), StateLeaves(s), Relative(root, values);
    && (r.Some? <==> Consistent(s) && Compatible(leaves, es))
    && (r.Some? ==> OrderedNode(r.value) && PrunedTop(r.value)
                    && Folded(LeavesOf(r.value)) == InsertEntries(leaves, es))
  }

  predicate PrunedTop(n: Node) { n.Obj? ==> Pruned(n.members) }

  lemma {:induction false} RenderFromSorts(root: ConfigPath, values: seq<SubTreeValue>, s: State)
    requires AllPlaced(root, values) && Inv(s)
    ensures RendersAsSorted(root, values, s)
    decreases values
  {
    if values == [] {
      assert Relative(root, values) == [];
      RootConflictsWithAll(s);
      if s.exact.Some? && s.tree == Nil { assert StateLeaves(s) == [Entry([], s.exact.value)]; }
    } else {
      RelativeCons(root, values);
      StepSorts(root, values[0], s);
      var r := Step(root, values[0], s);
      if r.Some? { RenderFromSorts(root, values[1..], r.value); }
    }
  }

  /** No two paths are equal up to case and none lies below another. */
  predicate NoCollisions(values: seq<SubTreeValue>) {
    forall i, j :: 0 <= i < j < |values| ==> !Conflict(FoldSegments(values[i].path), FoldSegments(values[j].path))
  }

  lemma ShownPairwise(values: seq<SubTreeValue>)
    ensures Pairwise(Shown(ByPath(values))) <==> NoCollisions(values)
  {
    assert forall i :: 0 <= i < |values| ==> Shown(ByPath(values))[i].key == FoldSegments(values[i].path);
  }

  lemma PairwiseUnder<T>(p: seq<string>, es: seq<Entry<T>>)
    ensures Pairwise(Under(p, es)) <==> Pairwise(es)
  {
    forall i, j | 0 <= i < |es| && 0 <= j < |es|
      ensures Conflict(Under(p, es)[i].key, Under(p, es)[j].key) <==> Conflict(es[i].key, es[j].key)
    {
      PrefixedPrefix(p, es[i].key, es[j].key);
      PrefixedPrefix(p, es[j].key, es[i].key);
    }
    if Pairwise(es) {
      assert Pairwise(Under(p, es));
    } else if Pairwise(Under(p, es)) {
      forall i, j | 0 <= i < j < |es| ensures !Conflict(es[i].key, es[j].key) {
        assert !Conflict(Under(p, es)[i].key, Under(p, es)[j].key);
      }
    }
  }

  lemma PrefixedPrefix(p: seq<string>, a: seq<string>, b: seq<string>)
    ensures p + a <= p + b <==> a <= b
  {
    if p + a <= p + b { assert a == (p + a)[|p|..] && b == (p + b)[|p|..]; }
    if a <= b { assert p + b == p + a + b[|a|..]; }
  }

  /** Rendering succeeds if and only if every value lies below the selection and is not the tree
      root, and no two paths collide. The rendered tree's depth-first leaves are then the values,
      in fold-segment order, each shown once. */
  lemma RenderExactly(root: ConfigPath, values: seq<SubTreeValue>)
    ensures Render(root, values).Some? <==> AllPlaced(root, values) && NoCollisions(values)
    ensures Render(root, values).Some? ==>
              var node := Render(root, values).value;
              OrderedNode(node) && PrunedTop(node)
              && Under(FoldSegments(root), Folded(LeavesOf(node))) == Shown(StableSort(ByPath(values)))
  {
    if !AllPlaced(root, values) {
      UnplacedFails(root, values, State(Nil, None));
    } else {
      var es, r := Relative(root, values), FoldSegments(root);
      RenderFromSorts(root, values, State(Nil, None));
      RootConflictsWithAll(State(Nil, None));
      CompatibleIsPairwise([], es);
      PairwiseUnder(r, es);
      RelativeUnderRoot(root, values);
      ShownPairwise(values);
      StableSortUnder(r, es);
      StableSortShown(ByPath(values));
    }
  }

  /** The leaves are the sorted values, one for one. */
  lemma LeavesShowSorted(root: ConfigPath, values: seq<SubTreeValue>)
    requires Render(root, values).Some?
    ensures var leaves, sorted := LeavesOf(Render(root, values).value), StableSort(ByPath(values));
            |leaves| == |sorted| == |values|
            && forall i :: 0 <= i < |leaves| ==>
                 && FoldSegments(root) + FoldAll(leaves[i].key) == sorted[i].key
                 && leaves[i].value == DisplayText(sorted[i].value.content)
  {
    RenderExactly(root, values);
    StableSortIsStable(ByPath(values));
    var leaves, sorted := LeavesOf(Render(root, values).value), StableSort(ByPath(values));
    var under := Under(FoldSegments(root), Folded(leaves));
    assert |leaves| == |under|;
    forall i | 0 <= i < |leaves|
      ensures FoldSegments(root) + FoldAll(leaves[i].key) == sorted[i].key
      ensures leaves[i].value == DisplayText(sorted[i].value.content)
    {
      assert under[i] == Shown(sorted)[i];
    }
  }
}
