/** Rendering and parsing a subtree undo each other, up to what a JSON document cannot carry. */
module JsonRoundTrip {
  import opened Text
  import opened Paths
  import opened Sorting
  import opened Values
  import opened JsonTree
  import opened JsonRender
  import opened JsonParse

  // ---------- Values to document and back ----------

  lemma ChainValidKeys(segs: seq<string>, text: string)
    requires ValidSegments(segs)
    ensures ValidNodeKeys(Chain(segs, text))
  {
  }

  lemma InsertValidKeys(ms: Members, segs: seq<string>, text: string)
    requires ValidKeys(ms) && ValidSegments(segs) && Insert(ms, segs, text).Some?
    ensures ValidKeys(Insert(ms, segs, text).value)
  {
    ChainValidKeys(segs[1..], text);
  }

  lemma {:induction false} RenderValidKeys(root: ConfigPath, values: seq<SubTreeValue>, s: State)
    requires ValidKeys(s.tree) && RenderFrom(root, values, s).Some?
    ensures ValidNodeKeys(RenderFrom(root, values, s).value)
    decreases values
  {
    if values != [] {
      var v := values[0];
      if Fold(v.path) != Fold(root) {
        JsonSegmentsAreTheRest(root, v.path);
        InsertValidKeys(s.tree, JsonSegments(root, v.path).value, DisplayText(v.content));
      }
      RenderValidKeys(root, values[1..], Step(root, v, s).value);
    }
  }

  predicate NulFree(values: seq<SubTreeValue>) {
    forall i :: 0 <= i < |values| ==> '\0' !in DisplayText(values[i].content)
  }

  lemma SortedHasEveryValue(values: seq<SubTreeValue>)
    ensures |StableSort(ByPath(values))| == |values|
    ensures forall i :: 0 <= i < |values| ==> ByPath(values)[i] in StableSort(ByPath(values))
    ensures forall i :: 0 <= i < |values| ==> StableSort(ByPath(values))[i] in ByPath(values)
  {
    var es, sorted := ByPath(values), StableSort(ByPath(values));
    StableSortIsStable(es);
    forall i | 0 <= i < |values| ensures es[i] in sorted { assert es[i] in multiset(sorted); }
    forall i | 0 <= i < |values| ensures sorted[i] in es { assert sorted[i] in multiset(es); }
  }

  predicate NulFreeEntries(es: seq<Entry<SubTreeValue>>) {
    forall i :: 0 <= i < |es| ==> '\0' !in DisplayText(es[i].value.content)
  }

  lemma NulFreeWithin(a: seq<Entry<SubTreeValue>>, b: seq<Entry<SubTreeValue>>)
    requires NulFreeEntries(b) && forall i :: 0 <= i < |a| ==> a[i] in b
    ensures NulFreeEntries(a)
  {
    forall i | 0 <= i < |a| ensures '\0' !in DisplayText(a[i].value.content) {
      var k :| 0 <= k < |b| && b[k] == a[i];
    }
  }

  lemma NulFreeByPath(values: seq<SubTreeValue>)
    ensures NulFreeEntries(ByPath(values)) <==> NulFree(values)
  {
  }

  lemma NulFreeSorted(values: seq<SubTreeValue>)
    ensures NulFreeEntries(StableSort(ByPath(values))) <==> NulFree(values)
  {
    var es, sorted := ByPath(values), StableSort(ByPath(values));
    SortedHasEveryValue(values);
    NulFreeByPath(values);
    if NulFreeEntries(sorted) { NulFreeWithin(es, sorted); }
    if NulFreeEntries(es) { NulFreeWithin(sorted, es); }
  }

  lemma ShownNul(leaves: seq<Entry<string>>, sorted: seq<Entry<SubTreeValue>>)
    requires |leaves| == |sorted| && forall i :: 0 <= i < |leaves| ==> leaves[i].value == DisplayText(sorted[i].value.content)
    ensures NoNul(leaves) <==> NulFreeEntries(sorted)
  {
  }

  lemma NulFreeLeaves(root: ConfigPath, values: seq<SubTreeValue>)
    requires Render(root, values).Some?
    ensures NoNul(LeavesOf(Render(root, values).value)) <==> NulFree(values)
  {
    LeavesShowSorted(root, values);
    ShownNul(LeavesOf(Render(root, values).value), StableSort(ByPath(values)));
    NulFreeSorted(values);
  }

  /** Parsing a rendered subtree fails exactly on a NUL; otherwise it yields one mutation per
      value, in fold-segment order, at the same path up to case, carrying what was shown. */
  lemma ForwardRoundTrip(root: ConfigPath, values: seq<SubTreeValue>)
    requires Render(root, values).Some?
    ensures var parsed := ParseDoc(root, Encode(Render(root, values).value));
            var sorted := StableSort(ByPath(values));
            && (parsed.Some? <==> NulFree(values))
            && (parsed.Some? ==>
                  && |parsed.value| == |values|
                  && forall i :: 0 <= i < |values| ==>
                       && FoldSegments(parsed.value[i].path) == sorted[i].key
                       && parsed.value[i].content == Classify(DisplayText(sorted[i].value.content)))
  {
    RenderExactly(root, values);
    var node := Render(root, values).value;
    RenderValidKeys(root, values, State(Nil, None));
    DecodeEncode(node);
    FlattenNodeExactly(root, node);
    NulFreeLeaves(root, values);
    assert root == "/" ==> node.Obj? by { if node.Str? { OnlyNonRootRendersText(root, values); } }
    var parsed := ParseDoc(root, Encode(node));
    if parsed.Some? {
      var leaves, sorted := LeavesOf(node), StableSort(ByPath(values));
      assert |leaves| == |Under(FoldSegments(root), Folded(leaves))| == |values|;
      forall i | 0 <= i < |values|
        ensures FoldSegments(parsed.value[i].path) == sorted[i].key
        ensures parsed.value[i].content == Classify(DisplayText(sorted[i].value.content))
      {
        assert Under(FoldSegments(root), Folded(leaves))[i] == Shown(sorted)[i];
        FoldAllConcat(Segments(root), leaves[i].key);
      }
    }
  }

  lemma OnlyNonRootRendersText(root: ConfigPath, values: seq<SubTreeValue>)
    requires Render(root, values).Some? && Render(root, values).value.Str?
    ensures root != "/"
  {
    RenderExactly(root, values);
    var node := Render(root, values).value;
    assert Under(FoldSegments(root), Folded(LeavesOf(node)))[0].key == FoldSegments(root) + [];
    var sorted := StableSort(ByPath(values));
    assert Shown(sorted)[0].key == FoldSegments(root);
    SortedHasEveryValue(values);
    var k :| 0 <= k < |values| && ByPath(values)[k] == sorted[0];
    assert Placed(root, values[k]);
  }

  /** What writing a value back unchanged should ask for. */
  function Intended(content: Content): MutationContent {
    match content
    case Plain(text) => PlainText(text)
    case Secret => PreserveSecret
  }

  /** Every value is written back unchanged exactly when no plain value's text is the mask. */
  lemma RoundTripKeepsContent(root: ConfigPath, values: seq<SubTreeValue>)
    requires Render(root, values).Some? && NulFree(values)
    ensures ParseDoc(root, Encode(Render(root, values).value)).Some?
    ensures var parsed := ParseDoc(root, Encode(Render(root, values).value)).value;
            var sorted := StableSort(ByPath(values));
            |parsed| == |sorted|
            && ((forall i :: 0 <= i < |sorted| ==> parsed[i].content == Intended(sorted[i].value.content))
                <==> (forall i :: 0 <= i < |values| ==> values[i].content != Plain(MASKED_SECRET_TEXT)))
  {
    ForwardRoundTrip(root, values);
    var parsed := ParseDoc(root, Encode(Render(root, values).value)).value;
    var sorted := StableSort(ByPath(values));
    forall i | 0 <= i < |sorted|
      ensures parsed[i].content == Intended(sorted[i].value.content) <==> sorted[i].value.content != Plain(MASKED_SECRET_TEXT)
    {
    }
    SomeSortedContent(values, Plain(MASKED_SECRET_TEXT));
  }

  /** It does fail: a plain value that happens to read like the mask comes back as a secret. */
  lemma MaskTextComesBackSecret(root: ConfigPath, path: ConfigPath)
    requires path != "/" && Within(root, path)
    ensures var values := [SubTreeValue(path, Plain(MASKED_SECRET_TEXT))];
            && Render(root, values).Some? && NulFree(values)
            && var parsed := ParseDoc(root, Encode(Render(root, values).value));
               parsed.Some? && |parsed.value| == 1 && parsed.value[0].content == PreserveSecret
  {
    var values := [SubTreeValue(path, Plain(MASKED_SECRET_TEXT))];
    RenderExactly(root, values);
    MaskHasNoNul();
    ForwardRoundTrip(root, values);
    SortedHasEveryValue(values);
    StableSortIsStable(ByPath(values));
    assert StableSort(ByPath(values))[0] == ByPath(values)[0];
  }

  lemma MaskHasNoNul()
    ensures '\0' !in MASKED_SECRET_TEXT
  {
  }

  /** The input: `/a` holding eight asterisks. */
  lemma MaskTextAtA()
    ensures ValidSegments(["a"]) && MASKED_SECRET_TEXT == "********"
    ensures var values := [SubTreeValue(PathOf(["a"]), Plain("********"))];
            && Render("/", values).Some?
            && var parsed := ParseDoc("/", Encode(Render("/", values).value));
               parsed.Some? && |parsed.value| == 1 && parsed.value[0].content == PreserveSecret
  {
    assert ValidSegment("a");
    MaskTextComesBackSecret("/", PathOf(["a"]));
  }

  lemma SomeSortedContent(values: seq<SubTreeValue>, content: Content)
    ensures var sorted := StableSort(ByPath(values));
            (forall i :: 0 <= i < |sorted| ==> sorted[i].value.content != content)
            <==> (forall i :: 0 <= i < |values| ==> values[i].content != content)
  {
    SortedHasEveryValue(values);
    var sorted := StableSort(ByPath(values));
    StableSortIsStable(ByPath(values));
    forall i | 0 <= i < |values| && values[i].content == content
      ensures exists k :: 0 <= k < |sorted| && sorted[k].value.content == content
    {
      var k :| 0 <= k < |sorted| && sorted[k] == ByPath(values)[i];
    }
    forall i | 0 <= i < |sorted| && sorted[i].value.content == content
      ensures exists k :: 0 <= k < |values| && values[k].content == content
    {
      var k :| 0 <= k < |values| && ByPath(values)[k] == sorted[i];
    }
  }

  // ---------- Document to mutations and back ----------

  /** A mutation seen as a value again: a preserved secret is shown as the mask. */
  function AsValue(m: Mutation): SubTreeValue {
    SubTreeValue(m.path, match m.content case PlainText(text) => Plain(text) case PreserveSecret => Secret)
  }

  function AsValues(ms: seq<Mutation>): (r: seq<SubTreeValue>)
    ensures |r| == |ms|
    ensures forall i :: 0 <= i < |ms| ==> r[i] == AsValue(ms[i])
  {
    seq(|ms|, i requires 0 <= i < |ms| => AsValue(ms[i]))
  }

  /** Empty objects dropped at every level below the top. */
  function PruneMembers(ms: Members): Members {
    match ms
    case Nil => Nil
    case Cons(k, n, rest) =>
      if PruneNode(n) == Obj(Nil) then PruneMembers(rest) else Cons(k, PruneNode(n), PruneMembers(rest))
  }

  function PruneNode(n: Node): Node {
    match n
    case Str(_) => n
    case Obj(ms) => Obj(PruneMembers(ms))
  }

  lemma {:induction false} PruneKeeps(ms: Members)
    ensures Leaves(PruneMembers(ms)) == Leaves(ms)
    ensures Pruned(PruneMembers(ms))
    ensures Ordered(ms) ==> Ordered(PruneMembers(ms))
    ensures forall k :: Above(k, ms) ==> Above(k, PruneMembers(ms))
    decreases ms
  {
    if ms.Cons? {
      PruneKeeps(ms.rest);
      if ms.node.Obj? {
        PruneKeeps(ms.node.members);
        assert Ordered(ms) ==> OrderedNode(ms.node);
        if PruneNode(ms.node) == Obj(Nil) {
          assert LeavesOf(ms.node) == [];
          assert Leaves(ms) == Leaves(ms.rest);
        }
      }
    }
  }

  lemma JoinedBelow(root: ConfigPath, key: seq<string>)
    requires ValidSegments(key) && key != []
    ensures var path := PathOf(Segments(root) + key);
            && path != "/" && IsAtOrBelow(path, root) && Fold(path) != Fold(root)
            && JsonSegments(root, path) == Some(key)
  {
    var path := PathOf(Segments(root) + key);
    FoldAllConcat(Segments(root), key);
    assert FoldSegments(path) == FoldSegments(root) + FoldAll(key);
    assert Within(root, path);
    IsAtOrBelowIsWithin(path, root);
    FoldEqualIffFoldSegmentsEqual(path, root);
    JsonSegmentsAreTheRest(root, path);
    assert Segments(path)[|Segments(root)|..] == key;
  }

  lemma RenderedMutation(root: ConfigPath, e: Entry<string>, s: State)
    requires ValidSegments(e.key) && e.key != []
    ensures var m := Mutation(PathOf(Segments(root) + e.key), Classify(e.value));
            Step(root, AsValue(m), s) ==
            match Insert(s.tree, e.key, e.value) case None => None case Some(tree) => Some(s.(tree := tree))
  {
    JoinedBelow(root, e.key);
  }

  lemma {:induction false} RenderMutations(root: ConfigPath, es: seq<Entry<string>>, tree: Members)
    requires ValidLeafKeys(es) && NonEmptyKeys(es)
    ensures RenderFrom(root, AsValues(Mutations(root, es)), State(tree, None)) ==
            match InsertAll(tree, es) case None => None case Some(tree') => Some(Obj(tree'))
    decreases es
  {
    var values := AsValues(Mutations(root, es));
    if es != [] {
      RenderedMutation(root, es[0], State(tree, None));
      assert values[0] == AsValue(Mutation(PathOf(Segments(root) + es[0].key), Classify(es[0].value)));
      assert values[1..] == AsValues(Mutations(root, es[1..]));
      match Insert(tree, es[0].key, es[0].value)
      case None =>
      case Some(tree') => RenderMutations(root, es[1..], tree');
    }
  }

  lemma RenderTextMutation(root: ConfigPath, text: string)
    requires root != "/"
    ensures Render(root, AsValues([Mutation(root, Classify(text))])) == Some(Str(text))
  {
    var v := AsValue(Mutation(root, Classify(text)));
    var values := AsValues([Mutation(root, Classify(text))]);
    assert values[0] == v && values[1..] == [];
    IsAtOrBelowIsWithin(root, root);
    assert Step(root, v, State(Nil, None)) == Some(State(Nil, Some(text)));
    assert RenderFrom(root, values, State(Nil, None)) == RenderFrom(root, values[1..], State(Nil, Some(text)));
  }

  /** For every document the parser accepts, rendering its mutations gives back the same tree: every
      key spelled as it was, members in fold order, empty objects pruned. */
  lemma BackwardRoundTrip(root: ConfigPath, doc: Doc)
    requires ParseDoc(root, doc).Some?
    ensures var mutations := ParseDoc(root, doc).value;
            var node := PruneNode(Decode(doc).value);
            && Render(root, AsValues(mutations)) == Some(node)
            && OrderedNode(node) && PrunedTop(node)
            && multiset(LeavesOf(node)) == multiset(DocLeaves(doc))
            && ParseDoc(root, Encode(node)) == Some(mutations)
  {
    var node := Decode(doc).value;
    DecodeExactly(doc);
    FlattenNodeExactly(root, node);
    if node.Str? {
      RenderTextMutation(root, node.text);
    } else {
      var ms := node.members;
      PruneKeeps(ms);
      LeavesHaveKeys(ms);
      LeavesRebuild(Nil, PruneMembers(ms));
      RenderMutations(root, Leaves(ms), Nil);
      PruneValidKeys(ms);
    }
    DecodeEncode(PruneNode(node));
    FlattenNodeExactly(root, PruneNode(node));
  }

  lemma PruneValidKeys(ms: Members)
    requires ValidKeys(ms)
    ensures ValidKeys(PruneMembers(ms))
  {
    if ms.Cons? {
      PruneValidKeys(ms.rest);
      if ms.node.Obj? { PruneValidKeys(ms.node.members); }
    }
  }
}
