/** Letter case through the JSON codec: one object has one spelling per key, so paths come back
    exactly as stored if and only if the stored paths already agree on their shared ancestors. */
module JsonSpelling {
  import opened Text
  import opened Paths
  import opened Sorting
  import opened Values
  import opened JsonTree
  import opened JsonRender
  import opened JsonParse
  import opened JsonRoundTrip

  /** Wherever two paths name the same ancestor they spell it the same. */
  ghost predicate SpelledAlike(p: seq<string>, q: seq<string>) {
    forall d :: 0 <= d <= |p| && d <= |q| && FoldAll(p)[..d] == FoldAll(q)[..d] ==> p[..d] == q[..d]
  }

  // ---------- A tree spells each ancestor once ----------

  lemma LeafBelowKey<T>(k: string, es: seq<Entry<T>>, a: Entry<T>)
    requires a in Under([k], es)
    ensures a.key != [] && a.key[0] == k && Entry(a.key[1..], a.value) in es
  {
    var i :| 0 <= i < |es| && Under([k], es)[i] == a;
    assert a.key[1..] == es[i].key;
  }

  lemma LeafAbove(ms: Members, k: string, a: Entry<string>)
    requires Above(k, ms) && a in Leaves(ms)
    ensures a.key != [] && StrLt(k, Fold(a.key[0]))
  {
    if a in Leaves(ms.rest) {
      LeafAbove(ms.rest, k, a);
    } else {
      LeafBelowKey(ms.key, LeavesOf(ms.node), a);
    }
  }

  lemma {:induction false} LeavesSpelledAlike(ms: Members, a: Entry<string>, b: Entry<string>)
    requires Ordered(ms) && a in Leaves(ms) && b in Leaves(ms)
    ensures SpelledAlike(a.key, b.key)
    decreases ms
  {
    var here := Under([ms.key], LeavesOf(ms.node));
    if a in here && b in here {
      LeafBelowKey(ms.key, LeavesOf(ms.node), a);
      LeafBelowKey(ms.key, LeavesOf(ms.node), b);
      var a', b' := Entry(a.key[1..], a.value), Entry(b.key[1..], b.value);
      if ms.node.Obj? { LeavesSpelledAlike(ms.node.members, a', b'); }
      assert a.key == [ms.key] + a'.key && b.key == [ms.key] + b'.key;
      AlikeCons(ms.key, a'.key, b'.key);
    } else if a in Leaves(ms.rest) && b in Leaves(ms.rest) {
      LeavesSpelledAlike(ms.rest, a, b);
    } else {
      var low, high := if a in here then a else b, if a in here then b else a;
      LeafBelowKey(ms.key, LeavesOf(ms.node), low);
      LeafAbove(ms.rest, Fold(ms.key), high);
      StrLtTotal(Fold(low.key[0]), Fold(high.key[0]));
      DifferentRootsAlike(a.key, b.key);
    }
  }

  lemma AlikeCons(k: string, p: seq<string>, q: seq<string>)
    ensures SpelledAlike([k] + p, [k] + q) <==> SpelledAlike(p, q)
  {
    FoldAllConcat([k], p);
    FoldAllConcat([k], q);
    assert FoldAll([k]) == [Fold(k)];
    forall d: nat | d <= |p| && d <= |q|
      ensures FoldAll([k] + p)[..d + 1] == FoldAll([k] + q)[..d + 1] <==> FoldAll(p)[..d] == FoldAll(q)[..d]
      ensures ([k] + p)[..d + 1] == ([k] + q)[..d + 1] <==> p[..d] == q[..d]
    {
      assert FoldAll([k] + p)[..d + 1] == [Fold(k)] + FoldAll(p)[..d];
      assert FoldAll([k] + q)[..d + 1] == [Fold(k)] + FoldAll(q)[..d];
      assert ([k] + p)[..d + 1] == [k] + p[..d] && ([k] + q)[..d + 1] == [k] + q[..d];
      ConsEqual(Fold(k), FoldAll(p)[..d], FoldAll(q)[..d]);
      ConsEqual(k, p[..d], q[..d]);
    }
    if SpelledAlike(p, q) {
      forall d | 0 <= d <= |[k] + p| && d <= |[k] + q| && FoldAll([k] + p)[..d] == FoldAll([k] + q)[..d]
        ensures ([k] + p)[..d] == ([k] + q)[..d]
      {
        if d > 0 { var e := d - 1; assert p[..e] == q[..e]; }
      }
    }
    if SpelledAlike([k] + p, [k] + q) {
      forall d | 0 <= d <= |p| && d <= |q| && FoldAll(p)[..d] == FoldAll(q)[..d] ensures p[..d] == q[..d] {
        assert ([k] + p)[..d + 1] == ([k] + q)[..d + 1];
      }
    }
  }

  lemma ConsEqual<T>(k: T, a: seq<T>, b: seq<T>)
    ensures [k] + a == [k] + b <==> a == b
  {
    if [k] + a == [k] + b { assert a == ([k] + a)[1..] && b == ([k] + b)[1..]; }
  }

  lemma DifferentRootsAlike(p: seq<string>, q: seq<string>)
    requires p != [] && q != [] && Fold(p[0]) != Fold(q[0])
    ensures SpelledAlike(p, q)
  {
    forall d | 0 < d <= |p| && d <= |q| ensures FoldAll(p)[..d] != FoldAll(q)[..d] {
      assert FoldAll(p)[..d][0] == Fold(p[0]) && FoldAll(q)[..d][0] == Fold(q[0]);
    }
  }

  // ---------- Inserting values that agree keeps their spelling ----------

  /** The tree already spells the value's ancestors the way the value does. */
  predicate Agrees(ms: Members, segs: seq<string>) {
    segs == [] || ms.Nil?
    || if Fold(ms.key) == Fold(segs[0]) then ms.key == segs[0] && (ms.node.Obj? ==> Agrees(ms.node.members, segs[1..]))
       else Agrees(ms.rest, segs)
  }

  lemma OneMoreUnder(k: string, before: seq<Entry<string>>, after: seq<Entry<string>>, x: Entry<string>)
    requires multiset(after) == multiset(before) + multiset{x}
    ensures multiset(Under([k], after)) == multiset(Under([k], before)) + multiset{Entry([k] + x.key, x.value)}
  {
    assert multiset(after) == multiset(before + [x]);
    UnderMultiset([k], after, before + [x]);
    assert Under([k], before + [x]) == Under([k], before) + [Entry([k] + x.key, x.value)];
  }

  lemma NewKeyLeaves(segs: seq<string>, text: string, rest: Members)
    requires segs != []
    ensures Leaves(Cons(segs[0], Chain(segs[1..], text), rest)) == [Entry(segs, text)] + Leaves(rest)
  {
    ChainLeaves(segs[1..], text);
    assert segs == [segs[0]] + segs[1..];
  }

  lemma MemberLeavesMultiset(k: string, n: Node, rest: Members)
    ensures multiset(Leaves(Cons(k, n, rest))) == multiset(Under([k], LeavesOf(n))) + multiset(Leaves(rest))
  {
  }

  /** How a value is spelled in the tree: ancestors the tree has keep the tree's spelling. */
  function Respell(ms: Members, segs: seq<string>): seq<string> {
    if segs == [] || ms.Nil? || StrLt(Fold(segs[0]), Fold(ms.key)) then segs
    else if Fold(segs[0]) == Fold(ms.key) then
      [ms.key] + if ms.node.Obj? then Respell(ms.node.members, segs[1..]) else segs[1..]
    else Respell(ms.rest, segs)
  }

  lemma {:induction false} RespellFolds(ms: Members, segs: seq<string>)
    ensures |Respell(ms, segs)| == |segs|
    ensures forall i :: 0 <= i < |segs| ==> Fold(Respell(ms, segs)[i]) == Fold(segs[i])
    decreases ms
  {
    if segs == [] || ms.Nil? || StrLt(Fold(segs[0]), Fold(ms.key)) {
    } else if Fold(segs[0]) == Fold(ms.key) {
      if ms.node.Obj? { RespellFolds(ms.node.members, segs[1..]); }
      assert forall i :: 0 < i < |segs| ==> segs[i] == segs[1..][i - 1];
    } else {
      RespellFolds(ms.rest, segs);
    }
  }

  /** Insertion keeps every leaf and adds one, spelled so. */
  lemma {:induction false} InsertRespells(ms: Members, segs: seq<string>, text: string)
    requires Insert(ms, segs, text).Some?
    ensures multiset(Leaves(Insert(ms, segs, text).value)) == multiset(Leaves(ms)) + multiset{Entry(Respell(ms, segs), text)}
    decreases ms
  {
    if ms == Nil || StrLt(Fold(segs[0]), Fold(ms.key)) {
      NewKeyLeaves(segs, text, ms);
    } else if Fold(segs[0]) == Fold(ms.key) {
      var c := Insert(ms.node.members, segs[1..], text).value;
      InsertRespells(ms.node.members, segs[1..], text);
      OneMoreUnder(ms.key, Leaves(ms.node.members), Leaves(c), Entry(Respell(ms.node.members, segs[1..]), text));
      MemberLeavesMultiset(ms.key, ms.node, ms.rest);
      MemberLeavesMultiset(ms.key, Obj(c), ms.rest);
    } else {
      var rest := Insert(ms.rest, segs, text).value;
      InsertRespells(ms.rest, segs, text);
      MemberLeavesMultiset(ms.key, ms.node, ms.rest);
      MemberLeavesMultiset(ms.key, ms.node, rest);
    }
  }

  lemma {:induction false} RespellAgreed(ms: Members, segs: seq<string>)
    requires Agrees(ms, segs)
    ensures Respell(ms, segs) == segs
    decreases ms
  {
    if segs == [] || ms.Nil? || StrLt(Fold(segs[0]), Fold(ms.key)) {
    } else if Fold(segs[0]) == Fold(ms.key) {
      if ms.node.Obj? { RespellAgreed(ms.node.members, segs[1..]); }
      assert segs == [ms.key] + segs[1..];
    } else {
      RespellAgreed(ms.rest, segs);
    }
  }

  lemma InsertKeepsSpelling(ms: Members, segs: seq<string>, text: string)
    requires Agrees(ms, segs) && Insert(ms, segs, text).Some?
    ensures multiset(Leaves(Insert(ms, segs, text).value)) == multiset(Leaves(ms)) + multiset{Entry(segs, text)}
  {
    InsertRespells(ms, segs, text);
    RespellAgreed(ms, segs);
  }

  lemma {:induction false} AlikeAgrees(ms: Members, segs: seq<string>)
    requires Pruned(ms) && forall i :: 0 <= i < |Leaves(ms)| ==> SpelledAlike(Leaves(ms)[i].key, segs)
    ensures Agrees(ms, segs)
    decreases ms
  {
    if segs != [] && ms.Cons? {
      var here := Under([ms.key], LeavesOf(ms.node));
      if Fold(ms.key) == Fold(segs[0]) {
        PrunedHasLeaves(ms);
        var l := Leaves(ms)[0];
        assert FoldAll(l.key)[..1] == [Fold(ms.key)] == FoldAll(segs)[..1];
        assert l.key[..1] == segs[..1];
        assert ms.key == l.key[..1][0] == segs[..1][0] == segs[0];
        assert segs == [ms.key] + segs[1..];
        if ms.node.Obj? {
          forall i | 0 <= i < |Leaves(ms.node.members)|
            ensures SpelledAlike(Leaves(ms.node.members)[i].key, segs[1..])
          {
            assert Leaves(ms)[i] == here[i];
            AlikeCons(ms.key, Leaves(ms.node.members)[i].key, segs[1..]);
          }
          AlikeAgrees(ms.node.members, segs[1..]);
        }
      } else {
        forall i | 0 <= i < |Leaves(ms.rest)| ensures SpelledAlike(Leaves(ms.rest)[i].key, segs) {
          assert Leaves(ms)[|here| + i] == Leaves(ms.rest)[i];
        }
        AlikeAgrees(ms.rest, segs);
      }
    }
  }

  ghost predicate AllAlike<T>(es: seq<Entry<T>>) {
    forall i, j :: 0 <= i < |es| && 0 <= j < |es| ==> SpelledAlike(es[i].key, es[j].key)
  }

  lemma PartsAlike<T>(a: seq<Entry<T>>, es: seq<Entry<T>>, all: seq<Entry<T>>)
    requires AllAlike(all) && multiset(a) + multiset(es) == multiset(all) && es != []
    ensures forall i :: 0 <= i < |a| ==> SpelledAlike(a[i].key, es[0].key)
  {
    assert es[0] in multiset(es);
    assert es[0] in multiset(all);
    forall i | 0 <= i < |a| ensures SpelledAlike(a[i].key, es[0].key) {
      assert a[i] in multiset(a);
      assert a[i] in multiset(all);
    }
  }

  lemma {:induction false} InsertAllKeepsSpelling(ms: Members, es: seq<Entry<string>>, all: seq<Entry<string>>)
    requires Ordered(ms) && Pruned(ms) && NonEmptyKeys(es) && InsertAll(ms, es).Some?
    requires AllAlike(all) && multiset(Leaves(ms)) + multiset(es) == multiset(all)
    ensures multiset(Leaves(InsertAll(ms, es).value)) == multiset(all)
    decreases es
  {
    if es != [] {
      var e := es[0];
      assert es == [e] + es[1..];
      PartsAlike(Leaves(ms), es, all);
      AlikeAgrees(ms, e.key);
      InsertKeepsSpelling(ms, e.key, e.value);
      InsertIsSortedInsertion(ms, e.key, e.value);
      InsertAllKeepsSpelling(Insert(ms, e.key, e.value).value, es[1..], all);
    }
  }

  // ---------- When paths come back exactly as stored ----------

  /** Every value's path starts with the selection as typed, and shared ancestors are spelled alike. */
  ghost predicate ConsistentSpelling(root: ConfigPath, values: seq<SubTreeValue>) {
    && (forall i :: 0 <= i < |values| ==> Segments(root) <= Segments(values[i].path))
    && (forall i, j :: 0 <= i < |values| && 0 <= j < |values| ==>
          SpelledAlike(Segments(values[i].path), Segments(values[j].path)))
  }

  /** What is shown, keyed by the segments below the root as written. */
  function Written(root: ConfigPath, values: seq<SubTreeValue>): (r: seq<Entry<string>>)
    requires AllPlaced(root, values)
    ensures |r| == |values|
    ensures forall i :: 0 <= i < |values| ==>
              r[i] == Entry(Segments(values[i].path)[|Segments(root)|..], DisplayText(values[i].content))
  {
    seq(|values|, i requires 0 <= i < |values| =>
      Entry(Segments(values[i].path)[|Segments(root)|..], DisplayText(values[i].content)))
  }

  lemma StepIsInsert(root: ConfigPath, v: SubTreeValue, tree: Members)
    requires Placed(root, v) && FoldSegments(v.path) != FoldSegments(root)
    ensures var key := Segments(v.path)[|Segments(root)|..];
            && key != []
            && Step(root, v, State(tree, None)) ==
               match Insert(tree, key, DisplayText(v.content)) case None => None case Some(t) => Some(State(t, None))
  {
    FoldEqualIffFoldSegmentsEqual(v.path, root);
    StepBelowRoot(root, v, FoldSegments(v.path)[|FoldSegments(root)|..]);
    JsonSegmentsAreTheRest(root, v.path);
    IsAtOrBelowIsWithin(v.path, root);
  }

  lemma WrittenCons(root: ConfigPath, values: seq<SubTreeValue>)
    requires AllPlaced(root, values) && values != []
    ensures AllPlaced(root, values[1..])
    ensures var es := Written(root, values);
            && es[0] == Entry(Segments(values[0].path)[|Segments(root)|..], DisplayText(values[0].content))
            && es[1..] == Written(root, values[1..])
            && (es[0].key != [] && NonEmptyKeys(es[1..]) ==> NonEmptyKeys(es))
  {
    var es := Written(root, values);
    assert forall i :: 1 <= i < |es| ==> es[i] == es[1..][i - 1];
  }

  lemma {:induction false} RenderIsInsertAll(root: ConfigPath, values: seq<SubTreeValue>, tree: Members)
    requires AllPlaced(root, values) && RenderFrom(root, values, State(tree, None)).Some?
    requires forall i :: 0 <= i < |values| ==> FoldSegments(values[i].path) != FoldSegments(root)
    ensures NonEmptyKeys(Written(root, values))
    ensures var r := InsertAll(tree, Written(root, values));
            r.Some? && RenderFrom(root, values, State(tree, None)) == Some(Obj(r.value))
    decreases values
  {
    if values != [] {
      var v, es := values[0], Written(root, values);
      assert Placed(root, v);
      StepIsInsert(root, v, tree);
      WrittenCons(root, values);
      RenderIsInsertAll(root, values[1..], Insert(tree, es[0].key, es[0].value).value);
    }
  }

  lemma AlikeDropPrefix(p: seq<string>, a: seq<string>, b: seq<string>)
    ensures SpelledAlike(p + a, p + b) <==> SpelledAlike(a, b)
  {
    if p == [] {
      assert p + a == a && p + b == b;
    } else {
      AlikeDropPrefix(p[1..], a, b);
      assert p + a == [p[0]] + (p[1..] + a) && p + b == [p[0]] + (p[1..] + b);
      AlikeCons(p[0], p[1..] + a, p[1..] + b);
    }
  }

  /** Position `i` of the parsed mutations, the leaves and the sorted values all speak of one value. */
  lemma ParsedPath(root: ConfigPath, values: seq<SubTreeValue>, i: nat)
    requires Render(root, values).Some? && NulFree(values) && i < |values|
    ensures ParseDoc(root, Encode(Render(root, values).value)).Some?
    ensures var parsed := ParseDoc(root, Encode(Render(root, values).value)).value;
            var leaves, sorted := LeavesOf(Render(root, values).value), StableSort(ByPath(values));
            && |parsed| == |leaves| == |sorted| == |values|
            && ValidSegments(leaves[i].key)
            && Segments(parsed[i].path) == Segments(root) + leaves[i].key
            && sorted[i].key == FoldSegments(root) + FoldAll(leaves[i].key)
            && exists m :: 0 <= m < |values| && sorted[i] == ByPath(values)[m]
  {
    ForwardRoundTrip(root, values);
    RenderExactly(root, values);
    var node := Render(root, values).value;
    DecodeEncode(node);
    FlattenNodeExactly(root, node);
    SortedHasEveryValue(values);
    var leaves, sorted := LeavesOf(node), StableSort(ByPath(values));
    assert |leaves| == |Under(FoldSegments(root), Folded(leaves))|;
    assert Under(FoldSegments(root), Folded(leaves))[i].key == Shown(sorted)[i].key;
  }

  ghost predicate PathsRestored(root: ConfigPath, values: seq<SubTreeValue>)
    requires Render(root, values).Some?
  {
    var parsed := ParseDoc(root, Encode(Render(root, values).value));
    var sorted := StableSort(ByPath(values));
    parsed.Some? && |parsed.value| == |sorted|
    && forall i :: 0 <= i < |sorted| ==> parsed.value[i].path == sorted[i].value.path
  }

  lemma RestoredSpelling(root: ConfigPath, values: seq<SubTreeValue>, a: nat)
      returns (k: nat)
    requires Render(root, values).Some? && NulFree(values) && PathsRestored(root, values) && a < |values|
    ensures k < |LeavesOf(Render(root, values).value)|
    ensures Segments(values[a].path) == Segments(root) + LeavesOf(Render(root, values).value)[k].key
  {
    SortedHasEveryValue(values);
    var sorted := StableSort(ByPath(values));
    k :| 0 <= k < |sorted| && sorted[k] == ByPath(values)[a];
    ParsedPath(root, values, k);
  }

  lemma RestoredIsConsistent(root: ConfigPath, values: seq<SubTreeValue>)
    requires Render(root, values).Some? && NulFree(values) && PathsRestored(root, values)
    ensures ConsistentSpelling(root, values)
  {
    var leaves := LeavesOf(Render(root, values).value);
    RenderExactly(root, values);
    forall a | 0 <= a < |values| ensures Segments(root) <= Segments(values[a].path) {
      var k := RestoredSpelling(root, values, a);
    }
    forall a, b | 0 <= a < |values| && 0 <= b < |values|
      ensures SpelledAlike(Segments(values[a].path), Segments(values[b].path))
    {
      var k := RestoredSpelling(root, values, a);
      var l := RestoredSpelling(root, values, b);
      if Render(root, values).value.Obj? {
        LeavesSpelledAlike(Render(root, values).value.members, leaves[k], leaves[l]);
      }
      AlikeDropPrefix(Segments(root), leaves[k].key, leaves[l].key);
    }
  }

  lemma ObjectHasNoRootValue(root: ConfigPath, values: seq<SubTreeValue>, a: nat)
    requires Render(root, values).Some? && Render(root, values).value.Obj? && a < |values|
    ensures FoldSegments(values[a].path) != FoldSegments(root)
  {
    var leaves, sorted := LeavesOf(Render(root, values).value), StableSort(ByPath(values));
    LeavesHaveKeys(Render(root, values).value.members);
    LeavesShowSorted(root, values);
    SortedHasEveryValue(values);
    var k :| 0 <= k < |sorted| && sorted[k] == ByPath(values)[a];
    assert |FoldAll(leaves[k].key)| == |leaves[k].key| > 0;
    assert |sorted[k].key| > |FoldSegments(root)|;
  }

  lemma WrittenPairAlike(root: ConfigPath, values: seq<SubTreeValue>, i: nat, j: nat)
    requires AllPlaced(root, values) && ConsistentSpelling(root, values) && i < |values| && j < |values|
    ensures SpelledAlike(Written(root, values)[i].key, Written(root, values)[j].key)
  {
    SuffixesAlike(Segments(root), Segments(values[i].path), Segments(values[j].path));
  }

  lemma SuffixesAlike(r: seq<string>, p: seq<string>, q: seq<string>)
    requires r <= p && r <= q && SpelledAlike(p, q)
    ensures SpelledAlike(p[|r|..], q[|r|..])
  {
    var a, b := p[|r|..], q[|r|..];
    assert p == r + a;
    assert q == r + b;
    assert SpelledAlike(r + a, r + b);
    AlikeDropPrefix(r, a, b);
  }

  lemma WrittenAlike(root: ConfigPath, values: seq<SubTreeValue>)
    requires AllPlaced(root, values) && ConsistentSpelling(root, values)
    ensures AllAlike(Written(root, values))
  {
    var es := Written(root, values);
    forall i, j | 0 <= i < |es| && 0 <= j < |es| ensures SpelledAlike(es[i].key, es[j].key) {
      WrittenPairAlike(root, values, i, j);
    }
  }

  lemma ConsistentLeaves(root: ConfigPath, values: seq<SubTreeValue>)
    requires Render(root, values).Some? && NulFree(values) && ConsistentSpelling(root, values)
    requires Render(root, values).value.Obj?
    ensures AllPlaced(root, values)
    ensures multiset(LeavesOf(Render(root, values).value)) == multiset(Written(root, values))
  {
    RenderExactly(root, values);
    forall a | 0 <= a < |values| ensures FoldSegments(values[a].path) != FoldSegments(root) {
      ObjectHasNoRootValue(root, values, a);
    }
    var es := Written(root, values);
    RenderIsInsertAll(root, values, Nil);
    WrittenAlike(root, values);
    assert Leaves(Nil) == [];
    InsertAllKeepsSpelling(Nil, es, es);
  }

  lemma OneValuePerPath(values: seq<SubTreeValue>, a: nat, b: nat)
    requires NoCollisions(values) && a < |values| && b < |values|
    requires FoldSegments(values[a].path) == FoldSegments(values[b].path)
    ensures a == b
  {
    assert Conflict(FoldSegments(values[a].path), FoldSegments(values[b].path));
    assert Conflict(FoldSegments(values[b].path), FoldSegments(values[a].path));
  }

  lemma WrittenFold(root: ConfigPath, path: ConfigPath, key: seq<string>)
    requires Segments(root) <= Segments(path) && key == Segments(path)[|Segments(root)|..]
    ensures Segments(path) == Segments(root) + key
    ensures FoldSegments(path) == FoldSegments(root) + FoldAll(key)
  {
    assert Segments(path) == Segments(root) + key;
    FoldAllConcat(Segments(root), key);
  }

  /** No two values share a path, so a leaf written like one value is that value. */
  lemma WrittenPath(root: ConfigPath, values: seq<SubTreeValue>, w: nat, m: nat)
    requires AllPlaced(root, values) && NoCollisions(values) && w < |values| && m < |values|
    requires Segments(root) <= Segments(values[w].path)
    requires FoldSegments(values[m].path) == FoldSegments(root) + FoldAll(Written(root, values)[w].key)
    ensures Segments(values[m].path) == Segments(root) + Written(root, values)[w].key
  {
    WrittenFold(root, values[w].path, Written(root, values)[w].key);
    OneValuePerPath(values, w, m);
  }

  lemma ConsistentLeafPath(root: ConfigPath, values: seq<SubTreeValue>, e: Entry<string>, m: nat)
    requires Render(root, values).Some? && NulFree(values) && ConsistentSpelling(root, values) && m < |values|
    requires Render(root, values).value.Obj? && e in LeavesOf(Render(root, values).value)
    requires FoldSegments(values[m].path) == FoldSegments(root) + FoldAll(e.key)
    ensures Segments(values[m].path) == Segments(root) + e.key
  {
    RenderExactly(root, values);
    ConsistentLeaves(root, values);
    assert e in multiset(LeavesOf(Render(root, values).value));
    assert e in multiset(Written(root, values));
    var w :| 0 <= w < |values| && Written(root, values)[w] == e;
    WrittenPath(root, values, w, m);
  }

  lemma ConsistentRootPath(root: ConfigPath, values: seq<SubTreeValue>, m: nat)
    requires ConsistentSpelling(root, values) && m < |values|
    ensures FoldSegments(values[m].path) == FoldSegments(root) ==> Segments(values[m].path) == Segments(root)
  {
    assert Segments(root) <= Segments(values[m].path);
  }

  lemma ConsistentPath(root: ConfigPath, values: seq<SubTreeValue>, i: nat)
    requires Render(root, values).Some? && NulFree(values) && ConsistentSpelling(root, values) && i < |values|
    ensures ParseDoc(root, Encode(Render(root, values).value)).Some?
    ensures |ParseDoc(root, Encode(Render(root, values).value)).value| == |values|
    ensures ParseDoc(root, Encode(Render(root, values).value)).value[i].path == StableSort(ByPath(values))[i].value.path
  {
    ParsedPath(root, values, i);
    RenderExactly(root, values);
    var node, sorted := Render(root, values).value, StableSort(ByPath(values));
    var m :| 0 <= m < |values| && sorted[i] == ByPath(values)[m];
    var e := LeavesOf(node)[i];
    if node.Str? {
      ConsistentRootPath(root, values, m);
      assert e.key == [];
    } else {
      ConsistentLeafPath(root, values, e, m);
    }
    SegmentsInjective(ParseDoc(root, Encode(node)).value[i].path, values[m].path);
  }

  /** Rendering and parsing back restores every path exactly as stored if and only if the stored
      paths spell the selection and their shared ancestors alike. */
  lemma SpellingRestoredExactly(root: ConfigPath, values: seq<SubTreeValue>)
    requires Render(root, values).Some? && NulFree(values)
    ensures PathsRestored(root, values) <==> ConsistentSpelling(root, values)
  {
    if PathsRestored(root, values) { RestoredIsConsistent(root, values); }
    if ConsistentSpelling(root, values) {
      ForwardRoundTrip(root, values);
      forall i | 0 <= i < |values|
        ensures ParseDoc(root, Encode(Render(root, values).value)).value[i].path == StableSort(ByPath(values))[i].value.path
      {
        ConsistentPath(root, values, i);
      }
    }
  }

  /** It does fail: two values that disagree on an ancestor's letter case come back respelled. */
  lemma MixedCaseComesBackRespelled(p: ConfigPath, q: ConfigPath)
    requires |Segments(p)| == |Segments(q)| == 2 && Fold(Segments(p)[1]) != Fold(Segments(q)[1])
    requires Fold(Segments(p)[0]) == Fold(Segments(q)[0]) && Segments(p)[0] != Segments(q)[0]
    ensures var values := [SubTreeValue(p, Plain("1")), SubTreeValue(q, Plain("2"))];
            Render("/", values).Some? && NulFree(values) && !PathsRestored("/", values)
  {
    var values := [SubTreeValue(p, Plain("1")), SubTreeValue(q, Plain("2"))];
    BothPlaced(p, q, values);
    RenderExactly("/", values);
    SpellingRestoredExactly("/", values);
    assert ConsistentSpelling("/", values) ==> SpelledAlike(Segments(values[0].path), Segments(values[1].path));
    DisagreeAtOne(Segments(p), Segments(q));
  }

  lemma BothPlaced(p: ConfigPath, q: ConfigPath, values: seq<SubTreeValue>)
    requires |Segments(p)| == |Segments(q)| == 2 && Fold(Segments(p)[1]) != Fold(Segments(q)[1])
    requires values == [SubTreeValue(p, Plain("1")), SubTreeValue(q, Plain("2"))]
    ensures AllPlaced("/", values) && NoCollisions(values) && NulFree(values)
  {
    var a, b := FoldSegments(p), FoldSegments(q);
    assert a[1] == Fold(Segments(p)[1]) && b[1] == Fold(Segments(q)[1]);
    assert !(a <= b) && !(b <= a);
    assert FoldSegments("/") == [];
  }

  lemma AppSegments()
    ensures ValidSegment("App") && ValidSegment("app") && ValidSegment("x") && ValidSegment("y")
  {
  }

  lemma MixedCaseSegments(a: string, x: string, b: string, y: string)
    requires ValidSegments([a, x]) && ValidSegments([b, y]) && Fold(a) == Fold(b) && a != b && Fold(x) != Fold(y)
    ensures var values := [SubTreeValue(PathOf([a, x]), Plain("1")), SubTreeValue(PathOf([b, y]), Plain("2"))];
            Render("/", values).Some? && NulFree(values) && !PathsRestored("/", values)
  {
    MixedCaseComesBackRespelled(PathOf([a, x]), PathOf([b, y]));
  }

  /** The input: `/App/x` and `/app/y`. */
  lemma MixedCaseAtApp()
    ensures ValidSegments(["App", "x"]) && ValidSegments(["app", "y"])
    ensures var values := [SubTreeValue(PathOf(["App", "x"]), Plain("1")), SubTreeValue(PathOf(["app", "y"]), Plain("2"))];
            Render("/", values).Some? && NulFree(values) && !PathsRestored("/", values)
  {
    AppSegments();
    AppFolds();
    MixedCaseSegments("App", "x", "app", "y");
  }

  lemma AppFolds()
    ensures Fold("App") == Fold("app") && "App" != "app" && Fold("x") != Fold("y")
  {
    assert Fold("App") == "app" && Fold("app") == "app" && "App"[0] != "app"[0];
    assert Fold("x")[0] == 'x' && Fold("y")[0] == 'y';
  }

  lemma DisagreeAtOne(p: seq<string>, q: seq<string>)
    requires p != [] && q != [] && Fold(p[0]) == Fold(q[0]) && p[0] != q[0]
    ensures !SpelledAlike(p, q)
  {
    assert FoldAll(p)[..1] == [Fold(p[0])] && FoldAll(q)[..1] == [Fold(q[0])];
    assert p[..1] == [p[0]] && q[..1] == [q[0]];
  }
}
