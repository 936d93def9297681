/** Which spelling a rendered key gets: when values disagree on the letter case of a shared
    ancestor, the first of them to arrive decides. */
module JsonFirstSpelling {
  import opened Text
  import opened Paths
  import opened Sorting
  import opened Values
  import opened JsonTree
  import opened JsonRender
  import opened JsonRoundTrip
  import opened JsonSpelling

  /** The first `d` segments are the same up to case. */
  predicate Shares(p: seq<string>, q: seq<string>, d: nat) {
    d <= |p| && d <= |q| && forall i :: 0 <= i < d ==> Fold(p[i]) == Fold(q[i])
  }

  /** Entry `i` is the first below the ancestor that `key` has at depth `d`. */
  predicate FirstBelow(es: seq<Entry<string>>, key: seq<string>, d: nat, i: nat) {
    i < |es| && Shares(es[i].key, key, d) && forall j :: 0 <= j < i ==> !Shares(es[j].key, key, d)
  }

  /** The segment ending that ancestor is spelled as the first entry below it spells it. */
  ghost predicate SpelledAt(es: seq<Entry<string>>, key: seq<string>, d: nat)
    requires 1 <= d <= |key|
  {
    exists i: nat :: FirstBelow(es, key, d, i) && es[i].key[d - 1] == key[d - 1]
  }

  ghost predicate SpelledByFirst(es: seq<Entry<string>>, key: seq<string>) {
    forall d :: 1 <= d <= |key| ==> SpelledAt(es, key, d)
  }

  // ---------- What respelling does, segment by segment ----------

  lemma SharedIsSlice(p: seq<string>, q: seq<string>, d: nat)
    requires Shares(p, q, d)
    ensures FoldAll(p)[..d] == FoldAll(q)[..d]
  {
  }

  /** A spelling shared by the tree's leaves is one the tree gives the new leaf. */
  lemma AlikeSegment(p: seq<string>, q: seq<string>, d: nat)
    requires SpelledAlike(p, q) && Shares(p, q, d) && 1 <= d
    ensures p[d - 1] == q[d - 1]
  {
    SharedIsSlice(p, q, d);
    assert p[..d] == q[..d];
    assert p[d - 1] == p[..d][d - 1] && q[d - 1] == q[..d][d - 1];
  }

  predicate SomeShares(es: seq<Entry<string>>, key: seq<string>, d: nat) {
    exists i :: 0 <= i < |es| && Shares(es[i].key, key, d)
  }

  lemma SomeSharesConcat(a: seq<Entry<string>>, b: seq<Entry<string>>, key: seq<string>, d: nat)
    ensures SomeShares(a, key, d) || SomeShares(b, key, d) ==> SomeShares(a + b, key, d)
  {
    if SomeShares(a, key, d) {
      var i :| 0 <= i < |a| && Shares(a[i].key, key, d);
      assert (a + b)[i] == a[i];
    }
    if SomeShares(b, key, d) {
      var i :| 0 <= i < |b| && Shares(b[i].key, key, d);
      assert (a + b)[|a| + i] == b[i];
    }
  }

  lemma SharesCons(k: string, p: seq<string>, q: seq<string>, d: nat)
    requires q != [] && Fold(k) == Fold(q[0]) && Shares(p, q[1..], d)
    ensures Shares([k] + p, q, d + 1)
  {
    forall i | 0 <= i < d + 1 ensures Fold(([k] + p)[i]) == Fold(q[i]) {
      if i > 0 { assert ([k] + p)[i] == p[i - 1] && q[i] == q[1..][i - 1]; }
    }
  }

  lemma SomeSharesUnder(k: string, es: seq<Entry<string>>, key: seq<string>, d: nat)
    requires key != [] && Fold(k) == Fold(key[0]) && SomeShares(es, key[1..], d)
    ensures SomeShares(Under([k], es), key, d + 1)
  {
    var i :| 0 <= i < |es| && Shares(es[i].key, key[1..], d);
    SharesCons(k, es[i].key, key, d);
    assert Under([k], es)[i].key == [k] + es[i].key;
  }

  /** A segment is respelled only below an ancestor some leaf already has. */
  lemma {:induction false} RespelledIsShared(ms: Members, segs: seq<string>, d: nat)
    requires Pruned(ms) && 1 <= d <= |segs| == |Respell(ms, segs)| && Respell(ms, segs)[d - 1] != segs[d - 1]
    ensures SomeShares(Leaves(ms), segs, d)
    decreases ms
  {
    var here := Under([ms.key], LeavesOf(ms.node));
    assert Leaves(ms) == here + Leaves(ms.rest);
    if Fold(segs[0]) == Fold(ms.key) {
      if d == 1 {
        FirstLeafShares(ms.key, ms.node, segs);
      } else {
        assert segs[d - 1] == segs[1..][d - 2];
        assert ms.node.Obj?;
        RespelledIsShared(ms.node.members, segs[1..], d - 1);
        SomeSharesUnder(ms.key, LeavesOf(ms.node), segs, d - 1);
      }
    } else {
      RespelledIsShared(ms.rest, segs, d);
    }
    SomeSharesConcat(here, Leaves(ms.rest), segs, d);
  }

  lemma FirstLeafShares(k: string, n: Node, segs: seq<string>)
    requires PrunedNode(n) && segs != [] && Fold(segs[0]) == Fold(k)
    ensures SomeShares(Under([k], LeavesOf(n)), segs, 1)
  {
    if n.Obj? { PrunedHasLeaves(n.members); }
    var leaves := LeavesOf(n);
    assert |leaves| > 0;
    assert Under([k], leaves)[0].key == [k] + leaves[0].key;
    assert Shares(Under([k], leaves)[0].key, segs, 1);
  }

  // ---------- Building from a list ----------

  ghost predicate HasLeaf(ms: Members, key: seq<string>) {
    exists i :: 0 <= i < |Leaves(ms)| && FoldAll(Leaves(ms)[i].key) == FoldAll(key)
  }

  /** The tree holds the entries, each leaf spelled by the first of them below each ancestor. */
  ghost predicate Built(es: seq<Entry<string>>, ms: Members) {
    && (forall i :: 0 <= i < |Leaves(ms)| ==> SpelledByFirst(es, Leaves(ms)[i].key))
    && (forall j :: 0 <= j < |es| ==> HasLeaf(ms, es[j].key))
  }

  lemma FirstBelowSnoc(es: seq<Entry<string>>, e: Entry<string>, key: seq<string>, d: nat, i: nat)
    requires FirstBelow(es, key, d, i)
    ensures FirstBelow(es + [e], key, d, i)
  {
    assert (es + [e])[i] == es[i] && forall j :: 0 <= j < i ==> (es + [e])[j] == es[j];
  }

  lemma SpelledSnoc(es: seq<Entry<string>>, e: Entry<string>, key: seq<string>)
    requires SpelledByFirst(es, key)
    ensures SpelledByFirst(es + [e], key)
  {
    forall d | 1 <= d <= |key| ensures SpelledAt(es + [e], key, d) {
      assert SpelledAt(es, key, d);
      var i: nat :| FirstBelow(es, key, d, i) && es[i].key[d - 1] == key[d - 1];
      FirstBelowSnoc(es, e, key, d, i);
      assert (es + [e])[i] == es[i];
    }
  }

  lemma SharesFold(p: seq<string>, q: seq<string>, r: seq<string>, d: nat)
    requires Shares(p, q, d) && |q| == |r| && forall i :: 0 <= i < |q| ==> Fold(q[i]) == Fold(r[i])
    ensures Shares(p, r, d)
  {
  }

  lemma FoldEqual(p: seq<string>, q: seq<string>)
    requires FoldAll(p) == FoldAll(q)
    ensures |p| == |q| && forall i :: 0 <= i < |p| ==> Fold(p[i]) == Fold(q[i])
  {
    assert |p| == |FoldAll(p)| == |q|;
    assert forall i :: 0 <= i < |p| ==> FoldAll(p)[i] == FoldAll(q)[i];
  }

  /** The new leaf at a depth where some leaf already shares the ancestor. */
  lemma NewLeafShared(es: seq<Entry<string>>, ms: Members, e: Entry<string>, d: nat, a: Entry<string>)
    requires Ordered(ms) && Pruned(ms) && e.key != [] && Insert(ms, e.key, e.value).Some?
    requires a in Leaves(ms) && SpelledByFirst(es, a.key) && 1 <= d && Shares(a.key, Respell(ms, e.key), d)
    ensures d <= |Respell(ms, e.key)| && SpelledAt(es + [e], Respell(ms, e.key), d)
  {
    var key := Respell(ms, e.key);
    var ms' := Insert(ms, e.key, e.value).value;
    InsertIsSortedInsertion(ms, e.key, e.value);
    InsertRespells(ms, e.key, e.value);
    assert a in multiset(Leaves(ms')) && Entry(key, e.value) in multiset(Leaves(ms'));
    LeavesSpelledAlike(ms', a, Entry(key, e.value));
    AlikeSegment(a.key, key, d);
    assert SpelledAt(es, a.key, d);
    var i: nat :| FirstBelow(es, a.key, d, i) && es[i].key[d - 1] == a.key[d - 1];
    SameFirst(es, a.key, key, d, i);
    FirstBelowSnoc(es, e, key, d, i);
    assert (es + [e])[i] == es[i];
  }

  lemma SameFirst(es: seq<Entry<string>>, p: seq<string>, q: seq<string>, d: nat, i: nat)
    requires FirstBelow(es, p, d, i) && Shares(p, q, d)
    ensures FirstBelow(es, q, d, i)
  {
    forall j | 0 <= j < i ensures !Shares(es[j].key, q, d) {
      assert !Shares(es[j].key, p, d);
    }
  }

  /** The new leaf at a depth where none does: its own entry is the first, and spells it. */
  lemma NewLeafAlone(es: seq<Entry<string>>, ms: Members, e: Entry<string>, d: nat)
    requires Pruned(ms) && Built(es, ms) && 1 <= d <= |e.key|
    requires !SomeShares(Leaves(ms), e.key, d)
    ensures d <= |Respell(ms, e.key)| && SpelledAt(es + [e], Respell(ms, e.key), d)
  {
    var key, more := Respell(ms, e.key), es + [e];
    RespellFolds(ms, e.key);
    if key[d - 1] != e.key[d - 1] { RespelledIsShared(ms, e.key, d); }
    forall j | 0 <= j < |es| ensures !Shares(more[j].key, key, d) {
      assert more[j] == es[j] && HasLeaf(ms, es[j].key);
      var i :| 0 <= i < |Leaves(ms)| && FoldAll(Leaves(ms)[i].key) == FoldAll(es[j].key);
      FoldEqual(Leaves(ms)[i].key, es[j].key);
      assert !Shares(Leaves(ms)[i].key, e.key, d);
    }
    assert more[|es|] == e && Shares(e.key, key, d);
    assert FirstBelow(more, key, d, |es|);
  }

  lemma NewLeafSpelled(es: seq<Entry<string>>, ms: Members, e: Entry<string>)
    requires Ordered(ms) && Pruned(ms) && Built(es, ms) && e.key != [] && Insert(ms, e.key, e.value).Some?
    ensures SpelledByFirst(es + [e], Respell(ms, e.key))
  {
    var key := Respell(ms, e.key);
    RespellFolds(ms, e.key);
    forall d | 1 <= d <= |key| ensures SpelledAt(es + [e], key, d) {
      if SomeShares(Leaves(ms), e.key, d) {
        var i :| 0 <= i < |Leaves(ms)| && Shares(Leaves(ms)[i].key, e.key, d);
        SharesFold(Leaves(ms)[i].key, e.key, key, d);
        NewLeafShared(es, ms, e, d, Leaves(ms)[i]);
      } else {
        NewLeafAlone(es, ms, e, d);
      }
    }
  }

  lemma HasLeafGrows(ms: Members, ms': Members, x: Entry<string>, key: seq<string>)
    requires multiset(Leaves(ms')) == multiset(Leaves(ms)) + multiset{x}
    ensures HasLeaf(ms, key) || FoldAll(x.key) == FoldAll(key) ==> HasLeaf(ms', key)
  {
    if HasLeaf(ms, key) {
      var i :| 0 <= i < |Leaves(ms)| && FoldAll(Leaves(ms)[i].key) == FoldAll(key);
      assert Leaves(ms)[i] in multiset(Leaves(ms'));
    }
    if FoldAll(x.key) == FoldAll(key) { assert x in multiset(Leaves(ms')); }
  }

  lemma InsertBuilds(es: seq<Entry<string>>, ms: Members, e: Entry<string>)
    requires Ordered(ms) && Pruned(ms) && Built(es, ms) && e.key != [] && Insert(ms, e.key, e.value).Some?
    ensures Built(es + [e], Insert(ms, e.key, e.value).value)
  {
    var ms', x := Insert(ms, e.key, e.value).value, Entry(Respell(ms, e.key), e.value);
    InsertRespells(ms, e.key, e.value);
    NewLeafSpelled(es, ms, e);
    forall i | 0 <= i < |Leaves(ms')| ensures SpelledByFirst(es + [e], Leaves(ms')[i].key) {
      assert Leaves(ms')[i] in multiset(Leaves(ms'));
      if Leaves(ms')[i] != x {
        assert Leaves(ms')[i] in multiset(Leaves(ms));
        var j :| 0 <= j < |Leaves(ms)| && Leaves(ms)[j] == Leaves(ms')[i];
        SpelledSnoc(es, e, Leaves(ms)[j].key);
      }
    }
    forall j | 0 <= j < |es + [e]| ensures HasLeaf(ms', (es + [e])[j].key) {
      RespellFolds(ms, e.key);
      assert FoldAll(x.key) == FoldAll(e.key);
      if j < |es| { assert (es + [e])[j] == es[j] && HasLeaf(ms, es[j].key); }
      HasLeafGrows(ms, ms', x, (es + [e])[j].key);
    }
  }

  lemma {:induction false} InsertAllBuilds(done: seq<Entry<string>>, ms: Members, es: seq<Entry<string>>)
    requires Ordered(ms) && Pruned(ms) && Built(done, ms) && NonEmptyKeys(es) && InsertAll(ms, es).Some?
    ensures Built(done + es, InsertAll(ms, es).value)
    decreases es
  {
    if es == [] {
      assert done + es == done;
    } else {
      InsertIsSortedInsertion(ms, es[0].key, es[0].value);
      InsertBuilds(done, ms, es[0]);
      InsertAllBuilds(done + [es[0]], Insert(ms, es[0].key, es[0].value).value, es[1..]);
      assert done + [es[0]] + es[1..] == done + es;
    }
  }

  /** Every key of a rendered tree is spelled as in the first value, in the order given, below it. */
  lemma FirstSpellingWins(root: ConfigPath, values: seq<SubTreeValue>, i: nat)
    requires Render(root, values).Some? && Render(root, values).value.Obj?
    requires i < |LeavesOf(Render(root, values).value)|
    ensures AllPlaced(root, values)
    ensures SpelledByFirst(Written(root, values), LeavesOf(Render(root, values).value)[i].key)
  {
    RenderExactly(root, values);
    forall a | 0 <= a < |values| ensures FoldSegments(values[a].path) != FoldSegments(root) {
      ObjectHasNoRootValue(root, values, a);
    }
    RenderIsInsertAll(root, values, Nil);
    var es := Written(root, values);
    assert Leaves(Nil) == [] && Built([], Nil);
    InsertAllBuilds([], Nil, es);
    assert [] + es == es;
  }
}
