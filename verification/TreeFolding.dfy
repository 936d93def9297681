/** Trees compared up to the letter case of their keys, and the consequence that rendering does not
    depend on the order values arrive in. */
module TreeFolding {
  import opened Text
  import opened Paths
  import opened Sorting
  import opened Values
  import opened JsonTree
  import opened JsonRender

  function FoldKeys(ms: Members): Members {
    match ms
    case Nil => Nil
    case Cons(k, n, rest) => Cons(Fold(k), FoldNode(n), FoldKeys(rest))
  }

  function FoldNode(n: Node): Node {
    match n
    case Str(_) => n
    case Obj(ms) => Obj(FoldKeys(ms))
  }

  lemma FoldKeysAbove(k: string, ms: Members)
    ensures Above(k, FoldKeys(ms)) <==> Above(k, ms)
  {
    if ms.Cons? { FoldIdempotent(ms.key); }
  }

  lemma {:induction false} FoldKeysShape(ms: Members)
    ensures Ordered(ms) ==> Ordered(FoldKeys(ms))
    ensures Pruned(ms) ==> Pruned(FoldKeys(ms))
    ensures Leaves(FoldKeys(ms)) == FoldLeaves(ms)
    decreases ms
  {
    if ms == Nil {
      assert FoldLeaves(ms) == [];
    } else {
      FoldIdempotent(ms.key);
      FoldKeysAbove(Fold(ms.key), ms.rest);
      FoldKeysShape(ms.rest);
      FoldLeavesCons(ms.key, ms.node, ms.rest);
      if ms.node.Obj? {
        FoldKeysShape(ms.node.members);
        assert Ordered(ms) ==> OrderedNode(ms.node);
        assert Pruned(ms) ==> PrunedNode(ms.node);
      } else {
        assert Folded(LeavesOf(ms.node)) == LeavesOf(ms.node) by { assert FoldAll([]) == []; }
      }
    }
  }

  lemma FoldNodeShape(n: Node)
    requires OrderedNode(n) && PrunedTop(n)
    ensures OrderedNode(FoldNode(n)) && PrunedTop(FoldNode(n)) && LeavesOf(FoldNode(n)) == Folded(LeavesOf(n))
  {
    if n.Obj? {
      FoldKeysShape(n.members);
    } else {
      assert FoldAll([]) == [];
    }
  }

  lemma ObjectsHaveKeys(n: Node)
    ensures n.Obj? <==> NonEmptyKeys(LeavesOf(n))
  {
    if n.Obj? { LeavesHaveKeys(n.members); } else { assert LeavesOf(n)[0].key == []; }
  }

  /** A tree without empty objects is determined by its leaves. */
  lemma SameLeavesSameTree(a: Node, b: Node)
    requires OrderedNode(a) && PrunedTop(a) && OrderedNode(b) && PrunedTop(b)
    requires LeavesOf(a) == LeavesOf(b)
    ensures a == b
  {
    assert a.Obj? <==> NonEmptyKeys(LeavesOf(a)) by { ObjectsHaveKeys(a); }
    assert b.Obj? <==> NonEmptyKeys(LeavesOf(b)) by { ObjectsHaveKeys(b); }
    if a.Obj? {
      LeavesRebuild(Nil, a.members);
      LeavesRebuild(Nil, b.members);
    }
  }

  // ---------- Order of arrival ----------

  lemma ByPathCons(v: SubTreeValue, values: seq<SubTreeValue>)
    ensures ByPath([v] + values) == [Entry(FoldSegments(v.path), v)] + ByPath(values)
  {
  }

  lemma {:induction false} ByPathCount(values: seq<SubTreeValue>, e: Entry<SubTreeValue>)
    ensures multiset(ByPath(values))[e] == if e.key == FoldSegments(e.value.path) then multiset(values)[e.value] else 0
  {
    if values == [] {
      assert ByPath(values) == [];
    } else {
      var v, rest := values[0], values[1..];
      assert values == [v] + rest;
      ByPathCount(rest, e);
      ByPathCons(v, rest);
      CountCons(v, rest, e.value);
      CountCons(Entry(FoldSegments(v.path), v), ByPath(rest), e);
    }
  }

  lemma CountCons<T>(h: T, s: seq<T>, x: T)
    ensures multiset([h] + s)[x] == multiset(s)[x] + if h == x then 1 else 0
  {
  }

  lemma ByPathPermutes(a: seq<SubTreeValue>, b: seq<SubTreeValue>)
    requires multiset(a) == multiset(b)
    ensures multiset(ByPath(a)) == multiset(ByPath(b))
  {
    forall e ensures multiset(ByPath(a))[e] == multiset(ByPath(b))[e] {
      ByPathCount(a, e);
      ByPathCount(b, e);
    }
  }

  lemma CountAtLeast<T>(s: seq<T>, i: nat, j: nat)
    requires i < j < |s| && s[i] == s[j]
    ensures multiset(s)[s[i]] >= 2
  {
    assert s == s[..j] + [s[j]] + s[j + 1..];
    assert s[..j][i] == s[i];
    assert s[i] in multiset(s[..j]);
  }

  lemma TwoOccurrences<T>(s: seq<T>, x: T) returns (i: nat, j: nat)
    requires multiset(s)[x] >= 2
    ensures i < j < |s| && s[i] == s[j] == x
  {
    assert x in multiset(s);
    i :| 0 <= i < |s| && s[i] == x && x !in s[..i] by { FirstOccurrence(s, x); }
    assert s == s[..i] + [x] + s[i + 1..];
    assert multiset(s) == multiset(s[..i]) + multiset{x} + multiset(s[i + 1..]);
    assert x in multiset(s[i + 1..]);
    var k :| 0 <= k < |s[i + 1..]| && s[i + 1..][k] == x;
    j := i + 1 + k;
  }

  lemma FirstOccurrence<T>(s: seq<T>, x: T)
    requires x in s
    ensures exists i :: 0 <= i < |s| && s[i] == x && x !in s[..i]
  {
    if s[0] == x {
      assert s[..0] == [];
    } else {
      FirstOccurrence(s[1..], x);
      var i :| 0 <= i < |s[1..]| && s[1..][i] == x && x !in s[1..][..i];
      assert s[..i + 1] == [s[0]] + s[1..][..i];
      assert s[i + 1] == x && x !in s[..i + 1];
    }
  }

  /** Collisions are a matter of which values there are, not of where they are in the list. */
  ghost predicate CollisionFree(values: multiset<SubTreeValue>) {
    && (forall v :: values[v] <= 1)
    && (forall v, w :: v in values && w in values && v != w ==> !Conflict(FoldSegments(v.path), FoldSegments(w.path)))
  }

  lemma NoCollisionsAsMultiset(values: seq<SubTreeValue>)
    ensures NoCollisions(values) <==> CollisionFree(multiset(values))
  {
    if NoCollisions(values) {
      forall v ensures multiset(values)[v] <= 1 {
        if multiset(values)[v] >= 2 {
          var i, j := TwoOccurrences(values, v);
          assert false;
        }
      }
      forall v, w | v in multiset(values) && w in multiset(values) && v != w
        ensures !Conflict(FoldSegments(v.path), FoldSegments(w.path))
      {
        var i :| 0 <= i < |values| && values[i] == v;
        var j :| 0 <= j < |values| && values[j] == w;
        assert i != j;
        if i < j {
          assert !Conflict(FoldSegments(values[i].path), FoldSegments(values[j].path));
        } else {
          assert !Conflict(FoldSegments(values[j].path), FoldSegments(values[i].path));
        }
      }
    }
    if CollisionFree(multiset(values)) {
      forall i, j | 0 <= i < j < |values| ensures !Conflict(FoldSegments(values[i].path), FoldSegments(values[j].path)) {
        if values[i] == values[j] { CountAtLeast(values, i, j); }
      }
    }
  }

  lemma {:induction false} WithKeyOnly<T>(es: seq<Entry<T>>, i: nat)
    requires i < |es| && forall j :: 0 <= j < |es| && j != i ==> es[j].key != es[i].key
    ensures WithKey(es, es[i].key) == [es[i]]
  {
    assert forall j :: 0 <= j < |es[1..]| ==> es[1..][j] == es[j + 1];
    if i == 0 {
      WithKeyAbsent(es[1..], es[0].key);
    } else {
      WithKeyOnly(es[1..], i - 1);
    }
  }

  lemma SortForgetsOrder(a: seq<SubTreeValue>, b: seq<SubTreeValue>)
    requires multiset(a) == multiset(b) && NoCollisions(a) && NoCollisions(b)
    ensures StableSort(ByPath(a)) == StableSort(ByPath(b))
  {
    var x, y := ByPath(a), ByPath(b);
    ByPathPermutes(a, b);
    StableSortIsStable(x);
    StableSortIsStable(y);
    forall k ensures WithKey(x, k) == WithKey(y, k) {
      if exists i :: 0 <= i < |x| && x[i].key == k {
        var i :| 0 <= i < |x| && x[i].key == k;
        assert x[i] in multiset(y);
        var j :| 0 <= j < |y| && y[j] == x[i];
        OnlyPath(a, i);
        OnlyPath(b, j);
      } else {
        WithKeyAbsent(x, k);
        forall j | 0 <= j < |y| ensures y[j].key != k {
          assert y[j] in multiset(x);
        }
        WithKeyAbsent(y, k);
      }
    }
    SortedIsUnique(StableSort(x), StableSort(y));
  }

  lemma OnlyPath(values: seq<SubTreeValue>, i: nat)
    requires NoCollisions(values) && i < |values|
    ensures WithKey(ByPath(values), ByPath(values)[i].key) == [ByPath(values)[i]]
  {
    forall j | 0 <= j < |values| && j != i ensures ByPath(values)[j].key != ByPath(values)[i].key {
      if i < j {
        assert !Conflict(FoldSegments(values[i].path), FoldSegments(values[j].path));
      } else {
        assert !Conflict(FoldSegments(values[j].path), FoldSegments(values[i].path));
      }
    }
    WithKeyOnly(ByPath(values), i);
  }

  /** Whether a subtree can be rendered, and the tree up to key case, do not depend on the order
      the values arrive in. */
  lemma RenderForgetsOrder(root: ConfigPath, a: seq<SubTreeValue>, b: seq<SubTreeValue>)
    requires multiset(a) == multiset(b)
    ensures Render(root, a).Some? <==> Render(root, b).Some?
    ensures Render(root, a).Some? ==> FoldNode(Render(root, a).value) == FoldNode(Render(root, b).value)
  {
    RenderExactly(root, a);
    RenderExactly(root, b);
    NoCollisionsAsMultiset(a);
    NoCollisionsAsMultiset(b);
    PlacedAsMultiset(root, a);
    PlacedAsMultiset(root, b);
    if Render(root, a).Some? {
      SortForgetsOrder(a, b);
      SameLeavesBelow(FoldSegments(root), Render(root, a).value, Render(root, b).value);
    }
  }

  lemma SameLeavesBelow(r: seq<string>, m: Node, n: Node)
    requires OrderedNode(m) && PrunedTop(m) && OrderedNode(n) && PrunedTop(n)
    requires Under(r, Folded(LeavesOf(m))) == Under(r, Folded(LeavesOf(n)))
    ensures FoldNode(m) == FoldNode(n)
  {
    FoldNodeShape(m);
    FoldNodeShape(n);
    UnderInjective(r, Folded(LeavesOf(m)), Folded(LeavesOf(n)));
    SameLeavesSameTree(FoldNode(m), FoldNode(n));
  }

  lemma PlacedAsMultiset(root: ConfigPath, a: seq<SubTreeValue>)
    ensures AllPlaced(root, a) <==> forall v :: v in multiset(a) ==> Placed(root, v)
  {
    if forall v :: v in multiset(a) ==> Placed(root, v) {
      forall i | 0 <= i < |a| ensures Placed(root, a[i]) { assert a[i] in multiset(a); }
    }
  }

  lemma UnderInjective<T>(p: seq<string>, a: seq<Entry<T>>, b: seq<Entry<T>>)
    requires Under(p, a) == Under(p, b)
    ensures a == b
  {
    assert |a| == |Under(p, a)| == |Under(p, b)| == |b|;
    forall i | 0 <= i < |a| ensures a[i] == b[i] {
      assert Under(p, a)[i] == Under(p, b)[i];
      assert a[i].key == (p + a[i].key)[|p|..] && b[i].key == (p + b[i].key)[|p|..];
    }
  }
}
