/** The nested tree `json.rs` builds. A `BTreeMap` is modelled by its entries in iteration order:
    strictly ascending in the folded key, each key kept as it was first written. */
module JsonTree {
  import opened Text
  import opened Sorting

  datatype Node = Str(text: string) | Obj(members: Members)
  datatype Members = Nil | Cons(key: string, node: Node, rest: Members)

  // ---------- Ordered maps ----------

  /** Every key of `ms` folds above `k`. */
  predicate Above(k: string, ms: Members) {
    ms.Cons? ==> StrLt(k, Fold(ms.key)) && Above(k, ms.rest)
  }

  predicate Ordered(ms: Members) {
    ms.Cons? ==> Above(Fold(ms.key), ms.rest) && OrderedNode(ms.node) && Ordered(ms.rest)
  }

  predicate OrderedNode(n: Node) {
    n.Obj? ==> Ordered(n.members)
  }

  /** `BTreeMap::get` under the folded key order. */
  function Get(ms: Members, key: string): Option<Node> {
    match ms
    case Nil => None
    case Cons(k, n, rest) => if Fold(k) == Fold(key) then Some(n) else Get(rest, key)
  }

  /** `BTreeMap::insert`: an entry with an equal key keeps its key and gets the new value. */
  function Put(ms: Members, key: string, node: Node): Members {
    match ms
    case Nil => Cons(key, node, Nil)
    case Cons(k, n, rest) =>
      if Fold(k) == Fold(key) then Cons(k, node, rest)
      else if StrLt(Fold(key), Fold(k)) then Cons(key, node, ms)
      else Cons(k, n, Put(rest, key, node))
  }

  // ---------- Insertion ----------

  /** A new chain of objects down to one text. */
  function Chain(segs: seq<string>, text: string): Node {
    if segs == [] then Str(text) else Obj(Cons(segs[0], Chain(segs[1..], text), Nil))
  }

  /** Where `insert_json_value` must end up, by walking the entries in order. */
  function Insert(ms: Members, segs: seq<string>, text: string): Option<Members> {
    if segs == [] then None else
      match ms
      case Nil => Some(Cons(segs[0], Chain(segs[1..], text), Nil))
      case Cons(k, n, rest) =>
        if StrLt(Fold(segs[0]), Fold(k)) then Some(Cons(segs[0], Chain(segs[1..], text), ms))
        else if Fold(segs[0]) == Fold(k) then
          if n.Str? || |segs| == 1 then None else
            match Insert(n.members, segs[1..], text)
            case None => None
            case Some(child) => Some(Cons(k, Obj(child), rest))
        else
          match Insert(rest, segs, text)
          case None => None
          case Some(rest') => Some(Cons(k, n, rest'))
  }

  lemma AboveHasNoKey(ms: Members, k: string, key: string)
    requires Above(k, ms) && (k == Fold(key) || StrLt(Fold(key), k))
    ensures Get(ms, key).None?
  {
    if ms.Cons? {
      StrLtTotal(Fold(key), Fold(ms.key));
      if StrLt(Fold(key), k) { StrLtTransitive(Fold(key), k, Fold(ms.key)); }
      AboveHasNoKey(ms.rest, k, key);
    }
  }

  /** `insert_json_value`: looks the first segment up, creating the object it names when there is
      none, and descends. */
  method InsertJsonValue(tree: Members, segments: seq<string>, value: string) returns (r: Option<Members>)
    requires Ordered(tree)
    ensures r == Insert(tree, segments, value)
    decreases |segments|
  {
    if segments == [] { return None; }
    var segment, remaining := segments[0], segments[1..];
    InsertByLookup(tree, segments, value);
    if remaining == [] {
      if Get(tree, segment).Some? { return None; }
      return Some(Put(tree, segment, Str(value)));
    }
    var entry := Get(tree, segment);
    var node := if entry.None? then Obj(Nil) else entry.value;
    if node.Str? { return None; }
    GetOrdered(tree, segment);
    var child := InsertJsonValue(node.members, remaining, value);
    if child.None? { return None; }
    return Some(Put(tree, segment, Obj(child.value)));
  }

  lemma GetOrdered(ms: Members, key: string)
    requires Ordered(ms)
    ensures Get(ms, key).Some? ==> OrderedNode(Get(ms, key).value)
  {
  }

  lemma InsertEmpty(segs: seq<string>, text: string)
    requires segs != []
    ensures Insert(Nil, segs, text).Some? && Obj(Insert(Nil, segs, text).value) == Chain(segs, text)
  {
  }

  lemma {:induction false} InsertByLookup(ms: Members, segs: seq<string>, text: string)
    requires Ordered(ms) && segs != []
    ensures |segs| == 1 ==>
              Insert(ms, segs, text) ==
              if Get(ms, segs[0]).Some? then None else Some(Put(ms, segs[0], Str(text)))
    ensures |segs| > 1 ==>
              var node := if Get(ms, segs[0]).None? then Obj(Nil) else Get(ms, segs[0]).value;
              Insert(ms, segs, text) ==
              if node.Str? || Insert(node.members, segs[1..], text).None? then None
              else Some(Put(ms, segs[0], Obj(Insert(node.members, segs[1..], text).value)))
  {
    if |segs| > 1 { InsertEmpty(segs[1..], text); }
    if ms.Cons? {
      StrLtTotal(Fold(segs[0]), Fold(ms.key));
      if StrLt(Fold(segs[0]), Fold(ms.key)) {
        AboveHasNoKey(ms.rest, Fold(ms.key), segs[0]);
      } else if Fold(segs[0]) != Fold(ms.key) {
        InsertByLookup(ms.rest, segs, text);
      }
    }
  }

  // ---------- Leaves ----------

  /** The texts in the tree with the keys that lead to them as written, depth first. */
  function Leaves(ms: Members): seq<Entry<string>> {
    match ms
    case Nil => []
    case Cons(k, n, rest) => Under([k], LeavesOf(n)) + Leaves(rest)
  }

  function LeavesOf(n: Node): seq<Entry<string>> {
    match n
    case Str(text) => [Entry([], text)]
    case Obj(ms) => Leaves(ms)
  }

  lemma LeavesSingle(k: string, n: Node)
    ensures Leaves(Cons(k, n, Nil)) == Under([k], LeavesOf(n))
  {
    assert Leaves(Nil) == [];
  }

  function Folded<T>(es: seq<Entry<T>>): (r: seq<Entry<T>>)
    ensures |r| == |es|
    ensures forall i :: 0 <= i < |es| ==> r[i] == Entry(FoldAll(es[i].key), es[i].value)
  {
    seq(|es|, i requires 0 <= i < |es| => Entry(FoldAll(es[i].key), es[i].value))
  }

  function FoldLeaves(ms: Members): seq<Entry<string>> { Folded(Leaves(ms)) }

  lemma FoldedUnder<T>(k: string, es: seq<Entry<T>>)
    ensures Folded(Under([k], es)) == Under([Fold(k)], Folded(es))
  {
    forall i | 0 <= i < |es| ensures FoldAll([k] + es[i].key) == [Fold(k)] + FoldAll(es[i].key) {
      FoldAllConcat([k], es[i].key);
    }
  }

  lemma FoldLeavesCons(k: string, n: Node, rest: Members)
    ensures FoldLeaves(Cons(k, n, rest)) == Under([Fold(k)], Folded(LeavesOf(n))) + FoldLeaves(rest)
  {
    FoldedUnder(k, LeavesOf(n));
    assert Folded(Under([k], LeavesOf(n)) + Leaves(rest)) == Folded(Under([k], LeavesOf(n))) + Folded(Leaves(rest));
  }

  /** No object below the top is empty. */
  predicate Pruned(ms: Members) {
    ms.Cons? ==> PrunedNode(ms.node) && Pruned(ms.rest)
  }

  predicate PrunedNode(n: Node) {
    n.Obj? ==> n.members.Cons? && Pruned(n.members)
  }

  lemma PrunedHasLeaves(ms: Members)
    requires Pruned(ms) && ms.Cons?
    ensures Leaves(ms) != [] && Leaves(ms)[0].key != [] && Leaves(ms)[0].key[0] == ms.key
  {
    if ms.node.Obj? { PrunedHasLeaves(ms.node.members); }
  }

  // ---------- Insertion is sorted insertion into the leaves ----------

  /** Two paths cannot both hold a value in one JSON document. */
  predicate Conflict(p: seq<string>, q: seq<string>) {
    p <= q || q <= p
  }

  predicate Clear<T>(es: seq<Entry<T>>, key: seq<string>) {
    forall i :: 0 <= i < |es| ==> !Conflict(es[i].key, key)
  }

  lemma ChainLeaves(segs: seq<string>, text: string)
    ensures LeavesOf(Chain(segs, text)) == [Entry(segs, text)]
    ensures OrderedNode(Chain(segs, text)) && PrunedNode(Chain(segs, text))
  {
    if segs != [] {
      ChainLeaves(segs[1..], text);
      assert [segs[0]] + segs[1..] == segs;
      LeavesSingle(segs[0], Chain(segs[1..], text));
    }
  }

  lemma ConsConflict(k: string, p: seq<string>, x: seq<string>)
    requires x != []
    ensures Conflict([k] + p, x) <==> k == x[0] && Conflict(p, x[1..])
  {
    assert x == [x[0]] + x[1..];
    if k == x[0] {
      assert ([k] + p)[1..] == p;
    }
  }

  lemma ClearUnder<T>(k: string, es: seq<Entry<T>>, x: seq<string>)
    requires x != []
    ensures Clear(Under([k], es), x) <==> (k == x[0] ==> Clear(es, x[1..]))
  {
    forall i | 0 <= i < |es|
      ensures Conflict(Under([k], es)[i].key, x) <==> k == x[0] && Conflict(es[i].key, x[1..])
    {
      ConsConflict(k, es[i].key, x);
    }
  }

  lemma ClearConcat<T>(a: seq<Entry<T>>, b: seq<Entry<T>>, x: seq<string>)
    ensures Clear(a + b, x) <==> Clear(a, x) && Clear(b, x)
  {
    if Clear(a + b, x) {
      forall i | 0 <= i < |a| ensures !Conflict(a[i].key, x) { assert a[i] == (a + b)[i]; }
      forall i | 0 <= i < |b| ensures !Conflict(b[i].key, x) { assert b[i] == (a + b)[|a| + i]; }
    }
  }

  lemma InsertBefore<T>(a: seq<Entry<T>>, b: seq<Entry<T>>, x: Entry<T>)
    requires b == [] || SegsLt(x.key, b[0].key)
    ensures InsertEntry(a + b, x) == InsertEntry(a, x) + b
  {
    if a == [] {
      assert a + b == b;
    } else {
      InsertBefore(a[1..], b, x);
      assert (a + b)[1..] == a[1..] + b;
    }
  }

  lemma {:induction false} InsertAfter<T>(a: seq<Entry<T>>, b: seq<Entry<T>>, x: Entry<T>)
    requires forall i :: 0 <= i < |a| ==> !SegsLt(x.key, a[i].key)
    ensures InsertEntry(a + b, x) == a + InsertEntry(b, x)
  {
    if a == [] {
      assert a + b == b;
    } else {
      InsertAfter(a[1..], b, x);
      assert (a + b)[0] == a[0] && (a + b)[1..] == a[1..] + b;
      assert [a[0]] + (a[1..] + InsertEntry(b, x)) == a + InsertEntry(b, x);
    }
  }

  /** The first leaf shows a tree's smallest key. */
  lemma FirstFoldLeaf(ms: Members, x: seq<string>, k: string)
    requires Pruned(ms) && x != [] && Above(k, ms) && (x[0] == k || StrLt(x[0], k))
    ensures FoldLeaves(ms) == [] || SegsLt(x, FoldLeaves(ms)[0].key)
    ensures Clear(FoldLeaves(ms), x)
  {
    if ms.Cons? {
      PrunedHasLeaves(ms);
      if StrLt(x[0], k) { StrLtTransitive(x[0], k, Fold(ms.key)); }
      StrLtTotal(x[0], Fold(ms.key));
      FirstFoldLeaf(ms.rest, x, k);
      FoldLeavesCons(ms.key, ms.node, ms.rest);
      ClearUnder(Fold(ms.key), Folded(LeavesOf(ms.node)), x);
      ClearConcat(Under([Fold(ms.key)], Folded(LeavesOf(ms.node))), FoldLeaves(ms.rest), x);
    }
  }

  lemma InsertAbove(ms: Members, segs: seq<string>, text: string, k: string)
    requires Above(k, ms) && segs != [] && StrLt(k, Fold(segs[0])) && Insert(ms, segs, text).Some?
    ensures Above(k, Insert(ms, segs, text).value)
  {
  }

  /** Inserting the value succeeds exactly when it conflicts with no leaf, and then its place
      among the leaves is its place in fold-segment order. */
  ghost predicate SortedInsertion(ms: Members, segs: seq<string>, text: string) {
    var r, x := Insert(ms, segs, text), Entry(FoldAll(segs), text);
    && (r.Some? <==> Clear(FoldLeaves(ms), x.key))
    && (r.Some? ==> Ordered(r.value) && Pruned(r.value) && r.value.Cons?
                    && FoldLeaves(r.value) == InsertEntry(FoldLeaves(ms), x))
  }

  lemma InsertAtFront(ms: Members, segs: seq<string>, text: string)
    requires Ordered(ms) && Pruned(ms) && segs != [] && ms.Cons? && StrLt(Fold(segs[0]), Fold(ms.key))
    ensures SortedInsertion(ms, segs, text)
  {
    var x := Entry(FoldAll(segs), text);
    var ms' := Insert(ms, segs, text).value;
    AboveTransitive(Fold(segs[0]), Fold(ms.key), ms.rest);
    StrLtTotal(Fold(segs[0]), Fold(segs[0]));
    FirstFoldLeaf(ms, x.key, Fold(segs[0]));
    ChainLeaves(segs[1..], text);
    FoldLeavesCons(segs[0], ms'.node, ms);
    assert Folded([Entry(segs[1..], text)]) == [Entry(FoldAll(segs[1..]), text)];
    assert [Fold(segs[0])] + FoldAll(segs[1..]) == FoldAll(segs);
    assert Under([Fold(segs[0])], Folded(LeavesOf(ms'.node))) == [x];
  }

  lemma AboveTransitive(a: string, b: string, ms: Members)
    requires StrLt(a, b) && Above(b, ms)
    ensures Above(a, ms)
  {
    if ms.Cons? { StrLtTransitive(a, b, Fold(ms.key)); }
  }

  lemma BelowKeyClear(ms: Members, x: seq<string>)
    requires Ordered(ms) && Pruned(ms) && ms.Cons? && x != [] && x[0] == Fold(ms.key)
    ensures Clear(FoldLeaves(ms), x) <==> Clear(Folded(LeavesOf(ms.node)), x[1..])
    ensures ms.node.Str? || |x| == 1 ==> !Clear(FoldLeaves(ms), x)
  {
    var fk, below := Fold(ms.key), Folded(LeavesOf(ms.node));
    FoldLeavesCons(ms.key, ms.node, ms.rest);
    FirstFoldLeaf(ms.rest, x, fk);
    ClearUnder(fk, below, x);
    ClearConcat(Under([fk], below), FoldLeaves(ms.rest), x);
    if ms.node.Obj? { PrunedHasLeaves(ms.node.members); }
    if ms.node.Str? || |x| == 1 {
      assert Conflict(below[0].key, x[1..]);
    }
  }

  lemma InsertBelowKey(ms: Members, segs: seq<string>, text: string)
    requires Ordered(ms) && Pruned(ms) && segs != [] && ms.Cons? && Fold(segs[0]) == Fold(ms.key)
    requires ms.node.Obj? && |segs| > 1 ==> SortedInsertion(ms.node.members, segs[1..], text)
    ensures SortedInsertion(ms, segs, text)
  {
    var x := Entry(FoldAll(segs), text);
    BelowKeyClear(ms, x.key);
    StrLtTotal(x.key[0], Fold(ms.key));
    assert x.key[1..] == FoldAll(segs[1..]);
    if Insert(ms, segs, text).Some? {
      var fk, below, rest := Fold(ms.key), FoldLeaves(ms.node.members), FoldLeaves(ms.rest);
      var child := Insert(ms.node.members, segs[1..], text).value;
      var x' := Entry(FoldAll(segs[1..]), text);
      calc {
        FoldLeaves(Cons(ms.key, Obj(child), ms.rest));
        { FoldLeavesCons(ms.key, Obj(child), ms.rest); }
        Under([fk], InsertEntry(below, x')) + rest;
        { InsertEntryUnder([fk], below, x'); assert x.key == [fk] + x'.key; }
        InsertEntry(Under([fk], below), x) + rest;
        { FirstFoldLeaf(ms.rest, x.key, fk); InsertBefore(Under([fk], below), rest, x); }
        InsertEntry(Under([fk], below) + rest, x);
        { FoldLeavesCons(ms.key, ms.node, ms.rest); }
        InsertEntry(FoldLeaves(ms), x);
      }
    }
  }

  lemma InsertPastKey(ms: Members, segs: seq<string>, text: string)
    requires Ordered(ms) && Pruned(ms) && segs != [] && ms.Cons? && StrLt(Fold(ms.key), Fold(segs[0]))
    requires SortedInsertion(ms.rest, segs, text)
    ensures SortedInsertion(ms, segs, text)
  {
    var fk, below, rest := Fold(ms.key), Folded(LeavesOf(ms.node)), FoldLeaves(ms.rest);
    var x := Entry(FoldAll(segs), text);
    StrLtTotal(fk, x.key[0]);
    FoldLeavesCons(ms.key, ms.node, ms.rest);
    ClearUnder(fk, below, x.key);
    ClearConcat(Under([fk], below), rest, x.key);
    if Insert(ms, segs, text).Some? {
      InsertAbove(ms.rest, segs, text, fk);
      FoldLeavesCons(ms.key, ms.node, Insert(ms.rest, segs, text).value);
      InsertAfter(Under([fk], below), rest, x);
    }
  }

  lemma {:induction false} InsertIsSortedInsertion(ms: Members, segs: seq<string>, text: string)
    requires Ordered(ms) && Pruned(ms) && segs != []
    ensures SortedInsertion(ms, segs, text)
    decreases ms
  {
    if ms == Nil {
      ChainLeaves(segs, text);
      assert FoldLeaves(ms) == [];
    } else {
      StrLtTotal(Fold(segs[0]), Fold(ms.key));
      if StrLt(Fold(segs[0]), Fold(ms.key)) {
        InsertAtFront(ms, segs, text);
      } else if Fold(segs[0]) == Fold(ms.key) {
        if ms.node.Obj? && |segs| > 1 {
          InsertIsSortedInsertion(ms.node.members, segs[1..], text);
        }
        InsertBelowKey(ms, segs, text);
      } else {
        InsertIsSortedInsertion(ms.rest, segs, text);
        InsertPastKey(ms, segs, text);
      }
    }
  }


  // ---------- Inserting many values ----------

  function InsertAll(ms: Members, es: seq<Entry<string>>): Option<Members>
    decreases es
  {
    if es == [] then Some(ms) else
      match Insert(ms, es[0].key, es[0].value)
      case None => None
      case Some(ms') => InsertAll(ms', es[1..])
  }

  /** Each entry in turn conflicts with nothing before it. */
  ghost predicate Compatible<T>(done: seq<Entry<T>>, es: seq<Entry<T>>)
    decreases es
  {
    es == [] || (Clear(done, es[0].key) && Compatible(InsertEntry(done, es[0]), es[1..]))
  }

  ghost predicate Pairwise<T>(es: seq<Entry<T>>) {
    forall i, j :: 0 <= i < j < |es| ==> !Conflict(es[i].key, es[j].key)
  }

  lemma ClearInserted<T>(done: seq<Entry<T>>, x: Entry<T>, key: seq<string>)
    ensures Clear(InsertEntry(done, x), key) <==> Clear(done, key) && !Conflict(x.key, key)
  {
    var r := InsertEntry(done, x);
    InsertEntryElements(done, x);
    if Clear(r, key) {
      var i :| 0 <= i < |r| && r[i] == x;
      forall j | 0 <= j < |done| ensures !Conflict(done[j].key, key) {
        var i :| 0 <= i < |r| && r[i] == done[j];
      }
    } else {
      var i :| 0 <= i < |r| && Conflict(r[i].key, key);
      if r[i] in done {
        var j :| 0 <= j < |done| && done[j] == r[i];
      }
    }
  }

  lemma {:induction false} CompatibleIsPairwise<T>(done: seq<Entry<T>>, es: seq<Entry<T>>)
    ensures Compatible(done, es) <==> (forall i :: 0 <= i < |es| ==> Clear(done, es[i].key)) && Pairwise(es)
    decreases es
  {
    if es != [] {
      CompatibleIsPairwise(InsertEntry(done, es[0]), es[1..]);
      forall i | 0 <= i < |es|
        ensures Clear(InsertEntry(done, es[0]), es[i].key) <==> Clear(done, es[i].key) && !Conflict(es[0].key, es[i].key)
      {
        ClearInserted(done, es[0], es[i].key);
      }
      var head := Clear(done, es[0].key)
                  && (forall i :: 1 <= i < |es| ==> Clear(done, es[i].key) && !Conflict(es[0].key, es[i].key));
      assert Compatible(done, es) <==> head && Pairwise(es[1..]) by {
        assert forall i :: 0 <= i < |es[1..]| ==> es[1..][i] == es[i + 1];
        assert forall i :: 1 <= i < |es| ==> es[i] == es[1..][i - 1];
      }
      assert Pairwise(es) <==> Pairwise(es[1..]) && forall i :: 1 <= i < |es| ==> !Conflict(es[0].key, es[i].key) by {
        if Pairwise(es[1..]) && forall i :: 1 <= i < |es| ==> !Conflict(es[0].key, es[i].key) {
          forall i, j | 0 <= i < j < |es| ensures !Conflict(es[i].key, es[j].key) {
            if i > 0 { assert es[1..][i - 1] == es[i] && es[1..][j - 1] == es[j]; }
          }
        }
      }
    }
  }

  ghost predicate NonEmptyKeys<T>(es: seq<Entry<T>>) {
    forall i :: 0 <= i < |es| ==> es[i].key != []
  }

  lemma {:induction false} InsertAllIsSorting(ms: Members, es: seq<Entry<string>>)
    requires Ordered(ms) && Pruned(ms) && NonEmptyKeys(es)
    ensures InsertAll(ms, es).Some? <==> Compatible(FoldLeaves(ms), Folded(es))
    ensures InsertAll(ms, es).Some? ==>
              var ms' := InsertAll(ms, es).value;
              Ordered(ms') && Pruned(ms') && FoldLeaves(ms') == InsertEntries(FoldLeaves(ms), Folded(es))
    decreases es
  {
    if es != [] {
      var e := es[0];
      InsertIsSortedInsertion(ms, e.key, e.value);
      assert Folded(es)[1..] == Folded(es[1..]);
      var r := Insert(ms, e.key, e.value);
      if r.Some? { InsertAllIsSorting(r.value, es[1..]); }
    }
  }

  // ---------- A tree is its leaves ----------

  function Append(a: Members, b: Members): Members {
    match a
    case Nil => b
    case Cons(k, n, rest) => Cons(k, n, Append(rest, b))
  }

  /** Every key of `a` folds below `k`. */
  predicate Below(a: Members, k: string) {
    a.Cons? ==> StrLt(Fold(a.key), k) && Below(a.rest, k)
  }

  lemma AppendAssociative(a: Members, b: Members, c: Members)
    ensures Append(Append(a, b), c) == Append(a, Append(b, c))
  {
  }

  lemma InsertNewLast(a: Members, k: string, segs: seq<string>, text: string)
    requires Below(a, Fold(k))
    ensures Insert(a, [k] + segs, text) == Some(Append(a, Cons(k, Chain(segs, text), Nil)))
  {
    assert ([k] + segs)[1..] == segs;
    if a.Cons? {
      StrLtTotal(Fold(a.key), Fold(k));
      InsertNewLast(a.rest, k, segs, text);
    }
  }

  lemma InsertIntoLast(a: Members, k: string, b: Members, segs: seq<string>, text: string)
    requires Below(a, Fold(k)) && segs != []
    ensures Insert(Append(a, Cons(k, Obj(b), Nil)), [k] + segs, text) ==
            match Insert(b, segs, text) case None => None case Some(b') => Some(Append(a, Cons(k, Obj(b'), Nil)))
  {
    assert ([k] + segs)[1..] == segs;
    StrLtTotal(Fold(k), Fold(k));
    if a.Cons? {
      StrLtTotal(Fold(a.key), Fold(k));
      InsertIntoLast(a.rest, k, b, segs, text);
    }
  }

  lemma {:induction false} InsertAllIntoLast(a: Members, k: string, b: Members, es: seq<Entry<string>>)
    requires Below(a, Fold(k)) && NonEmptyKeys(es)
    ensures InsertAll(Append(a, Cons(k, Obj(b), Nil)), Under([k], es)) ==
            match InsertAll(b, es) case None => None case Some(b') => Some(Append(a, Cons(k, Obj(b'), Nil)))
    decreases es
  {
    if es != [] {
      InsertIntoLast(a, k, b, es[0].key, es[0].value);
      assert Under([k], es)[1..] == Under([k], es[1..]);
      match Insert(b, es[0].key, es[0].value)
      case None =>
      case Some(b') => InsertAllIntoLast(a, k, b', es[1..]);
    }
  }

  lemma {:induction false} InsertAllConcat(ms: Members, a: seq<Entry<string>>, b: seq<Entry<string>>)
    ensures InsertAll(ms, a + b) ==
            match InsertAll(ms, a) case None => None case Some(ms') => InsertAll(ms', b)
    decreases a
  {
    if a == [] {
      assert a + b == b;
    } else {
      assert (a + b)[1..] == a[1..] + b;
      match Insert(ms, a[0].key, a[0].value)
      case None =>
      case Some(ms') => InsertAllConcat(ms', a[1..], b);
    }
  }

  lemma LeavesHaveKeys(ms: Members)
    ensures NonEmptyKeys(Leaves(ms))
  {
    if ms.Cons? { LeavesHaveKeys(ms.rest); }
  }

  lemma BelowAppend(a: Members, k: string, n: Node, rest: Members)
    requires Below(a, Fold(k)) && Above(Fold(k), rest) && rest.Cons?
    ensures Below(Append(a, Cons(k, n, Nil)), Fold(rest.key))
  {
    if a.Cons? {
      StrLtTransitive(Fold(a.key), Fold(k), Fold(rest.key));
      BelowAppend(a.rest, k, n, rest);
    }
  }

  /** Inserting a tree's own leaves, in order, rebuilds it with every key spelled the same. */
  lemma {:induction false} LeavesRebuild(a: Members, ms: Members)
    requires Ordered(ms) && Pruned(ms)
    requires ms.Cons? ==> Below(a, Fold(ms.key))
    ensures InsertAll(a, Leaves(ms)) == Some(Append(a, ms))
    decreases ms
  {
    if ms == Nil {
      AppendNil(a);
    } else {
      var k, n, rest := ms.key, ms.node, ms.rest;
      var a' := Append(a, Cons(k, n, Nil));
      NodeRebuild(a, k, n);
      InsertAllConcat(a, Under([k], LeavesOf(n)), Leaves(rest));
      if rest.Cons? { BelowAppend(a, k, n, rest); }
      LeavesRebuild(a', rest);
      AppendAssociative(a, Cons(k, n, Nil), rest);
    }
  }

  lemma AppendNil(a: Members)
    ensures Append(a, Nil) == a
  {
  }

  lemma {:induction false} NodeRebuild(a: Members, k: string, n: Node)
    requires OrderedNode(n) && PrunedNode(n) && Below(a, Fold(k))
    ensures InsertAll(a, Under([k], LeavesOf(n))) == Some(Append(a, Cons(k, n, Nil)))
    decreases n
  {
    var es := LeavesOf(n);
    if n.Str? {
      InsertNewLast(a, k, [], n.text);
      assert Under([k], es)[0].key == [k] + [];
      assert Under([k], es)[1..] == [];
    } else {
      PrunedHasLeaves(n.members);
      LeavesHaveKeys(n.members);
      LeavesRebuild(Nil, n.members);
      var p, t := es[0].key, es[0].value;
      InsertEmpty(p, t);
      InsertNewLast(a, k, p, t);
      var b := Insert(Nil, p, t).value;
      assert Under([k], es)[1..] == Under([k], es[1..]);
      InsertAllIntoLast(a, k, b, es[1..]);
    }
  }
}
