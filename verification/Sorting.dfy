/** Stable sorting of keyed entries by segment list: what `sort_by` does for the plain renderer,
    and, as the tree proofs show, what nesting values into ordered maps does as well. */
module Sorting {
  import opened Text

  datatype Entry<T> = Entry(key: seq<string>, value: T)

  /** Places `x` after every entry whose key is not greater. */
  function InsertEntry<T>(es: seq<Entry<T>>, x: Entry<T>): (r: seq<Entry<T>>)
    ensures |r| == |es| + 1
  {
    if es == [] || SegsLt(x.key, es[0].key) then [x] + es
    else [es[0]] + InsertEntry(es[1..], x)
  }

  function InsertEntries<T>(es: seq<Entry<T>>, xs: seq<Entry<T>>): (r: seq<Entry<T>>)
    ensures |r| == |es| + |xs|
    decreases xs
  {
    if xs == [] then es else InsertEntries(InsertEntry(es, xs[0]), xs[1..])
  }

  function StableSort<T>(xs: seq<Entry<T>>): (r: seq<Entry<T>>)
    ensures |r| == |xs|
  {
    InsertEntries([], xs)
  }

  // ---------- What makes it a stable sort ----------

  ghost predicate Sorted<T>(es: seq<Entry<T>>) {
    forall i, j :: 0 <= i < j < |es| ==> !SegsLt(es[j].key, es[i].key)
  }

  /** The entries with key `k`, in order. */
  function WithKey<T>(es: seq<Entry<T>>, k: seq<string>): seq<Entry<T>> {
    if es == [] then []
    else (if es[0].key == k then [es[0]] else []) + WithKey(es[1..], k)
  }

  lemma {:induction false} WithKeyConcat<T>(a: seq<Entry<T>>, b: seq<Entry<T>>, k: seq<string>)
    ensures WithKey(a + b, k) == WithKey(a, k) + WithKey(b, k)
  {
    if a == [] {
      assert a + b == b;
    } else {
      WithKeyConcat(a[1..], b, k);
      var head := if a[0].key == k then [a[0]] else [];
      assert (a + b)[0] == a[0] && (a + b)[1..] == a[1..] + b;
      assert head + (WithKey(a[1..], k) + WithKey(b, k)) == (head + WithKey(a[1..], k)) + WithKey(b, k);
    }
  }

  lemma WithKeyAbsent<T>(es: seq<Entry<T>>, k: seq<string>)
    requires forall i :: 0 <= i < |es| ==> es[i].key != k
    ensures WithKey(es, k) == []
  {
  }

  lemma InsertEntryElements<T>(es: seq<Entry<T>>, x: Entry<T>)
    ensures multiset(InsertEntry(es, x)) == multiset(es) + multiset{x}
    ensures var r := InsertEntry(es, x);
            && (forall j :: 0 <= j < |r| ==> r[j] in es || r[j] == x)
            && (forall j :: 0 <= j < |es| ==> es[j] in r)
            && x in r
  {
    if es != [] && !SegsLt(x.key, es[0].key) {
      InsertEntryElements(es[1..], x);
      assert es == [es[0]] + es[1..];
    }
  }

  /** In a sorted sequence nothing is below what the head is above. */
  lemma HeadAbove<T>(es: seq<Entry<T>>, x: Entry<T>, j: nat)
    requires Sorted(es) && j < |es| && SegsLt(x.key, es[0].key)
    ensures SegsLt(x.key, es[j].key) && !SegsLt(es[j].key, x.key) && es[j].key != x.key
  {
    SegsLtTotal(es[0].key, es[0].key);
    NotBelow(x.key, es[0].key, es[j].key);
    SegsLtTotal(x.key, es[j].key);
  }

  lemma {:induction false} InsertEntrySorted<T>(es: seq<Entry<T>>, x: Entry<T>)
    requires Sorted(es)
    ensures Sorted(InsertEntry(es, x))
  {
    if es == [] {
    } else if SegsLt(x.key, es[0].key) {
      forall j | 0 <= j < |es| ensures !SegsLt(es[j].key, x.key) { HeadAbove(es, x, j); }
    } else {
      InsertEntrySorted(es[1..], x);
      InsertEntryElements(es[1..], x);
      var rest := InsertEntry(es[1..], x);
      forall j | 0 <= j < |rest| ensures !SegsLt(rest[j].key, es[0].key) {
        if rest[j] in es[1..] {
          var i :| 0 <= i < |es[1..]| && es[1..][i] == rest[j];
          assert rest[j] == es[i + 1];
          assert !SegsLt(es[i + 1].key, es[0].key);
        }
      }
    }
  }

  lemma {:induction false} InsertEntryWithKey<T>(es: seq<Entry<T>>, x: Entry<T>, k: seq<string>)
    requires Sorted(es)
    ensures WithKey(InsertEntry(es, x), k) == WithKey(es, k) + WithKey([x], k)
  {
    if es == [] {
    } else if SegsLt(x.key, es[0].key) {
      WithKeyConcat([x], es, k);
      if k == x.key {
        forall j | 0 <= j < |es| ensures es[j].key != k { HeadAbove(es, x, j); }
        WithKeyAbsent(es, k);
      } else {
        WithKeyAbsent([x], k);
      }
    } else {
      var head, rest := [es[0]], InsertEntry(es[1..], x);
      calc {
        WithKey(InsertEntry(es, x), k);
        { assert InsertEntry(es, x) == head + rest; WithKeyConcat(head, rest, k); }
        WithKey(head, k) + WithKey(rest, k);
        { InsertEntryWithKey(es[1..], x, k); }
        WithKey(head, k) + WithKey(es[1..], k) + WithKey([x], k);
        { assert es == head + es[1..]; WithKeyConcat(head, es[1..], k); }
        WithKey(es, k) + WithKey([x], k);
      }
    }
  }

  lemma NotBelow(a: seq<string>, b: seq<string>, c: seq<string>)
    requires SegsLt(a, b) && !SegsLt(c, b)
    ensures SegsLt(a, c)
  {
    SegsLtTotal(b, c);
    if SegsLt(b, c) { SegsLtTransitive(a, b, c); }
  }

  lemma {:induction false} InsertEntriesSorted<T>(es: seq<Entry<T>>, xs: seq<Entry<T>>)
    requires Sorted(es)
    ensures Sorted(InsertEntries(es, xs))
    ensures multiset(InsertEntries(es, xs)) == multiset(es) + multiset(xs)
    decreases xs
  {
    if xs != [] {
      InsertEntrySorted(es, xs[0]);
      InsertEntryElements(es, xs[0]);
      InsertEntriesSorted(InsertEntry(es, xs[0]), xs[1..]);
      assert xs == [xs[0]] + xs[1..];
    }
  }

  lemma {:induction false} InsertEntriesWithKey<T>(es: seq<Entry<T>>, xs: seq<Entry<T>>, k: seq<string>)
    requires Sorted(es)
    ensures WithKey(InsertEntries(es, xs), k) == WithKey(es, k) + WithKey(xs, k)
    decreases xs
  {
    if xs != [] {
      InsertEntrySorted(es, xs[0]);
      InsertEntriesWithKey(InsertEntry(es, xs[0]), xs[1..], k);
      InsertEntryWithKey(es, xs[0], k);
      var head := WithKey([xs[0]], k);
      assert xs == [xs[0]] + xs[1..];
      WithKeyConcat([xs[0]], xs[1..], k);
      assert (WithKey(es, k) + head) + WithKey(xs[1..], k) == WithKey(es, k) + (head + WithKey(xs[1..], k));
    }
  }

  /** Sorted, a permutation, and entries with equal keys keep the order they arrived in. */
  lemma StableSortIsStable<T>(xs: seq<Entry<T>>)
    ensures Sorted(StableSort(xs))
    ensures multiset(StableSort(xs)) == multiset(xs)
    ensures forall k :: WithKey(StableSort(xs), k) == WithKey(xs, k)
  {
    InsertEntriesSorted([], xs);
    forall k ensures WithKey(StableSort(xs), k) == WithKey(xs, k) {
      InsertEntriesWithKey([], xs, k);
      assert WithKey<T>([], k) + WithKey(xs, k) == WithKey(xs, k);
    }
  }

  lemma WithKeyFirst<T>(a: seq<Entry<T>>)
    requires a != []
    ensures WithKey(a, a[0].key) != [] && WithKey(a, a[0].key)[0] == a[0]
  {
  }

  lemma WithKeyTail<T>(a: seq<Entry<T>>, k: seq<string>)
    requires a != []
    ensures WithKey(a[1..], k) == WithKey(a, k)[(if a[0].key == k then 1 else 0)..]
  {
  }

  lemma WithKeyMember<T>(a: seq<Entry<T>>, k: seq<string>)
    requires WithKey(a, k) != []
    ensures exists i :: 0 <= i < |a| && a[i].key == k
  {
    if forall i :: 0 <= i < |a| ==> a[i].key != k { WithKeyAbsent(a, k); }
  }

  lemma SameHead<T>(a: seq<Entry<T>>, b: seq<Entry<T>>)
    requires Sorted(a) && Sorted(b) && a != []
    requires forall k :: WithKey(a, k) == WithKey(b, k)
    ensures b != [] && a[0] == b[0]
  {
    WithKeyFirst(a);
    WithKeyMember(b, a[0].key);
    WithKeyFirst(b);
    WithKeyMember(a, b[0].key);
    SegsLtTotal(a[0].key, b[0].key);
  }

  /** Those properties leave no choice: a sorted sequence is determined by what it holds under
      each key. */
  lemma {:induction false} SortedIsUnique<T>(a: seq<Entry<T>>, b: seq<Entry<T>>)
    requires Sorted(a) && Sorted(b)
    requires forall k :: WithKey(a, k) == WithKey(b, k)
    ensures a == b
  {
    if a == [] {
      if b != [] { WithKeyFirst(b); }
    } else {
      SameHead(a, b);
      assert a == [a[0]] + a[1..] && b == [b[0]] + b[1..];
      forall k ensures WithKey(a[1..], k) == WithKey(b[1..], k) {
        WithKeyTail(a, k);
        WithKeyTail(b, k);
        assert WithKey(a, k) == WithKey(b, k);
      }
      SortedIsUnique(a[1..], b[1..]);
    }
  }

  // ---------- Moving entries under a shared ancestor ----------

  function Under<T>(p: seq<string>, es: seq<Entry<T>>): (r: seq<Entry<T>>)
    ensures |r| == |es|
    ensures forall i :: 0 <= i < |es| ==> r[i] == Entry(p + es[i].key, es[i].value)
  {
    seq(|es|, i requires 0 <= i < |es| => Entry(p + es[i].key, es[i].value))
  }

  lemma {:induction false} InsertEntryUnder<T>(p: seq<string>, es: seq<Entry<T>>, x: Entry<T>)
    ensures InsertEntry(Under(p, es), Entry(p + x.key, x.value)) == Under(p, InsertEntry(es, x))
  {
    if es != [] {
      SegsLtPrefixed(p, x.key, es[0].key);
      InsertEntryUnder(p, es[1..], x);
      UnderConcat(p, [es[0]], InsertEntry(es[1..], x));
      assert Under(p, es)[1..] == Under(p, es[1..]);
    }
    UnderConcat(p, [x], es);
  }

  lemma UnderConcat<T>(p: seq<string>, a: seq<Entry<T>>, b: seq<Entry<T>>)
    ensures Under(p, a + b) == Under(p, a) + Under(p, b)
  {
  }

  /** Sorting commutes with prefixing every key by the same ancestor. */
  lemma {:induction false} InsertEntriesUnder<T>(p: seq<string>, es: seq<Entry<T>>, xs: seq<Entry<T>>)
    ensures InsertEntries(Under(p, es), Under(p, xs)) == Under(p, InsertEntries(es, xs))
    decreases xs
  {
    if xs != [] {
      InsertEntryUnder(p, es, xs[0]);
      InsertEntriesUnder(p, InsertEntry(es, xs[0]), xs[1..]);
      assert Under(p, xs)[1..] == Under(p, xs[1..]);
    }
  }

  lemma StableSortUnder<T>(p: seq<string>, xs: seq<Entry<T>>)
    ensures StableSort(Under(p, xs)) == Under(p, StableSort(xs))
  {
    InsertEntriesUnder(p, [], xs);
    assert Under<T>(p, []) == [];
  }
}
