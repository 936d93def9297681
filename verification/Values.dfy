/** What a subtree read returns and what a subtree write carries. */
module Values {
  import opened Text
  import opened Paths
  import opened Sorting

  const MASKED_SECRET_TEXT: string := "********"

  datatype Content = Plain(text: string) | Secret
  datatype SubTreeValue = SubTreeValue(path: ConfigPath, content: Content)

  datatype MutationContent = PlainText(text: string) | PreserveSecret
  datatype Mutation = Mutation(path: ConfigPath, content: MutationContent)

  /** `ValueContent::display_text`. */
  function DisplayText(content: Content): string {
    match content
    case Plain(text) => text
    case Secret => MASKED_SECRET_TEXT
  }

  /** The values keyed by the identity of their paths. */
  function ByPath(values: seq<SubTreeValue>): (r: seq<Entry<SubTreeValue>>)
    ensures |r| == |values|
    ensures forall i :: 0 <= i < |values| ==> r[i] == Entry(FoldSegments(values[i].path), values[i])
  {
    seq(|values|, i requires 0 <= i < |values| => Entry(FoldSegments(values[i].path), values[i]))
  }

  /** What a reader is shown of each value. */
  function Shown(es: seq<Entry<SubTreeValue>>): (r: seq<Entry<string>>)
    ensures |r| == |es|
    ensures forall i :: 0 <= i < |es| ==> r[i] == Entry(es[i].key, DisplayText(es[i].value.content))
  {
    seq(|es|, i requires 0 <= i < |es| => Entry(es[i].key, DisplayText(es[i].value.content)))
  }

  lemma {:induction false} InsertShown(es: seq<Entry<SubTreeValue>>, x: Entry<SubTreeValue>)
    ensures Shown(InsertEntry(es, x)) == InsertEntry(Shown(es), Entry(x.key, DisplayText(x.value.content)))
  {
    if es != [] && !SegsLt(x.key, es[0].key) {
      InsertShown(es[1..], x);
      assert Shown(es)[1..] == Shown(es[1..]);
    }
  }

  lemma {:induction false} InsertAllShown(es: seq<Entry<SubTreeValue>>, xs: seq<Entry<SubTreeValue>>)
    ensures Shown(InsertEntries(es, xs)) == InsertEntries(Shown(es), Shown(xs))
    decreases xs
  {
    if xs != [] {
      InsertShown(es, xs[0]);
      InsertAllShown(InsertEntry(es, xs[0]), xs[1..]);
      assert Shown(xs)[1..] == Shown(xs[1..]);
    }
  }

  /** Sorting looks at paths only. */
  lemma StableSortShown(xs: seq<Entry<SubTreeValue>>)
    ensures Shown(StableSort(xs)) == StableSort(Shown(xs))
  {
    InsertAllShown([], xs);
    assert Shown([]) == [];
  }
}
