/** `Provider::load_tree`: reveal every secret of the subtree, then nest the real texts. */
module ProviderLoad {
  import opened Text
  import opened Paths
  import opened Values
  import opened Versions
  import opened Sorting
  import opened JsonTree
  import opened JsonRender
  import opened TreeFolding
  import opened ProviderTree

  /** Reveals in listing order; the first failure ends the read. Paths that differ only in letter
      case are one key, and the later reveal wins. */
  function RevealFrom(secretAt: ConfigPath -> Result<string>, values: seq<SubTreeValue>, revealed: Revealed): Result<Revealed>
    decreases values
  {
    if values == [] then Ok(revealed)
    else if values[0].content.Plain? then RevealFrom(secretAt, values[1..], revealed)
    else
      match secretAt(values[0].path)
      case Err(kind) => Err(kind)
      case Ok(text) => RevealFrom(secretAt, values[1..], revealed[Fold(values[0].path) := text])
  }

  datatype Loaded = Tree(tree: Node) | Refused(kind: ErrorKind) | InvalidConversion

  function Load(secretAt: ConfigPath -> Result<string>, root: ConfigPath, values: seq<SubTreeValue>): Loaded {
    match RevealFrom(secretAt, values, map[])
    case Err(kind) => Refused(kind)
    case Ok(revealed) =>
      match Build(root, values, revealed)
      case None => InvalidConversion
      case Some(tree) => Tree(tree)
  }

  /** `load_tree`, once the subtree is listed. */
  method LoadTree(secretAt: ConfigPath -> Result<string>, root: ConfigPath, values: seq<SubTreeValue>) returns (r: Loaded)
    ensures r == Load(secretAt, root, values)
  {
    var revealed: Revealed := map[];
    for i := 0 to |values|
      invariant RevealFrom(secretAt, values, map[]) == RevealFrom(secretAt, values[i..], revealed)
    {
      assert values[i..][0] == values[i] && values[i..][1..] == values[i + 1..];
      if values[i].content.Secret? {
        var secret := secretAt(values[i].path);
        if secret.Err? { return Refused(secret.kind); }
        revealed := revealed[Fold(values[i].path) := secret.value];
      }
    }
    assert values[|values|..] == [];
    var tree := BuildTree(root, values, revealed);
    return if tree.None? then InvalidConversion else Tree(tree.value);
  }

  // ---------- What is loaded ----------

  /** The value's own text: as stored, or as revealing its path answers. */
  function Real(secretAt: ConfigPath -> Result<string>, v: SubTreeValue): Result<string> {
    match v.content
    case Plain(text) => Ok(text)
    case Secret => secretAt(v.path)
  }

  predicate AllAnswered(secretAt: ConfigPath -> Result<string>, values: seq<SubTreeValue>) {
    forall i :: 0 <= i < |values| ==> Real(secretAt, values[i]).Ok?
  }

  /** The values with every secret replaced by its own text. */
  function RealValues(secretAt: ConfigPath -> Result<string>, values: seq<SubTreeValue>): (r: seq<SubTreeValue>)
    requires AllAnswered(secretAt, values)
    ensures |r| == |values|
    ensures forall i :: 0 <= i < |values| ==> r[i] == SubTreeValue(values[i].path, Plain(Real(secretAt, values[i]).value))
  {
    seq(|values|, i requires 0 <= i < |values| => SubTreeValue(values[i].path, Plain(Real(secretAt, values[i]).value)))
  }

  lemma AllAnsweredCons(secretAt: ConfigPath -> Result<string>, values: seq<SubTreeValue>)
    requires values != []
    ensures AllAnswered(secretAt, values) <==> Real(secretAt, values[0]).Ok? && AllAnswered(secretAt, values[1..])
  {
    assert forall i :: 0 < i < |values| ==> values[i] == values[1..][i - 1];
  }

  lemma {:induction false} RevealsExactly(secretAt: ConfigPath -> Result<string>, values: seq<SubTreeValue>, revealed: Revealed)
    ensures RevealFrom(secretAt, values, revealed).Ok? <==> AllAnswered(secretAt, values)
    decreases values
  {
    if values != [] {
      AllAnsweredCons(secretAt, values);
      if values[0].content.Plain? {
        RevealsExactly(secretAt, values[1..], revealed);
      } else if secretAt(values[0].path).Ok? {
        RevealsExactly(secretAt, values[1..], revealed[Fold(values[0].path) := secretAt(values[0].path).value]);
      }
    }
  }

  /** The first failure is the one reported. */
  lemma {:induction false} FirstFailure(secretAt: ConfigPath -> Result<string>, values: seq<SubTreeValue>, revealed: Revealed, i: nat)
    requires i < |values| && AllAnswered(secretAt, values[..i]) && Real(secretAt, values[i]).Err?
    ensures RevealFrom(secretAt, values, revealed) == Err(Real(secretAt, values[i]).kind)
    decreases values
  {
    if i > 0 {
      assert values[..i][0] == values[0] && values[1..][..i - 1] == values[..i][1..];
      AllAnsweredCons(secretAt, values[..i]);
      var more := if values[0].content.Plain? then revealed else revealed[Fold(values[0].path) := secretAt(values[0].path).value];
      FirstFailure(secretAt, values[1..], more, i - 1);
    }
  }

  /** A key no later value folds to keeps what it has. */
  lemma {:induction false} RevealedStays(secretAt: ConfigPath -> Result<string>, values: seq<SubTreeValue>, revealed: Revealed, key: string)
    requires RevealFrom(secretAt, values, revealed).Ok? && key in revealed
    requires forall i :: 0 <= i < |values| ==> Fold(values[i].path) != key
    ensures var all := RevealFrom(secretAt, values, revealed).value; key in all && all[key] == revealed[key]
    decreases values
  {
    if values != [] {
      var more := if values[0].content.Plain? then revealed else revealed[Fold(values[0].path) := secretAt(values[0].path).value];
      RevealedStays(secretAt, values[1..], more, key);
    }
  }

  lemma FoldsDiffer(values: seq<SubTreeValue>, j: nat)
    requires NoCollisions(values) && 0 < j < |values|
    ensures Fold(values[j].path) != Fold(values[0].path)
  {
    FoldEqualIffFoldSegmentsEqual(values[0].path, values[j].path);
    assert !JsonTree.Conflict(FoldSegments(values[0].path), FoldSegments(values[j].path));
  }

  lemma NoCollisionsRest(values: seq<SubTreeValue>)
    requires values != [] && NoCollisions(values)
    ensures NoCollisions(values[1..])
  {
    assert forall i :: 0 <= i < |values[1..]| ==> values[1..][i] == values[i + 1];
  }

  /** Without collisions, each value reads back as its own text. */
  lemma {:induction false} LeafTextIsReal(secretAt: ConfigPath -> Result<string>, values: seq<SubTreeValue>, revealed: Revealed, i: nat)
    requires NoCollisions(values) && RevealFrom(secretAt, values, revealed).Ok? && i < |values|
    ensures Real(secretAt, values[i]).Ok?
    ensures LeafText(values[i], RevealFrom(secretAt, values, revealed).value) == Some(Real(secretAt, values[i]).value)
    decreases values
  {
    var v, rest := values[0], values[1..];
    var more := if v.content.Plain? then revealed else revealed[Fold(v.path) := secretAt(v.path).value];
    if i > 0 {
      NoCollisionsRest(values);
      LeafTextIsReal(secretAt, rest, more, i - 1);
      assert rest[i - 1] == values[i];
    } else if v.content.Secret? {
      forall j | 0 <= j < |rest| ensures Fold(rest[j].path) != Fold(v.path) {
        FoldsDiffer(values, j + 1);
      }
      RevealedStays(secretAt, rest, more, Fold(v.path));
    }
  }

  lemma ExposedAreReal(secretAt: ConfigPath -> Result<string>, values: seq<SubTreeValue>)
    requires NoCollisions(values) && RevealFrom(secretAt, values, map[]).Ok?
    ensures AllAnswered(secretAt, values)
    ensures AllRevealed(values, RevealFrom(secretAt, values, map[]).value)
    ensures ExposeAll(values, RevealFrom(secretAt, values, map[]).value) == RealValues(secretAt, values)
  {
    RevealsExactly(secretAt, values, map[]);
    forall i | 0 <= i < |values|
      ensures LeafText(values[i], RevealFrom(secretAt, values, map[]).value) == Some(Real(secretAt, values[i]).value)
    {
      LeafTextIsReal(secretAt, values, map[], i);
    }
  }

  lemma RealValuesRender(secretAt: ConfigPath -> Result<string>, root: ConfigPath, values: seq<SubTreeValue>)
    requires AllAnswered(secretAt, values)
    ensures Render(root, RealValues(secretAt, values)).Some? <==> Render(root, values).Some?
  {
    RenderExactly(root, values);
    RenderExactly(root, RealValues(secretAt, values));
    var own := RealValues(secretAt, values);
    assert AllPlaced(root, values) <==> AllPlaced(root, own) by {
      assert forall i :: 0 <= i < |values| ==> (Placed(root, values[i]) <==> Placed(root, own[i]));
    }
    assert NoCollisions(values) <==> NoCollisions(own) by {
      assert forall i :: 0 <= i < |values| ==> values[i].path == own[i].path;
    }
  }

  /** The load is refused exactly when revealing some secret fails. Otherwise it gives a tree exactly
      when the JSON renderer accepts the subtree: the tree rendered from the values with every
      secret replaced by what revealing its path answered, keys folded. */
  lemma LoadRefinesRender(secretAt: ConfigPath -> Result<string>, root: ConfigPath, values: seq<SubTreeValue>)
    ensures Load(secretAt, root, values).Refused? <==> !AllAnswered(secretAt, values)
    ensures AllAnswered(secretAt, values) ==> (Load(secretAt, root, values).Tree? <==> Render(root, values).Some?)
    ensures Load(secretAt, root, values).Tree? ==>
              && Render(root, RealValues(secretAt, values)).Some?
              && Load(secretAt, root, values).tree == FoldNode(Render(root, RealValues(secretAt, values)).value)
  {
    RevealsExactly(secretAt, values, map[]);
    if AllAnswered(secretAt, values) {
      var revealed := RevealFrom(secretAt, values, map[]).value;
      RenderExactly(root, values);
      RealValuesRender(secretAt, root, values);
      BuildRefinesRender(root, values, revealed);
      BuildFromFolds(root, values, revealed, State(Nil, None));
      if Render(root, values).Some? { ExposedAreReal(secretAt, values); }
    }
  }

  /** Leaf by leaf: the loaded tree's texts, in fold-segment order, are the values' own. */
  lemma LoadedLeaves(secretAt: ConfigPath -> Result<string>, root: ConfigPath, values: seq<SubTreeValue>)
    requires Load(secretAt, root, values).Tree?
    ensures AllAnswered(secretAt, values)
    ensures Under(FoldSegments(root), LeavesOf(Load(secretAt, root, values).tree))
         == Shown(StableSort(ByPath(RealValues(secretAt, values))))
  {
    LoadRefinesRender(secretAt, root, values);
    RenderExactly(root, RealValues(secretAt, values));
    FoldNodeShape(Render(root, RealValues(secretAt, values)).value);
  }
}
