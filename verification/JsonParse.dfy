/** `parse_subtree_json`: deserializing a document member by member, and flattening it into
    mutations. A document is the JSON syntax tree; its text encoding is serde_json's. */
module JsonParse {
  import opened Text
  import opened Paths
  import opened Sorting
  import opened Values
  import opened JsonTree

  /** `Scalar` stands for every JSON value that is neither a string nor an object. */
  datatype Doc = Text(text: string) | Object(members: seq<Member>) | Scalar
  datatype Member = Member(key: string, value: Doc)

  // ---------- Deserialize for JsonNode ----------

  function Decode(doc: Doc): Option<Node> {
    match doc
    case Text(text) => Some(Str(text))
    case Scalar => None
    case Object(ms) =>
      match DecodeMembers(ms, Nil)
      case None => None
      case Some(tree) => Some(Obj(tree))
  }

  function DecodeMembers(ms: seq<Member>, tree: Members): Option<Members> {
    if ms == [] then Some(tree) else
      match Decode(ms[0].value)
      case None => None
      case Some(node) =>
        if Get(tree, ms[0].key).Some? then None
        else DecodeMembers(ms[1..], Put(tree, ms[0].key, node))
  }

  /** The visitor: `visit_str` for strings, and the `visit_map` loop for objects. */
  method Deserialize(doc: Doc) returns (r: Option<Node>)
    ensures r == Decode(doc)
    decreases doc
  {
    match doc
    case Text(text) => return Some(Str(text));
    case Scalar => return None;
    case Object(ms) =>
      var tree: Members := Nil;
      for i := 0 to |ms|
        invariant DecodeMembers(ms, Nil) == DecodeMembers(ms[i..], tree)
      {
        assert ms[i..][0] == ms[i] && ms[i..][1..] == ms[i + 1..];
        var value := Deserialize(ms[i].value);
        if value.None? { return None; }
        var replaced := Get(tree, ms[i].key).Some?;
        tree := Put(tree, ms[i].key, value.value);
        if replaced { return None; }
      }
      assert ms[|ms|..] == [];
      return Some(Obj(tree));
  }

  /** Only strings and objects, and no two keys of one object equal up to case. */
  ghost predicate WellFormed(doc: Doc) {
    match doc
    case Text(_) => true
    case Scalar => false
    case Object(ms) => AllWellFormed(ms) && DistinctKeys(ms)
  }

  ghost predicate AllWellFormed(ms: seq<Member>) {
    ms != [] ==> WellFormed(ms[0].value) && AllWellFormed(ms[1..])
  }

  ghost predicate DistinctKeys(ms: seq<Member>) {
    forall i, j :: 0 <= i < j < |ms| ==> Fold(ms[i].key) != Fold(ms[j].key)
  }

  function DocLeaves(doc: Doc): seq<Entry<string>> {
    match doc
    case Text(text) => [Entry([], text)]
    case Scalar => []
    case Object(ms) => MemberLeaves(ms)
  }

  function MemberLeaves(ms: seq<Member>): seq<Entry<string>> {
    if ms == [] then [] else Under([ms[0].key], DocLeaves(ms[0].value)) + MemberLeaves(ms[1..])
  }

  lemma PutOrdered(tree: Members, key: string, node: Node, k: string)
    requires Ordered(tree) && OrderedNode(node)
    ensures Ordered(Put(tree, key, node))
    ensures Above(k, tree) && StrLt(k, Fold(key)) ==> Above(k, Put(tree, key, node))
  {
    if tree.Cons? {
      StrLtTotal(Fold(key), Fold(tree.key));
      PutOrdered(tree.rest, key, node, k);
      PutOrdered(tree.rest, key, node, Fold(tree.key));
      if StrLt(Fold(key), Fold(tree.key)) { AboveTransitive(Fold(key), Fold(tree.key), tree.rest); }
    }
  }

  lemma PutGet(tree: Members, key: string, node: Node, other: string)
    ensures Get(Put(tree, key, node), other).Some? <==> Fold(key) == Fold(other) || Get(tree, other).Some?
  {
  }

  lemma PutLeaves(tree: Members, key: string, node: Node)
    requires Ordered(tree) && Get(tree, key).None?
    ensures multiset(Leaves(Put(tree, key, node))) == multiset(Under([key], LeavesOf(node))) + multiset(Leaves(tree))
  {
    if tree.Cons? && !StrLt(Fold(key), Fold(tree.key)) {
      PutLeaves(tree.rest, key, node);
    } else if tree == Nil {
      LeavesSingle(key, node);
    }
  }

  ghost predicate Fresh(tree: Members, ms: seq<Member>) {
    forall i :: 0 <= i < |ms| ==> Get(tree, ms[i].key).None?
  }

  lemma FreshPut(tree: Members, ms: seq<Member>, node: Node)
    requires ms != []
    ensures Fresh(Put(tree, ms[0].key, node), ms[1..]) <==>
            Fresh(tree, ms[1..]) && forall j :: 1 <= j < |ms| ==> Fold(ms[0].key) != Fold(ms[j].key)
  {
    var tree' := Put(tree, ms[0].key, node);
    forall j | 1 <= j < |ms|
      ensures Get(tree', ms[j].key).None? <==> Get(tree, ms[j].key).None? && Fold(ms[0].key) != Fold(ms[j].key)
    {
      PutGet(tree, ms[0].key, node, ms[j].key);
    }
    assert forall j :: 1 <= j < |ms| ==> ms[j] == ms[1..][j - 1];
  }

  lemma DistinctKeysCons(ms: seq<Member>)
    requires ms != []
    ensures DistinctKeys(ms) <==> DistinctKeys(ms[1..]) && forall j :: 1 <= j < |ms| ==> Fold(ms[0].key) != Fold(ms[j].key)
  {
    assert forall j :: 1 <= j < |ms| ==> ms[j] == ms[1..][j - 1];
    if DistinctKeys(ms[1..]) && forall j :: 1 <= j < |ms| ==> Fold(ms[0].key) != Fold(ms[j].key) {
      forall i, j | 0 <= i < j < |ms| ensures Fold(ms[i].key) != Fold(ms[j].key) {
        if i > 0 { assert ms[i] == ms[1..][i - 1] && ms[j] == ms[1..][j - 1]; }
      }
    }
  }

  /** A document is accepted exactly when it is well formed, and the tree then holds its leaves,
      spelled as they were. */
  lemma DecodeExactly(doc: Doc)
    ensures Decode(doc).Some? <==> WellFormed(doc)
    ensures Decode(doc).Some? ==>
              OrderedNode(Decode(doc).value) && multiset(LeavesOf(Decode(doc).value)) == multiset(DocLeaves(doc))
  {
    DecodeAccepts(doc);
    if Decode(doc).Some? { DecodeKeepsLeaves(doc); }
  }

  lemma {:induction false} DecodeAccepts(doc: Doc)
    ensures Decode(doc).Some? <==> WellFormed(doc)
    ensures Decode(doc).Some? ==> OrderedNode(Decode(doc).value)
    decreases doc
  {
    if doc.Object? { DecodeMembersAccept(doc.members, Nil); }
  }

  lemma {:induction false} DecodeMembersAccept(ms: seq<Member>, tree: Members)
    requires Ordered(tree)
    ensures DecodeMembers(ms, tree).Some? <==> AllWellFormed(ms) && DistinctKeys(ms) && Fresh(tree, ms)
    ensures DecodeMembers(ms, tree).Some? ==> Ordered(DecodeMembers(ms, tree).value)
    decreases ms
  {
    if ms != [] {
      var key, node := ms[0].key, Decode(ms[0].value);
      DecodeAccepts(ms[0].value);
      FreshCons(tree, ms);
      if node.Some? && Get(tree, key).None? {
        DistinctKeysCons(ms);
        FreshPut(tree, ms, node.value);
        PutOrdered(tree, key, node.value, "");
        DecodeMembersAccept(ms[1..], Put(tree, key, node.value));
      }
    }
  }

  lemma {:induction false} DecodeKeepsLeaves(doc: Doc)
    requires Decode(doc).Some?
    ensures multiset(LeavesOf(Decode(doc).value)) == multiset(DocLeaves(doc))
    decreases doc
  {
    if doc.Object? { DecodeMembersKeepLeaves(doc.members, Nil); }
  }

  lemma {:induction false} DecodeMembersKeepLeaves(ms: seq<Member>, tree: Members)
    requires Ordered(tree) && DecodeMembers(ms, tree).Some?
    ensures multiset(Leaves(DecodeMembers(ms, tree).value)) == multiset(Leaves(tree)) + multiset(MemberLeaves(ms))
    decreases ms
  {
    if ms != [] {
      var key, doc := ms[0].key, ms[0].value;
      var node := Decode(doc).value;
      DecodeAccepts(doc);
      DecodeKeepsLeaves(doc);
      PutOrdered(tree, key, node, "");
      PutLeaves(tree, key, node);
      DecodeMembersKeepLeaves(ms[1..], Put(tree, key, node));
      UnderMultiset([key], LeavesOf(node), DocLeaves(doc));
    }
  }

  lemma FreshCons(tree: Members, ms: seq<Member>)
    requires ms != []
    ensures Fresh(tree, ms) <==> Get(tree, ms[0].key).None? && Fresh(tree, ms[1..])
  {
    assert forall j :: 1 <= j < |ms| ==> ms[j] == ms[1..][j - 1];
    assert forall j :: 0 <= j < |ms[1..]| ==> ms[1..][j] == ms[j + 1];
  }

  lemma UnderMultiset<T>(p: seq<string>, a: seq<Entry<T>>, b: seq<Entry<T>>)
    requires multiset(a) == multiset(b)
    ensures multiset(Under(p, a)) == multiset(Under(p, b))
  {
    forall e ensures multiset(Under(p, a))[e] == multiset(Under(p, b))[e] {
      UnderCount(p, a, e);
      UnderCount(p, b, e);
    }
  }

  lemma HeadUnder<T>(p: seq<string>, h: Entry<T>, e: Entry<T>)
    ensures Entry(p + h.key, h.value) == e <==> p <= e.key && Entry(e.key[|p|..], e.value) == h
  {
    if p <= e.key { assert e.key == p + e.key[|p|..]; }
    assert (p + h.key)[|p|..] == h.key;
  }

  lemma UnderCons<T>(p: seq<string>, a: seq<Entry<T>>)
    requires a != []
    ensures multiset(a) == multiset{a[0]} + multiset(a[1..])
    ensures multiset(Under(p, a)) == multiset{Entry(p + a[0].key, a[0].value)} + multiset(Under(p, a[1..]))
  {
    assert a == [a[0]] + a[1..];
    assert Under(p, a) == [Entry(p + a[0].key, a[0].value)] + Under(p, a[1..]);
  }

  lemma {:induction false} UnderCount<T>(p: seq<string>, a: seq<Entry<T>>, e: Entry<T>)
    ensures multiset(Under(p, a))[e] == if p <= e.key then multiset(a)[Entry(e.key[|p|..], e.value)] else 0
  {
    if a != [] {
      UnderCount(p, a[1..], e);
      UnderCons(p, a);
      HeadUnder(p, a[0], e);
    }
  }

  // ---------- Serialize for JsonNode ----------

  function Encode(n: Node): Doc {
    match n
    case Str(text) => Text(text)
    case Obj(ms) => Object(EncodeMembers(ms))
  }

  function EncodeMembers(ms: Members): seq<Member> {
    match ms
    case Nil => []
    case Cons(k, n, rest) => [Member(k, Encode(n))] + EncodeMembers(rest)
  }

  lemma PutLast(a: Members, k: string, n: Node)
    requires Below(a, Fold(k))
    ensures Get(a, k).None? && Put(a, k, n) == Append(a, Cons(k, n, Nil))
  {
    if a.Cons? {
      StrLtTotal(Fold(a.key), Fold(k));
      PutLast(a.rest, k, n);
    }
  }

  /** Deserializing what was serialized restores the tree. */
  lemma {:induction false} DecodeEncode(n: Node)
    requires OrderedNode(n)
    ensures Decode(Encode(n)) == Some(n)
    decreases n
  {
    if n.Obj? { DecodeEncodeMembers(Nil, n.members); }
  }

  lemma {:induction false} DecodeEncodeMembers(a: Members, ms: Members)
    requires Ordered(ms) && (ms.Cons? ==> Below(a, Fold(ms.key)))
    ensures DecodeMembers(EncodeMembers(ms), a) == Some(Append(a, ms))
    decreases ms
  {
    if ms == Nil {
      AppendNil(a);
    } else {
      DecodeEncode(ms.node);
      PutLast(a, ms.key, ms.node);
      assert EncodeMembers(ms)[1..] == EncodeMembers(ms.rest);
      if ms.rest.Cons? { BelowAppend(a, ms.key, ms.node, ms.rest); }
      DecodeEncodeMembers(Append(a, Cons(ms.key, ms.node, Nil)), ms.rest);
      AppendAssociative(a, Cons(ms.key, ms.node, Nil), ms.rest);
    }
  }

  // ---------- Flattening ----------

  function Classify(text: string): MutationContent {
    if text == MASKED_SECRET_TEXT then PreserveSecret else PlainText(text)
  }

  function FlattenNode(path: ConfigPath, n: Node): Option<seq<Mutation>>
    decreases n
  {
    match n
    case Str(text) => if '\0' in text then None else Some([Mutation(path, Classify(text))])
    case Obj(ms) => FlattenMembers(path, ms)
  }

  function FlattenMembers(path: ConfigPath, ms: Members): Option<seq<Mutation>>
    decreases ms
  {
    match ms
    case Nil => Some([])
    case Cons(k, n, rest) =>
      match JoinName(path, k)
      case None => None
      case Some(child) =>
        match FlattenNode(child, n)
        case None => None
        case Some(below) => PushedOnto(below, FlattenMembers(path, rest))
  }

  /** Values collected so far, then more of them unless that failed. */
  function PushedOnto(collected: seq<Mutation>, more: Option<seq<Mutation>>): Option<seq<Mutation>> {
    if more.None? then None else Some(collected + more.value)
  }

  lemma PushedTwice(a: seq<Mutation>, b: seq<Mutation>, more: Option<seq<Mutation>>)
    ensures PushedOnto(a, PushedOnto(b, more)) == PushedOnto(a + b, more)
    ensures PushedOnto([], more) == more
  {
    if more.Some? { assert a + (b + more.value) == a + b + more.value && [] + more.value == more.value; }
  }

  /** `flatten_json_node`, pushing onto the values collected so far. */
  method FlattenJsonNode(path: ConfigPath, node: Node, collected: seq<Mutation>) returns (r: Option<seq<Mutation>>)
    ensures r == PushedOnto(collected, FlattenNode(path, node))
    decreases node, 1
  {
    match node
    case Str(text) =>
      if '\0' in text { return None; }
      var content := if text == MASKED_SECRET_TEXT then PreserveSecret else PlainText(text);
      return Some(collected + [Mutation(path, content)]);
    case Obj(ms) =>
      r := FlattenJsonObject(path, ms, collected);
  }

  /** `flatten_json_object`. */
  method FlattenJsonObject(root: ConfigPath, members: Members, collected: seq<Mutation>) returns (r: Option<seq<Mutation>>)
    ensures r == PushedOnto(collected, FlattenMembers(root, members))
    decreases members
  {
    var rest, values := members, collected;
    while rest.Cons?
      invariant rest == members || rest < members
      invariant PushedOnto(collected, FlattenMembers(root, members)) == PushedOnto(values, FlattenMembers(root, rest))
      decreases rest
    {
      var path := JoinName(root, rest.key);
      if path.None? { return None; }
      var pushed := FlattenJsonNode(path.value, rest.node, values);
      if pushed.None? { return None; }
      PushedTwice(values, FlattenNode(path.value, rest.node).value, FlattenMembers(root, rest.rest));
      values, rest := pushed.value, rest.rest;
    }
    assert values + [] == values;
    return Some(values);
  }

  predicate ValidKeys(ms: Members) {
    ms.Cons? ==> ValidSegment(ms.key) && ValidNodeKeys(ms.node) && ValidKeys(ms.rest)
  }

  predicate ValidNodeKeys(n: Node) {
    n.Obj? ==> ValidKeys(n.members)
  }

  predicate NoNul(es: seq<Entry<string>>) {
    forall i :: 0 <= i < |es| ==> '\0' !in es[i].value
  }

  predicate ValidLeafKeys(es: seq<Entry<string>>) {
    forall i :: 0 <= i < |es| ==> ValidSegments(es[i].key)
  }

  function Mutations(path: ConfigPath, es: seq<Entry<string>>): (r: seq<Mutation>)
    requires ValidLeafKeys(es)
    ensures |r| == |es|
    ensures forall i :: 0 <= i < |es| ==>
              r[i] == Mutation(PathOf(Segments(path) + es[i].key), Classify(es[i].value))
  {
    seq(|es|, i requires 0 <= i < |es| =>
      Mutation(PathOf(Segments(path) + es[i].key), Classify(es[i].value)))
  }

  lemma ValidKeysLeaves(ms: Members)
    requires ValidKeys(ms)
    ensures ValidLeafKeys(Leaves(ms))
  {
    if ms.Cons? {
      if ms.node.Obj? { ValidKeysLeaves(ms.node.members); }
      ValidKeysLeaves(ms.rest);
    }
  }

  lemma JoinedPath(path: ConfigPath, k: string, key: seq<string>)
    requires ValidSegment(k) && ValidSegments(key)
    ensures PathOf(Segments(JoinName(path, k).value) + key) == PathOf(Segments(path) + ([k] + key))
  {
    ConcatAssociates(Segments(path), [k], key);
  }

  lemma ConcatAssociates(a: seq<string>, b: seq<string>, c: seq<string>)
    ensures a + b + c == a + (b + c)
  {
  }

  lemma MutationsUnder(path: ConfigPath, k: string, es: seq<Entry<string>>)
    requires ValidSegment(k) && ValidLeafKeys(es)
    ensures ValidLeafKeys(Under([k], es))
    ensures Mutations(JoinName(path, k).value, es) == Mutations(path, Under([k], es))
  {
    var under, joined := Under([k], es), JoinName(path, k).value;
    forall i | 0 <= i < |es| ensures Mutations(joined, es)[i] == Mutations(path, under)[i] {
      JoinedPath(path, k, es[i].key);
    }
  }

  /** Flattening accepts exactly valid key segments and NUL-free texts, and lists the leaves. */
  lemma {:induction false} FlattenExactly(path: ConfigPath, ms: Members)
    ensures FlattenMembers(path, ms).Some? <==> ValidKeys(ms) && NoNul(Leaves(ms))
    ensures FlattenMembers(path, ms).Some? ==>
              ValidLeafKeys(Leaves(ms)) && FlattenMembers(path, ms).value == Mutations(path, Leaves(ms))
    decreases ms
  {
    if ms == Nil {
      assert Leaves(ms) == [];
    } else {
      var here, after := Under([ms.key], LeavesOf(ms.node)), Leaves(ms.rest);
      FlattenExactly(path, ms.rest);
      NoNulConcat(here, after);
      NoNulUnder(ms.key, LeavesOf(ms.node));
      if ValidSegment(ms.key) {
        FlattenNodeExactly(JoinName(path, ms.key).value, ms.node);
        if FlattenMembers(path, ms).Some? {
          MutationsUnder(path, ms.key, LeavesOf(ms.node));
          MutationsConcat(path, here, after);
        }
      }
    }
  }

  lemma MutationsConcat(path: ConfigPath, a: seq<Entry<string>>, b: seq<Entry<string>>)
    requires ValidLeafKeys(a) && ValidLeafKeys(b)
    ensures ValidLeafKeys(a + b) && Mutations(path, a + b) == Mutations(path, a) + Mutations(path, b)
  {
  }

  lemma {:induction false} FlattenNodeExactly(path: ConfigPath, n: Node)
    ensures FlattenNode(path, n).Some? <==> ValidNodeKeys(n) && NoNul(LeavesOf(n))
    ensures FlattenNode(path, n).Some? ==>
              ValidLeafKeys(LeavesOf(n)) && FlattenNode(path, n).value == Mutations(path, LeavesOf(n))
    decreases n
  {
    if n.Obj? {
      FlattenExactly(path, n.members);
    } else {
      assert LeavesOf(n)[0] == Entry([], n.text);
      PathIsItsSegments(path);
      assert Segments(path) + [] == Segments(path);
    }
  }

  lemma NoNulConcat(a: seq<Entry<string>>, b: seq<Entry<string>>)
    ensures NoNul(a + b) <==> NoNul(a) && NoNul(b)
  {
    if NoNul(a + b) {
      forall i | 0 <= i < |a| ensures '\0' !in a[i].value { assert (a + b)[i] == a[i]; }
      forall i | 0 <= i < |b| ensures '\0' !in b[i].value { assert (a + b)[|a| + i] == b[i]; }
    }
  }

  lemma NoNulUnder(k: string, es: seq<Entry<string>>)
    ensures NoNul(Under([k], es)) <==> NoNul(es)
  {
    if NoNul(Under([k], es)) {
      forall i | 0 <= i < |es| ensures '\0' !in es[i].value { assert Under([k], es)[i].value == es[i].value; }
    }
  }

  // ---------- parse_subtree_json ----------

  function ParseNode(root: ConfigPath, node: Node): Option<seq<Mutation>> {
    if root == "/" && node.Str? then None else FlattenNode(root, node)
  }

  function ParseDoc(root: ConfigPath, doc: Doc): Option<seq<Mutation>> {
    match Decode(doc)
    case None => None
    case Some(node) => ParseNode(root, node)
  }

  /** `parse_subtree_json`, from the document on. */
  method ParseSubtreeJson(root: ConfigPath, doc: Doc) returns (r: Option<seq<Mutation>>)
    ensures r == ParseDoc(root, doc)
  {
    var node := Deserialize(doc);
    if node.None? { return None; }
    PushedTwice([], [], FlattenNode(root, node.value));
    if root == "/" {
      if node.value.Str? { return None; }
      r := FlattenJsonObject(root, node.value.members, []);
    } else {
      r := FlattenJsonNode(root, node.value, []);
    }
  }

  // ---------- Which documents are accepted ----------

  /** Every key a path segment and no text with a NUL. */
  predicate Acceptable(doc: Doc) {
    match doc
    case Text(text) => '\0' !in text
    case Scalar => false
    case Object(ms) => AllAcceptable(ms)
  }

  predicate AllAcceptable(ms: seq<Member>) {
    ms != [] ==> ValidSegment(ms[0].key) && Acceptable(ms[0].value) && AllAcceptable(ms[1..])
  }

  predicate NodeOk(n: Node) { ValidNodeKeys(n) && NoNul(LeavesOf(n)) }

  predicate MembersOk(ms: Members) { ValidKeys(ms) && NoNul(Leaves(ms)) }

  lemma MembersOkCons(k: string, n: Node, rest: Members)
    ensures MembersOk(Cons(k, n, rest)) <==> ValidSegment(k) && NodeOk(n) && MembersOk(rest)
  {
    NoNulConcat(Under([k], LeavesOf(n)), Leaves(rest));
    NoNulUnder(k, LeavesOf(n));
  }

  lemma {:induction false} MembersOkPut(tree: Members, key: string, node: Node)
    requires Get(tree, key).None?
    ensures MembersOk(Put(tree, key, node)) <==> MembersOk(tree) && ValidSegment(key) && NodeOk(node)
    decreases tree
  {
    MembersOkCons(key, node, tree);
    if tree.Cons? {
      MembersOkCons(tree.key, tree.node, tree.rest);
      MembersOkPut(tree.rest, key, node);
      MembersOkCons(tree.key, tree.node, Put(tree.rest, key, node));
    }
  }

  lemma {:induction false} DecodedOk(doc: Doc)
    requires Decode(doc).Some?
    ensures NodeOk(Decode(doc).value) <==> Acceptable(doc)
    decreases doc, 1
  {
    if doc.Object? {
      DecodedMembersOk(doc.members, Nil);
      assert MembersOk(Nil) by { assert Leaves(Nil) == []; }
    } else {
      assert LeavesOf(Decode(doc).value)[0].value == doc.text;
    }
  }

  lemma {:induction false} DecodedMembersOk(ms: seq<Member>, tree: Members)
    requires DecodeMembers(ms, tree).Some?
    ensures MembersOk(DecodeMembers(ms, tree).value) <==> MembersOk(tree) && AllAcceptable(ms)
    decreases ms, 0
  {
    if ms != [] {
      var node := Decode(ms[0].value).value;
      DecodedOk(ms[0].value);
      MembersOkPut(tree, ms[0].key, node);
      DecodedMembersOk(ms[1..], Put(tree, ms[0].key, node));
    }
  }

  /** A document is accepted exactly when it is strings and objects with no two sibling keys equal up
      to case, every key is a path segment, no text holds a NUL, and at the tree root it is an object.
      The mutations are then its texts, one for one, in fold order. */
  lemma ParseExactly(root: ConfigPath, doc: Doc)
    ensures ParseDoc(root, doc).Some? <==> WellFormed(doc) && Acceptable(doc) && (root == "/" ==> doc.Object?)
    ensures ParseDoc(root, doc).Some? ==>
              && OrderedNode(Decode(doc).value)
              && multiset(LeavesOf(Decode(doc).value)) == multiset(DocLeaves(doc))
              && ValidLeafKeys(LeavesOf(Decode(doc).value))
              && ParseDoc(root, doc).value == Mutations(root, LeavesOf(Decode(doc).value))
  {
    DecodeExactly(doc);
    if Decode(doc).Some? {
      DecodedOk(doc);
      FlattenNodeExactly(root, Decode(doc).value);
    }
  }
}
