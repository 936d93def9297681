/** The canonical path grammar of `path.rs`, and the proof that every independently written
    "is this path below that one" test in the code base decides the same relation. */
module Paths {
  import opened Text

  // ---------- The grammar ----------

  predicate SegmentChar(c: char) {
    'a' <= c <= 'z' || 'A' <= c <= 'Z' || '0' <= c <= '9' || c == '-' || c == '_'
  }

  predicate ValidSegment(s: string) {
    s != [] && forall i :: 0 <= i < |s| ==> SegmentChar(s[i])
  }

  predicate ValidSegments(segs: seq<string>) {
    forall i :: 0 <= i < |segs| ==> ValidSegment(segs[i])
  }

  predicate Canonical(p: string) {
    p == "/" || (|p| > 1 && p[0] == '/' && ValidSegments(Split(p[1..], '/')))
  }

  /** A path holds exactly the text it was written with. */
  type ConfigPath = p: string | Canonical(p) witness "/"

  /** The path's segments as written; the tree root has none. */
  function Segments(p: ConfigPath): (r: seq<string>)
    ensures ValidSegments(r)
    ensures r == [] <==> p == "/"
  {
    if p == "/" then [] else Split(p[1..], '/')
  }

  /** ASCII letters, digits, dash and underscore, by code. */
  predicate NameCode(c: char) {
    var n := c as int;
    97 <= n <= 122 || 65 <= n <= 90 || 48 <= n <= 57 || n == 45 || n == 95
  }

  /** Names between single separators, with none at either end. */
  predicate Tidy(s: string) {
    && s != [] && s[0] != '/' && s[|s| - 1] != '/'
    && (forall i :: 0 <= i < |s| ==> s[i] == '/' || NameCode(s[i]))
    && forall i :: 0 <= i < |s| - 1 ==> !(s[i] == '/' && s[i + 1] == '/')
  }

  lemma TidyCut(s: string, i: nat)
    requires i < |s| && s[i] == '/' && '/' !in s[..i]
    ensures Tidy(s) <==> ValidSegment(s[..i]) && Tidy(s[i + 1..])
  {
    var a, b := s[..i], s[i + 1..];
    assert forall j :: 0 <= j < i ==> s[j] == a[j];
    assert forall j :: i < j < |s| ==> s[j] == b[j - i - 1];
    if Tidy(s) {
      assert i > 0 && i < |s| - 1;
      assert !(s[i] == '/' && s[i + 1] == '/');
      forall j | 0 <= j < |a| ensures SegmentChar(a[j]) { assert s[j] == a[j]; }
      forall j | 0 <= j < |b| ensures b[j] == '/' || NameCode(b[j]) { assert s[j + i + 1] == b[j]; }
      forall j | 0 <= j < |b| - 1 ensures !(b[j] == '/' && b[j + 1] == '/') {
        assert s[j + i + 1] == b[j] && s[j + i + 1 + 1] == b[j + 1];
      }
    }
    if ValidSegment(a) && Tidy(b) {
      forall j | 0 <= j < |s| ensures s[j] == '/' || NameCode(s[j]) {
        if j < i { assert SegmentChar(a[j]); } else if j > i { assert s[j] == b[j - i - 1]; }
      }
      forall j | 0 <= j < |s| - 1 ensures !(s[j] == '/' && s[j + 1] == '/') {
        if j < i { assert a[j] in a; } else if j == i { assert s[j + 1] == b[0]; } else {
          assert s[j] == b[j - i - 1] && s[j + 1] == b[j - i - 1 + 1];
        }
      }
    }
  }

  lemma TidyName(s: string)
    requires '/' !in s
    ensures Tidy(s) <==> ValidSegment(s)
  {
    if ValidSegment(s) { assert forall i :: 0 <= i < |s| ==> SegmentChar(s[i]); }
    if Tidy(s) {
      forall i | 0 <= i < |s| ensures SegmentChar(s[i]) { assert s[i] in s; }
    }
  }

  lemma ValidSegmentsCons(a: string, rest: seq<string>)
    ensures ValidSegments([a] + rest) <==> ValidSegment(a) && ValidSegments(rest)
  {
    var all := [a] + rest;
    if ValidSegments(all) {
      assert ValidSegment(all[0]);
      forall i | 0 <= i < |rest| ensures ValidSegment(rest[i]) { assert all[i + 1] == rest[i]; }
    }
  }

  lemma {:induction false} TidyIsSplit(s: string)
    ensures ValidSegments(Split(s, '/')) <==> Tidy(s)
    decreases |s|
  {
    var i := Find(s, '/');
    if i == |s| {
      assert s[..i] == s;
      TidyName(s);
      ValidSegmentsCons(s, []);
      assert [s] + [] == [s];
    } else {
      TidyIsSplit(s[i + 1..]);
      TidyCut(s, i);
      ValidSegmentsCons(s[..i], Split(s[i + 1..], '/'));
    }
  }

  /** The grammar by its characters alone: the tree root, or a separator followed by names with single
      separators between them. */
  lemma CanonicalByCharacter(p: string)
    ensures Canonical(p) <==> p == "/" || (|p| > 1 && p[0] == '/' && Tidy(p[1..]))
  {
    if |p| > 1 { TidyIsSplit(p[1..]); }
  }

  /** The identity two paths are compared on. */
  function FoldSegments(p: ConfigPath): (r: seq<string>)
    ensures r == [] <==> p == "/"
  {
    FoldAll(Segments(p))
  }

  /** Path text from segments: `/a/b` for `["a", "b"]`, nothing for no segments. */
  function Slashed(segs: seq<string>): string {
    if segs == [] then "" else "/" + segs[0] + Slashed(segs[1..])
  }

  function PathOf(segs: seq<string>): (p: ConfigPath)
    requires ValidSegments(segs)
    ensures Segments(p) == segs
  {
    if segs == [] then "/" else
      SlashedSplits(segs);
      Slashed(segs)
  }

  lemma ValidSegmentHasNoSlash(s: string)
    requires ValidSegment(s)
    ensures '/' !in s && '=' !in s && '\n' !in s
  {
  }

  lemma SplitAtSlash(head: string, tail: string)
    requires '/' !in head && tail != [] && tail[0] == '/'
    ensures Split(head + tail, '/') == [head] + Split(tail[1..], '/')
  {
    assert head + tail == head + ['/'] + tail[1..];
    SplitFirst(head, '/', tail[1..]);
  }

  lemma SlashedHead(segs: seq<string>)
    requires segs != [] && segs[0] != ""
    ensures |Slashed(segs)| > 1 && Slashed(segs)[0] == '/'
    ensures Slashed(segs)[1..] == segs[0] + Slashed(segs[1..])
  {
  }

  lemma {:induction false} SlashedSplits(segs: seq<string>)
    requires segs != [] && ValidSegments(segs)
    ensures |Slashed(segs)| > 1 && Slashed(segs)[0] == '/'
    ensures Split(Slashed(segs)[1..], '/') == segs
  {
    var head, tail := segs[0], Slashed(segs[1..]);
    ValidSegmentHasNoSlash(head);
    SlashedHead(segs);
    if |segs| == 1 {
      assert head + tail == head;
      SplitWhole(head, '/');
    } else {
      SlashedSplits(segs[1..]);
      SplitAtSlash(head, tail);
    }
  }

  lemma SlashedCons(a: string, segs: seq<string>)
    ensures Slashed([a] + segs) == "/" + a + Slashed(segs)
  {
    assert ([a] + segs)[1..] == segs;
  }

  lemma CutAt(s: string, i: nat)
    requires i < |s| && s[i] == '/'
    ensures "/" + s[..i] + ("/" + s[i + 1..]) == "/" + s
  {
    assert s == s[..i] + [s[i]] + s[i + 1..];
  }

  lemma SlashedOne(s: string)
    ensures Slashed([s]) == "/" + s
  {
    SlashedCons(s, []);
    assert [s] + [] == [s] && "/" + s + "" == "/" + s;
  }

  lemma SlashedSplit(s: string, i: nat)
    requires i == Find(s, '/') < |s|
    ensures Slashed(Split(s, '/')) == "/" + s[..i] + Slashed(Split(s[i + 1..], '/'))
  {
    SlashedCons(s[..i], Split(s[i + 1..], '/'));
  }

  lemma {:induction false} SplitSlashes(s: string)
    ensures Slashed(Split(s, '/')) == "/" + s
    decreases |s|
  {
    var i := Find(s, '/');
    if i < |s| {
      SlashedSplit(s, i);
      SplitSlashes(s[i + 1..]);
      CutAt(s, i);
    } else {
      SlashedOne(s);
    }
  }

  /** A canonical path is exactly its segments, so the two views are interchangeable. */
  lemma PathIsItsSegments(p: ConfigPath)
    ensures PathOf(Segments(p)) == p
    ensures p != "/" ==> Slashed(Segments(p)) == p
  {
    if p != "/" {
      SplitSlashes(p[1..]);
      assert p == "/" + p[1..];
    }
  }

  lemma SegmentsInjective(p: ConfigPath, q: ConfigPath)
    requires Segments(p) == Segments(q)
    ensures p == q
  {
    PathIsItsSegments(p);
    PathIsItsSegments(q);
  }

  lemma SlashedConcat(a: seq<string>, b: seq<string>)
    ensures Slashed(a + b) == Slashed(a) + Slashed(b)
  {
    if a == [] {
      assert a + b == b;
    } else {
      assert (a + b)[1..] == a[1..] + b;
      SlashedConcat(a[1..], b);
    }
  }

  // ---------- Folding ----------

  lemma FoldValidSegment(s: string)
    requires ValidSegment(s)
    ensures ValidSegment(Fold(s))
  {
  }

  lemma FoldSlashed(segs: seq<string>)
    ensures Fold(Slashed(segs)) == Slashed(FoldAll(segs))
  {
    if segs != [] {
      FoldSlashed(segs[1..]);
      FoldConcat("/" + segs[0], Slashed(segs[1..]));
      FoldConcat("/", segs[0]);
      assert FoldAll(segs)[1..] == FoldAll(segs[1..]);
      assert Fold("/") == "/";
    }
  }

  /** `ConfigPath::fold`: the lowercased text is itself a canonical path, namely the one whose
      segments are folded. */
  lemma FoldIsCanonical(p: ConfigPath)
    ensures Canonical(Fold(p))
    ensures Segments(Fold(p)) == FoldSegments(p)
  {
    if p == "/" {
      assert Fold(p) == "/";
    } else {
      var segs := FoldSegments(p);
      forall i | 0 <= i < |segs| ensures ValidSegment(segs[i]) {
        FoldValidSegment(Segments(p)[i]);
      }
      PathIsItsSegments(p);
      FoldSlashed(Segments(p));
      assert Fold(p) == PathOf(segs);
    }
  }

  /** `PartialEq`: equality on the fold is equality of folded segments. */
  lemma FoldEqualIffFoldSegmentsEqual(p: ConfigPath, q: ConfigPath)
    ensures Fold(p) == Fold(q) <==> FoldSegments(p) == FoldSegments(q)
  {
    FoldIsCanonical(p);
    FoldIsCanonical(q);
    if FoldSegments(p) == FoldSegments(q) {
      SegmentsInjective(Fold(p), Fold(q));
    }
  }

  // ---------- Parsing and joining ----------

  predicate LowerSegment(s: string) {
    s != [] && forall i :: 0 <= i < |s| ==> 'a' <= s[i] <= 'z' || '0' <= s[i] <= '9' || s[i] == '-' || s[i] == '_'
  }

  /** `ConfigPath::parse`. */
  function Parse(value: string): Option<string> {
    if value == "/" then Some(value) else
      match StripPrefix(value, "/")
      case None => None
      case Some(relative) =>
        if relative != [] && (forall i :: 0 <= i < |Split(relative, '/')| ==> LowerSegment(Split(relative, '/')[i]))
        then Some(value) else None
  }

  /** `ConfigPath::parse_operation`. */
  function ParseOperation(value: string): Option<string> {
    match StripPrefix(value, "/")
    case None => None
    case Some(relative) =>
      if relative == [] || !ValidSegments(Split(relative, '/')) then None else Some(value)
  }

  /** `ConfigPath::parse_selection`. */
  function ParseSelection(value: string): Option<string> {
    if value == "/" then Some("/") else ParseOperation(value)
  }

  lemma LowerSegmentIsFold(s: string)
    ensures LowerSegment(s) <==> ValidSegment(s) && Fold(s) == s
  {
    if ValidSegment(s) && Fold(s) == s {
      forall i | 0 <= i < |s| ensures !('A' <= s[i] <= 'Z') {
        assert s[i] == LowerChar(s[i]);
      }
    }
  }

  /** The three parsers accept the grammar and nothing else, and never alter the text: selections
      are the canonical paths, operations the non-root ones, and `parse` those that are their own
      fold. */
  lemma ParsersDecideTheGrammar(value: string)
    ensures ParseSelection(value) == if Canonical(value) then Some(value) else None
    ensures ParseOperation(value) == if Canonical(value) && value != "/" then Some(value) else None
    ensures Parse(value) == if Canonical(value) && Fold(value) == value then Some(value) else None
  {
    if value == "/" {
      assert Fold(value) == value;
    } else if |value| > 1 && value[0] == '/' {
      var pieces := Split(value[1..], '/');
      assert StripPrefix(value, "/") == Some(value[1..]);
      forall i | 0 <= i < |pieces|
        ensures LowerSegment(pieces[i]) <==> ValidSegment(pieces[i]) && Fold(pieces[i]) == pieces[i]
      {
        LowerSegmentIsFold(pieces[i]);
      }
      if Canonical(value) {
        FoldIsCanonical(value);
        if FoldAll(pieces) == pieces {
          SegmentsInjective(Fold(value), value);
        }
        assert Fold(value) == value <==> FoldAll(pieces) == pieces;
        assert FoldAll(pieces) == pieces <==> forall i :: 0 <= i < |pieces| ==> Fold(pieces[i]) == pieces[i];
      }
    }
  }

  /** `ConfigPath::join_name`. */
  function JoinName(p: ConfigPath, name: string): (r: Option<ConfigPath>)
    ensures r.Some? <==> ValidSegment(name)
    ensures r.Some? ==> Segments(r.value) == Segments(p) + [name]
  {
    if !ValidSegment(name) then None else
      JoinedText(p, name);
      Some(if p == "/" then "/" + name else p + "/" + name)
  }

  lemma JoinedText(p: ConfigPath, name: string)
    requires ValidSegment(name)
    ensures (if p == "/" then "/" + name else p + "/" + name) == PathOf(Segments(p) + [name])
  {
    PathIsItsSegments(p);
    SlashedConcat(Segments(p), [name]);
    assert Slashed([name]) == "/" + name;
  }

  /** `ConfigPath::name`: the text after the last separator, when there is any. */
  function Name(p: ConfigPath): Option<string> {
    var pieces := Split(p, '/');
    var last := pieces[|pieces| - 1];
    if last == [] then None else Some(last)
  }

  /** The name is the last segment, and joining it back onto the parent restores the path. */
  lemma NameIsLastSegment(p: ConfigPath)
    ensures Name(p) == if p == "/" then None else Some(Segments(p)[|Segments(p)| - 1])
    ensures p != "/" ==> JoinName(PathOf(Segments(p)[..|Segments(p)| - 1]), Name(p).value) == Some(p)
  {
    FindIs(p, '/', 0);
    assert Split(p, '/') == [p[..0]] + Split(p[1..], '/');
    if p == "/" {
      FindIs(p[1..], '/', 0);
    } else {
      var segs := Segments(p);
      assert segs[..|segs| - 1] + [segs[|segs| - 1]] == segs;
      SegmentsInjective(JoinName(PathOf(segs[..|segs| - 1]), Name(p).value).value, p);
    }
  }

  // ---------- One relation, six spellings ----------

  /** Text `r` is a whole-segment prefix of text `p`. */
  predicate TextPrefix(r: string, p: string) {
    r <= p && (|p| == |r| || p[|r|] == '/')
  }

  lemma SlashedPrefix(a: seq<string>, b: seq<string>)
    requires ValidSegments(a) && ValidSegments(b)
    ensures TextPrefix(Slashed(a), Slashed(b)) <==> a <= b
    ensures a <= b ==> Slashed(b) == Slashed(a) + Slashed(b[|a|..])
  {
    if a <= b {
      SlashedConcat(a, b[|a|..]);
      assert b == a + b[|a|..];
    } else if TextPrefix(Slashed(a), Slashed(b)) {
      SlashedPrefixOnly(a, b);
    }
  }

  lemma SameFirstSegment(a: string, s: string, b: string, t: string)
    requires ValidSegment(a) && ValidSegment(b)
    requires (s == [] || s[0] == '/') && (t == [] || t[0] == '/')
    requires TextPrefix(a + s, b + t)
    ensures a == b && TextPrefix(s, t)
  {
    var u := b + t;
    assert u[..|a|] == a && u[..|b|] == b;
    FindIs(u, '/', |a|);
    FindIs(u, '/', |b|);
    assert s == (a + s)[|a|..] && t == u[|a|..];
  }

  lemma {:induction false} SlashedPrefixOnly(a: seq<string>, b: seq<string>)
    requires ValidSegments(a) && ValidSegments(b)
    requires TextPrefix(Slashed(a), Slashed(b))
    ensures a <= b
  {
    if a != [] && b != [] {
      var s, t := Slashed(a[1..]), Slashed(b[1..]);
      assert Slashed(a)[1..] == a[0] + s && Slashed(b)[1..] == b[0] + t;
      SameFirstSegment(a[0], s, b[0], t);
      SlashedPrefixOnly(a[1..], b[1..]);
    }
  }

  lemma PathPrefix(r: ConfigPath, p: ConfigPath)
    requires r != "/"
    ensures TextPrefix(r, p) <==> Segments(r) <= Segments(p)
    ensures Segments(r) <= Segments(p) ==> p == r + Slashed(Segments(p)[|Segments(r)|..])
  {
    PathIsItsSegments(r);
    PathIsItsSegments(p);
    if p == "/" {
      assert !(r <= p);
    } else {
      SlashedPrefix(Segments(r), Segments(p));
    }
  }

  /** The relation every test below decides: the root's folded segments start the path's. */
  predicate Within(root: ConfigPath, path: ConfigPath) {
    FoldSegments(root) <= FoldSegments(path)
  }

  lemma FoldTextPrefix(root: ConfigPath, path: ConfigPath)
    requires root != "/"
    ensures TextPrefix(Fold(root), Fold(path)) <==> Within(root, path)
  {
    FoldIsCanonical(root);
    FoldIsCanonical(path);
    PathPrefix(Fold(root), Fold(path));
  }

  /** `ConfigPath::is_at_or_below`. */
  predicate IsAtOrBelow(path: ConfigPath, root: ConfigPath) {
    root == "/"
    || (|path| >= |root| && Fold(path[..|root|]) == Fold(root)
        && (|path| == |root| || path[|root|] == '/'))
  }

  lemma SlashIsNotFolded(path: string, n: nat)
    requires n < |path|
    ensures path[n] == '/' <==> Fold(path)[n] == '/'
  {
  }

  lemma IsAtOrBelowIsWithin(path: ConfigPath, root: ConfigPath)
    ensures IsAtOrBelow(path, root) <==> Within(root, path)
  {
    if root != "/" {
      FoldTextPrefix(root, path);
      if |path| >= |root| {
        FoldTake(path, |root|);
        if |path| > |root| { SlashIsNotFolded(path, |root|); }
      }
    }
  }

  /** The comparison `AuthenticatedPrincipal::allows` makes against a stored grant prefix, and
      `operation_path` against a connection root (both stored folded). */
  predicate FoldConfines(prefix: string, path: ConfigPath) {
    prefix == "/" || Fold(path) == prefix
    || match StripPrefix(Fold(path), prefix) case None => false case Some(suffix) => "/" <= suffix
  }

  lemma FoldConfinesIsWithin(root: ConfigPath, path: ConfigPath)
    ensures FoldConfines(Fold(root), path) <==> Within(root, path)
  {
    if root == "/" {
      assert Fold(root) == "/";
    } else {
      FoldTextPrefix(root, path);
      FoldIsCanonical(root);
      assert Fold(root) != "/";
    }
  }

  /** `json_segments`: the segments below `root`, as written. */
  function JsonSegments(root: ConfigPath, path: ConfigPath): Option<seq<string>> {
    if root == "/" then Some(Split(TrimStart(path, '/'), '/')) else
      if |path| > |root| && Fold(path[..|root|]) == Fold(root) && path[|root|] == '/'
      then Some(Split(path[|root| + 1..], '/')) else None
  }

  lemma TrimmedPath(path: ConfigPath)
    requires path != "/"
    ensures TrimStart(path, '/') == path[1..]
  {
    var first := Segments(path)[0];
    assert ValidSegment(first) && first == path[1..][..Find(path[1..], '/')];
    assert first[0] == path[1];
    assert path[1..][0] == path[1];
  }

  lemma FoldAllTake(segs: seq<string>, n: nat)
    requires n <= |segs|
    ensures FoldAll(segs[..n]) == FoldAll(segs)[..n]
  {
  }

  /** The first segments of a path within `root` spell something as long as the root. */
  lemma OwnHead(root: ConfigPath, path: ConfigPath)
    requires root != "/" && Within(root, path)
    ensures |Slashed(Segments(path)[..|Segments(root)|])| == |root|
  {
    var head := Segments(path)[..|Segments(root)|];
    FoldAllTake(Segments(path), |Segments(root)|);
    FoldEqualIffFoldSegmentsEqual(PathOf(head), root);
    assert |PathOf(head)| == |Fold(PathOf(head))| == |root|;
  }

  /** A path within `root` is its own spelling of the root followed by the remaining segments. */
  lemma OwnSpellingOfRoot(root: ConfigPath, path: ConfigPath)
    requires root != "/" && Within(root, path)
    ensures |root| <= |path| && path[|root|..] == Slashed(Segments(path)[|Segments(root)|..])
  {
    var segs, n := Segments(path), |Segments(root)|;
    OwnHead(root, path);
    PathIsItsSegments(path);
    SlashedCut(segs, n);
    DropHead(Slashed(segs[..n]), Slashed(segs[n..]));
  }

  lemma SlashedCut(segs: seq<string>, n: nat)
    requires n <= |segs|
    ensures Slashed(segs) == Slashed(segs[..n]) + Slashed(segs[n..])
  {
    assert segs[..n] + segs[n..] == segs;
    SlashedConcat(segs[..n], segs[n..]);
  }

  lemma DropHead(head: string, tail: string)
    ensures (head + tail)[|head|..] == tail
  {
  }

  /** Below the root both relative-segment forms are defined exactly on strict descendants, and
      give what is left of the path. The tree root itself, which every caller rejects first, is
      the one exception: it "splits" into one empty segment. */
  lemma JsonSegmentsAreTheRest(root: ConfigPath, path: ConfigPath)
    requires path != "/"
    ensures JsonSegments(root, path).Some? <==> Within(root, path) && FoldSegments(root) != FoldSegments(path)
    ensures JsonSegments(root, path).Some? ==>
              JsonSegments(root, path).value == Segments(path)[|Segments(root)|..]
  {
    IsAtOrBelowIsWithin(path, root);
    if root == "/" {
      TrimmedPath(path);
    } else if Within(root, path) {
      FoldEqualIffFoldSegmentsEqual(root, path);
      OwnSpellingOfRoot(root, path);
      var rest := Segments(path)[|Segments(root)|..];
      if rest == [] {
        assert path[..|root|] == path;
      } else {
        SlashedSplits(rest);
        DropTwice(path, |root|);
      }
    }
  }

  lemma TreeRootSplitsIntoOneEmptySegment()
    ensures JsonSegments("/", "/") == Some([""]) && RelativeSegments("/", "/") == Some([""])
  {
    var t: string := TrimStart("/", '/');
    assert t == [];
    FindIs(t, '/', 0);
    assert Fold("/") == "/";
  }

  /** `relative_segments`: the folded segments below `root`. */
  function RelativeSegments(root: ConfigPath, path: ConfigPath): Option<seq<string>> {
    if Fold(root) == "/" then Some(Split(TrimStart(Fold(path), '/'), '/')) else
      match StripPrefix(Fold(path), Fold(root))
      case None => None
      case Some(suffix) =>
        match StripPrefix(suffix, "/")
        case None => None
        case Some(relative) => Some(Split(relative, '/'))
  }

  /** The provider's folded form is the JSON renderer's form, folded. */
  lemma RelativeSegmentsAreJsonSegmentsFolded(root: ConfigPath, path: ConfigPath)
    requires path != "/"
    ensures RelativeSegments(root, path) ==
            match JsonSegments(root, path) case None => None case Some(segs) => Some(FoldAll(segs))
  {
    FoldIsCanonical(root);
    FoldIsCanonical(path);
    assert Fold(path) != "/";
    RelativeSegmentsUnfolded(root, path);
    JsonSegmentsAreTheRest(root, path);
    JsonSegmentsAreTheRest(Fold(root), Fold(path));
    FoldAllIdempotent(Segments(root));
    FoldAllIdempotent(Segments(path));
    if JsonSegments(root, path).Some? {
      assert FoldAll(Segments(path))[|Segments(root)|..] == FoldAll(Segments(path)[|Segments(root)|..]);
    }
  }

  lemma FoldedPrefix(r: string, p: string)
    requires Fold(r) == r && Fold(p) == p && |r| <= |p|
    ensures Fold(p[..|r|]) == Fold(r) <==> r <= p
  {
    FoldTake(p, |r|);
  }

  lemma RelativeSegmentsUnfolded(root: ConfigPath, path: ConfigPath)
    requires Canonical(Fold(root)) && Canonical(Fold(path))
    ensures RelativeSegments(root, path) == JsonSegments(Fold(root), Fold(path))
  {
    var r, p := Fold(root), Fold(path);
    FoldIdempotent(root);
    FoldIdempotent(path);
    if r != "/" && |r| <= |p| {
      FoldedPrefix(r, p);
      if |r| < |p| { DropTwice(p, |r|); }
    }
  }

  lemma DropTwice(p: string, n: nat)
    requires n < |p|
    ensures p[n..] != [] && p[n..][0] == p[n] && p[n..][1..] == p[n + 1..]
  {
  }

  /** `direct_child_name`. */
  function DirectChildName(layer: ConfigPath, path: ConfigPath): Option<string> {
    var below := Fold(layer) == "/" || (Fold(layer) <= Fold(path) && |layer| < |path| && Fold(path)[|layer|] == '/');
    var offset := if Fold(layer) == "/" then 1 else |layer| + 1;
    if !below || offset > |path| then None else
      var relative := path[offset..];
      if relative != [] && '/' !in relative then Some(relative) else None
  }

  /** It names `n` exactly when the path is the layer joined with `n` up to letter case, and `n`
      is the last segment exactly as stored. */
  lemma DirectChildNameIsJoin(layer: ConfigPath, path: ConfigPath, n: string)
    ensures DirectChildName(layer, path) == Some(n) <==>
            ValidSegment(n)
            && Fold(path) == Fold(JoinName(layer, n).value)
            && Name(path) == Some(n)
  {
    NameIsLastSegment(path);
    DirectChildNameIsOnlySegment(layer, path);
    if ValidSegment(n) {
      FoldEqualIffFoldSegmentsEqual(path, JoinName(layer, n).value);
      LastSegmentBelow(Segments(layer), Segments(path), n);
    }
  }

  lemma LastSegmentBelow(layer: seq<string>, segs: seq<string>, n: string)
    ensures FoldAll(segs) == FoldAll(layer + [n]) && segs != [] && segs[|segs| - 1] == n
            <==> FoldAll(layer) <= FoldAll(segs) && |segs| == |layer| + 1 && segs[|layer|] == n
  {
    FoldAllConcat(layer, [n]);
    assert FoldAll([n]) == [Fold(n)];
    if FoldAll(layer) <= FoldAll(segs) && |segs| == |layer| + 1 && segs[|layer|] == n {
      assert FoldAll(segs) == FoldAll(segs)[..|layer|] + [Fold(n)];
    }
  }

  lemma DirectChildNameIsOnlySegment(layer: ConfigPath, path: ConfigPath)
    ensures var d := |Segments(layer)|;
            DirectChildName(layer, path) ==
            if Within(layer, path) && |Segments(path)| == d + 1 then Some(Segments(path)[d]) else None
  {
    if path == "/" {
      assert path[1..] == [];
    } else {
      FoldIsCanonical(layer);
      assert Fold(layer) == "/" <==> layer == "/";
      if layer == "/" {
        PathIsItsSegments(path);
        OnlySegment(Segments(path));
      } else {
        FoldTextPrefix(layer, path);
        if Within(layer, path) { RestBelow(layer, path); }
      }
    }
  }

  /** What follows the layer's own text in a path within it. */
  lemma RestBelow(layer: ConfigPath, path: ConfigPath)
    requires layer != "/" && Within(layer, path)
    ensures var rest := Segments(path)[|Segments(layer)|..];
            && (rest == [] ==> |path| == |layer|)
            && (rest != [] ==> |layer| < |path| && path[|layer| + 1..] != []
                               && (if |rest| == 1 then path[|layer| + 1..] == rest[0] && '/' !in rest[0]
                                   else '/' in path[|layer| + 1..]))
  {
    OwnSpellingOfRoot(layer, path);
    var rest := Segments(path)[|Segments(layer)|..];
    if rest != [] {
      OnlySegment(rest);
      DropTwice(path, |layer|);
    }
  }

  lemma OnlySegment(segs: seq<string>)
    requires segs != [] && ValidSegments(segs)
    ensures Slashed(segs) != []
    ensures |segs| == 1 ==> Slashed(segs)[1..] == segs[0] && '/' !in segs[0]
    ensures |segs| > 1 ==> '/' in Slashed(segs)[1..]
  {
    if |segs| == 1 {
      assert Slashed(segs) == "/" + segs[0];
    } else {
      SlashedSplits(segs[1..]);
      assert Slashed(segs)[1 + |segs[0]|] == '/';
    }
  }
}
