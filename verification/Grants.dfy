/** Authorization grants: `validate_grants` merges a token's raw grants by folded prefix, and
    `AuthenticatedPrincipal::allows` consults the merged form. */
module Grants {
  import opened Text
  import opened Paths

  datatype Permission = Read | Write | Manage
  datatype RawGrant = RawGrant(prefix: string, permissions: seq<Permission>)

  /** The merged grants, one entry per folded prefix. */
  type Merged = map<string, set<Permission>>

  /** `canonical_prefix`. */
  function CanonicalPrefix(prefix: string): Option<string> {
    match ParseSelection(prefix)
    case None => None
    case Some(path) => Some(Fold(path))
  }

  function PermissionSet(ps: seq<Permission>): set<Permission> { set p | p in ps }

  function AddGrant(grants: Merged, prefix: string, ps: seq<Permission>): Merged {
    grants[prefix := (if prefix in grants then grants[prefix] else {}) + PermissionSet(ps)]
  }

  function MergeFrom(raw: seq<RawGrant>, grants: Merged): Option<Merged>
    decreases raw
  {
    if raw == [] then Some(grants) else
      match CanonicalPrefix(raw[0].prefix)
      case None => None
      case Some(prefix) =>
        if raw[0].permissions == [] then None
        else MergeFrom(raw[1..], AddGrant(grants, prefix, raw[0].permissions))
  }

  function Merge(raw: seq<RawGrant>): Option<Merged> { MergeFrom(raw, map[]) }

  /** `validate_grants`. */
  method ValidateGrants(raw: seq<RawGrant>) returns (r: Option<Merged>)
    ensures r == Merge(raw)
  {
    var grants: Merged := map[];
    for i := 0 to |raw|
      invariant Merge(raw) == MergeFrom(raw[i..], grants)
    {
      assert raw[i..][0] == raw[i] && raw[i..][1..] == raw[i + 1..];
      var prefix := CanonicalPrefix(raw[i].prefix);
      if prefix.None? { return None; }
      if raw[i].permissions == [] { return None; }
      var held := if prefix.value in grants then grants[prefix.value] else {};
      grants := grants[prefix.value := held + PermissionSet(raw[i].permissions)];
    }
    assert raw[|raw|..] == [];
    return Some(grants);
  }

  /** `AuthenticatedPrincipal::allows`. */
  predicate Allows(grants: Merged, path: ConfigPath, p: Permission) {
    exists prefix :: prefix in grants && p in grants[prefix] && FoldConfines(prefix, path)
  }

  // ---------- Merging preserves meaning ----------

  predicate ValidGrant(g: RawGrant) { Canonical(g.prefix) && g.permissions != [] }

  predicate AllValid(raw: seq<RawGrant>) { forall i :: 0 <= i < |raw| ==> ValidGrant(raw[i]) }

  /** One raw grant covers the request. */
  predicate Covers(g: RawGrant, path: ConfigPath, p: Permission) {
    Canonical(g.prefix) && p in g.permissions && Within(g.prefix, path)
  }

  ghost predicate SomeCovers(raw: seq<RawGrant>, path: ConfigPath, p: Permission) {
    exists i :: 0 <= i < |raw| && Covers(raw[i], path, p)
  }

  lemma AddGrantAllows(grants: Merged, g: RawGrant, path: ConfigPath, p: Permission)
    requires ValidGrant(g)
    ensures Allows(AddGrant(grants, Fold(g.prefix), g.permissions), path, p) <==>
            Allows(grants, path, p) || Covers(g, path, p)
  {
    var prefix := Fold(g.prefix);
    var grants' := AddGrant(grants, prefix, g.permissions);
    FoldConfinesIsWithin(g.prefix, path);
    if Allows(grants, path, p) {
      var k :| k in grants && p in grants[k] && FoldConfines(k, path);
      assert k in grants' && p in grants'[k];
    }
    if Covers(g, path, p) {
      assert prefix in grants' && p in grants'[prefix];
    }
    if Allows(grants', path, p) {
      var k :| k in grants' && p in grants'[k] && FoldConfines(k, path);
      if k != prefix { assert k in grants && p in grants[k]; }
    }
  }

  lemma MergeFromCons(raw: seq<RawGrant>, grants: Merged)
    requires raw != []
    ensures var g := raw[0];
            MergeFrom(raw, grants) ==
            if ValidGrant(g) then MergeFrom(raw[1..], AddGrant(grants, Fold(g.prefix), g.permissions)) else None
  {
    ParsersDecideTheGrammar(raw[0].prefix);
  }

  lemma AllValidCons(raw: seq<RawGrant>)
    requires raw != []
    ensures AllValid(raw) <==> ValidGrant(raw[0]) && AllValid(raw[1..])
  {
    assert forall i :: 1 <= i < |raw| ==> raw[i] == raw[1..][i - 1];
  }

  lemma {:induction false} MergeFromMeaning(raw: seq<RawGrant>, grants: Merged, path: ConfigPath, p: Permission)
    ensures MergeFrom(raw, grants).Some? <==> AllValid(raw)
    ensures MergeFrom(raw, grants).Some? ==>
              (Allows(MergeFrom(raw, grants).value, path, p) <==> Allows(grants, path, p) || SomeCovers(raw, path, p))
    decreases raw
  {
    if raw != [] {
      var g, rest := raw[0], raw[1..];
      MergeFromCons(raw, grants);
      AllValidCons(raw);
      if ValidGrant(g) {
        MergeFromMeaning(rest, AddGrant(grants, Fold(g.prefix), g.permissions), path, p);
        AddGrantAllows(grants, g, path, p);
        SomeCoversCons(raw, path, p);
      }
    }
  }

  lemma SomeCoversCons(raw: seq<RawGrant>, path: ConfigPath, p: Permission)
    requires raw != []
    ensures SomeCovers(raw, path, p) <==> Covers(raw[0], path, p) || SomeCovers(raw[1..], path, p)
  {
    if SomeCovers(raw, path, p) {
      var i :| 0 <= i < |raw| && Covers(raw[i], path, p);
      if i > 0 { assert raw[1..][i - 1] == raw[i]; }
    }
    if SomeCovers(raw[1..], path, p) {
      var i :| 0 <= i < |raw[1..]| && Covers(raw[1..][i], path, p);
      assert raw[i + 1] == raw[1..][i];
    }
  }

  /** Grants are accepted exactly when each has a canonical prefix and some permission, and then
      the merged form allows a request if and only if some raw grant covers it. */
  lemma MergingPreservesMeaning(raw: seq<RawGrant>, path: ConfigPath, p: Permission)
    ensures Merge(raw).Some? <==> AllValid(raw)
    ensures Merge(raw).Some? ==> (Allows(Merge(raw).value, path, p) <==> SomeCovers(raw, path, p))
  {
    MergeFromMeaning(raw, map[], path, p);
  }

  /** So the answer ignores the letter case of the path and the order of the grants, and everything
      below an allowed path is allowed. */
  lemma AllowsIsStable(raw: seq<RawGrant>, other: seq<RawGrant>, path: ConfigPath, below: ConfigPath, p: Permission)
    requires Merge(raw).Some? && multiset(raw) == multiset(other)
    ensures Merge(other).Some?
    ensures Allows(Merge(raw).value, path, p) <==> Allows(Merge(other).value, path, p)
    ensures Fold(path) == Fold(below) ==> (Allows(Merge(raw).value, path, p) <==> Allows(Merge(raw).value, below, p))
    ensures Within(path, below) && Allows(Merge(raw).value, path, p) ==> Allows(Merge(raw).value, below, p)
  {
    MergingPreservesMeaning(raw, path, p);
    MergingPreservesMeaning(raw, below, p);
    MergingPreservesMeaning(other, path, p);
    AllValidReordered(raw, other);
    SomeCoversReordered(raw, other, path, p);
    SomeCoversReordered(other, raw, path, p);
    SomeCoversBelow(raw, path, below, p);
    if Fold(path) == Fold(below) {
      FoldEqualIffFoldSegmentsEqual(path, below);
      SomeCoversBelow(raw, below, path, p);
    }
  }

  lemma AllValidReordered(raw: seq<RawGrant>, other: seq<RawGrant>)
    requires AllValid(raw) && multiset(raw) == multiset(other)
    ensures AllValid(other)
  {
    forall i | 0 <= i < |other| ensures ValidGrant(other[i]) {
      assert other[i] in multiset(raw);
    }
  }

  lemma SomeCoversReordered(raw: seq<RawGrant>, other: seq<RawGrant>, path: ConfigPath, p: Permission)
    requires multiset(raw) == multiset(other)
    ensures SomeCovers(raw, path, p) ==> SomeCovers(other, path, p)
  {
    if SomeCovers(raw, path, p) {
      var i :| 0 <= i < |raw| && Covers(raw[i], path, p);
      assert raw[i] in multiset(other);
    }
  }

  lemma SomeCoversBelow(raw: seq<RawGrant>, path: ConfigPath, below: ConfigPath, p: Permission)
    ensures Within(path, below) && SomeCovers(raw, path, p) ==> SomeCovers(raw, below, p)
  {
    if Within(path, below) && SomeCovers(raw, path, p) {
      var i :| 0 <= i < |raw| && Covers(raw[i], path, p);
      assert Covers(raw[i], below, p);
    }
  }
}
