/** Byte-level text helpers shared by every component: ASCII folding, splitting, and the orders
    the service sorts by. Path text is ASCII by grammar, so characters stand for bytes. */
module Text {

  datatype Option<+T> = None | Some(value: T)

  // ---------- ASCII folding (`to_ascii_lowercase`) ----------

  function LowerChar(c: char): (r: char)
    ensures !('A' <= r <= 'Z')
    ensures c < 'A' || 'Z' < c ==> r == c
    ensures 'A' <= c <= 'Z' ==> 'a' <= r <= 'z'
  {
    if 'A' <= c <= 'Z' then (c as int + 32) as char else c
  }

  function Fold(s: string): (r: string)
    ensures |r| == |s|
    ensures forall i :: 0 <= i < |s| ==> r[i] == LowerChar(s[i])
  {
    seq(|s|, i requires 0 <= i < |s| => LowerChar(s[i]))
  }

  /** Equal, or the capital and the small form of one ASCII letter. */
  predicate SameLetter(c: char, d: char) {
    || c == d
    || ('A' <= c <= 'Z' && 'a' <= d <= 'z' && d as int - 'a' as int == c as int - 'A' as int)
    || ('A' <= d <= 'Z' && 'a' <= c <= 'z' && c as int - 'a' as int == d as int - 'A' as int)
  }

  lemma LowerCharIsSameLetter(c: char, d: char)
    ensures SameLetter(c, LowerChar(c))
    ensures LowerChar(c) == LowerChar(d) <==> SameLetter(c, d)
  {
  }

  /** `eq_ignore_ascii_case`: texts fold alike exactly when they agree letter by letter up to case. */
  lemma FoldIgnoresCase(p: string, q: string)
    ensures Fold(p) == Fold(q) <==> |p| == |q| && forall i :: 0 <= i < |p| ==> SameLetter(p[i], q[i])
  {
    if |p| == |q| {
      forall i | 0 <= i < |p| ensures Fold(p)[i] == Fold(q)[i] <==> SameLetter(p[i], q[i]) {
        LowerCharIsSameLetter(p[i], q[i]);
      }
      if Fold(p) != Fold(q) {
        var i :| 0 <= i < |p| && Fold(p)[i] != Fold(q)[i];
        assert !SameLetter(p[i], q[i]);
      }
    }
  }

  /** `to_ascii_lowercase`: the fold is the only text without capitals that is the same up to case. */
  lemma FoldIsLowercase(s: string, t: string)
    ensures t == Fold(s) <==>
            && |t| == |s|
            && forall i :: 0 <= i < |s| ==> SameLetter(s[i], t[i]) && !('A' <= t[i] <= 'Z')
  {
    if |t| == |s| {
      forall i | 0 <= i < |s| ensures t[i] == Fold(s)[i] <==> SameLetter(s[i], t[i]) && !('A' <= t[i] <= 'Z') {
        LowerCharIsSameLetter(s[i], t[i]);
      }
    }
  }

  lemma FoldConcat(a: string, b: string)
    ensures Fold(a + b) == Fold(a) + Fold(b)
  {
  }

  lemma FoldIdempotent(s: string)
    ensures Fold(Fold(s)) == Fold(s)
  {
  }

  lemma FoldTake(s: string, n: nat)
    requires n <= |s|
    ensures Fold(s[..n]) == Fold(s)[..n] && Fold(s[n..]) == Fold(s)[n..]
  {
  }

  function FoldAll(segs: seq<string>): (r: seq<string>)
    ensures |r| == |segs|
    ensures forall i :: 0 <= i < |segs| ==> r[i] == Fold(segs[i])
  {
    seq(|segs|, i requires 0 <= i < |segs| => Fold(segs[i]))
  }

  lemma FoldAllIdempotent(segs: seq<string>)
    ensures FoldAll(FoldAll(segs)) == FoldAll(segs)
  {
    forall i | 0 <= i < |segs| ensures FoldAll(FoldAll(segs))[i] == FoldAll(segs)[i] {
      FoldIdempotent(segs[i]);
    }
  }

  lemma FoldAllConcat(a: seq<string>, b: seq<string>)
    ensures FoldAll(a + b) == FoldAll(a) + FoldAll(b)
  {
  }

  // ---------- Searching and splitting ----------

  /** The index of the first `c` in `s`, or `|s|` when there is none. */
  function Find(s: string, c: char): (r: nat)
    ensures r <= |s|
    ensures c !in s[..r]
    ensures r < |s| ==> s[r] == c
  {
    if s == [] || s[0] == c then 0 else
      var r := 1 + Find(s[1..], c);
      assert s[..r] == [s[0]] + s[1..][..r - 1];
      r
  }

  lemma FindIs(s: string, c: char, n: nat)
    requires n <= |s| && c !in s[..n] && (n < |s| ==> s[n] == c)
    ensures Find(s, c) == n
  {
  }

  /** `str::split`: the pieces between separators; never empty. */
  function Split(s: string, c: char): (r: seq<string>)
    ensures |r| >= 1
    decreases |s|
  {
    var i := Find(s, c);
    if i == |s| then [s] else [s[..i]] + Split(s[i + 1..], c)
  }

  lemma SplitWhole(a: string, c: char)
    requires c !in a
    ensures Split(a, c) == [a]
  {
    assert a[..|a|] == a;
    FindIs(a, c, |a|);
  }

  lemma SplitFirst(a: string, c: char, b: string)
    requires c !in a
    ensures Split(a + [c] + b, c) == [a] + Split(b, c)
  {
    var s := a + [c] + b;
    assert s[..|a|] == a && s[|a| + 1..] == b;
    FindIs(s, c, |a|);
  }

  /** `str::trim_start_matches` for one character. */
  function TrimStart(s: string, c: char): (r: string)
    ensures r == [] || r[0] != c
    ensures |r| <= |s| && r == s[|s| - |r|..]
  {
    if s != [] && s[0] == c then TrimStart(s[1..], c) else s
  }

  /** `str::strip_prefix`. */
  function StripPrefix(s: string, prefix: string): (r: Option<string>)
    ensures r.Some? <==> prefix <= s
    ensures r.Some? ==> s == prefix + r.value
  {
    if prefix <= s then Some(s[|prefix|..]) else None
  }

  /** `str::strip_suffix`. */
  function StripSuffix(s: string, suffix: string): (r: Option<string>)
    ensures r.Some? <==> |suffix| <= |s| && s[|s| - |suffix|..] == suffix
    ensures r.Some? ==> s == r.value + suffix
  {
    if |suffix| <= |s| && s[|s| - |suffix|..] == suffix then Some(s[..|s| - |suffix|]) else None
  }

  // ---------- Orders: strings by character, segment lists by string ----------

  predicate StrLt(a: string, b: string) {
    b != [] && (a == [] || a[0] < b[0] || (a[0] == b[0] && StrLt(a[1..], b[1..])))
  }

  /** The texts agree before `n`; there `a` ends, or has the smaller character code. */
  predicate DiffersAt(a: string, b: string, n: nat) {
    && n <= |a| && n < |b| && a[..n] == b[..n]
    && (n == |a| || a[n] as int < b[n] as int)
  }

  /** `str` order: decided at the first difference, by character code. */
  lemma {:induction false} StrLtByFirstDifference(a: string, b: string)
    ensures StrLt(a, b) <==> exists n: nat :: DiffersAt(a, b, n)
  {
    if b != [] && a == [] {
      assert DiffersAt(a, b, 0);
    } else if b != [] && a[0] as int < b[0] as int {
      assert DiffersAt(a, b, 0);
    } else if b != [] && a[0] == b[0] {
      StrLtByFirstDifference(a[1..], b[1..]);
      if StrLt(a, b) {
        var n: nat :| DiffersAt(a[1..], b[1..], n);
        DiffersLater(a, b, n);
      }
      if n: nat :| DiffersAt(a, b, n) {
        DiffersLater(a, b, n - 1);
      }
    } else if b != [] {
      forall n: nat ensures !DiffersAt(a, b, n) {
        if n > 0 && n <= |a| && n <= |b| { assert a[..n][0] == a[0] && b[..n][0] == b[0]; }
      }
    }
  }

  lemma DiffersLater(a: string, b: string, n: nat)
    requires a != [] && b != [] && a[0] == b[0]
    ensures DiffersAt(a[1..], b[1..], n) <==> DiffersAt(a, b, n + 1)
  {
    if n + 1 <= |a| && n + 1 <= |b| {
      assert a[..n + 1] == [a[0]] + a[1..][..n] && b[..n + 1] == [b[0]] + b[1..][..n];
      assert a[1..][..n] == a[..n + 1][1..] && b[1..][..n] == b[..n + 1][1..];
    }
  }

  lemma StrLtTotal(a: string, b: string)
    ensures StrLt(a, b) || a == b || StrLt(b, a)
    ensures !(StrLt(a, b) && StrLt(b, a))
    ensures StrLt(a, b) ==> a != b
  {
    if a != [] && b != [] && a[0] == b[0] {
      StrLtTotal(a[1..], b[1..]);
      assert a == [a[0]] + a[1..] && b == [b[0]] + b[1..];
    }
  }

  lemma StrLtTransitive(a: string, b: string, c: string)
    requires StrLt(a, b) && StrLt(b, c)
    ensures StrLt(a, c)
  {
    if a != [] && a[0] == b[0] == c[0] {
      StrLtTransitive(a[1..], b[1..], c[1..]);
    }
  }

  predicate SegsLt(a: seq<string>, b: seq<string>) {
    b != [] && (a == [] || StrLt(a[0], b[0]) || (a[0] == b[0] && SegsLt(a[1..], b[1..])))
  }

  /** `Vec<String>` order: a proper prefix comes first, else the first segment that differs decides. */
  predicate SegsDifferAt(a: seq<string>, b: seq<string>, n: nat) {
    && n <= |a| && n < |b| && a[..n] == b[..n]
    && (n == |a| || StrLt(a[n], b[n]))
  }

  lemma SegsDifferLater(a: seq<string>, b: seq<string>, n: nat)
    requires a != [] && b != [] && a[0] == b[0]
    ensures SegsDifferAt(a[1..], b[1..], n) <==> SegsDifferAt(a, b, n + 1)
  {
    if n + 1 <= |a| && n + 1 <= |b| {
      assert a[..n + 1] == [a[0]] + a[1..][..n] && b[..n + 1] == [b[0]] + b[1..][..n];
      assert a[1..][..n] == a[..n + 1][1..] && b[1..][..n] == b[..n + 1][1..];
    }
  }

  lemma {:induction false} SegsLtByFirstDifference(a: seq<string>, b: seq<string>)
    ensures SegsLt(a, b) <==> exists n: nat :: SegsDifferAt(a, b, n)
  {
    if b != [] && (a == [] || StrLt(a[0], b[0])) {
      assert SegsDifferAt(a, b, 0);
    } else if b != [] && a[0] == b[0] {
      SegsLtByFirstDifference(a[1..], b[1..]);
      StrLtTotal(a[0], b[0]);
      if SegsLt(a, b) {
        var n: nat :| SegsDifferAt(a[1..], b[1..], n);
        SegsDifferLater(a, b, n);
      }
      if n: nat :| SegsDifferAt(a, b, n) {
        SegsDifferLater(a, b, n - 1);
      }
    } else if b != [] {
      forall n: nat ensures !SegsDifferAt(a, b, n) {
        if n > 0 && n <= |a| && n <= |b| { assert a[..n][0] == a[0] && b[..n][0] == b[0]; }
      }
    }
  }

  lemma SegsLtTotal(a: seq<string>, b: seq<string>)
    ensures SegsLt(a, b) || a == b || SegsLt(b, a)
    ensures !(SegsLt(a, b) && SegsLt(b, a))
    ensures SegsLt(a, b) ==> a != b
  {
    if a != [] && b != [] {
      StrLtTotal(a[0], b[0]);
      if a[0] == b[0] {
        SegsLtTotal(a[1..], b[1..]);
        assert a == [a[0]] + a[1..] && b == [b[0]] + b[1..];
      }
    }
  }

  lemma SegsLtTransitive(a: seq<string>, b: seq<string>, c: seq<string>)
    requires SegsLt(a, b) && SegsLt(b, c)
    ensures SegsLt(a, c)
  {
    if a != [] {
      StrLtTotal(a[0], b[0]);
      StrLtTotal(b[0], c[0]);
      if a[0] == b[0] == c[0] {
        SegsLtTransitive(a[1..], b[1..], c[1..]);
      } else if a[0] != b[0] && b[0] != c[0] {
        StrLtTransitive(a[0], b[0], c[0]);
      }
    }
  }

  /** A shared ancestor never changes how two paths compare. */
  lemma SegsLtPrefixed(p: seq<string>, a: seq<string>, b: seq<string>)
    ensures SegsLt(p + a, p + b) <==> SegsLt(a, b)
  {
    if p == [] {
      assert p + a == a && p + b == b;
    } else {
      StrLtTotal(p[0], p[0]);
      assert (p + a)[1..] == p[1..] + a && (p + b)[1..] == p[1..] + b;
      SegsLtPrefixed(p[1..], a, b);
    }
  }

  predicate Distinct(xs: seq<string>) { forall i, j :: 0 <= i < j < |xs| ==> xs[i] != xs[j] }

  lemma DistinctSnoc(xs: seq<string>, x: string)
    requires Distinct(xs) && x !in xs
    ensures Distinct(xs + [x])
  {
  }
}
