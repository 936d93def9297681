/** The plain renderer: one `PATH=VALUE` line per value, decodable, and in step with the JSON one. */
module Plain {
  import opened Text
  import opened Paths
  import opened Sorting
  import opened Values
  import opened JsonTree
  import opened JsonRender

  datatype Line = Line(path: string, text: string)

  // ---------- Escaping ----------

  function EscapeChar(c: char): string {
    if c == '\\' then "\\\\" else if c == '\n' then "\\n" else if c == '\r' then "\\r" else [c]
  }

  function Escape(s: string): string {
    if s == [] then [] else EscapeChar(s[0]) + Escape(s[1..])
  }

  /** `escape_into`. */
  method EscapeInto(rendered: string, value: string) returns (r: string)
    ensures r == rendered + Escape(value)
  {
    r := rendered;
    for i := 0 to |value|
      invariant rendered + Escape(value) == r + Escape(value[i..])
    {
      assert value[i..][0] == value[i] && value[i..][1..] == value[i + 1..];
      ghost var before := r;
      match value[i]
      case '\\' => r := r + "\\\\";
      case '\n' => r := r + "\\n";
      case '\r' => r := r + "\\r";
      case other => r := r + [other];
      assert r == before + EscapeChar(value[i]);
      assert before + (EscapeChar(value[i]) + Escape(value[i + 1..])) == r + Escape(value[i + 1..]);
    }
    assert value[|value|..] == [];
  }

  /** The reader's inverse. */
  function Unescape(s: string): string {
    if s == [] then []
    else if s[0] != '\\' || |s| == 1 then [s[0]] + Unescape(s[1..])
    else [if s[1] == 'n' then '\n' else if s[1] == 'r' then '\r' else s[1]] + Unescape(s[2..])
  }

  lemma UnescapeEscape(s: string)
    ensures Unescape(Escape(s)) == s
  {
    if s != [] {
      UnescapeEscape(s[1..]);
      var e := Escape(s);
      if |EscapeChar(s[0])| == 2 {
        assert e[2..] == Escape(s[1..]);
      } else {
        assert e[1..] == Escape(s[1..]);
      }
    }
  }

  lemma EscapeConcat(a: string, b: string)
    ensures Escape(a + b) == Escape(a) + Escape(b)
  {
    if a == [] {
      assert a + b == b;
    } else {
      assert (a + b)[1..] == a[1..] + b;
      EscapeConcat(a[1..], b);
    }
  }

  /** What one character is written as. */
  lemma EscapeOne(c: char)
    ensures c == '\\' ==> Escape([c]) == ['\\', '\\']
    ensures c == '\n' ==> Escape([c]) == ['\\', 'n']
    ensures c == '\r' ==> Escape([c]) == ['\\', 'r']
    ensures c != '\\' && c != '\n' && c != '\r' ==> Escape([c]) == [c]
  {
    assert [c][1..] == [];
    assert EscapeChar(c) + [] == EscapeChar(c);
  }

  /** Escaping goes character by character; only the backslash and the two line ends are written
      otherwise (`EscapeOne`). */
  lemma EscapeLetters(before: string, c: char, after: string)
    ensures Escape(before + [c] + after) == Escape(before) + Escape([c]) + Escape(after)
  {
    EscapeConcat(before + [c], after);
    EscapeConcat(before, [c]);
  }

  lemma EscapeIsOneLine(s: string)
    ensures '\n' !in Escape(s) && '\r' !in Escape(s)
  {
  }

  // ---------- Lines ----------

  function LineText(line: Line): string {
    line.path + "=" + Escape(line.text) + "\n"
  }

  function RenderLines(lines: seq<Line>): string {
    if lines == [] then "" else LineText(lines[0]) + RenderLines(lines[1..])
  }

  /** What a reader with `split`, `cut` and the unescape rule makes of the output. */
  function Decode(s: string): Option<seq<Line>>
    decreases |s|
  {
    if s == [] then Some([]) else
      var end := Find(s, '\n');
      if end == |s| then None else
        var line := s[..end];
        var cut := Find(line, '=');
        if cut == |line| then None else
          match Decode(s[end + 1..])
          case None => None
          case Some(rest) => Some([Line(line[..cut], Unescape(line[cut + 1..]))] + rest)
  }

  lemma DecodeLine(path: string, text: string, rest: string)
    requires '=' !in path && '\n' !in path
    ensures Decode(LineText(Line(path, text)) + rest) ==
            match Decode(rest) case None => None case Some(lines) => Some([Line(path, text)] + lines)
  {
    EscapeIsOneLine(text);
    UnescapeEscape(text);
    var line := path + "=" + Escape(text);
    var s := LineText(Line(path, text)) + rest;
    assert s == line + "\n" + rest;
    assert s[..|line|] == line && s[|line| + 1..] == rest;
    FindIs(s, '\n', |line|);
    assert line[..|path|] == path && line[|path| + 1..] == Escape(text);
    FindIs(line, '=', |path|);
  }

  lemma {:induction false} DecodeLines(lines: seq<Line>)
    requires forall i :: 0 <= i < |lines| ==> '=' !in lines[i].path && '\n' !in lines[i].path
    ensures Decode(RenderLines(lines)) == Some(lines)
  {
    if lines != [] {
      DecodeLines(lines[1..]);
      DecodeLine(lines[0].path, lines[0].text, RenderLines(lines[1..]));
      assert lines == [lines[0]] + lines[1..];
    }
  }

  // ---------- render_subtree_plain ----------

  /** `fold_segments`. */
  function FoldSegmentsOf(path: ConfigPath): seq<string> {
    Split(TrimStart(Fold(path), '/'), '/')
  }

  lemma FoldSegmentsOfIsFoldSegments(path: ConfigPath)
    requires path != "/"
    ensures FoldSegmentsOf(path) == FoldSegments(path)
  {
    FoldIsCanonical(path);
    assert Fold(path) != "/";
    TrimmedPath(Fold(path));
  }

  function LinesOf(es: seq<Entry<SubTreeValue>>): (r: seq<Line>)
    ensures |r| == |es|
    ensures forall i :: 0 <= i < |es| ==> r[i] == Line(es[i].value.path, DisplayText(es[i].value.content))
  {
    seq(|es|, i requires 0 <= i < |es| => Line(es[i].value.path, DisplayText(es[i].value.content)))
  }

  /** The lines in stable fold-segment order, when every value belongs to the selection. */
  function RenderPlain(root: ConfigPath, values: seq<SubTreeValue>): Option<string> {
    if !AllPlaced(root, values) then None else Some(RenderLines(LinesOf(StableSort(ByPath(values)))))
  }

  lemma RenderLinesConcat(a: seq<Line>, b: seq<Line>)
    ensures RenderLines(a + b) == RenderLines(a) + RenderLines(b)
  {
    if a == [] {
      assert a + b == b;
    } else {
      assert (a + b)[1..] == a[1..] + b;
      RenderLinesConcat(a[1..], b);
    }
  }

  lemma OneMoreLine(es: seq<Entry<SubTreeValue>>, e: Entry<SubTreeValue>)
    ensures RenderLines(LinesOf(es + [e])) ==
            RenderLines(LinesOf(es)) + LineText(Line(e.value.path, DisplayText(e.value.content)))
  {
    var line := Line(e.value.path, DisplayText(e.value.content));
    assert LinesOf(es + [e]) == LinesOf(es) + [line];
    RenderLinesConcat(LinesOf(es), [line]);
    assert RenderLines([line]) == LineText(line) + RenderLines([]);
  }

  lemma PushedEntry(entries: seq<Entry<SubTreeValue>>, i: nat)
    requires i < |entries|
    ensures var v := entries[i].value;
            RenderLines(LinesOf(entries[..i + 1])) ==
            RenderLines(LinesOf(entries[..i])) + v.path + "=" + Escape(DisplayText(v.content)) + "\n"
  {
    OneMoreLine(entries[..i], entries[i]);
    assert entries[..i + 1] == entries[..i] + [entries[i]];
    LineParts(RenderLines(LinesOf(entries[..i])), entries[i].value.path, DisplayText(entries[i].value.content));
  }

  lemma LineParts(before: string, path: string, text: string)
    ensures before + path + "=" + Escape(text) + "\n" == before + LineText(Line(path, text))
  {
  }

  /** The second loop of `render_subtree_plain`, over the sorted entries. */
  method PushLines(entries: seq<Entry<SubTreeValue>>) returns (rendered: string)
    ensures rendered == RenderLines(LinesOf(entries))
  {
    rendered := "";
    for i := 0 to |entries|
      invariant rendered == RenderLines(LinesOf(entries[..i]))
    {
      var value := entries[i].value;
      PushedEntry(entries, i);
      rendered := rendered + value.path;
      rendered := rendered + "=";
      rendered := EscapeInto(rendered, DisplayText(value.content));
      rendered := rendered + "\n";
    }
    assert entries[..|entries|] == entries;
  }

  lemma OneMorePlaced(root: ConfigPath, values: seq<SubTreeValue>, v: SubTreeValue)
    requires AllPlaced(root, values) && Placed(root, v)
    ensures AllPlaced(root, values + [v])
    ensures ByPath(values + [v]) == ByPath(values) + [Entry(FoldSegmentsOf(v.path), v)]
  {
    FoldSegmentsOfIsFoldSegments(v.path);
    var more, grown := values + [v], ByPath(values) + [Entry(FoldSegmentsOf(v.path), v)];
    forall i | 0 <= i < |more| ensures ByPath(more)[i] == grown[i] {
    }
  }

  lemma PrefixPlaced(root: ConfigPath, values: seq<SubTreeValue>, i: nat)
    requires i < |values| && AllPlaced(root, values[..i]) && Placed(root, values[i])
    ensures AllPlaced(root, values[..i + 1])
    ensures ByPath(values[..i + 1]) == ByPath(values[..i]) + [Entry(FoldSegmentsOf(values[i].path), values[i])]
  {
    OneMorePlaced(root, values[..i], values[i]);
    assert values[..i + 1] == values[..i] + [values[i]];
  }

  /** `render_subtree_plain`. */
  method RenderSubtreePlain(root: ConfigPath, values: seq<SubTreeValue>) returns (r: Option<string>)
    ensures r == RenderPlain(root, values)
  {
    var entries: seq<Entry<SubTreeValue>> := [];
    for i := 0 to |values|
      invariant AllPlaced(root, values[..i])
      invariant entries == ByPath(values[..i])
    {
      var value := values[i];
      IsAtOrBelowIsWithin(value.path, root);
      if value.path == "/" || !IsAtOrBelow(value.path, root) {
        assert !Placed(root, values[i]);
        return None;
      }
      PrefixPlaced(root, values, i);
      entries := entries + [Entry(FoldSegmentsOf(value.path), value)];
    }
    assert values[..|values|] == values;
    var rendered := PushLines(StableSort(entries));
    return Some(rendered);
  }

  /** Plain output fails only for a path outside the selection, and decodes to exactly the values,
      each path as stored and each text as shown, in stable fold-segment order. */
  lemma PlainDecodes(root: ConfigPath, values: seq<SubTreeValue>)
    ensures RenderPlain(root, values).Some? <==> AllPlaced(root, values)
    ensures RenderPlain(root, values).Some? ==>
              Decode(RenderPlain(root, values).value) == Some(LinesOf(StableSort(ByPath(values))))
  {
    var sorted := StableSort(ByPath(values));
    forall i | 0 <= i < |sorted| ensures '=' !in sorted[i].value.path && '\n' !in sorted[i].value.path {
      PathHasNoSeparator(sorted[i].value.path);
    }
    DecodeLines(LinesOf(sorted));
  }

  lemma PathHasNoSeparator(path: ConfigPath)
    ensures '=' !in path && '\n' !in path
  {
    PathIsItsSegments(path);
    if path != "/" { SlashedHasNoSeparator(Segments(path)); }
  }

  lemma SlashedHasNoSeparator(segs: seq<string>)
    requires ValidSegments(segs)
    ensures '=' !in Slashed(segs) && '\n' !in Slashed(segs)
  {
    if segs != [] {
      ValidSegmentHasNoSlash(segs[0]);
      SlashedHasNoSeparator(segs[1..]);
    }
  }

  lemma SortedKeysAreFolds(values: seq<SubTreeValue>)
    ensures var sorted := StableSort(ByPath(values));
            |sorted| == |values| && forall i :: 0 <= i < |sorted| ==> sorted[i].key == FoldSegments(sorted[i].value.path)
  {
    var sorted := StableSort(ByPath(values));
    StableSortIsStable(ByPath(values));
    forall i | 0 <= i < |sorted| ensures sorted[i].key == FoldSegments(sorted[i].value.path) {
      assert sorted[i] in multiset(ByPath(values));
    }
  }

  /** Whenever the JSON renderer also succeeds, its depth-first leaves and the decoded plain lines
      are the same texts at the same folded paths, in the same order. */
  lemma PlainAgreesWithJson(root: ConfigPath, values: seq<SubTreeValue>)
    requires Render(root, values).Some?
    ensures RenderPlain(root, values).Some? && Decode(RenderPlain(root, values).value).Some?
    ensures var lines := Decode(RenderPlain(root, values).value).value;
            var leaves := LeavesOf(Render(root, values).value);
            |lines| == |leaves|
            && forall i :: 0 <= i < |lines| ==>
                 && Canonical(lines[i].path)
                 && FoldSegments(lines[i].path) == FoldSegments(root) + FoldAll(leaves[i].key)
                 && lines[i].text == leaves[i].value
  {
    RenderExactly(root, values);
    PlainDecodes(root, values);
    LeavesShowSorted(root, values);
    SortedKeysAreFolds(values);
  }

  /** Ordering whole path texts instead would not agree: `-` sorts below `/`. */
  lemma WholePathOrderDisagrees()
    ensures Canonical("/a-c") && Canonical("/a/b")
    ensures StrLt(Fold("/a-c"), Fold("/a/b")) && SegsLt(FoldSegments("/a/b"), FoldSegments("/a-c"))
  {
    DashedSegments();
    assert FoldSegments("/a/b")[0] == Fold("a") == "a" && FoldSegments("/a-c")[0] == Fold("a-c") == "a-c";
    assert Fold("/a-c") == "/a-c" && Fold("/a/b") == "/a/b";
    assert "/a-c"[2..] == "-c" && "/a/b"[2..] == "/b";
  }

  lemma DashedSegments()
    ensures Canonical("/a-c") && Segments("/a-c") == ["a-c"]
    ensures Canonical("/a/b") && Segments("/a/b") == ["a", "b"]
  {
    SplitWhole("a-c", '/');
    SplitWhole("b", '/');
    SplitFirst("a", '/', "b");
    assert "/a-c"[1..] == "a-c" && "/a/b"[1..] == "a" + ['/'] + "b";
  }
}
