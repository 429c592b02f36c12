/** The marker-delimited rewrite of README.md (scripts/render-status-table.ts). */
module StatusTable {
  import opened JsText

  /** The two marker comments; neither holds a dollar sign. */
  datatype Markers = Markers(start: string, end: string) {
    predicate Valid() {
      start != "" && end != "" && '$' !in start && '$' !in end
    }
  }

  const README_MARKERS := Markers("<!-- status:start -->", "<!-- status:end -->")

  datatype Rendered = Missing | Written(readme: string)

  /** What /start[\s\S]*end/ matches in a text: from `from` to `to`. */
  datatype Region = NoRegion | Region(from: nat, to: nat)

  /** From the first start marker to the last end marker, if that lies after it. */
  function Find(m: Markers, s: string): (r: Region)
    ensures r.Region? ==> r.from + |m.start| + |m.end| <= r.to <= |s|
  {
    var first := FirstAt(s, m.start, 0);
    var last := LastAt(s, m.end, |s|);
    if first >= 0 && last >= first + |m.start| then Region(first, last + |m.end|) else NoRegion
  }

  /** A substring of s that the pattern accepts. */
  predicate Accepts(m: Markers, s: string, from: int, to: int) {
    OccursAt(s, m.start, from) && OccursAt(s, m.end, to - |m.end|) && from + |m.start| <= to - |m.end|
  }

  /** Find is the regular expression's answer: the leftmost match, and at that place the longest. */
  lemma FindIsLeftmostLongest(m: Markers, s: string)
    ensures match Find(m, s)
            case NoRegion => forall from, to :: !Accepts(m, s, from, to)
            case Region(from, to) =>
              && Accepts(m, s, from, to)
              && (forall f, t :: Accepts(m, s, f, t) ==> from <= f)
              && (forall t :: Accepts(m, s, from, t) ==> t <= to)
  {
    var first := FirstAt(s, m.start, 0);
    var last := LastAt(s, m.end, |s|);
    forall f, t | Accepts(m, s, f, t)
      ensures 0 <= first <= f && last >= t - |m.end|
    {
    }
  }

  function Template(m: Markers, table: string): string {
    m.start + "\n" + table + "\n" + m.end
  }

  /** The script: an error without both markers; otherwise the one match replaced. */
  function Render(m: Markers, readme: string, table: string): Rendered {
    if FirstAt(readme, m.start, 0) < 0 || FirstAt(readme, m.end, 0) < 0 then Missing else
    match Find(m, readme)
    case NoRegion => Written(readme)
    case Region(from, to) =>
      var before, after := readme[..from], readme[to..];
      Written(before + Expand(Template(m, table), readme[from..to], before, after) + after)
  }

  /** The script gives up exactly when a marker is missing; with both, but no start marker before an end
      marker, it writes the text back unchanged. */
  lemma MissingExactly(m: Markers, readme: string, table: string)
    ensures Render(m, readme, table) == Missing
            <==> (forall i :: !OccursAt(readme, m.start, i)) || (forall i :: !OccursAt(readme, m.end, i))
    ensures Render(m, readme, table) != Missing && (forall from, to :: !Accepts(m, readme, from, to)) ==>
              Render(m, readme, table) == Written(readme)
  {
    FindIsLeftmostLongest(m, readme);
    var first, end := FirstAt(readme, m.start, 0), FirstAt(readme, m.end, 0);
    assert first >= 0 ==> OccursAt(readme, m.start, first);
    assert end >= 0 ==> OccursAt(readme, m.end, end);
  }

  /** The new text when `inner` goes between the markers and their line breaks. */
  function Between(m: Markers, before: string, inner: string, after: string): string {
    before + (m.start + ("\n" + inner + "\n") + m.end) + after
  }

  lemma TemplateExpands(m: Markers, table: string, matched: string, before: string, after: string)
    requires m.Valid()
    ensures Expand(Template(m, table), matched, before, after)
            == m.start + ("\n" + Expand(table, matched, before, after) + "\n") + m.end
  {
    var head, tail := m.start + "\n", "\n" + m.end;
    assert Template(m, table) == head + (table + tail);
    ExpandPrefix(head, table + tail, matched, before, after);
    ExpandSuffix(table, tail, matched, before, after);
    var inner := Expand(table, matched, before, after);
    assert head + (inner + tail) == m.start + ("\n" + inner + "\n") + m.end;
  }

  /** Occurrences in the common part of two texts are the same. */
  lemma SamePrefix(s: string, t: string, n: nat, literal: string, i: int)
    requires n <= |s| && n <= |t| && s[..n] == t[..n] && i + |literal| <= n
    ensures OccursAt(s, literal, i) <==> OccursAt(t, literal, i)
  {
    if 0 <= i {
      assert s[i..i + |literal|] == s[..n][i..i + |literal|];
      assert t[i..i + |literal|] == t[..n][i..i + |literal|];
    }
  }

  lemma SameSuffix(s: string, t: string, n: nat, literal: string, j: nat)
    requires n <= |s| && n <= |t| && s[|s| - n..] == t[|t| - n..]
    ensures OccursAt(s, literal, |s| - n + j) <==> OccursAt(t, literal, |t| - n + j)
  {
    if j + |literal| <= n {
      var i, k := |s| - n + j, |t| - n + j;
      assert s[i..i + |literal|] == s[|s| - n..][j..j + |literal|];
      assert t[k..k + |literal|] == t[|t| - n..][j..j + |literal|];
    }
  }

  /** Nothing before the old match holds a start marker in the new text, seam included. */
  lemma StartFoundAgain(m: Markers, readme: string, s: string)
    requires Find(m, readme).Region?
    requires var n := Find(m, readme).from + |m.start|; n <= |s| && s[..n] == readme[..n]
    ensures FirstAt(s, m.start, 0) == Find(m, readme).from
  {
    var from := Find(m, readme).from;
    var n := from + |m.start|;
    SamePrefix(readme, s, n, m.start, from);
    forall i | 0 <= i < from
      ensures !OccursAt(s, m.start, i)
    {
      SamePrefix(readme, s, n, m.start, i);
    }
  }

  /** Nothing after it holds an end marker. */
  lemma EndFoundAgain(m: Markers, readme: string, s: string)
    requires Find(m, readme).Region? && m.end != ""
    requires var n := |readme| - Find(m, readme).to + |m.end|; n <= |s| && s[|s| - n..] == readme[|readme| - n..]
    ensures LastAt(s, m.end, |s|) == |s| - (|readme| - Find(m, readme).to + |m.end|)
  {
    var n := |readme| - Find(m, readme).to + |m.end|;
    assert LastAt(readme, m.end, |readme|) == |readme| - n;
    LastAgain(readme, s, m.end, n);
  }

  /** The last occurrence, n before the end, of a text is that of every text with the same last n. */
  lemma LastAgain(s: string, t: string, literal: string, n: nat)
    requires n <= |s| && n <= |t| && s[|s| - n..] == t[|t| - n..]
    requires LastAt(s, literal, |s|) == |s| - n
    ensures LastAt(t, literal, |t|) == |t| - n
  {
    var k := |t| - n;
    SameSuffix(s, t, n, literal, 0);
    forall i | k < i <= |t|
      ensures !OccursAt(t, literal, i)
    {
      SameSuffix(s, t, n, literal, i - k);
    }
    LastIs(t, literal, k);
  }

  lemma LastIs(t: string, literal: string, k: nat)
    requires OccursAt(t, literal, k) && forall i | k < i <= |t| :: !OccursAt(t, literal, i)
    ensures LastAt(t, literal, |t|) == k
  {
  }

  /** Both ends of a text put together from pieces. */
  lemma Ends(before: string, start: string, inner: string, end: string, after: string)
    ensures var s := before + (start + inner + end) + after;
            && s[..|before| + |start|] == before + start
            && s[|s| - (|end| + |after|)..] == end + after
  {
  }

  /** Both ends of a text around a match. */
  lemma MatchEnds(m: Markers, s: string)
    requires Find(m, s).Region?
    ensures var r := Find(m, s);
            && s[..r.from + |m.start|] == s[..r.from] + m.start
            && s[|s| - (|m.end| + |s[r.to..]|)..] == m.end + s[r.to..]
  {
    var r := Find(m, s);
    assert s[r.from..r.from + |m.start|] == m.start;
    assert s[r.to - |m.end|..r.to] == m.end;
    assert s[r.to - |m.end|..] == s[r.to - |m.end|..r.to] + s[r.to..];
  }

  /** No marker straddles the seams: whatever stands between the markers, the new text is found again
      exactly where the old one was. */
  lemma FoundAgain(m: Markers, readme: string, inner: string)
    requires m.Valid() && Find(m, readme).Region?
    ensures var r := Find(m, readme);
            var before, after := readme[..r.from], readme[r.to..];
            var s := Between(m, before, inner, after);
            && Find(m, s) == Region(r.from, |s| - |after|)
            && FirstAt(s, m.start, 0) >= 0 && FirstAt(s, m.end, 0) >= 0
  {
    var r := Find(m, readme);
    var before, after := readme[..r.from], readme[r.to..];
    var s := Between(m, before, inner, after);
    Ends(before, m.start, "\n" + inner + "\n", m.end, after);
    MatchEnds(m, readme);
    StartFoundAgain(m, readme, s);
    EndFoundAgain(m, readme, s);
    LastMeansFirst(s, m.end);
  }

  lemma LastMeansFirst(s: string, literal: string)
    ensures LastAt(s, literal, |s|) >= 0 ==> FirstAt(s, literal, 0) >= 0
  {
  }

  /** The rewrite keeps everything before the first start marker and after the last end marker, and
      puts the expanded table between them. */
  lemma RenderIsLocal(m: Markers, readme: string, table: string)
    requires m.Valid() && Find(m, readme).Region?
    ensures var r := Find(m, readme);
            var before, after := readme[..r.from], readme[r.to..];
            Render(m, readme, table) == Written(Between(m, before, Expand(table, readme[r.from..r.to], before, after), after))
  {
    var r := Find(m, readme);
    var before, after := readme[..r.from], readme[r.to..];
    TemplateExpands(m, table, readme[r.from..r.to], before, after);
    LastMeansFirst(readme, m.end);
  }

  /** A second rewrite with the same table changes nothing exactly when the table has no `$&`. */
  lemma RenderTwice(m: Markers, readme: string, table: string)
    requires m.Valid() && Find(m, readme).Region?
    ensures var once := Render(m, readme, table);
            once.Written? && (Render(m, once.readme, table) == once <==> !UsesMatch(table))
  {
    var r := Find(m, readme);
    var before, after, matched := readme[..r.from], readme[r.to..], readme[r.from..r.to];
    var inner1 := Expand(table, matched, before, after);
    RenderIsLocal(m, readme, table);
    var s1 := Between(m, before, inner1, after);
    FoundAgain(m, readme, inner1);
    var r1 := Find(m, s1);
    var middle1 := s1[r1.from..r1.to];
    assert s1[..r1.from] == before && s1[r1.to..] == after;
    RenderIsLocal(m, s1, table);
    var inner2 := Expand(table, middle1, before, after);
    assert Render(m, s1, table) == Written(Between(m, before, inner2, after));
    if UsesMatch(table) {
      UsedMatchGrows(table, matched, matched, before, after);
      assert |middle1| > |matched|;
      UsedMatchGrows(table, matched, middle1, before, after);
      assert |Between(m, before, inner2, after)| > |s1|;
    } else {
      UnusedMatch(table, matched, middle1, before, after);
    }
  }

  /** Without any directive the table itself stands between the markers, and a second run is idle. */
  lemma LiteralTable(m: Markers, readme: string, table: string)
    requires m.Valid() && Find(m, readme).Region? && !HasDirective(table)
    ensures var r := Find(m, readme);
            var once := Render(m, readme, table);
            && once == Written(Between(m, readme[..r.from], table, readme[r.to..]))
            && Render(m, once.readme, table) == once
  {
    var r := Find(m, readme);
    RenderIsLocal(m, readme, table);
    LiteralExpands(table, readme[r.from..r.to], readme[..r.from], readme[r.to..]);
    LiteralUsesNoMatch(table);
    RenderTwice(m, readme, table);
  }

  /** All of this holds for the script's own markers. */
  lemma ReadmeMarkersAreValid()
    ensures README_MARKERS.Valid()
  {
  }

  lemma {:induction false} LiteralUsesNoMatch(table: string)
    requires !HasDirective(table)
    ensures !UsesMatch(table)
  {
    if |table| >= 2 {
      LiteralUsesNoMatch(table[1..]);
    }
  }
}
