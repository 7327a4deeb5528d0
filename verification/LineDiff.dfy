/** The rendered line diff: a minimal edit script, windowed and cut to length
    without losing count of what it does not show. */
module LineDiff {
  import opened Wrappers
  import opened Lcs
  import opened Lines

  datatype Op = Keep | Delete | Insert

  datatype Edit = Edit(op: Op, text: string)

  // -- edit scripts ---------------------------------------------------------

  /** What a script reads: its kept and deleted lines. */
  function OldLines(es: seq<Edit>): seq<string> {
    if es == [] then []
    else OldLines(es[..|es| - 1]) + if es[|es| - 1].op == Insert then [] else [es[|es| - 1].text]
  }

  /** What a script writes: its kept and inserted lines. */
  function NewLines(es: seq<Edit>): seq<string> {
    if es == [] then []
    else NewLines(es[..|es| - 1]) + if es[|es| - 1].op == Delete then [] else [es[|es| - 1].text]
  }

  function Changes(es: seq<Edit>): nat {
    if es == [] then 0 else Changes(es[..|es| - 1]) + if es[|es| - 1].op == Keep then 0 else 1
  }

  lemma Snoc(es: seq<Edit>, e: Edit)
    ensures OldLines(es + [e]) == OldLines(es) + if e.op == Insert then [] else [e.text]
    ensures NewLines(es + [e]) == NewLines(es) + if e.op == Delete then [] else [e.text]
    ensures Changes(es + [e]) == Changes(es) + if e.op == Keep then 0 else 1
  {
    assert (es + [e])[..|es|] == es;
  }

  /** The kept lines of any script, as positions in what it reads and writes. */
  ghost function KeptPairs(es: seq<Edit>): seq<Pair> {
    if es == [] then []
    else
      var init := es[..|es| - 1];
      KeptPairs(init) + if es[|es| - 1].op == Keep then [Pair(|OldLines(init)|, |NewLines(init)|)] else []
  }

  lemma MatchingGrows(a: seq<string>, b: seq<string>, ps: seq<Pair>, x: seq<string>, y: seq<string>)
    requires Matching(a, b, ps, 0, 0)
    ensures Matching(a + x, b + y, ps, 0, 0)
  {
  }

  lemma MatchingSnoc(a: seq<string>, b: seq<string>, ps: seq<Pair>, line: string)
    requires Matching(a, b, ps, 0, 0)
    ensures Matching(a + [line], b + [line], ps + [Pair(|a|, |b|)], 0, 0)
  {
  }

  lemma {:induction false} KeptPairsMatch(es: seq<Edit>)
    ensures Matching(OldLines(es), NewLines(es), KeptPairs(es), 0, 0)
    ensures Changes(es) + 2 * |KeptPairs(es)| == |OldLines(es)| + |NewLines(es)|
    decreases |es|
  {
    if es == [] {
    } else {
      var init, last := es[..|es| - 1], es[|es| - 1];
      KeptPairsMatch(init);
      match last.op {
        case Keep => MatchingSnoc(OldLines(init), NewLines(init), KeptPairs(init), last.text);
        case Delete => MatchingGrows(OldLines(init), NewLines(init), KeptPairs(init), [last.text], []);
        case Insert => MatchingGrows(OldLines(init), NewLines(init), KeptPairs(init), [], [last.text]);
      }
    }
  }

  /** A script from `before` to `new`. */
  ghost predicate Turns(es: seq<Edit>, before: seq<string>, after: seq<string>) {
    OldLines(es) == before && NewLines(es) == after
  }

  /** No script makes fewer changes than the longest common subsequence forces. */
  lemma ScriptLowerBound(es: seq<Edit>, before: seq<string>, after: seq<string>)
    requires Turns(es, before, after)
    ensures Changes(es) >= |before| + |after| - 2 * Length(before, after, 0, 0)
  {
    KeptPairsMatch(es);
    LengthIsMaximal(before, after, KeptPairs(es), 0, 0);
  }

  lemma {:induction false} KeepsOnly(es: seq<Edit>)
    ensures Changes(es) == 0 ==> OldLines(es) == NewLines(es)
    decreases |es|
  {
    if es == [] {
    } else {
      KeepsOnly(es[..|es| - 1]);
    }
  }

  function Keeping(lines: seq<string>): seq<Edit> {
    seq(|lines|, i requires 0 <= i < |lines| => Edit(Keep, lines[i]))
  }

  lemma {:induction false} KeepingChangesNothing(lines: seq<string>)
    ensures Turns(Keeping(lines), lines, lines) && Changes(Keeping(lines)) == 0
    decreases |lines|
  {
    if lines == [] {
    } else {
      var init := lines[..|lines| - 1];
      KeepingChangesNothing(init);
      assert Keeping(lines) == Keeping(init) + [Edit(Keep, lines[|lines| - 1])];
      Snoc(Keeping(init), Edit(Keep, lines[|lines| - 1]));
      assert lines == init + [lines[|lines| - 1]];
    }
  }

  /** A minimal script between two texts' lines changes nothing exactly when the
      texts are the same, but for one final newline. */
  lemma UnchangedExactly(es: seq<Edit>, before: string, after: string)
    requires Turns(es, SplitLines(before), SplitLines(after))
    requires forall fs :: Turns(fs, SplitLines(before), SplitLines(after)) ==> Changes(es) <= Changes(fs)
    ensures Changes(es) == 0 <==> TrimBreak(before) == TrimBreak(after)
  {
    SplitLinesTells(before, after);
    KeepsOnly(es);
    KeepingChangesNothing(SplitLines(before));
  }

  /** Between kept lines, what is deleted comes before what is inserted. */
  predicate DeletesFirst(es: seq<Edit>) {
    forall n :: 0 <= n < |es| - 1 ==> !(es[n].op == Insert && es[n + 1].op == Delete)
  }

  predicate EndsIn(es: seq<Edit>, op: Op) {
    es != [] && es[|es| - 1].op == op
  }

  /** Deletions from `before[i..]` up to `k`, appended one by one. */
  method DeleteUpTo(es: seq<Edit>, before: seq<string>, i: nat, k: nat) returns (es': seq<Edit>)
    requires i <= k <= |before| && OldLines(es) == before[..i]
    requires DeletesFirst(es) && !EndsIn(es, Insert)
    ensures DeletesFirst(es') && !EndsIn(es', Insert)
    ensures OldLines(es') == before[..k] && NewLines(es') == NewLines(es)
    ensures Changes(es') == Changes(es) + (k - i)
  {
    es' := es;
    for x := i to k
      invariant OldLines(es') == before[..x] && NewLines(es') == NewLines(es) && Changes(es') == Changes(es) + (x - i)
      invariant DeletesFirst(es') && !EndsIn(es', Insert)
    {
      Snoc(es', Edit(Delete, before[x]));
      es' := es' + [Edit(Delete, before[x])];
      assert before[..x] + [before[x]] == before[..x + 1];
    }
  }

  method InsertUpTo(es: seq<Edit>, after: seq<string>, j: nat, k: nat) returns (es': seq<Edit>)
    requires j <= k <= |after| && NewLines(es) == after[..j]
    requires DeletesFirst(es)
    ensures DeletesFirst(es')
    ensures NewLines(es') == after[..k] && OldLines(es') == OldLines(es)
    ensures Changes(es') == Changes(es) + (k - j)
  {
    es' := es;
    for x := j to k
      invariant NewLines(es') == after[..x] && OldLines(es') == OldLines(es) && Changes(es') == Changes(es) + (x - j)
      invariant DeletesFirst(es')
    {
      Snoc(es', Edit(Insert, after[x]));
      es' := es' + [Edit(Insert, after[x])];
      assert after[..x] + [after[x]] == after[..x + 1];
    }
  }

  /** One matched line, after what is deleted and inserted before it. */
  method KeepAt(es: seq<Edit>, before: seq<string>, after: seq<string>, i: nat, j: nat, k: Pair) returns (es': seq<Edit>)
    requires i <= k.a < |before| && j <= k.b < |after| && before[k.a] == after[k.b]
    requires OldLines(es) == before[..i] && NewLines(es) == after[..j]
    requires DeletesFirst(es) && !EndsIn(es, Insert)
    ensures DeletesFirst(es') && !EndsIn(es', Insert)
    ensures OldLines(es') == before[..k.a + 1] && NewLines(es') == after[..k.b + 1]
    ensures Changes(es') == Changes(es) + (k.a - i) + (k.b - j)
  {
    es' := DeleteUpTo(es, before, i, k.a);
    es' := InsertUpTo(es', after, j, k.b);
    Snoc(es', Edit(Keep, before[k.a]));
    es' := es' + [Edit(Keep, before[k.a])];
    assert before[..k.a] + [before[k.a]] == before[..k.a + 1];
    assert after[..k.b] + [after[k.b]] == after[..k.b + 1];
  }

  /** The script between the matched lines: faithful on both sides, and minimal. */
  method Script(before: seq<string>, after: seq<string>) returns (edits: seq<Edit>)
    requires |before| * |after| <= MAX_CELLS
    ensures Turns(edits, before, after) && DeletesFirst(edits)
    ensures forall es :: Turns(es, before, after) ==> Changes(edits) <= Changes(es)
  {
    var keep := LongestCommon(before, after);
    edits := [];
    var i: nat, j: nat := 0, 0;
    for n := 0 to |keep|
      invariant i <= |before| && j <= |after|
      invariant n < |keep| ==> i <= keep[n].a && j <= keep[n].b
      invariant OldLines(edits) == before[..i] && NewLines(edits) == after[..j]
      invariant Changes(edits) + 2 * n == i + j
      invariant DeletesFirst(edits) && !EndsIn(edits, Insert)
    {
      var k := keep[n];
      assert keep[n].a < |before| && keep[n].b < |after|;
      edits := KeepAt(edits, before, after, i, j, k);
      i, j := k.a + 1, k.b + 1;
    }
    edits := DeleteUpTo(edits, before, i, |before|);
    edits := InsertUpTo(edits, after, j, |after|);
    assert before[..|before|] == before && after[..|after|] == after;
    forall es | Turns(es, before, after) ensures Changes(edits) <= Changes(es) {
      ScriptLowerBound(es, before, after);
    }
  }

  // -- windowing ------------------------------------------------------------

  /** Within `ctx` lines of a change. */
  ghost predicate InWindow(edits: seq<Edit>, ctx: int, n: nat) {
    exists k :: 0 <= k < |edits| && edits[k].op != Keep && k - ctx <= n <= k + ctx
  }

  method Window(edits: seq<Edit>, ctx: int) returns (show: seq<bool>)
    ensures |show| == |edits|
    ensures forall n :: 0 <= n < |edits| ==> (show[n] <==> InWindow(edits, ctx, n))
  {
    var marks := new bool[|edits|](_ => false);
    for n := 0 to |edits|
      invariant forall x :: 0 <= x < |edits| ==>
        (marks[x] <==> exists k :: 0 <= k < n && edits[k].op != Keep && k - ctx <= x <= k + ctx)
    {
      if edits[n].op != Keep {
        Mark(marks, n - ctx, n + ctx);
      }
    }
    show := marks[..];
  }

  /** Sets the marks from `lo` to `hi`, clamped to the array. */
  method Mark(marks: array<bool>, lo: int, hi: int)
    modifies marks
    ensures forall x :: 0 <= x < marks.Length ==> marks[x] == (old(marks[x]) || lo <= x <= hi)
  {
    var from := if lo < 0 then 0 else lo;
    var to := if hi >= marks.Length then marks.Length - 1 else hi;
    var k := from;
    while k <= to
      invariant from <= k
      invariant forall x :: 0 <= x < marks.Length ==> marks[x] == (old(marks[x]) || (from <= x < k && x <= to))
    {
      marks[k] := true;
      k := k + 1;
    }
  }

  /** Every change is shown, exactly when the window is not negative or there is
      no change to show. */
  lemma ChangesAreShown(edits: seq<Edit>, ctx: int)
    ensures (forall n :: 0 <= n < |edits| && edits[n].op != Keep ==> InWindow(edits, ctx, n))
       <==> ctx >= 0 || forall n :: 0 <= n < |edits| ==> edits[n].op == Keep
  {
    if ctx >= 0 {
      forall n | 0 <= n < |edits| && edits[n].op != Keep ensures InWindow(edits, ctx, n) {
        assert n - ctx <= n <= n + ctx;
      }
    }
  }

  // -- rendering ------------------------------------------------------------

  /** A line of output: a count of lines passed over, or an edit shown verbatim. */
  datatype OutLine = Header(skipped: nat) | Line(edit: Edit)

  /** The rendering with no limit on its length, and the run of unshown lines it
      ends in. */
  function Rendered(edits: seq<Edit>, show: seq<bool>): (seq<OutLine>, nat)
    requires |edits| == |show|
  {
    if edits == [] then ([], 0)
    else
      var n := |edits| - 1;
      var (out, skipped) := Rendered(edits[..n], show[..n]);
      if !show[n] then (out, skipped + 1)
      else (Flush(out, skipped) + [Line(edits[n])], 0)
  }

  /** A run of unshown lines ends in a header that counts it. */
  function Flush(out: seq<OutLine>, skipped: nat): seq<OutLine> {
    if skipped > 0 then out + [Header(skipped)] else out
  }

  lemma RenderedSnoc(edits: seq<Edit>, show: seq<bool>, n: nat)
    requires n < |edits| == |show|
    ensures Rendered(edits[..n + 1], show[..n + 1])
         == var (out, skipped) := Rendered(edits[..n], show[..n]);
            if show[n] then (Flush(out, skipped) + [Line(edits[n])], 0) else (out, skipped + 1)
    ensures Shown(edits[..n + 1], show[..n + 1]) == Shown(edits[..n], show[..n]) + if show[n] then [edits[n]] else []
  {
    assert edits[..n + 1][..n] == edits[..n] && show[..n + 1][..n] == show[..n];
  }

  /** Cut to length: an edit line is left out once `max` lines are written, a
      header never is. */
  function Capped(lines: seq<OutLine>, max: int): seq<OutLine> {
    if lines == [] then []
    else
      var init, last := Capped(lines[..|lines| - 1], max), lines[|lines| - 1];
      if last.Line? && |init| >= max then init else init + [last]
  }

  function EditsIn(lines: seq<OutLine>): seq<Edit> {
    if lines == [] then []
    else EditsIn(lines[..|lines| - 1]) + match lines[|lines| - 1] case Header(_) => [] case Line(e) => [e]
  }

  function SkippedIn(lines: seq<OutLine>): nat {
    if lines == [] then 0
    else SkippedIn(lines[..|lines| - 1]) + match lines[|lines| - 1] case Header(k) => k case Line(_) => 0
  }

  /** The edits that are to be shown. */
  function Shown(edits: seq<Edit>, show: seq<bool>): seq<Edit>
    requires |edits| == |show|
  {
    if edits == [] then []
    else
      var n := |edits| - 1;
      Shown(edits[..n], show[..n]) + if show[n] then [edits[n]] else []
  }

  lemma SnocLine(lines: seq<OutLine>, l: OutLine, max: int)
    ensures Capped(lines + [l], max) == if l.Line? && |Capped(lines, max)| >= max then Capped(lines, max) else Capped(lines, max) + [l]
    ensures EditsIn(lines + [l]) == EditsIn(lines) + match l case Header(_) => [] case Line(e) => [e]
    ensures SkippedIn(lines + [l]) == SkippedIn(lines) + match l case Header(k) => k case Line(_) => 0
  {
    assert (lines + [l])[..|lines|] == lines;
  }

  /** Without a limit, the rendering shows exactly the windowed edits, and its
      headers and its tail count every other line once. */
  lemma {:induction false} RenderedShows(edits: seq<Edit>, show: seq<bool>)
    requires |edits| == |show|
    ensures var (out, skipped) := Rendered(edits, show);
            EditsIn(out) == Shown(edits, show) && |Shown(edits, show)| + SkippedIn(out) + skipped == |edits|
    decreases |edits|
  {
    if edits == [] {
    } else {
      var n := |edits| - 1;
      RenderedShows(edits[..n], show[..n]);
      var (out, skipped) := Rendered(edits[..n], show[..n]);
      FlushLine(out, skipped, 0);
      SnocLine(Flush(out, skipped), Line(edits[n]), 0);
    }
  }

  lemma FlushLine(lines: seq<OutLine>, skipped: nat, max: int)
    ensures EditsIn(Flush(lines, skipped)) == EditsIn(lines)
    ensures SkippedIn(Flush(lines, skipped)) == SkippedIn(lines) + skipped
    ensures Capped(Flush(lines, skipped), max) == Flush(Capped(lines, max), skipped)
  {
    SnocLine(lines, Header(skipped), max);
  }

  /** What the cut keeps of the edits is a beginning of them; every header survives. */
  lemma {:induction false} CappedIsPrefix(lines: seq<OutLine>, max: int)
    ensures EditsIn(Capped(lines, max)) <= EditsIn(lines)
    ensures SkippedIn(Capped(lines, max)) == SkippedIn(lines)
    ensures EditsIn(Capped(lines, max)) != EditsIn(lines) ==> |Capped(lines, max)| >= max
    decreases |lines|
  {
    if lines == [] {
    } else {
      var init, last := lines[..|lines| - 1], lines[|lines| - 1];
      CappedIsPrefix(init, max);
      assert lines == init + [last];
      SnocLine(init, last, max);
      SnocLine(Capped(init, max), last, max);
    }
  }

  /** It is no longer than the limit, and whole only where nothing was cut. */
  lemma {:induction false} CappedBound(lines: seq<OutLine>, max: int)
    ensures |EditsIn(Capped(lines, max))| <= |Capped(lines, max)|
    ensures |EditsIn(Capped(lines, max))| <= (if max < 0 then 0 else max)
    ensures |EditsIn(Capped(lines, max))| <= |EditsIn(lines)|
    ensures |EditsIn(Capped(lines, max))| == |EditsIn(lines)| ==> Capped(lines, max) == lines
    decreases |lines|
  {
    if lines == [] {
    } else {
      var init, last := lines[..|lines| - 1], lines[|lines| - 1];
      CappedBound(init, max);
      assert lines == init + [last];
      SnocLine(init, last, max);
      SnocLine(Capped(init, max), last, max);
    }
  }

  /** The headers of some output, in order. */
  function HeadersIn(lines: seq<OutLine>): seq<OutLine>
    decreases |lines|
  {
    if lines == [] then []
    else HeadersIn(lines[..|lines| - 1]) + if lines[|lines| - 1].Header? then [lines[|lines| - 1]] else []
  }

  /** What is written before the limit is reached. */
  function Within(lines: seq<OutLine>, max: nat): nat {
    if |lines| < max then |lines| else max
  }

  /** The cut output is the first `max` lines and then every later header. */
  lemma {:induction false} CappedIs(lines: seq<OutLine>, max: nat)
    ensures Capped(lines, max) == lines[..Within(lines, max)] + HeadersIn(lines[Within(lines, max)..])
    decreases |lines|
  {
    if lines == [] {
    } else {
      var n := |lines| - 1;
      CappedIs(lines[..n], max);
      if n < max {
        assert lines[..n][..n] == lines[..n] && lines[..n][n..] == [] && lines[n + 1..] == [];
        assert lines == lines[..n] + [lines[n]];
      } else {
        assert lines[..n][..max] == lines[..max];
        assert lines[max..][..n - max] == lines[..n][max..];
      }
    }
  }

  lemma {:induction false} NoHeadersExactly(lines: seq<OutLine>)
    ensures HeadersIn(lines) == [] <==> forall i :: 0 <= i < |lines| ==> lines[i].Line?
    decreases |lines|
  {
    if lines == [] {
    } else {
      NoHeadersExactly(lines[..|lines| - 1]);
    }
  }

  /** The output is within the limit exactly when nothing but edit lines would have
      come after it. */
  lemma WithinTheLimitExactly(lines: seq<OutLine>, max: nat)
    ensures |Capped(lines, max)| <= max <==> forall i :: max <= i < |lines| ==> lines[i].Line?
  {
    var k := Within(lines, max);
    CappedIs(lines, max);
    NoHeadersExactly(lines[k..]);
    assert forall i :: k <= i < |lines| ==> lines[i] == lines[k..][i - k];
    assert forall j :: 0 <= j < |lines| - k ==> lines[k..][j] == lines[j + k];
  }

  /** The output loop: `out` grows, `skipped` and `dropped` are counted. */
  method Render(edits: seq<Edit>, show: seq<bool>, max: int) returns (out: seq<OutLine>, dropped: nat)
    requires |edits| == |show|
    ensures out == Capped(Rendered(edits, show).0, max)
    ensures |EditsIn(out)| + dropped == |Shown(edits, show)|
  {
    out, dropped := [], 0;
    var skipped := 0;
    for n := 0 to |edits|
      invariant out == Capped(Rendered(edits[..n], show[..n]).0, max)
      invariant skipped == Rendered(edits[..n], show[..n]).1
      invariant |EditsIn(out)| + dropped == |Shown(edits[..n], show[..n])|
    {
      RenderedSnoc(edits, show, n);
      if !show[n] {
        skipped := skipped + 1;
      } else {
        ghost var lines := Rendered(edits[..n], show[..n]).0;
        FlushLine(lines, skipped, max);
        FlushLine(out, skipped, max);
        SnocLine(Flush(lines, skipped), Line(edits[n]), max);
        if skipped > 0 {
          out := out + [Header(skipped)];
          skipped := 0;
        }
        SnocLine(out, Line(edits[n]), max);
        if |out| >= max {
          dropped := dropped + 1;
        } else {
          out := out + [Line(edits[n])];
        }
      }
    }
    assert edits[..|edits|] == edits && show[..|show|] == show;
  }

  /** The whole diff. `limit` states what is not shown: None says everything is. */
  datatype Limit = TooLarge | Truncated(dropped: nat)

  /** Past its first `max` lines the whole rendering has edit lines only: no run of
      unshown lines is skipped there. */
  ghost predicate ShowsNoGapPast(edits: seq<Edit>, show: seq<bool>, max: nat)
    requires |edits| == |show|
  {
    var lines := Rendered(edits, show).0;
    forall i :: max <= i < |lines| ==> lines[i].Line?
  }

  method Diff(before: seq<string>, after: seq<string>, ctx: int, max: int)
    returns (out: seq<OutLine>, limit: Option<Limit>, ghost edits: seq<Edit>, ghost show: seq<bool>)
    ensures limit == Some(TooLarge) <==> |before| * |after| > MAX_CELLS
    ensures limit != Some(TooLarge) ==>
      && Turns(edits, before, after) && (forall es :: Turns(es, before, after) ==> Changes(edits) <= Changes(es))
      && DeletesFirst(edits)
      && |show| == |edits|
      && (forall n :: 0 <= n < |edits| ==> (show[n] <==> exists k :: 0 <= k < |edits| && edits[k].op != Keep && n - ctx <= k <= n + ctx))
      && out == Capped(Rendered(edits, show).0, max)
      && (limit == None <==> EditsIn(out) == Shown(edits, show))
      && (limit.Some? ==> |EditsIn(out)| + limit.value.dropped == |Shown(edits, show)|)
      && (max >= 0 ==> (|out| <= max <==> ShowsNoGapPast(edits, show, max)))
  {
    if |before| * |after| > MAX_CELLS {
      return [], Some(TooLarge), [], [];
    }
    var script := Script(before, after);
    var marks := Window(script, ctx);
    var dropped;
    out, dropped := Render(script, marks, max);
    edits, show := script, marks;
    limit := if dropped > 0 then Some(Truncated(dropped)) else None;
    RenderedShows(script, marks);
    CappedIsPrefix(Rendered(script, marks).0, max);
    CappedBound(Rendered(script, marks).0, max);
    if max >= 0 {
      WithinTheLimitExactly(Rendered(script, marks).0, max);
    }
  }
}
