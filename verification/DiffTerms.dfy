/** What a diff's output is, line by line: where each edit's text stands in the two
    sides, and what is written for each edit shown. */
module DiffTerms {
  import opened Lcs
  import opened LineDiff

  // -- a script, by places --------------------------------------------------

  /** How many of the first `n` edits are not of one kind: the lines they take from one
      side. */
  function Taking(es: seq<Edit>, n: nat, but: Op): set<nat> {
    set i: nat | i < n && i < |es| && es[i].op != but :: i
  }

  /** Every edit of a side has the line at its place there, and there are no others. */
  ghost predicate Lists(es: seq<Edit>, but: Op, lines: seq<string>) {
    && |Taking(es, |es|, but)| == |lines|
    && forall k :: 0 <= k < |es| && es[k].op != but ==>
         |Taking(es, k, but)| < |lines| && lines[|Taking(es, k, but)|] == es[k].text
  }

  function SideOf(es: seq<Edit>, but: Op): seq<string>
    requires but != Keep
  {
    if but == Insert then OldLines(es) else NewLines(es)
  }

  lemma TakingPrefix(es: seq<Edit>, n: nat, k: nat, but: Op)
    requires k <= n <= |es|
    ensures Taking(es[..n], k, but) == Taking(es, k, but)
  {
  }

  lemma TakingSet(es: seq<Edit>, n: nat, but: Op)
    requires n < |es|
    ensures es[n].op != but ==> Taking(es, n + 1, but) == Taking(es, n, but) + {n}
    ensures es[n].op == but ==> Taking(es, n + 1, but) == Taking(es, n, but)
  {
  }

  lemma TakingNext(es: seq<Edit>, n: nat, but: Op)
    requires n < |es|
    ensures es[n].op != but ==> |Taking(es, n + 1, but)| == |Taking(es, n, but)| + 1
    ensures es[n].op == but ==> |Taking(es, n + 1, but)| == |Taking(es, n, but)|
  {
    TakingSet(es, n, but);
    assert n !in Taking(es, n, but);
  }

  lemma {:induction false} SideListed(es: seq<Edit>, but: Op)
    requires but != Keep
    ensures Lists(es, but, SideOf(es, but))
    decreases |es|
  {
    if es == [] {
      assert Taking(es, 0, but) == {};
    } else {
      SideListed(es[..|es| - 1], but);
      ListsSnoc(es, but, SideOf(es[..|es| - 1], but));
    }
  }

  lemma ListsSnoc(es: seq<Edit>, but: Op, lines: seq<string>)
    requires es != [] && Lists(es[..|es| - 1], but, lines)
    ensures Lists(es, but, lines + if es[|es| - 1].op == but then [] else [es[|es| - 1].text])
  {
    var n := |es| - 1;
    var lines' := lines + if es[n].op == but then [] else [es[n].text];
    TakingNext(es, n, but);
    TakingPrefix(es, n, n, but);
    forall k | 0 <= k < |es| && es[k].op != but
      ensures |Taking(es, k, but)| < |lines'| && lines'[|Taking(es, k, but)|] == es[k].text
    {
      TakingPrefix(es, n, k, but);
      if k < n {
        assert es[..n][k] == es[k];
      }
    }
  }

  /** Every place of a side is some edit's. */
  lemma {:induction false} EachTaken(es: seq<Edit>, but: Op, n: nat, m: nat) returns (k: nat)
    requires n <= |es| && m < |Taking(es, n, but)|
    ensures k < n && es[k].op != but && |Taking(es, k, but)| == m
    decreases n
  {
    assert Taking(es, 0, but) == {};
    k := n - 1;
    TakingNext(es, k, but);
    if m < |Taking(es, k, but)| {
      k := EachTaken(es, but, k, m);
    }
  }

  lemma ListedIsSide(es: seq<Edit>, but: Op, lines: seq<string>)
    requires but != Keep && Lists(es, but, lines)
    ensures lines == SideOf(es, but)
  {
    SideListed(es, but);
    forall m | 0 <= m < |lines| ensures lines[m] == SideOf(es, but)[m] {
      var k := EachTaken(es, but, |es|, m);
    }
  }

  /** A script leads from one side to the other exactly when its kept and deleted lines,
      in order, are the one and its kept and inserted lines the other. */
  lemma TurnsExactly(es: seq<Edit>, before: seq<string>, after: seq<string>)
    ensures Turns(es, before, after) <==> Lists(es, Insert, before) && Lists(es, Delete, after)
  {
    SideListed(es, Insert);
    SideListed(es, Delete);
    if Lists(es, Insert, before) && Lists(es, Delete, after) {
      ListedIsSide(es, Insert, before);
      ListedIsSide(es, Delete, after);
    }
  }

  /** What a script changes is how many of its edits are not kept. */
  lemma {:induction false} ChangesExactly(es: seq<Edit>)
    ensures Changes(es) == |Taking(es, |es|, Keep)|
    decreases |es|
  {
    if es == [] {
      assert Taking(es, 0, Keep) == {};
    } else {
      var n := |es| - 1;
      ChangesExactly(es[..n]);
      TakingNext(es, n, Keep);
      TakingPrefix(es, n, n, Keep);
    }
  }

  // -- what is written ------------------------------------------------------

  /** How many edits right before the first `n`'s end are not shown. */
  function Run(show: seq<bool>, n: nat): nat
    requires n <= |show|
  {
    if n == 0 || show[n - 1] then 0 else 1 + Run(show, n - 1)
  }

  /** What one edit puts in the output: nothing unless it is shown, and before it the
      count of those passed over since the last one shown, if any were. */
  function Piece(edits: seq<Edit>, show: seq<bool>, k: nat): seq<OutLine>
    requires k < |edits| == |show|
  {
    if !show[k] then []
    else (if Run(show, k) > 0 then [Header(Run(show, k))] else []) + [Line(edits[k])]
  }

  function Pieces(edits: seq<Edit>, show: seq<bool>, n: nat): seq<OutLine>
    requires n <= |edits| == |show|
  {
    if n == 0 then [] else Pieces(edits, show, n - 1) + Piece(edits, show, n - 1)
  }

  lemma {:induction false} RunPrefix(show: seq<bool>, n: nat, k: nat)
    requires k <= n <= |show|
    ensures Run(show[..n], k) == Run(show, k)
  {
    if k == 0 || show[k - 1] {
    } else {
      RunPrefix(show, n, k - 1);
    }
  }

  /** The rendering is the pieces of the edits in order, and ends in the run passed over
      last. */
  lemma {:induction false} RenderedExactly(edits: seq<Edit>, show: seq<bool>, n: nat)
    requires n <= |edits| == |show|
    ensures Rendered(edits[..n], show[..n]) == (Pieces(edits, show, n), Run(show, n))
    decreases n
  {
    if n == 0 {
    } else {
      RenderedExactly(edits, show, n - 1);
      RenderedNext(edits, show, n - 1, Pieces(edits, show, n - 1), Run(show, n - 1));
      PiecesNext(edits, show, n - 1);
    }
  }

  lemma RenderedNext(edits: seq<Edit>, show: seq<bool>, n: nat, out: seq<OutLine>, skipped: nat)
    requires n < |edits| == |show| && Rendered(edits[..n], show[..n]) == (out, skipped)
    ensures Rendered(edits[..n + 1], show[..n + 1])
         == if show[n] then (Flush(out, skipped) + [Line(edits[n])], 0) else (out, skipped + 1)
  {
    RenderedSnoc(edits, show, n);
  }

  lemma PiecesNext(edits: seq<Edit>, show: seq<bool>, n: nat)
    requires n < |edits| == |show|
    ensures Pieces(edits, show, n + 1)
         == if show[n] then Flush(Pieces(edits, show, n), Run(show, n)) + [Line(edits[n])] else Pieces(edits, show, n)
    ensures Run(show, n + 1) == if show[n] then 0 else Run(show, n) + 1
  {
    Written(Pieces(edits, show, n), Run(show, n), Line(edits[n]));
  }

  lemma Written(out: seq<OutLine>, skipped: nat, line: OutLine)
    ensures skipped > 0 ==> Flush(out, skipped) + [line] == out + ([Header(skipped)] + [line])
    ensures skipped == 0 ==> Flush(out, skipped) + [line] == out + ([] + [line])
    ensures out + [] == out
  {
  }

  /** The same of a whole script. */
  lemma WholeRendered(edits: seq<Edit>, show: seq<bool>)
    requires |edits| == |show|
    ensures Rendered(edits, show) == (Pieces(edits, show, |edits|), Run(show, |edits|))
  {
    RenderedExactly(edits, show, |edits|);
    assert edits[..|edits|] == edits && show[..|edits|] == show;
  }

  /** The cap on the table: two to the twentieth cells. */
  lemma CapExactly(before: seq<string>, after: seq<string>)
    ensures |before| * |after| > MAX_CELLS <==> |before| * |after| > 1024 * 1024
  {
  }
}
