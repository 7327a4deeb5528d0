/** An input of the review whose output passes the limit the review asks for. */
module DiffLimit {
  import opened LineDiff

  const CONTEXT := 3
  const MAX_LINES := 200

  function Same<T>(n: nat, x: T): seq<T> {
    seq(n, _ => x)
  }

  /** Ten lines, approved; two hundred put before them and one after. */
  function Approved(): seq<string> {
    Same(10, "k")
  }

  function Incoming(): seq<string> {
    Same(200, "a") + Same(10, "k") + ["b"]
  }

  function Expected(): seq<Edit> {
    Same(200, Edit(Insert, "a")) + Same(10, Edit(Keep, "k")) + [Edit(Insert, "b")]
  }

  // -- the one minimal script -----------------------------------------------

  function Count(es: seq<Edit>, op: Op): nat
    decreases |es|
  {
    if es == [] then 0 else Count(es[..|es| - 1], op) + if es[|es| - 1].op == op then 1 else 0
  }

  lemma {:induction false} Counts(es: seq<Edit>)
    ensures |OldLines(es)| == Count(es, Keep) + Count(es, Delete)
    ensures |NewLines(es)| == Count(es, Keep) + Count(es, Insert)
    ensures Changes(es) == Count(es, Delete) + Count(es, Insert)
    decreases |es|
  {
    if es == [] {
    } else {
      Counts(es[..|es| - 1]);
    }
  }

  lemma {:induction false} CountConcat(a: seq<Edit>, b: seq<Edit>, op: Op)
    ensures Count(a + b, op) == Count(a, op) + Count(b, op)
    decreases |b|
  {
    if b == [] {
      assert a + b == a;
    } else {
      assert (a + b)[..|a + b| - 1] == a + b[..|b| - 1];
      CountConcat(a, b[..|b| - 1], op);
    }
  }

  lemma {:induction false} CountAll(es: seq<Edit>, op: Op)
    ensures Count(es, op) <= |es|
    ensures Count(es, op) == |es| ==> forall i :: 0 <= i < |es| ==> es[i].op == op
    ensures (forall i :: 0 <= i < |es| ==> es[i].op != op) ==> Count(es, op) == 0
    ensures Count(es, op) == 0 ==> forall i :: 0 <= i < |es| ==> es[i].op != op
    decreases |es|
  {
    if es == [] {
    } else {
      CountAll(es[..|es| - 1], op);
    }
  }

  /** With nothing deleted, a script's lines are the new ones; and what it keeps is
      among the old. */
  lemma {:induction false} NothingDeleted(es: seq<Edit>)
    requires forall i :: 0 <= i < |es| ==> es[i].op != Delete
    ensures |NewLines(es)| == |es| && forall i :: 0 <= i < |es| ==> es[i].text == NewLines(es)[i]
    ensures forall i :: 0 <= i < |es| && es[i].op == Keep ==> es[i].text in OldLines(es)
    decreases |es|
  {
    if es == [] {
    } else {
      NothingDeleted(es[..|es| - 1]);
      Snoc(es[..|es| - 1], es[|es| - 1]);
      assert es == es[..|es| - 1] + [es[|es| - 1]];
    }
  }

  lemma SameSnoc<T>(xs: seq<T>, n: nat, x: T)
    requires n > 0
    ensures (xs + Same(n - 1, x)) + [x] == xs + Same(n, x)
  {
  }

  /** `next` is `es` and then `e`, n times over, as far as what it reads and writes. */
  ghost predicate Extends(es: seq<Edit>, next: seq<Edit>, n: nat, e: Edit) {
    && OldLines(next) == (if e.op == Insert then OldLines(es) else OldLines(es) + Same(n, e.text))
    && NewLines(next) == (if e.op == Delete then NewLines(es) else NewLines(es) + Same(n, e.text))
    && Changes(next) == if e.op == Keep then Changes(es) else Changes(es) + n
  }

  lemma ExtendsOnce(es: seq<Edit>, next: seq<Edit>, n: nat, e: Edit)
    requires n > 0 && Extends(es, next, n - 1, e)
    ensures Extends(es, next + [e], n, e)
  {
    Snoc(next, e);
    SameSnoc(OldLines(es), n, e.text);
    SameSnoc(NewLines(es), n, e.text);
  }

  lemma {:induction false} Extended(es: seq<Edit>, n: nat, e: Edit)
    ensures Extends(es, es + Same(n, e), n, e)
  {
    if n == 0 {
      assert es + Same(0, e) == es && OldLines(es) + Same(0, e.text) == OldLines(es);
      assert NewLines(es) + Same(0, e.text) == NewLines(es);
    } else {
      Extended(es, n - 1, e);
      ExtendsOnce(es, es + Same(n - 1, e), n, e);
      SameSnoc(es, n, e);
    }
  }

  lemma InsertedFirst()
    ensures var first := Same(200, Edit(Insert, "a"));
      OldLines(first) == [] && NewLines(first) == Same(200, "a") && Changes(first) == 200
  {
    var e := Edit(Insert, "a");
    Extended([], 200, e);
    assert [] + Same(200, e) == Same(200, e) && [] + Same(200, "a") == Same(200, "a");
  }

  lemma KeptNext(first: seq<Edit>)
    requires OldLines(first) == [] && NewLines(first) == Same(200, "a") && Changes(first) == 200
    ensures var both := first + Same(10, Edit(Keep, "k"));
      OldLines(both) == Approved() && NewLines(both) == Same(200, "a") + Same(10, "k") && Changes(both) == 200
  {
    Extended(first, 10, Edit(Keep, "k"));
    assert [] + Same(10, "k") == Same(10, "k");
  }

  lemma ExpectedTurns()
    ensures Turns(Expected(), Approved(), Incoming()) && Changes(Expected()) == 201
  {
    var first := Same(200, Edit(Insert, "a"));
    InsertedFirst();
    KeptNext(first);
    Snoc(first + Same(10, Edit(Keep, "k")), Edit(Insert, "b"));
  }

  ghost predicate Minimal(es: seq<Edit>) {
    && Turns(es, Approved(), Incoming())
    && forall fs :: Turns(fs, Approved(), Incoming()) ==> Changes(es) <= Changes(fs)
  }

  lemma MinimalKeepsAll(es: seq<Edit>)
    requires Minimal(es)
    ensures Count(es, Delete) == 0 && Count(es, Keep) == 10 && |es| == 211
    ensures forall i :: 0 <= i < |es| ==> es[i].op != Delete && es[i].text == Incoming()[i]
    ensures forall i :: 0 <= i < |es| && es[i].op == Keep ==> es[i].text == "k"
  {
    ExpectedTurns();
    Counts(es);
    CountAll(es, Delete);
    NothingDeleted(es);
  }

  lemma MinimalIsExpected(es: seq<Edit>)
    requires Minimal(es)
    ensures es == Expected()
  {
    MinimalKeepsAll(es);
    var first, kept, last := es[..200], es[200..210], es[210..];
    CountAll(first, Keep);
    CountAll(kept, Keep);
    CountAll(last, Keep);
    CountConcat(first, kept, Keep);
    CountConcat(first + kept, last, Keep);
    assert es == first + kept + last;
    assert forall i :: 200 <= i < 210 ==> es[i] == kept[i - 200];
  }

  // -- its rendering --------------------------------------------------------

  /** Everything is shown but the four lines no change is near. */
  ghost predicate Marked(show: seq<bool>) {
    |show| == 211 && forall n :: 0 <= n < 211 ==> (show[n] <==> n < 203 || n >= 207)
  }

  lemma MarksAre(show: seq<bool>)
    requires |show| == 211 && forall n :: 0 <= n < 211 ==> (show[n] <==> InWindow(Expected(), CONTEXT, n))
    ensures Marked(show)
  {
    var es := Expected();
    forall n | 0 <= n < 211 ensures show[n] <==> n < 203 || n >= 207 {
      assert es[199].op == Insert && es[210].op == Insert;
      if n < 200 {
        assert es[n].op != Keep && n - CONTEXT <= n <= n + CONTEXT;
      } else if n < 203 {
        assert 199 - CONTEXT <= n <= 199 + CONTEXT;
      } else if n >= 207 {
        assert 210 - CONTEXT <= n <= 210 + CONTEXT;
      } else {
        assert forall k :: 0 <= k < 211 && es[k].op != Keep ==> k < 200 || k == 210;
      }
    }
  }

  lemma {:induction false} NoneShown(edits: seq<Edit>, show: seq<bool>, m: nat, n: nat)
    requires m <= n <= |edits| == |show| && forall i :: m <= i < n ==> !show[i]
    ensures var (before, skipped) := Rendered(edits[..m], show[..m]);
      Rendered(edits[..n], show[..n]) == (before, skipped + (n - m))
    decreases n - m
  {
    if m == n {
    } else {
      NoneShown(edits, show, m, n - 1);
      RenderedSnoc(edits, show, n - 1);
    }
  }

  /** `out` is `before` and then k edit lines. */
  ghost predicate Grown(before: seq<OutLine>, out: seq<OutLine>, k: nat) {
    before <= out && |out| == |before| + k && forall i :: |before| <= i < |out| ==> out[i].Line?
  }

  lemma GrownOnce(before: seq<OutLine>, out: seq<OutLine>, k: nat, e: Edit)
    requires Grown(before, out, k)
    ensures Grown(before, out + [Line(e)], k + 1)
  {
  }

  lemma ShownNext(edits: seq<Edit>, show: seq<bool>, n: nat)
    requires n < |edits| == |show| && show[n] && Rendered(edits[..n], show[..n]).1 == 0
    ensures Rendered(edits[..n + 1], show[..n + 1]) == (Rendered(edits[..n], show[..n]).0 + [Line(edits[n])], 0)
  {
    RenderedSnoc(edits, show, n);
  }

  /** Lines shown in a row add themselves and nothing else. */
  lemma {:induction false} ShownAfter(edits: seq<Edit>, show: seq<bool>, m: nat, n: nat, before: seq<OutLine>)
    returns (out: seq<OutLine>)
    requires m <= n <= |edits| == |show| && forall i :: m <= i < n ==> show[i]
    requires Rendered(edits[..m], show[..m]) == (before, 0)
    ensures Rendered(edits[..n], show[..n]) == (out, 0) && Grown(before, out, n - m)
    decreases n - m
  {
    if m == n {
      out := before;
    } else {
      var prev := ShownAfter(edits, show, m, n - 1, before);
      ShownNext(edits, show, n - 1);
      out := prev + [Line(edits[n - 1])];
      GrownOnce(before, prev, n - 1 - m, edits[n - 1]);
    }
  }

  /** The first shown line after a run that was not puts a header before itself. */
  lemma HeaderBefore(edits: seq<Edit>, show: seq<bool>, m: nat, n: nat) returns (out: seq<OutLine>)
    requires m < n < |edits| == |show| && show[n]
    requires (forall i :: 0 <= i < m ==> show[i]) && forall i :: m <= i < n ==> !show[i]
    ensures Rendered(edits[..n + 1], show[..n + 1]) == (out, 0) && |out| == m + 2 && out[m].Header?
  {
    var before := ShownAfter(edits, show, 0, m, []);
    NoneShown(edits, show, m, n);
    RenderedSnoc(edits, show, n);
    out := before + [Header(n - m)] + [Line(edits[n])];
  }

  lemma HeaderStands(edits: seq<Edit>, show: seq<bool>)
    requires |edits| == 211 && Marked(show)
    ensures var lines := Rendered(edits, show).0; |lines| == 208 && lines[203].Header?
  {
    var upTo := HeaderBefore(edits, show, 203, 207);
    var all := ShownAfter(edits, show, 208, 211, upTo);
    assert edits[..211] == edits && show[..211] == show;
  }

  /** A review of this change, with the context and the limit the review asks for, is
      two hundred and one lines or more, whatever minimal script it is drawn from. */
  lemma OutputMayPassTheLimit(edits: seq<Edit>, show: seq<bool>)
    requires Minimal(edits) && |show| == |edits|
    requires forall n :: 0 <= n < |edits| ==> (show[n] <==> InWindow(edits, CONTEXT, n))
    ensures |Capped(Rendered(edits, show).0, MAX_LINES)| > MAX_LINES
  {
    MinimalIsExpected(edits);
    MarksAre(show);
    HeaderStands(edits, show);
    WithinTheLimitExactly(Rendered(edits, show).0, MAX_LINES);
  }

  /** The diff itself, run on it. */
  method ReviewPassesTheLimit() returns (out: seq<OutLine>)
    ensures |out| > MAX_LINES
  {
    var limit;
    ghost var edits, show;
    out, limit, edits, show := Diff(Approved(), Incoming(), CONTEXT, MAX_LINES);
    OutputMayPassTheLimit(edits, show);
  }
}
