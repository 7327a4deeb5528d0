/** The adjudication store in the terms of its records: in which order they are written,
    when they are not, and which of them are read. */
module StoreTerms {
  import opened Wrappers
  import opened Canon
  import opened Adjudications
  import opened AdjudicationStore
  import Documents
  import Order
  import SuppressionTerms
  import Text

  // -- written --------------------------------------------------------------

  /** The same text, or one that goes before it. */
  ghost predicate UpTo(a: string, b: string) {
    a == b || Order.Before(a, b)
  }

  /** Narrowest scope first; in one scope by fingerprint, then by evidence, then by the
      time of the decision, each by its bytes. */
  ghost predicate NoLater(a: Record, b: Record) {
    var wide, wide' := SuppressionTerms.Width(a), SuppressionTerms.Width(b);
    wide < wide' || (wide == wide' && AmongEqual(a, b))
  }

  ghost predicate AmongEqual(a: Record, b: Record) {
    || Order.Before(a.fingerprint, b.fingerprint)
    || (a.fingerprint == b.fingerprint
        && (Order.Before(a.evidenceDigest, b.evidenceDigest) || (a.evidenceDigest == b.evidenceDigest && UpTo(a.at, b.at))))
  }

  lemma NoLaterExactly(a: Record, b: Record)
    ensures RecordLeq(a, b) <==> NoLater(a, b)
  {
    SuppressionTerms.ScopesApart();
    Order.LessExactly(a.fingerprint, b.fingerprint);
    Order.LessExactly(a.evidenceDigest, b.evidenceDigest);
    Order.LessExactly(a.at, b.at);
    LeqReflexive(a.at);
    NotBeforeItself(a.fingerprint);
    NotBeforeItself(a.evidenceDigest);
  }

  lemma NotBeforeItself(s: string)
    ensures !Order.Before(s, s)
  {
    Order.LessExactly(s, s);
  }

  /** No two records judge one thing on one piece of evidence. */
  ghost predicate OnceEach(recs: seq<Record>) {
    forall i, k :: 0 <= i < k < |recs| ==>
      recs[i].fingerprint + ("\0" + recs[i].evidenceDigest) != recs[k].fingerprint + ("\0" + recs[k].evidenceDigest)
  }

  lemma StorableExactly(valid: Record -> bool, records: seq<Record>, recs: seq<Record>)
    requires multiset(recs) == multiset(records)
    ensures Storable(valid, recs) <==> (forall r :: r in records ==> valid(r)) && OnceEach(records)
  {
    Order.SameElements(recs, records);
    if Storable(valid, recs) {
      Order.DistinctByPermutes(JudgementKey, recs, records);
      OnceEachExactly(records);
      forall r | r in records ensures valid(r) {
        var i :| 0 <= i < |recs| && recs[i] == r;
      }
    }
    if (forall r :: r in records ==> valid(r)) && OnceEach(records) {
      OnceEachExactly(records);
      Order.DistinctByPermutes(JudgementKey, records, recs);
    }
  }

  lemma OnceEachExactly(recs: seq<Record>)
    ensures OnceEach(recs) <==> Order.DistinctBy(JudgementKey, recs)
  {
    if OnceEach(recs) {
      forall i, k | 0 <= i < k < |recs| ensures JudgementKey(recs[i]) != JudgementKey(recs[k]) {
      }
    }
    if Order.DistinctBy(JudgementKey, recs) {
      forall i, k | 0 <= i < k < |recs|
        ensures recs[i].fingerprint + ("\0" + recs[i].evidenceDigest) != recs[k].fingerprint + ("\0" + recs[k].evidenceDigest)
      {
        assert JudgementKey(recs[i]) != JudgementKey(recs[k]);
      }
    }
  }

  /** A store is written exactly when every record is valid, none repeats another's
      judgement and the document can be written; and it is the document of the records
      in order. */
  lemma WrittenExactly(valid: Record -> bool, records: seq<Record>) returns (recs: seq<Record>)
    ensures multiset(recs) == multiset(records)
    ensures forall i, k :: 0 <= i < k < |recs| ==> NoLater(recs[i], recs[k])
    ensures var written := Written(valid, Order.Sort(RecordLeq, records));
      && (written.Some? <==> (forall r :: r in records ==> valid(r)) && OnceEach(records) && Marshal(StoreValue(recs), Typed).Ok?)
      && (written.Some? ==> Documents.TextOf(written.value, Object([ Member("schema_version", Int(1)),
            Member("records", List(seq(|recs|, i requires 0 <= i < |recs| => Documents.JudgementValue(recs[i])))) ])))
  {
    recs := Order.Sort(RecordLeq, records);
    RecordLeqOrders(records);
    Order.SortPermutes(RecordLeq, records);
    Order.SortSorts(RecordLeq, records);
    forall i, k | 0 <= i < k < |recs| ensures NoLater(recs[i], recs[k]) {
      NoLaterExactly(recs[i], recs[k]);
    }
    StorableExactly(valid, records, recs);
    if Marshal(StoreValue(recs), Typed).Ok? {
      Documents.StoreExactly(recs);
    }
  }

  // -- read -----------------------------------------------------------------

  /** Places in order: of every element that is good, and of no other. */
  ghost predicate Picks<T>(s: seq<T>, good: T -> bool, at: seq<nat>) {
    && (forall k :: 0 <= k < |at| ==> at[k] < |s| && good(s[at[k]]))
    && (forall k, l :: 0 <= k < l < |at| ==> at[k] < at[l])
    && (forall i: nat :: i < |s| && good(s[i]) ==> i in at)
  }

  lemma PicksSnoc<T>(init: seq<T>, last: T, good: T -> bool, at: seq<nat>)
    requires Picks(init, good, at)
    ensures good(last) ==> Picks(init + [last], good, at + [|init|])
    ensures !good(last) ==> Picks(init + [last], good, at)
  {
    var s, at' := init + [last], at + [|init|];
    assert forall k :: 0 <= k < |at| ==> init[at[k]] == s[at[k]];
    forall i: nat | i < |s| && good(s[i]) ensures i in at' && (i < |init| ==> i in at) {
      if i < |init| {
        assert init[i] == s[i];
      } else {
        assert at'[|at|] == |init|;
      }
    }
  }

  /** `out` is what stands at these places, each under its own reading. */
  ghost predicate Gathers<T, U>(out: seq<U>, s: seq<T>, at: seq<nat>, f: (T, nat) -> U) {
    |out| == |at| && forall k :: 0 <= k < |at| ==> at[k] < |s| && out[k] == f(s[at[k]], at[k])
  }

  lemma GathersSnoc<T, U>(out: seq<U>, init: seq<T>, last: T, at: seq<nat>, f: (T, nat) -> U)
    requires Gathers(out, init, at, f)
    ensures Gathers(out, init + [last], at, f)
    ensures Gathers(out + [f(last, |init|)], init + [last], at + [|init|], f)
  {
    assert forall k :: 0 <= k < |at| ==> init[at[k]] == (init + [last])[at[k]];
  }

  /** The usable records are the valid ones, in their order. */
  lemma {:induction false} UsableExactly(valid: Record -> bool, recs: seq<Record>) returns (at: seq<nat>)
    ensures Picks(recs, valid, at) && Gathers(Usable(valid, recs), recs, at, (r: Record, i: nat) => r)
    decreases |recs|
  {
    if recs == [] {
      at := [];
    } else {
      var init, last := recs[..|recs| - 1], recs[|recs| - 1];
      at := UsableExactly(valid, init);
      PicksSnoc(init, last, valid, at);
      GathersSnoc(Usable(valid, init), init, last, at, (r: Record, i: nat) => r);
      assert recs == init + [last];
      at := if valid(last) then at + [|init|] else at;
    }
  }

  /** The faults name the others, by their places. */
  lemma {:induction false} FaultsExactly(valid: Record -> bool, recs: seq<Record>) returns (at: seq<nat>)
    ensures Picks(recs, (r: Record) => !valid(r), at)
    ensures Gathers(RecordFaults(valid, recs), recs, at, (r: Record, i: nat) => "record " + Text.Digits(i))
    decreases |recs|
  {
    if recs == [] {
      at := [];
    } else {
      var init, last := recs[..|recs| - 1], recs[|recs| - 1];
      at := FaultsExactly(valid, init);
      PicksSnoc(init, last, (r: Record) => !valid(r), at);
      GathersSnoc(RecordFaults(valid, init), init, last, at, (r: Record, i: nat) => "record " + Text.Digits(i));
      assert recs == init + [last];
      at := if valid(last) then at else at + [|init|];
    }
  }

  /** A store is understood exactly when there are at most 2^20 bytes of it, it can be
      put in canonical form, and it reads as records under schema 1. */
  lemma UnderstoodExactly(read: Reader, raw: string, recs: seq<Record>)
    ensures Understood(read, raw) == Some(recs) <==>
      0 < |raw| <= 1024 * 1024 && Canonical(raw).Ok? && Parse(raw).Ok? && read(Parse(raw).value) == Some((1, recs))
  {
  }
}
