/** Orders on strings, and the one fact about sorting that the signed documents
    rest on: what a sort returns depends only on the multiset it was given. */
module Order {

  /** Byte order on strings: the order of Go's `<` and of `sort.Strings`. */
  predicate Leq(a: string, b: string) {
    a == "" || (b != "" && (a[0] < b[0] || (a[0] == b[0] && Leq(a[1..], b[1..]))))
  }

  predicate Less(a: string, b: string) {
    a != b && Leq(a, b)
  }

  lemma LeqTotal(a: string, b: string)
    ensures Leq(a, b) || Leq(b, a)
  {
    if a == "" || b == "" || a[0] != b[0] {
    } else {
      LeqTotal(a[1..], b[1..]);
    }
  }

  lemma LeqAntisymmetric(a: string, b: string)
    requires Leq(a, b) && Leq(b, a)
    ensures a == b
  {
    if a == "" {
    } else {
      assert a[0] == b[0];
      LeqAntisymmetric(a[1..], b[1..]);
      assert a == [a[0]] + a[1..] && b == [b[0]] + b[1..];
    }
  }

  lemma LeqTransitive(a: string, b: string, c: string)
    requires Leq(a, b) && Leq(b, c)
    ensures Leq(a, c)
  {
    if a == "" || a[0] != b[0] || b[0] != c[0] {
    } else {
      LeqTransitive(a[1..], b[1..], c[1..]);
    }
  }

  /** Where two strings part company, and which goes first there: one has ended, or its
      byte is the smaller. */
  predicate PartsAt(a: string, b: string, k: nat) {
    k <= |a| && k <= |b| && a[..k] == b[..k] && ((|a| == k < |b|) || (k < |a| && k < |b| && a[k] < b[k]))
  }

  ghost predicate Before(a: string, b: string) {
    exists k: nat :: PartsAt(a, b, k)
  }

  lemma PartsBelow(a: string, b: string, k: nat)
    requires PartsAt(a, b, k)
    ensures k > 0 ==> a[0] == b[0]
  {
    assert k > 0 ==> a[..k][0] == a[0] && b[..k][0] == b[0];
  }

  /** The order is by bytes: one string goes before another exactly when they agree up
      to a place where it has ended and the other has not, or its byte is smaller. */
  lemma {:induction false} LessExactly(a: string, b: string)
    ensures Less(a, b) <==> Before(a, b)
    decreases |a|
  {
    if a == "" {
      assert b != "" ==> PartsAt(a, b, 0);
    } else if b == "" {
    } else if a[0] == b[0] {
      LessExactly(a[1..], b[1..]);
      assert a == [a[0]] + a[1..] && b == [b[0]] + b[1..];
      forall k: nat | PartsAt(a[1..], b[1..], k) ensures PartsAt(a, b, k + 1) {
        assert a[..k + 1] == [a[0]] + a[1..][..k] && b[..k + 1] == [b[0]] + b[1..][..k];
      }
      forall k: nat | PartsAt(a, b, k) ensures k > 0 && PartsAt(a[1..], b[1..], k - 1) {
        assert a[1..][..k - 1] == a[..k][1..] && b[1..][..k - 1] == b[..k][1..];
      }
    } else {
      assert a[0] < b[0] ==> PartsAt(a, b, 0);
      forall k: nat | PartsAt(a, b, k) ensures k > 0 ==> a[0] == b[0] {
        PartsBelow(a, b, k);
      }
    }
  }

  lemma LessTransitive(a: string, b: string, c: string)
    requires Less(a, b) && Less(b, c)
    ensures Less(a, c)
  {
    LeqTransitive(a, b, c);
    if a == c {
      LeqAntisymmetric(a, b);
    }
  }

  /** `leq` behaves as a total preorder on the elements of `s`. */
  ghost predicate TotalOn<T(!new)>(leq: (T, T) -> bool, s: seq<T>) {
    && (forall x, y :: x in s && y in s ==> leq(x, y) || leq(y, x))
    && (forall x, y, z :: x in s && y in s && z in s && leq(x, y) && leq(y, z) ==> leq(x, z))
  }

  /** `leq` tells any two elements of `s` apart. */
  ghost predicate AntisymmetricOn<T(!new)>(leq: (T, T) -> bool, s: seq<T>) {
    forall x, y :: x in s && y in s && leq(x, y) && leq(y, x) ==> x == y
  }

  ghost predicate Sorted<T>(leq: (T, T) -> bool, s: seq<T>) {
    forall i, j :: 0 <= i < j < |s| ==> leq(s[i], s[j])
  }

  /** Insertion sort, the specification of an in-place sort. */
  function Insert<T>(leq: (T, T) -> bool, x: T, s: seq<T>): seq<T> {
    if s == [] then [x]
    else if leq(x, s[0]) then [x] + s
    else [s[0]] + Insert(leq, x, s[1..])
  }

  function Sort<T>(leq: (T, T) -> bool, s: seq<T>): seq<T> {
    if s == [] then [] else Insert(leq, s[0], Sort(leq, s[1..]))
  }

  lemma {:induction false} InsertPermutes<T>(leq: (T, T) -> bool, x: T, s: seq<T>)
    ensures multiset(Insert(leq, x, s)) == multiset(s) + multiset{x}
  {
    if s == [] {
    } else {
      assert s == [s[0]] + s[1..];
      InsertPermutes(leq, x, s[1..]);
    }
  }

  lemma {:induction false} SortPermutes<T>(leq: (T, T) -> bool, s: seq<T>)
    ensures multiset(Sort(leq, s)) == multiset(s)
    ensures |Sort(leq, s)| == |s|
    ensures forall x :: x in Sort(leq, s) <==> x in s
  {
    if s == [] {
    } else {
      assert s == [s[0]] + s[1..];
      SortPermutes(leq, s[1..]);
      InsertPermutes(leq, s[0], Sort(leq, s[1..]));
    }
    SameElements(Sort(leq, s), s);
  }

  /** Equal multisets have equal length and the same members. */
  lemma SameElements<T>(s: seq<T>, t: seq<T>)
    requires multiset(s) == multiset(t)
    ensures |s| == |t|
    ensures forall x :: x in s <==> x in t
  {
    assert |multiset(s)| == |s| && |multiset(t)| == |t|;
    forall x ensures x in s <==> x in t {
      assert x in s <==> x in multiset(s);
      assert x in t <==> x in multiset(t);
    }
  }

  lemma {:induction false} InsertSorts<T(!new)>(leq: (T, T) -> bool, x: T, s: seq<T>)
    requires TotalOn(leq, [x] + s) && Sorted(leq, s)
    ensures Sorted(leq, Insert(leq, x, s))
  {
    if s == [] {
    } else {
      if leq(x, s[0]) {
        forall j | 0 <= j < |s| ensures leq(x, s[j]) {
          assert s[j] in [x] + s && s[0] in [x] + s && x in [x] + s;
        }
      } else {
        assert x in [x] + s && s[0] in [x] + s;
        assert forall y :: y in [x] + s[1..] ==> y in [x] + s;
        InsertSorts(leq, x, s[1..]);
        InsertPermutes(leq, x, s[1..]);
        var r := Insert(leq, x, s[1..]);
        forall j | 0 <= j < |r| ensures leq(s[0], r[j]) {
          assert r[j] in multiset(r);
          if r[j] != x {
            assert r[j] in multiset(s[1..]);
            assert r[j] in s[1..];
          }
        }
      }
    }
  }

  lemma {:induction false} SortSorts<T(!new)>(leq: (T, T) -> bool, s: seq<T>)
    requires TotalOn(leq, s)
    ensures Sorted(leq, Sort(leq, s))
  {
    if s == [] {
    } else {
      assert forall x :: x in s[1..] ==> x in s;
      SortSorts(leq, s[1..]);
      SortPermutes(leq, s[1..]);
      assert s[0] in s;
      InsertSorts(leq, s[0], Sort(leq, s[1..]));
    }
  }

  /** Two sorted arrangements of one multiset are the same sequence: whatever
      algorithm sorts it, there is one result to return. */
  lemma {:induction false} SortedArrangementIsUnique<T(!new)>(leq: (T, T) -> bool, s: seq<T>, t: seq<T>)
    requires multiset(s) == multiset(t)
    requires Sorted(leq, s) && Sorted(leq, t) && AntisymmetricOn(leq, s)
    ensures s == t
  {
    SameElements(s, t);
    if s == [] {
    } else {
      SortedHeadsAgree(leq, s, t);
      TailsPermute(s, t);
      AntisymmetricTail(leq, s);
      SortedArrangementIsUnique(leq, s[1..], t[1..]);
      assert s == [s[0]] + s[1..] && t == [t[0]] + t[1..];
    }
  }

  lemma TailsPermute<T>(s: seq<T>, t: seq<T>)
    requires multiset(s) == multiset(t) && s != [] && t != [] && s[0] == t[0]
    ensures multiset(s[1..]) == multiset(t[1..])
  {
    assert s == [s[0]] + s[1..] && t == [t[0]] + t[1..];
    assert multiset(s[1..]) == multiset(s) - multiset{s[0]};
    assert multiset(t[1..]) == multiset(t) - multiset{t[0]};
  }

  lemma AntisymmetricTail<T(!new)>(leq: (T, T) -> bool, s: seq<T>)
    requires s != [] && AntisymmetricOn(leq, s)
    ensures AntisymmetricOn(leq, s[1..])
  {
  }

  lemma SortedHeadsAgree<T(!new)>(leq: (T, T) -> bool, s: seq<T>, t: seq<T>)
    requires s != [] && t != [] && forall x :: x in s <==> x in t
    requires Sorted(leq, s) && Sorted(leq, t) && AntisymmetricOn(leq, s)
    ensures s[0] == t[0]
  {
    assert s[0] in t && t[0] in s;
    var i :| 0 <= i < |t| && t[i] == s[0];
    var j :| 0 <= j < |s| && s[j] == t[0];
    if i != 0 && j != 0 {
      assert leq(t[0], t[i]) && leq(s[0], s[j]);
    }
  }

  lemma ConsCounts<T>(x: T, s: seq<T>)
    ensures multiset([x] + s) == multiset{x} + multiset(s)
  {
  }

  function RemoveAt<T>(s: seq<T>, k: nat): seq<T>
    requires k < |s|
  {
    s[..k] + s[k + 1..]
  }

  lemma RemoveAtCounts<T>(s: seq<T>, k: nat)
    requires k < |s|
    ensures multiset(s) == multiset{s[k]} + multiset(RemoveAt(s, k))
  {
    assert s == s[..k] + ([s[k]] + s[k + 1..]);
    ConsCounts(s[k], s[k + 1..]);
  }

  lemma SameButOne<T>(x: T, a: multiset<T>, b: multiset<T>)
    requires multiset{x} + a == multiset{x} + b
    ensures a == b
  {
    assert (multiset{x} + a) - multiset{x} == a && (multiset{x} + b) - multiset{x} == b;
  }

  /** The head of one arrangement has a place in any other. */
  lemma PullOut<T>(s: seq<T>, t: seq<T>) returns (k: nat)
    requires multiset(s) == multiset(t) && s != []
    ensures k < |t| && t == t[..k] + ([s[0]] + t[k + 1..])
    ensures multiset(s[1..]) == multiset(RemoveAt(t, k))
  {
    SameElements(s, t);
    assert s[0] in t;
    k :| 0 <= k < |t| && t[k] == s[0];
    RemoveAtCounts(s, 0);
    RemoveAtCounts(t, k);
    assert RemoveAt(s, 0) == s[1..];
    SameButOne(s[0], multiset(s[1..]), multiset(RemoveAt(t, k)));
  }

  /** Where two different elements tie, it matters which is inserted first. */
  lemma {:induction false} TiedInsertsDiffer<T(!new)>(leq: (T, T) -> bool, a: T, b: T, s: seq<T>)
    requires a != b && leq(a, b) && leq(b, a) && TotalOn(leq, [a, b] + s)
    ensures Insert(leq, a, Insert(leq, b, s)) != Insert(leq, b, Insert(leq, a, s))
    decreases |s|
  {
    var all := [a, b] + s;
    assert a in all && b in all;
    if s == [] {
      assert Insert(leq, a, [b]) == [a, b] && Insert(leq, b, [a]) == [b, a];
      assert [a, b][0] == a && [b, a][0] == b;
    } else {
      assert s[0] in all;
      assert leq(a, s[0]) <==> leq(b, s[0]);
      if leq(b, s[0]) {
        assert Insert(leq, a, [b] + s)[0] == a && Insert(leq, b, [a] + s)[0] == b;
      } else {
        assert forall x :: x in [a, b] + s[1..] ==> x in all;
        TiedInsertsDiffer(leq, a, b, s[1..]);
        var t, t' := Insert(leq, b, s[1..]), Insert(leq, a, s[1..]);
        assert Insert(leq, a, [s[0]] + t)[1..] == Insert(leq, a, t);
        assert Insert(leq, b, [s[0]] + t')[1..] == Insert(leq, b, t');
      }
    }
  }

  ghost predicate SortedArrangement<T>(leq: (T, T) -> bool, s: seq<T>, t: seq<T>) {
    multiset(s) == multiset(t) && Sorted(leq, t)
  }

  /** Two different elements that tie leave a sort a choice. */
  lemma TieLeavesAChoice<T(!new)>(leq: (T, T) -> bool, s: seq<T>, x: T, y: T) returns (t: seq<T>, t': seq<T>)
    requires x in s && y in s && x != y && leq(x, y) && leq(y, x) && TotalOn(leq, s)
    ensures SortedArrangement(leq, s, t) && SortedArrangement(leq, s, t') && t != t'
  {
    var rest := Without(s, x, y);
    var xy, yx := [x] + ([y] + rest), [y] + ([x] + rest);
    assert xy == [x, y] + rest && yx == [y, x] + rest;
    SameElements(xy, s);
    SameElements(yx, s);
    t, t' := Sort(leq, xy), Sort(leq, yx);
    SortSorts(leq, xy);
    SortSorts(leq, yx);
    SortPermutes(leq, xy);
    SortPermutes(leq, yx);
    TiedInsertsDiffer(leq, x, y, Sort(leq, rest)) by {
      SortPermutes(leq, rest);
      assert forall z :: z in [x, y] + Sort(leq, rest) ==> z in xy;
    }
    assert ([x] + ([y] + rest))[1..] == [y] + rest && ([y] + rest)[1..] == rest;
    assert ([y] + ([x] + rest))[1..] == [x] + rest && ([x] + rest)[1..] == rest;
  }

  lemma ConsTwice<T>(x: T, y: T, s: seq<T>)
    ensures multiset([x] + ([y] + s)) == multiset{x} + (multiset{y} + multiset(s))
  {
    ConsCounts(x, [y] + s);
    ConsCounts(y, s);
  }

  lemma Without<T>(s: seq<T>, x: T, y: T) returns (rest: seq<T>)
    requires x in s && y in s && x != y
    ensures multiset([x] + ([y] + rest)) == multiset(s) == multiset([y] + ([x] + rest))
  {
    var i :| 0 <= i < |s| && s[i] == x;
    RemoveAtCounts(s, i);
    var a := RemoveAt(s, i);
    assert y in multiset(s) && y in multiset(a);
    var j :| 0 <= j < |a| && a[j] == y;
    RemoveAtCounts(a, j);
    rest := RemoveAt(a, j);
    ConsTwice(x, y, rest);
    ConsTwice(y, x, rest);
  }

  /** A sort has one result to return exactly when no two different elements tie. */
  lemma ArrangementDeterminedExactly<T(!new)>(leq: (T, T) -> bool, s: seq<T>)
    requires TotalOn(leq, s)
    ensures (forall t, t' :: SortedArrangement(leq, s, t) && SortedArrangement(leq, s, t') ==> t == t') <==> AntisymmetricOn(leq, s)
  {
    if AntisymmetricOn(leq, s) {
      forall t, t' | SortedArrangement(leq, s, t) && SortedArrangement(leq, s, t') ensures t == t' {
        SameElements(s, t);
        SortedArrangementIsUnique(leq, t, t');
      }
    } else {
      var x, y :| x in s && y in s && leq(x, y) && leq(y, x) && x != y;
      var t, t' := TieLeavesAChoice(leq, s, x, y);
    }
  }

  // -- pairs of keys --------------------------------------------------------

  predicate PairLeq(a: (string, string), b: (string, string)) {
    if a.0 != b.0 then Leq(a.0, b.0) else Leq(a.1, b.1)
  }

  lemma PairLeqTotal(a: (string, string), b: (string, string))
    ensures PairLeq(a, b) || PairLeq(b, a)
  {
    LeqTotal(a.0, b.0);
    LeqTotal(a.1, b.1);
  }

  lemma PairLeqTransitive(a: (string, string), b: (string, string), c: (string, string))
    requires PairLeq(a, b) && PairLeq(b, c)
    ensures PairLeq(a, c)
  {
    LeqTotal(a.0, a.0);
    if a.0 != b.0 && b.0 != c.0 {
      LeqTransitive(a.0, b.0, c.0);
      if a.0 == c.0 {
        LeqAntisymmetric(a.0, b.0);
      }
    } else if a.0 == b.0 == c.0 {
      LeqTransitive(a.1, b.1, c.1);
    }
  }

  // -- distinct keys --------------------------------------------------------

  ghost predicate DistinctBy<T, K>(key: T -> K, s: seq<T>) {
    forall i, j :: 0 <= i < j < |s| ==> key(s[i]) != key(s[j])
  }

  /** Keys that are distinct in one arrangement are distinct in any other. */
  lemma DistinctByPermutes<T, K>(key: T -> K, s: seq<T>, t: seq<T>)
    requires multiset(s) == multiset(t) && DistinctBy(key, s)
    ensures DistinctBy(key, t)
  {
    SameElements(s, t);
    forall i, j | 0 <= i < j < |t| && key(t[i]) == key(t[j]) ensures false {
      assert t[i] in t && t[j] in t;
      assert t[i] in s && t[j] in s;
      var p :| 0 <= p < |s| && s[p] == t[i];
      var q :| 0 <= q < |s| && s[q] == t[j];
      assert p == q;
      AtLeastTwice(t, i, j);
      AtMostOnce(key, s, p);
      assert false;
    }
  }

  lemma AtLeastTwice<T>(t: seq<T>, i: nat, j: nat)
    requires i < j < |t| && t[i] == t[j]
    ensures multiset(t)[t[i]] >= 2
  {
    assert t == t[..j] + ([t[j]] + t[j + 1..]);
    assert t[i] in t[..j];
  }

  lemma AtMostOnce<T, K>(key: T -> K, s: seq<T>, p: nat)
    requires p < |s| && DistinctBy(key, s)
    ensures multiset(s)[s[p]] == 1
  {
    assert s == s[..p] + ([s[p]] + s[p + 1..]);
    assert s[p] !in s[..p] && s[p] !in s[p + 1..];
  }
}
