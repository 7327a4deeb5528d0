/** The indicators a bundle carries: one set has one spelling, and each is either
    acted on or counted as one this build cannot use. */
module IndicatorSets {
  import opened Wrappers
  import opened Digest
  import opened Fields
  import Text
  import Order

  const MAX_INDICATORS := 100_000

  datatype Host = Host(host: string, matching: string, class_: string, note: string)

  datatype Name = Name(name: string, note: string)

  datatype Repo = Repo(name: string, host: string, class_: string, note: string)

  datatype KnownDigest = KnownDigest(sha256: string, note: string)

  datatype Threshold = Threshold(name: string, value: Int64)

  datatype Indicators = Indicators(
    hosts: seq<Host>, names: seq<Name>, repos: seq<Repo>, digests: seq<KnownDigest>, thresholds: seq<Threshold>)

  function Total(i: Indicators): nat {
    |i.hosts| + |i.names| + |i.repos| + |i.digests| + |i.thresholds|
  }

  // -- admission ------------------------------------------------------------

  ghost predicate Ascending(keys: seq<string>) {
    forall i, j :: 0 <= i < j < |keys| ==> Order.Less(keys[i], keys[j])
  }

  /** Neighbours are compared, which orders and separates them all. */
  method SortedUnique(keys: seq<string>) returns (ok: bool)
    ensures ok <==> Ascending(keys)
  {
    var i := 1;
    while i < |keys|
      invariant 1 <= i && (i <= |keys| || keys == []) && (i <= |keys| ==> Ascending(keys[..i]))
    {
      if keys[i] == keys[i - 1] {
        return false;
      } else if !Order.Leq(keys[i - 1], keys[i]) {
        return false;
      }
      AscendingSnoc(keys, i);
      i := i + 1;
    }
    assert |keys| > 0 ==> keys[..|keys|] == keys;
    return true;
  }

  lemma AscendingSnoc(keys: seq<string>, i: nat)
    requires 0 < i < |keys| && Ascending(keys[..i]) && Order.Less(keys[i - 1], keys[i])
    ensures Ascending(keys[..i + 1])
  {
    var before, after := keys[..i], keys[..i + 1];
    forall x, y | 0 <= x < y < |after| ensures Order.Less(after[x], after[y]) {
      if y < i {
        assert Order.Less(before[x], before[y]);
      } else if x < i - 1 {
        assert Order.Less(before[x], before[i - 1]);
        Order.LessTransitive(after[x], keys[i - 1], keys[i]);
      }
    }
  }

  function HostKey(h: Host): string { h.host + ("\0" + h.matching) }
  function NameKey(n: Name): string { n.name }
  function RepoKey(r: Repo): string { r.name }
  function DigestKey(d: KnownDigest): string { d.sha256 }
  function ThresholdKey(t: Threshold): string { t.name }

  function Keys<T>(key: T -> string, s: seq<T>): (keys: seq<string>)
    ensures |keys| == |s| && forall i :: 0 <= i < |s| ==> keys[i] == key(s[i])
  {
    seq(|s|, i requires 0 <= i < |s| => key(s[i]))
  }

  /** A list whose members are each usable and whose keys strictly ascend. */
  ghost predicate Listed<T>(key: T -> string, good: T -> bool, s: seq<T>) {
    (forall i :: 0 <= i < |s| ==> good(s[i])) && Ascending(Keys(key, s))
  }

  method CheckList<T>(key: T -> string, good: T -> bool, s: seq<T>) returns (ok: bool)
    ensures ok <==> Listed(key, good, s)
  {
    var keys: seq<string> := [];
    for i := 0 to |s|
      invariant |keys| == i && forall k :: 0 <= k < i ==> good(s[k]) && keys[k] == key(s[k])
    {
      if !good(s[i]) {
        return false;
      }
      keys := keys + [key(s[i])];
    }
    assert keys == Keys(key, s);
    ok := SortedUnique(keys);
  }

  ghost predicate Valid(i: Indicators) {
    && Total(i) <= MAX_INDICATORS
    && Listed(HostKey, (h: Host) => !Text.Blank(h.host), i.hosts)
    && Listed(NameKey, (n: Name) => !Text.Blank(n.name), i.names)
    && Listed(RepoKey, (r: Repo) => !Text.Blank(r.name) && r.class_ != "", i.repos)
    && Listed(DigestKey, (d: KnownDigest) => ValidDigest(d.sha256), i.digests)
    && Listed(ThresholdKey, (t: Threshold) => !Text.Blank(t.name), i.thresholds)
  }

  method ValidateIndicators(i: Indicators) returns (ok: bool)
    ensures ok <==> Valid(i)
  {
    if Total(i) > MAX_INDICATORS {
      return false;
    }
    var hosts := CheckList(HostKey, (h: Host) => !Text.Blank(h.host), i.hosts);
    var names := CheckList(NameKey, (n: Name) => !Text.Blank(n.name), i.names);
    var repos := CheckList(RepoKey, (r: Repo) => !Text.Blank(r.name) && r.class_ != "", i.repos);
    var digests := CheckList(DigestKey, (d: KnownDigest) => ValidDigest(d.sha256), i.digests);
    var thresholds := CheckList(ThresholdKey, (t: Threshold) => !Text.Blank(t.name), i.thresholds);
    return hosts && names && repos && digests && thresholds;
  }

  // -- one spelling ---------------------------------------------------------

  ghost predicate SameMembers<T(!new)>(s: seq<T>, t: seq<T>) {
    forall x :: x in s <==> x in t
  }

  lemma {:induction false} AscendingListsAgree<T(!new)>(key: T -> string, s: seq<T>, t: seq<T>)
    requires Ascending(Keys(key, s)) && Ascending(Keys(key, t)) && SameMembers(s, t)
    ensures s == t
    decreases |s|
  {
    assert s == [] || s[0] in s;
    assert t == [] || t[0] in t;
    if s == [] {
    } else {
      HeadsAgree(key, s, t);
      TailsAgree(key, s, t);
      AscendingListsAgree(key, s[1..], t[1..]);
      assert s == [s[0]] + s[1..] && t == [t[0]] + t[1..];
    }
  }

  lemma HeadsAgree<T(!new)>(key: T -> string, s: seq<T>, t: seq<T>)
    requires Ascending(Keys(key, s)) && Ascending(Keys(key, t)) && SameMembers(s, t) && s != [] && t != []
    ensures s[0] == t[0]
  {
    assert s[0] in t && t[0] in s;
    var i :| 0 <= i < |t| && t[i] == s[0];
    var j :| 0 <= j < |s| && s[j] == t[0];
    if i != 0 && j != 0 {
      var ks, kt := Keys(key, s), Keys(key, t);
      assert Order.Less(kt[0], kt[i]) && Order.Less(ks[0], ks[j]);
      Order.LeqAntisymmetric(ks[0], kt[0]);
    }
  }

  lemma TailsAgree<T(!new)>(key: T -> string, s: seq<T>, t: seq<T>)
    requires Ascending(Keys(key, s)) && Ascending(Keys(key, t)) && SameMembers(s, t) && s != [] && t != [] && s[0] == t[0]
    ensures Ascending(Keys(key, s[1..])) && Ascending(Keys(key, t[1..])) && SameMembers(s[1..], t[1..])
  {
    TailAscends(key, s);
    TailAscends(key, t);
    forall x ensures x in s[1..] <==> x in t[1..] {
      assert x in s <==> x in t;
      assert s == [s[0]] + s[1..] && t == [t[0]] + t[1..];
    }
  }

  lemma TailAscends<T>(key: T -> string, s: seq<T>)
    requires Ascending(Keys(key, s)) && s != []
    ensures Ascending(Keys(key, s[1..])) && s[0] !in s[1..]
  {
    var ks := Keys(key, s);
    assert forall i :: 0 <= i < |s| - 1 ==> Keys(key, s[1..])[i] == ks[i + 1];
    assert forall i :: 0 < i < |s| ==> Order.Less(ks[0], ks[i]);
  }

  ghost predicate SameSet(a: Indicators, b: Indicators) {
    && SameMembers(a.hosts, b.hosts) && SameMembers(a.names, b.names) && SameMembers(a.repos, b.repos)
    && SameMembers(a.digests, b.digests) && SameMembers(a.thresholds, b.thresholds)
  }

  /** Two admitted spellings of one indicator set are one spelling, so a set has one
      digest for its successor to name. */
  lemma OneSpelling(a: Indicators, b: Indicators)
    requires Valid(a) && Valid(b) && SameSet(a, b)
    ensures a == b
  {
    AscendingListsAgree(HostKey, a.hosts, b.hosts);
    AscendingListsAgree(NameKey, a.names, b.names);
    AscendingListsAgree(RepoKey, a.repos, b.repos);
    AscendingListsAgree(DigestKey, a.digests, b.digests);
    AscendingListsAgree(ThresholdKey, a.thresholds, b.thresholds);
  }

  // -- what this build acts on ----------------------------------------------

  predicate KnownHost(h: Host) {
    && (h.matching == "exact" || h.matching == "domain-suffix")
    && (h.class_ == "paste-site" || h.class_ == "url-shortener" || h.class_ == "code-paste" || h.class_ == "bare-ip")
  }

  predicate KnownRepo(r: Repo) {
    r.class_ == "official" || r.class_ == "known-rebuild" || r.class_ == "derivative" || r.class_ == "known-hostile"
  }

  /** How many of a list are known. */
  function KnownIn<T>(known: T -> bool, s: seq<T>): (n: nat)
    ensures n <= |s|
    decreases |s|
  {
    if s == [] then 0 else KnownIn(known, s[..|s| - 1]) + if known(s[|s| - 1]) then 1 else 0
  }

  lemma {:induction false} NoneKnown<T>(known: T -> bool, s: seq<T>)
    ensures KnownIn(known, s) == 0 <==> forall i :: 0 <= i < |s| ==> !known(s[i])
    ensures KnownIn(known, s) == |s| <==> forall i :: 0 <= i < |s| ==> known(s[i])
    decreases |s|
  {
    if s == [] {
    } else {
      var init := s[..|s| - 1];
      NoneKnown(known, init);
      assert forall i :: 0 <= i < |init| ==> init[i] == s[i];
    }
  }

  /** The indicators this build acts on. */
  function ActiveIn(i: Indicators): (n: nat)
    ensures n <= Total(i)
  {
    KnownIn(KnownHost, i.hosts) + |i.names| + KnownIn(KnownRepo, i.repos) + |i.digests| + |i.thresholds|
  }

  /** Those it carries and cannot use. */
  function InertIn(i: Indicators): nat {
    Total(i) - ActiveIn(i)
  }

  method CountKnown<T>(known: T -> bool, s: seq<T>) returns (active: nat, inert: nat)
    ensures active == KnownIn(known, s) && active + inert == |s|
  {
    active, inert := 0, 0;
    for i := 0 to |s|
      invariant active == KnownIn(known, s[..i]) && active + inert == i
    {
      assert s[..i + 1][..i] == s[..i];
      if known(s[i]) {
        active := active + 1;
      } else {
        inert := inert + 1;
      }
    }
    assert s[..|s|] == s;
  }

  /** Nothing is discarded in silence: what is not active is counted inert, and a
      bundle with nothing active is one whose every indicator is unknown here. */
  method Count(i: Indicators) returns (active: nat, inert: nat)
    ensures active == ActiveIn(i) && inert == InertIn(i) && active + inert == Total(i)
    ensures active == 0 <==>
      && i.names == [] && i.digests == [] && i.thresholds == []
      && (forall k :: 0 <= k < |i.hosts| ==> !KnownHost(i.hosts[k]))
      && (forall k :: 0 <= k < |i.repos| ==> !KnownRepo(i.repos[k]))
    ensures inert == 0 <==>
      && (forall k :: 0 <= k < |i.hosts| ==> KnownHost(i.hosts[k]))
      && (forall k :: 0 <= k < |i.repos| ==> KnownRepo(i.repos[k]))
  {
    var hosts, strangeHosts := CountKnown(KnownHost, i.hosts);
    var repos, strangeRepos := CountKnown(KnownRepo, i.repos);
    NoneKnown(KnownHost, i.hosts);
    NoneKnown(KnownRepo, i.repos);
    active := hosts + |i.names| + repos + |i.digests| + |i.thresholds|;
    inert := strangeHosts + strangeRepos;
  }
}
