/** When a bundle and a floor are taken, in the terms of their fields. */
module BundleTerms {
  import opened Times
  import opened Wrappers
  import opened Wire
  import opened Digest
  import opened Delegation
  import opened Floors
  import opened Bundles
  import opened IndicatorSets
  import Order
  import Text

  // -- indicators -----------------------------------------------------------

  predicate Hexadecimal(s: string) {
    |s| == 64 && forall i :: 0 <= i < 64 ==> '0' <= s[i] <= '9' || 'a' <= s[i] <= 'f'
  }

  function HostName(h: Host): string {
    h.host + ("\0" + h.matching)
  }

  /** At most a hundred thousand indicators, each with what names it, and each list in
      strict order of its names by their bytes; hosts by name and then by how they are
      matched. */
  ghost predicate WellListed(i: Indicators) {
    && |i.hosts| + |i.names| + |i.repos| + |i.digests| + |i.thresholds| <= 100_000
    && (forall k :: 0 <= k < |i.hosts| ==> !Text.Blank(i.hosts[k].host))
    && (forall k :: 0 <= k < |i.names| ==> !Text.Blank(i.names[k].name))
    && (forall k :: 0 <= k < |i.repos| ==> !Text.Blank(i.repos[k].name) && i.repos[k].class_ != "")
    && (forall k :: 0 <= k < |i.digests| ==> Hexadecimal(i.digests[k].sha256))
    && (forall k :: 0 <= k < |i.thresholds| ==> !Text.Blank(i.thresholds[k].name))
    && (forall k, l :: 0 <= k < l < |i.hosts| ==> Order.Before(HostName(i.hosts[k]), HostName(i.hosts[l])))
    && (forall k, l :: 0 <= k < l < |i.names| ==> Order.Before(i.names[k].name, i.names[l].name))
    && (forall k, l :: 0 <= k < l < |i.repos| ==> Order.Before(i.repos[k].name, i.repos[l].name))
    && (forall k, l :: 0 <= k < l < |i.digests| ==> Order.Before(i.digests[k].sha256, i.digests[l].sha256))
    && (forall k, l :: 0 <= k < l < |i.thresholds| ==> Order.Before(i.thresholds[k].name, i.thresholds[l].name))
  }

  lemma ListedExactly<T(!new)>(key: T -> string, good: T -> bool, s: seq<T>)
    ensures Listed(key, good, s) <==>
      (forall k :: 0 <= k < |s| ==> good(s[k])) && (forall k, l :: 0 <= k < l < |s| ==> Order.Before(key(s[k]), key(s[l])))
  {
    var keys := Keys(key, s);
    forall k, l | 0 <= k < l < |s| ensures Order.Less(keys[k], keys[l]) <==> Order.Before(key(s[k]), key(s[l])) {
      Order.LessExactly(key(s[k]), key(s[l]));
    }
    if Listed(key, good, s) {
      forall k, l | 0 <= k < l < |s| ensures Order.Before(key(s[k]), key(s[l])) {
        assert Order.Less(keys[k], keys[l]);
      }
    }
  }

  lemma HexadecimalExactly(s: string)
    ensures Hexadecimal(s) <==> ValidDigest(s)
  {
  }

  lemma ListsExactly(i: Indicators)
    ensures Listed(HostKey, (h: Host) => !Text.Blank(h.host), i.hosts) <==>
      (forall k :: 0 <= k < |i.hosts| ==> !Text.Blank(i.hosts[k].host))
      && (forall k, l :: 0 <= k < l < |i.hosts| ==> Order.Before(HostName(i.hosts[k]), HostName(i.hosts[l])))
    ensures Listed(NameKey, (n: Name) => !Text.Blank(n.name), i.names) <==>
      (forall k :: 0 <= k < |i.names| ==> !Text.Blank(i.names[k].name))
      && (forall k, l :: 0 <= k < l < |i.names| ==> Order.Before(i.names[k].name, i.names[l].name))
    ensures Listed(RepoKey, (r: Repo) => !Text.Blank(r.name) && r.class_ != "", i.repos) <==>
      (forall k :: 0 <= k < |i.repos| ==> !Text.Blank(i.repos[k].name) && i.repos[k].class_ != "")
      && (forall k, l :: 0 <= k < l < |i.repos| ==> Order.Before(i.repos[k].name, i.repos[l].name))
  {
    ListedExactly(HostKey, (h: Host) => !Text.Blank(h.host), i.hosts);
    ListedExactly(NameKey, (n: Name) => !Text.Blank(n.name), i.names);
    ListedExactly(RepoKey, (r: Repo) => !Text.Blank(r.name) && r.class_ != "", i.repos);
  }

  lemma OtherListsExactly(i: Indicators)
    ensures Listed(DigestKey, (d: KnownDigest) => ValidDigest(d.sha256), i.digests) <==>
      (forall k :: 0 <= k < |i.digests| ==> Hexadecimal(i.digests[k].sha256))
      && (forall k, l :: 0 <= k < l < |i.digests| ==> Order.Before(i.digests[k].sha256, i.digests[l].sha256))
    ensures Listed(ThresholdKey, (t: Threshold) => !Text.Blank(t.name), i.thresholds) <==>
      (forall k :: 0 <= k < |i.thresholds| ==> !Text.Blank(i.thresholds[k].name))
      && (forall k, l :: 0 <= k < l < |i.thresholds| ==> Order.Before(i.thresholds[k].name, i.thresholds[l].name))
  {
    ListedExactly(DigestKey, (d: KnownDigest) => ValidDigest(d.sha256), i.digests);
    ListedExactly(ThresholdKey, (t: Threshold) => !Text.Blank(t.name), i.thresholds);
    forall k | 0 <= k < |i.digests| ensures Hexadecimal(i.digests[k].sha256) <==> ValidDigest(i.digests[k].sha256) {
      HexadecimalExactly(i.digests[k].sha256);
    }
  }

  lemma WellListedExactly(i: Indicators)
    ensures Valid(i) <==> WellListed(i)
  {
    ListsExactly(i);
    OtherListsExactly(i);
  }

  /** What this build can act on: every name, digest and threshold; hosts matched in a
      known way and of a known class; and repositories of a known class. */
  predicate Actionable(h: Host) {
    && (h.matching == "exact" || h.matching == "domain-suffix")
    && (h.class_ == "paste-site" || h.class_ == "url-shortener" || h.class_ == "code-paste" || h.class_ == "bare-ip")
  }

  predicate ActionableRepo(r: Repo) {
    r.class_ == "official" || r.class_ == "known-rebuild" || r.class_ == "derivative" || r.class_ == "known-hostile"
  }

  function Places<T>(s: seq<T>, p: T -> bool): set<nat> {
    set k: nat | k < |s| && p(s[k]) :: k
  }

  lemma {:induction false} KnownExactly<T>(known: T -> bool, s: seq<T>)
    ensures KnownIn(known, s) == |Places(s, known)|
    decreases |s|
  {
    if s == [] {
      assert Places(s, known) == {};
    } else {
      var n := |s| - 1;
      KnownExactly(known, s[..n]);
      assert Places(s, known) == Places(s[..n], known) + if known(s[n]) then {n} else {};
    }
  }

  lemma ActiveExactly(i: Indicators)
    ensures ActiveIn(i) == |Places(i.hosts, (h: Host) => Actionable(h))| + |i.names|
                           + |Places(i.repos, (r: Repo) => ActionableRepo(r))| + |i.digests| + |i.thresholds|
    ensures InertIn(i) == (|i.hosts| - |Places(i.hosts, (h: Host) => Actionable(h))|)
                          + (|i.repos| - |Places(i.repos, (r: Repo) => ActionableRepo(r))|)
  {
    KnownExactly(KnownHost, i.hosts);
    KnownExactly(KnownRepo, i.repos);
    assert Places(i.hosts, KnownHost) == Places(i.hosts, (h: Host) => Actionable(h));
    assert Places(i.repos, KnownRepo) == Places(i.repos, (r: Repo) => ActionableRepo(r));
  }

  // -- bundles --------------------------------------------------------------

  predicate Zeros(s: string) {
    |s| == 64 && forall i :: 0 <= i < 64 ==> s[i] == '0'
  }

  lemma ZerosExactly(s: string)
    ensures Zeros(s) <==> s == GENESIS_PREV
  {
    var z := ZEROS;
    assert forall i :: 0 <= i < 16 ==> z[i] == '0';
    if Zeros(s) {
      assert s == GENESIS_PREV;
    }
  }

  /** A bundle is read exactly when its bytes are within the cap, an online key signed
      them, and what they decode to is of this format, numbered, dated the right way
      round, names a predecessor unless it is the first, and is well listed. */
  lemma ReadExactly(e: Env, raw: string, sig: bytes, online: seq<Key>, b: Bundle)
    ensures BundleOf(e, raw, sig, online) == Some(b) <==>
      && |raw| <= 0x40_0000 && e.bundleSigner(sig, raw, online).Some? && e.decodeBundle(raw) == Some(b)
      && b.specVersion == 1 && b.version >= 1
      && e.w.stamp(b.issuedAt).Some? && e.w.stamp(b.validUntil).Some?
      && e.w.stamp(b.issuedAt).value < e.w.stamp(b.validUntil).value
      && Hexadecimal(b.prevDigest) && (b.version == 1 <==> Zeros(b.prevDigest))
      && WellListed(b.indicators)
  {
    HexadecimalExactly(b.prevDigest);
    ZerosExactly(b.prevDigest);
    WellListedExactly(b.indicators);
  }

  // -- the floor ------------------------------------------------------------

  /** A floor of this format with no counter below zero, and, once it is at a version, a
      digest and a time; and no check time that cannot be read. */
  predicate Sane(stamp: Stamp, f: Floor) {
    && f.schema == 1 && f.minVersion >= 0 && f.minSerial >= 0 && f.indicatorCount >= 0
    && (f.minVersion == 0 || (Hexadecimal(f.headDigest) && stamp(f.acceptedAt).Some?))
    && (f.checkedAt == "" || stamp(f.checkedAt).Some?)
  }

  lemma SaneExactly(stamp: Stamp, f: Floor)
    ensures Sane(stamp, f) <==> ValidFloor(stamp, f)
  {
    HexadecimalExactly(f.headDigest);
  }

  /** What loading gives: nothing where there is no floor, the floor where it is sane, and
      otherwise an error, never nothing. */
  lemma LoadExactly(stamp: Stamp, disk: Disk)
    ensures LoadFloor(stamp, disk) == Ok(None) <==> disk.Missing?
    ensures forall f :: LoadFloor(stamp, disk) == Ok(Some(f)) <==> disk == Stored(f) && Sane(stamp, f)
    ensures LoadFloor(stamp, disk).Err? <==> disk.Corrupt? || (disk.Stored? && !Sane(stamp, disk.floor))
  {
    if disk.Stored? {
      SaneExactly(stamp, disk.floor);
    }
  }

  /** What saving leaves: the floor itself, stamped with this format, exactly when it is
      sane and can be written, what is there is nothing or a sane floor, and neither
      counter of it is above the new one's. */
  lemma SaveExactly(stamp: Stamp, disk: Disk, f: Floor)
    ensures SaveFloor(stamp, disk, f).Some? <==>
      && Sane(stamp, f.(schema := 1))
      && Text.ValidUtf8(f.headDigest) && Text.ValidUtf8(f.acceptedAt) && Text.ValidUtf8(f.checkedAt)
      && (disk.Missing? || (disk.Stored? && Sane(stamp, disk.floor)
                            && disk.floor.minVersion <= f.minVersion && disk.floor.minSerial <= f.minSerial))
    ensures SaveFloor(stamp, disk, f).Some? ==> SaveFloor(stamp, disk, f).value == Stored(f.(schema := 1))
  {
    SaneExactly(stamp, f.(schema := 1));
    if disk.Stored? {
      SaneExactly(stamp, disk.floor);
    }
  }
}
