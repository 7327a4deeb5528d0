/** Reading struct fields back out of a decoded object. */
module Fields {
  import opened Wrappers
  import opened Canon
  import Order
  import Text

  type Int64 = n: int | -0x8000_0000_0000_0000 <= n < 0x8000_0000_0000_0000

  predicate IsInt64(n: int) {
    -0x8000_0000_0000_0000 <= n < 0x8000_0000_0000_0000
  }

  function Lookup(ms: seq<Member>, key: string): Option<Value> {
    if ms == [] then None else if ms[0].key == key then Some(ms[0].val) else Lookup(ms[1..], key)
  }

  /** A string member; an absent one reads as the zero value. */
  function StrField(ms: seq<Member>, key: string): Option<string> {
    match Lookup(ms, key)
    case None => Some("")
    case Some(v) => if v.Str? then Some(v.s) else None
  }

  function IntField(ms: seq<Member>, key: string): Option<Integer> {
    match Lookup(ms, key)
    case None => Some(0)
    case Some(v) => if v.Int? then Some(v.n) else None
  }

  function BoolField(ms: seq<Member>, key: string): Option<bool> {
    match Lookup(ms, key)
    case None => Some(false)
    case Some(v) => if v.Bool? then Some(v.b) else None
  }

  function ObjectField(ms: seq<Member>, key: string): Option<seq<Member>> {
    match Lookup(ms, key)
    case None => Some([])
    case Some(v) => if v.Object? then Some(v.members) else None
  }

  lemma {:induction false} NestingAtMost(ms: seq<Member>, k: nat)
    requires forall i :: 0 <= i < |ms| ==> Nesting(ms[i].val) <= k
    ensures NestingMembers(ms) <= k + 1
    decreases |ms|
  {
    if ms == [] {
    } else {
      NestingAtMost(ms[1..], k);
    }
  }

  /** No member the reader does not know. */
  predicate OnlyKeys(ms: seq<Member>, known: set<string>) {
    forall i :: 0 <= i < |ms| ==> ms[i].key in known
  }

  lemma {:induction false} LookupMember(ms: seq<Member>, m: Member)
    requires DistinctKeys(ms) && m in ms
    ensures Lookup(ms, m.key) == Some(m.val)
    decreases |ms|
  {
    if ms[0] == m {
    } else {
      assert m in ms[1..];
      var i :| 0 < i < |ms| && ms[i] == m;
      assert ms[0].key != ms[i].key;
      LookupMember(ms[1..], m);
    }
  }

  /** Every field of a struct can be found again in its printed form. */
  lemma LookupNormal(ms: seq<Member>)
    requires DistinctKeys(ms)
    ensures var sorted := Normal(Object(ms)).members;
            && (forall i :: 0 <= i < |ms| ==> Lookup(sorted, ms[i].key) == Some(Normal(ms[i].val)))
            && (forall m :: m in sorted ==> exists i :: 0 <= i < |ms| && ms[i].key == m.key)
  {
    var ns := NormalMembers(ms);
    var sorted := Order.Sort(KeyLeq, ns);
    NormalMembersAt(ms);
    Order.SortPermutes(KeyLeq, ns);
    Order.DistinctByPermutes((m: Member) => m.key, ns, sorted);
    forall i | 0 <= i < |ms| ensures Lookup(sorted, ms[i].key) == Some(Normal(ms[i].val)) {
      assert ns[i] in ns;
      LookupMember(sorted, ns[i]);
    }
    forall m | m in sorted ensures exists i :: 0 <= i < |ms| && ms[i].key == m.key {
      assert m in ns;
      var i :| 0 <= i < |ns| && ns[i] == m;
      assert ms[i].key == m.key;
    }
  }

  lemma LookupAt(ms: seq<Member>, i: nat)
    requires DistinctKeys(ms) && i < |ms|
    ensures Lookup(Normal(Object(ms)).members, ms[i].key) == Some(Normal(ms[i].val))
  {
    LookupNormal(ms);
  }

  lemma OnlyTheseKeys(ms: seq<Member>, known: set<string>)
    requires DistinctKeys(ms) && forall i :: 0 <= i < |ms| ==> ms[i].key in known
    ensures OnlyKeys(Normal(Object(ms)).members, known)
  {
    LookupNormal(ms);
    var sorted := Normal(Object(ms)).members;
    forall k | 0 <= k < |sorted| ensures sorted[k].key in known {
      assert sorted[k] in sorted;
    }
  }

  /** A member with a plain key and a scalar the encoder takes. */
  ghost predicate Plain(m: Member) {
    Text.Ascii(m.key) && (m.val.Int? || m.val.Bool? || (m.val.Str? && Text.ValidUtf8(m.val.s)))
  }

  lemma PlainIsWellFormed(m: Member)
    requires Plain(m)
    ensures Text.ValidUtf8(m.key) && WellFormed(Normal(m.val))
  {
    Text.AsciiIsUtf8(m.key);
  }

  lemma PlainObject(ms: seq<Member>)
    requires DistinctKeys(ms) && forall i :: 0 <= i < |ms| ==> Plain(ms[i])
    ensures WellFormed(Normal(Object(ms)))
  {
    forall i | 0 <= i < |ms| ensures Text.ValidUtf8(ms[i].key) && WellFormed(Normal(ms[i].val)) {
      PlainIsWellFormed(ms[i]);
    }
    ObjectAdmits(ms);
  }
}
