/**
 * The LevelDB instance behind the registry chain. Blocks are stored under
 * the decimal string of their height, and LevelDB iterates its keys in
 * bytewise order of those strings, so "10" comes before "2". The store is
 * a map from height to block plus the list of stored heights in iteration
 * order.
 */
module BlockStore {
  import opened Encoding
  import opened RegistryBlock

  /** Key `a` is iterated before key `b`. */
  predicate KeyLess(a: nat, b: nat)
  {
    LexLess(Decimal(a), Decimal(b))
  }

  lemma KeyLessIrreflexive(a: nat)
    ensures !KeyLess(a, a)
  {
    LexIrreflexive(Decimal(a));
  }

  lemma KeyLessTransitive(a: nat, b: nat, c: nat)
    requires KeyLess(a, b) && KeyLess(b, c)
    ensures KeyLess(a, c)
  {
    LexTransitive(Decimal(a), Decimal(b), Decimal(c));
  }

  lemma KeyLessTotal(a: nat, b: nat)
    requires a != b
    ensures KeyLess(a, b) || KeyLess(b, a)
  {
    if Decimal(a) == Decimal(b) {
      DecimalInjective(a, b);
    }
    LexTotal(Decimal(a), Decimal(b));
  }

  /** Iteration order is not numeric order: block 10 is read before block 2. */
  lemma TenBeforeTwo()
    ensures KeyLess(10, 2) && !KeyLess(2, 10)
  {
    assert Decimal(1) == "1";
    assert Decimal(10) == "10";
    assert Decimal(2) == "2";
  }

  ghost predicate StrictlyOrdered(keys: seq<nat>)
  {
    forall i, j :: 0 <= i < j < |keys| ==> KeyLess(keys[i], keys[j])
  }

  /** The first key of a strictly ordered list is iterated before every other key in it. */
  lemma FirstIsLeast(s: seq<nat>, k: nat)
    requires StrictlyOrdered(s) && k in s && k != s[0]
    ensures KeyLess(s[0], k)
  {
    var i :| 0 <= i < |s| && s[i] == k;
    assert 0 < i;
  }

  /**
   * Inserting a new key at the first position whose key is not iterated
   * before it keeps the list strictly ordered and adds exactly that key.
   */
  lemma InsertKeepsOrder(keys: seq<nat>, i: nat, k: nat)
    requires StrictlyOrdered(keys) && i <= |keys| && k !in keys
    requires forall j :: 0 <= j < i ==> KeyLess(keys[j], k)
    requires i < |keys| ==> !KeyLess(keys[i], k)
    ensures StrictlyOrdered(keys[..i] + [k] + keys[i..])
    ensures forall x :: x in keys[..i] + [k] + keys[i..] <==> x == k || x in keys
  {
    forall j | i <= j < |keys| ensures KeyLess(k, keys[j]) {
      assert keys[i] != k;
      KeyLessTotal(keys[i], k);
      if j > i { KeyLessTransitive(k, keys[i], keys[j]); }
    }
    var ks := keys[..i] + [k] + keys[i..];
    forall a, b | 0 <= a < b < |ks| ensures KeyLess(ks[a], ks[b]) {
      if a < i && b > i {
        KeyLessTransitive(ks[a], k, ks[b]);
      }
    }
    assert keys == keys[..i] + keys[i..];
  }

  /** Two strictly ordered key lists holding the same keys are the same list: iteration order is a function of the key set. */
  lemma {:induction false} OrderedListUnique(s: seq<nat>, t: seq<nat>)
    requires StrictlyOrdered(s) && StrictlyOrdered(t)
    requires forall k :: k in s <==> k in t
    ensures s == t
  {
    assert s != [] ==> s[0] in t;
    assert t != [] ==> t[0] in s;
    if s != [] && t != [] {
      if s[0] != t[0] {
        FirstIsLeast(s, t[0]);
        FirstIsLeast(t, s[0]);
        KeyLessTransitive(s[0], t[0], s[0]);
        KeyLessIrreflexive(s[0]);
      }
      forall k ensures k in s[1..] <==> k in t[1..] {
        if k in s[1..] {
          var i :| 1 <= i < |s| && s[i] == k;
          assert KeyLess(s[0], s[i]);
          if k == t[0] { KeyLessIrreflexive(k); }
          assert k in t && t == [t[0]] + t[1..];
        }
        if k in t[1..] {
          var j :| 1 <= j < |t| && t[j] == k;
          assert KeyLess(t[0], t[j]);
          if k == s[0] { KeyLessIrreflexive(k); }
          assert k in s && s == [s[0]] + s[1..];
        }
      }
      OrderedListUnique(s[1..], t[1..]);
      assert s == [s[0]] + s[1..] && t == [t[0]] + t[1..];
    }
  }

  class LevelDb {
    var blocks: map<nat, Block>
    /** The stored heights, in the order LevelDB's streams visit them. */
    var keys: seq<nat>

    ghost predicate Valid()
      reads this
    {
      && StrictlyOrdered(keys)
      && |keys| == |blocks|
      && (forall i :: 0 <= i < |keys| ==> keys[i] in blocks)
      && (forall k :: k in blocks ==> k in keys)
    }

    /** The stored blocks in iteration order, as `createReadStream` delivers them. */
    ghost function Scan(): (s: seq<Block>)
      reads this
      requires Valid()
      ensures |s| == |keys|
      ensures forall i :: 0 <= i < |keys| ==> s[i] == blocks[keys[i]]
      ensures forall b :: b in s <==> b in blocks.Values
    {
      var ks, bs := keys, blocks;
      var s := seq(|ks|, i requires 0 <= i < |ks| => bs[ks[i]]);
      forall b | b in bs.Values ensures b in s {
        var k :| k in bs && bs[k] == b;
        var i :| 0 <= i < |ks| && ks[i] == k;
        assert s[i] == b;
      }
      s
    }

    constructor ()
      ensures Valid() && blocks == map[]
    {
      blocks := map[];
      keys := [];
    }

    /** The position a new key `k` takes in iteration order: after every key iterated before it. */
    method InsertionPoint(k: nat) returns (i: nat)
      requires Valid()
      ensures i <= |keys|
      ensures forall j :: 0 <= j < i ==> KeyLess(keys[j], k)
      ensures i < |keys| ==> !KeyLess(keys[i], k)
    {
      i := 0;
      while i < |keys| && KeyLess(keys[i], k)
        invariant i <= |keys|
        invariant forall j :: 0 <= j < i ==> KeyLess(keys[j], k)
      {
        i := i + 1;
      }
    }

    /** `put(key, value)`: stores `v` under `k`, placing a new key where iteration will find it. */
    method Put(k: nat, v: Block)
      requires Valid()
      modifies this
      ensures Valid()
      ensures blocks == old(blocks)[k := v]
    {
      if k in blocks {
        blocks := blocks[k := v];
        return;
      }
      assert k !in keys;
      var i := InsertionPoint(k);
      InsertKeepsOrder(keys, i, k);
      keys := keys[..i] + [k] + keys[i..];
      blocks := blocks[k := v];
      assert |keys| == |blocks|;
      assert forall x :: x in keys <==> x in blocks;
    }
  }
}
