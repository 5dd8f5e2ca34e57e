/**
 * The ordered key/value engine behind the table, seen from the outside:
 * a finite map from byte strings to byte strings whose iterator visits
 * the keys in unsigned byte-lexicographic order.
 */
module Store {
  import opened LexOrder
  import opened Codec

  type Db = map<Bytes, Bytes>

  /** The keys in strictly increasing byte order. */
  ghost predicate Sorted(keys: seq<Bytes>)
  {
    forall i, j :: 0 <= i < j < |keys| ==> LexLess(keys[i], keys[j])
  }

  predicate IsLeast(m: Bytes, s: set<Bytes>)
  {
    m in s && forall k :: k in s ==> !LexLess(k, m)
  }

  /** Every finite non-empty set of byte strings has a least element. */
  lemma Least(s: set<Bytes>) returns (m: Bytes)
    requires s != {}
    ensures IsLeast(m, s)
    decreases |s|
  {
    var x :| x in s;
    if s == {x} {
      m := x;
      Irreflexive(x);
    } else {
      var m' := Least(s - {x});
      if LexLess(x, m') {
        m := x;
        forall k | k in s
          ensures !LexLess(k, x)
        {
          if k == x {
            Irreflexive(x);
          } else if LexLess(k, x) {
            Transitive(k, x, m');
          }
        }
      } else {
        m := m';
      }
    }
  }

  /**
   * The keys an iterator over a snapshot of db visits from SeekToFirst
   * through Next until it is no longer Valid: every key once, in order.
   */
  method SortedKeys(db: Db) returns (keys: seq<Bytes>)
    ensures Sorted(keys)
    ensures forall k :: k in keys <==> k in db
  {
    keys := [];
    var rest := db.Keys;
    while rest != {}
      invariant Sorted(keys)
      invariant forall k :: k in db <==> k in keys || k in rest
      invariant forall a, b :: a in keys && b in rest ==> LexLess(a, b)
      decreases |rest|
    {
      ghost var least := Least(rest);
      var m: Bytes :| m in rest && IsLeast(m, rest);
      assert IsLeast(m, rest);
      assert forall k :: k in rest ==> !LexLess(k, m);
      forall b | b in rest - {m}
        ensures LexLess(m, b)
      {
        assert b in rest;
        Total(m, b);
      }
      keys := keys + [m];
      rest := rest - {m};
    }
  }

  /**
   * Iterator Seek over the sorted keys: the position of the first key not
   * below target, or the end if there is none.
   */
  method Seek(keys: seq<Bytes>, target: Bytes) returns (i: nat)
    requires Sorted(keys)
    ensures i <= |keys|
    ensures forall j :: 0 <= j < i ==> LexLess(keys[j], target)
    ensures i < |keys| ==> !LexLess(keys[i], target)
  {
    i := 0;
    while i < |keys| && LexLess(keys[i], target)
      invariant i <= |keys|
      invariant forall j :: 0 <= j < i ==> LexLess(keys[j], target)
    {
      i := i + 1;
    }
  }

  /** In a sorted sequence, every key from a position not below x on is not below x either. */
  lemma SortedAbove(keys: seq<Bytes>, x: Bytes, i: nat)
    requires Sorted(keys) && i <= |keys|
    requires i < |keys| ==> !LexLess(keys[i], x)
    ensures forall j :: i <= j < |keys| ==> !LexLess(keys[j], x)
  {
    forall j | i <= j < |keys|
      ensures !LexLess(keys[j], x)
    {
      SortedStaysAbove(keys, x, i, j);
    }
  }

  /** In a sorted sequence, everything after a key at least as large as x is also at least x. */
  lemma SortedStaysAbove(keys: seq<Bytes>, x: Bytes, i: nat, j: nat)
    requires Sorted(keys) && i <= j < |keys|
    requires !LexLess(keys[i], x)
    ensures !LexLess(keys[j], x)
  {
    if i < j && LexLess(keys[j], x) {
      Transitive(keys[i], keys[j], x);
    }
  }
}
