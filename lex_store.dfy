/**
 * What the lexical numerator/denominator table keeps in its store, as
 * values: for a source word s a denominator under the one-index key [s],
 * and for a pair (s, t) a numerator under the partner-first key [t, s],
 * each value being the encoded 32-bit pattern of a float. The class
 * IncrLexLevelDbTable is specified through these functions.
 */
module LexStore {
  import opened LexOrder
  import opened Codec
  import opened Store

  /** Key of the numerator of (s, t): the target comes first (lines 214-219). */
  function NumerKey(s: WordIndex, t: WordIndex): Bytes
  {
    EncodeKey([t, s])
  }

  /** Key of the denominator of s (lines 243-244). */
  function DenomKey(s: WordIndex): Bytes
  {
    EncodeKey([s])
  }

  /** A value the table can have written: the encoding of some float pattern. */
  predicate ValidValue(v: Bytes)
  {
    |v| == BYTES && EncodeFloat(DecodeFloat(v)) == v
  }

  /** Every key splits into whole chunks and every value holds a float: what reads need. */
  predicate Readable(db: Db)
  {
    forall k :: k in db ==> |k| % BYTES == 0 && |db[k]| >= BYTES
  }

  /** A key of one or two indices, as the table writes them. */
  predicate TableKey(k: Bytes)
  {
    (|k| == BYTES || |k| == 2 * BYTES) && EncodeKey(DecodeKey(k)) == k
  }

  /**
   * The shape of every store this table writes: each key is the encoding
   * of a key of one or two indices, and each value the encoding of a float.
   */
  ghost predicate Shaped(db: Db)
  {
    && Readable(db)
    && forall k :: k in db ==> TableKey(k) && ValidValue(db[k])
  }

  /**
   * A point lookup as retrieveData does it (lines 179-192): a key that is
   * present yields true and its decoded float; a missing key yields false
   * and the value 0.
   */
  function Lookup(db: Db, key: Bytes): (bool, FloatBits)
    requires key in db ==> |db[key]| >= BYTES
  {
    if key in db then (true, DecodeFloat(db[key])) else (false, 0)
  }

  /** The store after storeData(phrase, f) (lines 195-207). */
  function Stored(db: Db, phrase: seq<WordIndex>, f: FloatBits): Db
  {
    db[EncodeKey(phrase) := EncodeFloat(f)]
  }

  /** The store after setLexNumDen(s, t, num, den): denominator first, then numerator (lines 300-307). */
  function WithNumDen(db: Db, s: WordIndex, t: WordIndex, num: FloatBits, den: FloatBits): Db
  {
    Stored(Stored(db, [s], den), [t, s], num)
  }

  // ---------------------------------------------------------------------
  // Keys

  /**
   * A denominator key and a numerator key never coincide, and each kind of
   * key determines the indices it was built from.
   */
  lemma KeysDistinct(a: WordIndex, s: WordIndex, t: WordIndex, s': WordIndex, t': WordIndex)
    ensures DenomKey(a) != NumerKey(s, t)
    ensures NumerKey(s, t) == NumerKey(s', t') <==> s == s' && t == t'
    ensures DenomKey(s) == DenomKey(s') <==> s == s'
  {
    if NumerKey(s, t) == NumerKey(s', t') {
      KeyInjective([t, s], [t', s']);
    }
    if DenomKey(s) == DenomKey(s') {
      KeyInjective([s], [s']);
    }
  }

  lemma NumerKeyDecodes(s: WordIndex, t: WordIndex)
    ensures |NumerKey(s, t)| == 2 * BYTES
    ensures DecodeKey(NumerKey(s, t)) == [t, s]
  {
    KeyRoundTrip([t, s]);
  }

  /** A stored key of two indices [t, s] is the numerator key of (s, t). */
  lemma TwoIndexKey(db: Db, k: Bytes)
    requires Shaped(db) && k in db
    requires |DecodeKey(k)| == 2
    ensures NumerKey(DecodeKey(k)[1], DecodeKey(k)[0]) == k
  {
    var v := DecodeKey(k);
    assert [v[0], v[1]] == v;
  }

  // ---------------------------------------------------------------------
  // Point writes and reads

  /** Storing a one- or two-index key keeps the store's shape. */
  lemma StoredShaped(db: Db, phrase: seq<WordIndex>, f: FloatBits)
    requires Shaped(db)
    requires |phrase| == 1 || |phrase| == 2
    ensures Shaped(Stored(db, phrase, f))
  {
    KeyRoundTrip(phrase);
    FloatRoundTrip(f);
  }

  /** Storing any phrase keeps the store readable. */
  lemma StoredReadable(db: Db, phrase: seq<WordIndex>, f: FloatBits)
    requires Readable(db)
    ensures Readable(Stored(db, phrase, f))
  {
    KeyRoundTrip(phrase);
  }

  /**
   * After storing f under a phrase, looking the phrase up finds f, and
   * every other key reads as before.
   */
  lemma LookupStored(db: Db, phrase: seq<WordIndex>, f: FloatBits, key: Bytes)
    requires key in db ==> |db[key]| >= BYTES
    ensures var db' := Stored(db, phrase, f);
      Lookup(db', key) == if key == EncodeKey(phrase) then (true, f) else Lookup(db, key)
  {
    FloatRoundTrip(f);
  }

  /**
   * setLexNumDen writes exactly the two keys [s] and [t, s]: both read back
   * what was written and nothing else changes.
   */
  lemma LookupNumDen(db: Db, s: WordIndex, t: WordIndex, num: FloatBits, den: FloatBits, key: Bytes)
    requires key in db ==> |db[key]| >= BYTES
    ensures var db' := WithNumDen(db, s, t, num, den);
      && Lookup(db', NumerKey(s, t)) == (true, num)
      && Lookup(db', DenomKey(s)) == (true, den)
      && (key != NumerKey(s, t) && key != DenomKey(s) ==> Lookup(db', key) == Lookup(db, key))
  {
    KeysDistinct(s, s, t, s, t);
    FloatRoundTrip(num);
    FloatRoundTrip(den);
  }

  // ---------------------------------------------------------------------
  // The prefix scan of getTransForTarget

  /** The scan bounds of getTransForTarget(t): [EncodeKey([t]), EncodeKey([t + 1])), t + 1 wrapping at 2^32. */
  predicate InScan(k: Bytes, t: WordIndex)
  {
    !LexLess(k, EncodeKey([t])) && LexLess(k, EncodeKey([(t + 1) % WORD_RANGE]))
  }

  /**
   * What the scan collects: for every key in the range that decodes to
   * more than one index, its last index.
   */
  function Targets(db: Db, t: WordIndex): set<WordIndex>
    requires forall k :: k in db ==> |k| % BYTES == 0
  {
    set k | k in db && InScan(k, t) && |DecodeKey(k)| > 1 :: DecodeKey(k)[|DecodeKey(k)| - 1]
  }

  /** The numerator keys of t lie inside the scan bounds of t. */
  lemma NumerKeyInScan(s: WordIndex, t: WordIndex)
    requires t + 1 < WORD_RANGE
    ensures DecodeKey(NumerKey(s, t)) == [t, s]
    ensures InScan(NumerKey(s, t), t)
  {
    NumerKeyDecodes(s, t);
    assert (t + 1) % WORD_RANGE == t + 1;
    PrefixRange(t, [t, s]);
  }

  /** A key of the store in the scan range of t with two or more indices is [t, s]. */
  lemma ScanKeyIsNumer(k: Bytes, t: WordIndex)
    requires |k| == BYTES || |k| == 2 * BYTES
    requires EncodeKey(DecodeKey(k)) == k
    requires t + 1 < WORD_RANGE
    requires InScan(k, t) && |DecodeKey(k)| > 1
    ensures NumerKey(DecodeKey(k)[|DecodeKey(k)| - 1], t) == k
  {
    var v := DecodeKey(k);
    DecodeKeyLength(k);
    assert |v| == 2;
    assert (t + 1) % WORD_RANGE == t + 1;
    PrefixRange(t, v);
    assert v == [t, v[1]];
  }

  /** Everything the scan collects is the source of a numerator key of t. */
  lemma TargetHasNumer(db: Db, t: WordIndex, s: WordIndex)
    requires Shaped(db)
    requires t + 1 < WORD_RANGE
    requires s in Targets(db, t)
    ensures NumerKey(s, t) in db
  {
    var k :| k in db && InScan(k, t) && |DecodeKey(k)| > 1 && DecodeKey(k)[|DecodeKey(k)| - 1] == s;
    ScanKeyIsNumer(k, t);
  }

  /** Every numerator key of t is collected by the scan. */
  lemma NumerIsTarget(db: Db, t: WordIndex, s: WordIndex)
    requires forall k :: k in db ==> |k| % BYTES == 0
    requires t + 1 < WORD_RANGE
    requires NumerKey(s, t) in db
    ensures s in Targets(db, t)
  {
    NumerKeyInScan(s, t);
    var v := DecodeKey(NumerKey(s, t));
    assert v[|v| - 1] == s;
  }

  /**
   * In a table-shaped store the scan finds exactly the sources s that have
   * a numerator for t, and nothing for the one-index key [t].
   */
  lemma TargetsExact(db: Db, t: WordIndex)
    requires Shaped(db)
    requires t + 1 < WORD_RANGE
    ensures forall s: WordIndex :: s in Targets(db, t) <==> NumerKey(s, t) in db
  {
    forall s: WordIndex
      ensures s in Targets(db, t) <==> NumerKey(s, t) in db
    {
      if s in Targets(db, t) {
        TargetHasNumer(db, t, s);
      }
      if NumerKey(s, t) in db {
        NumerIsTarget(db, t, s);
      }
    }
  }

  /**
   * For the last index 2^32 - 1 the upper bound wraps to EncodeKey([0]),
   * below the lower bound, so the scan finds nothing whatever is stored.
   */
  lemma TargetsOfLastIndex(db: Db)
    requires forall k :: k in db ==> |k| % BYTES == 0
    ensures Targets(db, WORD_RANGE - 1) == {}
  {
    var lo, hi := EncodeKey([WORD_RANGE - 1]), EncodeKey([0]);
    KeyOrder([0], [WORD_RANGE - 1]);
    assert LexLess(hi, lo);
    forall k | k in db && InScan(k, WORD_RANGE - 1)
      ensures false
    {
      if k == lo {
        Asymmetric(hi, lo);
      } else {
        Total(k, lo);
        Transitive(lo, k, hi);
        Asymmetric(hi, lo);
      }
    }
  }

  /**
   * What a forward scan over the first n keys of ks, in the order given,
   * inserts into the result set: the last index of every key in range with
   * more than one index.
   */
  function Collected(ks: seq<Bytes>, n: nat, t: WordIndex): set<WordIndex>
    requires n <= |ks|
    requires forall k :: k in ks ==> |k| % BYTES == 0
    decreases n
  {
    if n == 0 then {}
    else
      var v := DecodeKey(ks[n - 1]);
      Collected(ks, n - 1, t) + if InScan(ks[n - 1], t) && |v| > 1 then {v[|v| - 1]} else {}
  }

  /** Scanning one more key, one that lies in the range. */
  lemma CollectedStep(ks: seq<Bytes>, i: nat, t: WordIndex)
    requires forall k :: k in ks ==> |k| % BYTES == 0
    requires i < |ks|
    requires !LexLess(ks[i], EncodeKey([t])) && LexLess(ks[i], EncodeKey([(t + 1) % WORD_RANGE]))
    ensures var v := DecodeKey(ks[i]);
      Collected(ks, i + 1, t) == Collected(ks, i, t) + if |v| > 1 then {v[|v| - 1]} else {}
  {
  }

  /** Keys from position n on that lie outside the range add nothing to the scan. */
  lemma {:induction false} CollectedOutside(ks: seq<Bytes>, n: nat, m: nat, t: WordIndex)
    requires forall k :: k in ks ==> |k| % BYTES == 0
    requires n <= m <= |ks|
    requires forall j :: n <= j < m ==> !InScan(ks[j], t)
    ensures Collected(ks, m, t) == Collected(ks, n, t)
    decreases m - n
  {
    if n < m {
      CollectedOutside(ks, n, m - 1, t);
    }
  }

  /** Every collected index comes from some key in range among the first n. */
  lemma {:induction false} CollectedWitness(ks: seq<Bytes>, n: nat, t: WordIndex, x: WordIndex) returns (j: nat)
    requires forall k :: k in ks ==> |k| % BYTES == 0
    requires n <= |ks| && x in Collected(ks, n, t)
    ensures j < n && InScan(ks[j], t) && |DecodeKey(ks[j])| > 1
    ensures DecodeKey(ks[j])[|DecodeKey(ks[j])| - 1] == x
    decreases n
  {
    if x in Collected(ks, n - 1, t) {
      j := CollectedWitness(ks, n - 1, t, x);
    } else {
      j := n - 1;
    }
  }

  /** Keys all below the lower bound contribute nothing. */
  lemma CollectedBelow(ks: seq<Bytes>, n: nat, t: WordIndex)
    requires forall k :: k in ks ==> |k| % BYTES == 0
    requires n <= |ks|
    requires forall j :: 0 <= j < n ==> LexLess(ks[j], EncodeKey([t]))
    ensures Collected(ks, n, t) == {}
  {
    if x :| x in Collected(ks, n, t) {
      var j := CollectedWitness(ks, n, t, x);
    }
  }

  /** Every key in range with more than one index among the first n has its last index collected. */
  lemma {:induction false} CollectedHas(ks: seq<Bytes>, n: nat, t: WordIndex, j: nat)
    requires forall k :: k in ks ==> |k| % BYTES == 0
    requires j < n <= |ks| && InScan(ks[j], t) && |DecodeKey(ks[j])| > 1
    ensures DecodeKey(ks[j])[|DecodeKey(ks[j])| - 1] in Collected(ks, n, t)
    decreases n
  {
    if j < n - 1 {
      CollectedHas(ks, n - 1, t, j);
    }
  }

  lemma IndexOf(ks: seq<Bytes>, k: Bytes) returns (j: nat)
    requires k in ks
    ensures j < |ks| && ks[j] == k
  {
    j :| j < |ks| && ks[j] == k;
  }

  /** The key of the store an index of Targets comes from. */
  lemma TargetWitness(db: Db, t: WordIndex, x: WordIndex) returns (k: Bytes)
    requires Readable(db)
    requires x in Targets(db, t)
    ensures k in db && InScan(k, t) && |DecodeKey(k)| > 1 && DecodeKey(k)[|DecodeKey(k)| - 1] == x
  {
    k :| k in db && InScan(k, t) && |DecodeKey(k)| > 1 && DecodeKey(k)[|DecodeKey(k)| - 1] == x;
  }

  /** Every index of Targets is collected by a scan over all keys. */
  lemma TargetCollected(db: Db, ks: seq<Bytes>, t: WordIndex, x: WordIndex)
    requires Readable(db)
    requires forall k :: k in ks <==> k in db
    requires x in Targets(db, t)
    ensures x in Collected(ks, |ks|, t)
  {
    var k := TargetWitness(db, t, x);
    var j := IndexOf(ks, k);
    CollectedHas(ks, |ks|, t, j);
  }

  /** A scan over all keys of the store, in any order, collects Targets. */
  lemma CollectedAll(db: Db, ks: seq<Bytes>, t: WordIndex)
    requires Readable(db)
    requires forall k :: k in ks <==> k in db
    ensures Collected(ks, |ks|, t) == Targets(db, t)
  {
    forall x | x in Collected(ks, |ks|, t)
      ensures x in Targets(db, t)
    {
      var j := CollectedWitness(ks, |ks|, t, x);
      assert ks[j] in db;
    }
    forall x | x in Targets(db, t)
      ensures x in Collected(ks, |ks|, t)
    {
      TargetCollected(db, ks, t, x);
    }
  }

  /**
   * A scan over the sorted keys of the store that stops at the first key
   * not below the upper bound has collected all of Targets.
   */
  lemma ScanComplete(db: Db, keys: seq<Bytes>, i: nat, t: WordIndex)
    requires Readable(db)
    requires Sorted(keys) && forall k :: k in keys <==> k in db
    requires i <= |keys|
    requires i < |keys| ==> !LexLess(keys[i], EncodeKey([(t + 1) % WORD_RANGE]))
    ensures Collected(keys, i, t) == Targets(db, t)
  {
    forall j | i <= j < |keys|
      ensures !InScan(keys[j], t)
    {
      SortedStaysAbove(keys, EncodeKey([(t + 1) % WORD_RANGE]), i, j);
    }
    CollectedOutside(keys, i, |keys|, t);
    CollectedAll(db, keys, t);
  }

  // ---------------------------------------------------------------------
  // Bulk load and export

  /** One record of the binary interchange file: s, t, numerator, denominator. */
  datatype Record = Record(s: WordIndex, t: WordIndex, numer: FloatBits, denom: FloatBits)

  /** The store after loading records one after another with setLexNumDen (lines 351-368). */
  function Loaded(db: Db, recs: seq<Record>): Db
    decreases |recs|
  {
    if recs == [] then db
    else
      var r := recs[|recs| - 1];
      WithNumDen(Loaded(db, recs[..|recs| - 1]), r.s, r.t, r.numer, r.denom)
  }

  /**
   * Loading writes only the keys of the records: a key that no record
   * names keeps its value.
   */
  lemma {:induction false} LoadedFrame(db: Db, recs: seq<Record>, key: Bytes)
    requires forall i :: 0 <= i < |recs| ==> key != NumerKey(recs[i].s, recs[i].t) && key != DenomKey(recs[i].s)
    ensures key in Loaded(db, recs) <==> key in db
    ensures key in db ==> Loaded(db, recs)[key] == db[key]
    decreases |recs|
  {
    if recs != [] {
      LoadedFrame(db, recs[..|recs| - 1], key);
    }
  }

  /** The last record for a pair (s, t) decides its numerator: the last write wins. */
  lemma {:induction false} LoadedNumer(db: Db, recs: seq<Record>, i: nat)
    requires i < |recs|
    requires forall j :: i < j < |recs| ==> (recs[j].s, recs[j].t) != (recs[i].s, recs[i].t)
    ensures NumerKey(recs[i].s, recs[i].t) in Loaded(db, recs)
    ensures Loaded(db, recs)[NumerKey(recs[i].s, recs[i].t)] == EncodeFloat(recs[i].numer)
    decreases |recs|
  {
    var r := recs[|recs| - 1];
    var key := NumerKey(recs[i].s, recs[i].t);
    KeysDistinct(r.s, recs[i].s, recs[i].t, r.s, r.t);
    if i < |recs| - 1 {
      LoadedNumer(db, recs[..|recs| - 1], i);
    }
  }

  /** The last record for a source s decides its denominator. */
  lemma {:induction false} LoadedDenom(db: Db, recs: seq<Record>, i: nat)
    requires i < |recs|
    requires forall j :: i < j < |recs| ==> recs[j].s != recs[i].s
    ensures DenomKey(recs[i].s) in Loaded(db, recs)
    ensures Loaded(db, recs)[DenomKey(recs[i].s)] == EncodeFloat(recs[i].denom)
    decreases |recs|
  {
    var r := recs[|recs| - 1];
    KeysDistinct(recs[i].s, r.s, r.t, r.s, r.t);
    KeysDistinct(r.s, recs[i].s, r.t, r.s, r.t);
    if i < |recs| - 1 {
      LoadedDenom(db, recs[..|recs| - 1], i);
    }
  }

  /** The denominator printBin writes for s: its stored value, or 0 when it has none (line 456). */
  function DenomOf(db: Db, s: WordIndex): FloatBits
    requires DenomKey(s) in db ==> |db[DenomKey(s)]| >= BYTES
  {
    Lookup(db, DenomKey(s)).1
  }

  /**
   * The records printBin writes while visiting the keys ks in order
   * (lines 439-458): one per key of two indices [t, s], as (s, t, its
   * numerator, the denominator of s); keys of other lengths are skipped.
   */
  function Export(db: Db, ks: seq<Bytes>): (out: seq<Record>)
    requires Readable(db)
    requires forall k :: k in ks ==> k in db
    decreases |ks|
  {
    if ks == [] then []
    else
      var k := ks[|ks| - 1];
      var v := DecodeKey(k);
      var rest := Export(db, ks[..|ks| - 1]);
      if |v| == 2 then rest + [Record(v[1], v[0], DecodeFloat(db[k]), DenomOf(db, v[1]))]
      else rest
  }

  /**
   * Every exported record describes a numerator entry of the store: its
   * key [t, s] is one of the visited keys, its numerator is the stored one
   * and its denominator that of s.
   */
  lemma {:induction false} ExportSound(db: Db, ks: seq<Bytes>, i: nat)
    requires Shaped(db)
    requires forall k :: k in ks ==> k in db
    requires i < |Export(db, ks)|
    ensures var r := Export(db, ks)[i];
      var key := NumerKey(r.s, r.t);
      key in ks && r.numer == DecodeFloat(db[key]) && r.denom == DenomOf(db, r.s)
    decreases |ks|
  {
    var k := ks[|ks| - 1];
    var rest := Export(db, ks[..|ks| - 1]);
    if i < |rest| {
      ExportSound(db, ks[..|ks| - 1], i);
    } else {
      TwoIndexKey(db, k);
    }
  }

  /**
   * Visiting the keys in increasing order, printBin writes the records in
   * strictly increasing order of (t, s): by target first, then by source.
   */
  lemma {:induction false} ExportOrdered(db: Db, ks: seq<Bytes>, i: nat, j: nat)
    requires Shaped(db) && Sorted(ks)
    requires forall k :: k in ks ==> k in db
    requires i < j < |Export(db, ks)|
    ensures var ri, rj := Export(db, ks)[i], Export(db, ks)[j];
      LexLess([ri.t, ri.s], [rj.t, rj.s])
    decreases |ks|
  {
    var k := ks[|ks| - 1];
    var ks' := ks[..|ks| - 1];
    var rest := Export(db, ks');
    assert Sorted(ks') by {
      forall a, b | 0 <= a < b < |ks'|
        ensures LexLess(ks'[a], ks'[b])
      {
        assert ks'[a] == ks[a] && ks'[b] == ks[b];
      }
    }
    if j < |rest| {
      ExportOrdered(db, ks', i, j);
    } else {
      var ri, rj := rest[i], Export(db, ks)[j];
      ExportSound(db, ks', i);
      var p := IndexOf(ks', NumerKey(ri.s, ri.t));
      TwoIndexKey(db, k);
      assert LexLess(ks[p], ks[|ks| - 1]);
      KeyOrder([ri.t, ri.s], [rj.t, rj.s]);
    }
  }

  /** The bytes a reload writes for the denominator of s. */
  function DenomBytes(db: Db, s: WordIndex): Bytes
  {
    if DenomKey(s) in db then db[DenomKey(s)] else EncodeFloat(0)
  }

  /**
   * r holds what reloading the export of the keys ks must give: only
   * one- and two-index keys; exactly the two-index keys among ks, with
   * their stored values; and for each denominator written, the stored
   * one or the encoding of 0.
   */
  ghost predicate Restores(db: Db, ks: seq<Bytes>, r: Db)
  {
    && (forall k :: k in r ==> |k| == BYTES || |k| == 2 * BYTES)
    && (forall k :: |k| == 2 * BYTES ==> (k in r <==> k in ks))
    && (forall k :: k in r && |k| == 2 * BYTES ==> k in db && r[k] == db[k])
    && (forall s: WordIndex :: DenomKey(s) in r ==> r[DenomKey(s)] == DenomBytes(db, s))
  }

  /** Reloading one record as two plain map updates. */
  lemma ReloadedRecord(db: Db, r: Db, k: Bytes)
    requires Shaped(db) && k in db && |DecodeKey(k)| == 2
    ensures var v := DecodeKey(k);
      WithNumDen(r, v[1], v[0], DecodeFloat(db[k]), DenomOf(db, v[1]))
        == r[DenomKey(v[1]) := DenomBytes(db, v[1])][k := db[k]]
  {
    var v := DecodeKey(k);
    TwoIndexKey(db, k);
    FloatRoundTrip(DenomOf(db, v[1]));
    assert ValidValue(db[k]);
    if DenomKey(v[1]) in db {
      assert ValidValue(db[DenomKey(v[1])]);
    }
  }

  /** Writing a denominator and then the two-index key k keeps Restores. */
  lemma RestoresUpdate(db: Db, ks: seq<Bytes>, r: Db, k: Bytes, b: WordIndex)
    requires k in db && |k| == 2 * BYTES
    requires Restores(db, ks, r)
    ensures Restores(db, ks + [k], r[DenomKey(b) := DenomBytes(db, b)][k := db[k]])
  {
    var r' := r[DenomKey(b) := DenomBytes(db, b)][k := db[k]];
    assert |DenomKey(b)| == BYTES;
    assert forall j :: j in ks + [k] <==> j in ks || j == k;
    forall s: WordIndex | DenomKey(s) in r'
      ensures r'[DenomKey(s)] == DenomBytes(db, s)
    {
      assert |DenomKey(s)| == BYTES;
      KeysDistinct(s, s, s, b, b);
    }
  }

  /** Reloading the record of one more two-index key keeps Restores. */
  lemma RestoresStep(db: Db, ks: seq<Bytes>, r: Db, k: Bytes)
    requires Shaped(db) && k in db && |DecodeKey(k)| == 2
    requires Restores(db, ks, r)
    ensures var v := DecodeKey(k);
      Restores(db, ks + [k], WithNumDen(r, v[1], v[0], DecodeFloat(db[k]), DenomOf(db, v[1])))
  {
    var v := DecodeKey(k);
    ReloadedRecord(db, r, k);
    DecodeKeyLength(k);
    RestoresUpdate(db, ks, r, k, v[1]);
  }

  /** Keys of one index leave Restores as it is when they are skipped. */
  lemma RestoresSkip(db: Db, ks: seq<Bytes>, r: Db, k: Bytes)
    requires Shaped(db) && k in db && |DecodeKey(k)| != 2
    requires Restores(db, ks, r)
    ensures Restores(db, ks + [k], r)
  {
    DecodeKeyLength(k);
    assert |k| == BYTES;
    assert forall j :: j in ks + [k] <==> j in ks || j == k;
  }

  /** Export of one more key: its record, if it has two indices, comes last. */
  lemma ExportSnoc(db: Db, ks: seq<Bytes>, k: Bytes)
    requires Readable(db) && k in db
    requires forall j :: j in ks ==> j in db
    ensures var v := DecodeKey(k);
      Export(db, ks + [k]) ==
        if |v| == 2 then Export(db, ks) + [Record(v[1], v[0], DecodeFloat(db[k]), DenomOf(db, v[1]))]
        else Export(db, ks)
  {
    assert (ks + [k])[..|ks|] == ks;
  }

  /** Reloading the export of one more key. */
  lemma ReloadSnoc(db: Db, ks: seq<Bytes>, k: Bytes)
    requires Readable(db) && k in db
    requires forall j :: j in ks ==> j in db
    ensures var v := DecodeKey(k);
      var r := Loaded(map[], Export(db, ks));
      Loaded(map[], Export(db, ks + [k])) ==
        if |v| == 2 then WithNumDen(r, v[1], v[0], DecodeFloat(db[k]), DenomOf(db, v[1])) else r
  {
    ExportSnoc(db, ks, k);
    var v := DecodeKey(k);
    if |v| == 2 {
      var a := Export(db, ks);
      var rec := Record(v[1], v[0], DecodeFloat(db[k]), DenomOf(db, v[1]));
      assert (a + [rec])[..|a|] == a;
    }
  }

  lemma {:induction false} ReloadPrefix(db: Db, ks: seq<Bytes>)
    requires Shaped(db)
    requires forall k :: k in ks ==> k in db
    ensures Restores(db, ks, Loaded(map[], Export(db, ks)))
    decreases |ks|
  {
    if ks != [] {
      var k := ks[|ks| - 1];
      var ks' := ks[..|ks| - 1];
      assert ks == ks' + [k];
      ReloadPrefix(db, ks');
      ReloadSnoc(db, ks', k);
      var r := Loaded(map[], Export(db, ks'));
      if |DecodeKey(k)| == 2 {
        RestoresStep(db, ks', r, k);
      } else {
        RestoresSkip(db, ks', r, k);
      }
    }
  }

  /**
   * Reloading an export of all keys restores every numerator entry:
   * printBin followed by loadBin gives back the same two-index keys with
   * the same values.
   */
  lemma ReloadRestoresNumer(db: Db, keys: seq<Bytes>, k: Bytes)
    requires Shaped(db)
    requires forall j :: j in keys <==> j in db
    requires |k| == 2 * BYTES
    ensures var r := Loaded(map[], Export(db, keys));
      (k in r <==> k in db) && (k in db ==> r[k] == db[k])
  {
    ReloadPrefix(db, keys);
  }

  /** Some key among ks has two indices and source s: printBin writes a record for s. */
  predicate ExportsSource(ks: seq<Bytes>, s: WordIndex)
    requires forall k :: k in ks ==> |k| % BYTES == 0
  {
    exists j :: 0 <= j < |ks| && |DecodeKey(ks[j])| == 2 && DecodeKey(ks[j])[1] == s
  }

  /** One more key exports source s when the earlier ones did or it is a two-index key for s. */
  lemma ExportsSourceSnoc(ks: seq<Bytes>, k: Bytes, s: WordIndex)
    requires forall j :: j in ks ==> |j| % BYTES == 0
    requires |k| % BYTES == 0
    ensures ExportsSource(ks + [k], s) <==>
      ExportsSource(ks, s) || (|DecodeKey(k)| == 2 && DecodeKey(k)[1] == s)
  {
    var ks2 := ks + [k];
    assert ks2[|ks|] == k;
    if ExportsSource(ks, s) {
      var j :| 0 <= j < |ks| && |DecodeKey(ks[j])| == 2 && DecodeKey(ks[j])[1] == s;
      assert ks2[j] == ks[j];
    }
    if ExportsSource(ks2, s) {
      var j :| 0 <= j < |ks2| && |DecodeKey(ks2[j])| == 2 && DecodeKey(ks2[j])[1] == s;
      if j < |ks| {
        assert ks[j] == ks2[j];
      }
    }
  }

  /** setLexNumDen(a, b, ...) adds the denominator key of a and no other denominator key. */
  lemma DenomAfterRecord(r: Db, s: WordIndex, a: WordIndex, b: WordIndex, num: FloatBits, den: FloatBits)
    ensures DenomKey(s) in WithNumDen(r, a, b, num, den) <==> DenomKey(s) in r || a == s
  {
    KeysDistinct(s, a, b, s, b);
  }

  /** Reloading an export writes the denominator of s exactly when a record for s was written. */
  lemma {:induction false} ReloadDenomPresent(db: Db, ks: seq<Bytes>, s: WordIndex)
    requires Readable(db)
    requires forall k :: k in ks ==> k in db
    ensures DenomKey(s) in Loaded(map[], Export(db, ks)) <==> ExportsSource(ks, s)
    decreases |ks|
  {
    if ks != [] {
      var k := ks[|ks| - 1];
      var ks' := ks[..|ks| - 1];
      assert ks == ks' + [k];
      ReloadDenomPresent(db, ks', s);
      ReloadSnoc(db, ks', k);
      ExportsSourceSnoc(ks', k, s);
      var v := DecodeKey(k);
      if |v| == 2 {
        DenomAfterRecord(Loaded(map[], Export(db, ks')), s, v[1], v[0], DecodeFloat(db[k]), DenomOf(db, v[1]));
      }
    }
  }

  /**
   * A printBin/loadBin round trip keeps the denominator of s exactly when
   * s has some numerator entry: denominators without one are lost.
   */
  lemma ReloadDenomsExist(db: Db, keys: seq<Bytes>, s: WordIndex)
    requires Shaped(db)
    requires forall j :: j in keys <==> j in db
    ensures DenomKey(s) in Loaded(map[], Export(db, keys)) <==> exists t: WordIndex :: NumerKey(s, t) in db
  {
    ReloadDenomPresent(db, keys, s);
    if ExportsSource(keys, s) {
      var j :| 0 <= j < |keys| && |DecodeKey(keys[j])| == 2 && DecodeKey(keys[j])[1] == s;
      TwoIndexKey(db, keys[j]);
      assert NumerKey(s, DecodeKey(keys[j])[0]) in db;
    }
    if t: WordIndex :| NumerKey(s, t) in db {
      var j := IndexOf(keys, NumerKey(s, t));
      NumerKeyDecodes(s, t);
      assert |DecodeKey(keys[j])| == 2 && DecodeKey(keys[j])[1] == s;
    }
  }

  /**
   * Every denominator reloading an export writes is the original one, or
   * the encoding of 0 for a source that had none.
   */
  lemma ReloadRestoresDenom(db: Db, keys: seq<Bytes>, s: WordIndex)
    requires Shaped(db)
    requires forall j :: j in keys <==> j in db
    ensures var r := Loaded(map[], Export(db, keys));
      DenomKey(s) in r ==> r[DenomKey(s)] == if DenomKey(s) in db then db[DenomKey(s)] else EncodeFloat(0)
  {
    ReloadPrefix(db, keys);
    var r := Loaded(map[], Export(db, keys));
    assert DenomKey(s) in r ==> r[DenomKey(s)] == DenomBytes(db, s);
  }
}
