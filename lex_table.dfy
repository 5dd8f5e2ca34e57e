/**
 * IncrLexLevelDbTable: the table of lexical numerators and denominators of
 * an incremental alignment model, kept in a LevelDB store.
 *
 * The object holds the handle of the open store (isOpen stands for a
 * non-null db pointer), the directory name of the store, and, in the model,
 * the contents the handle sees. What the storage engine reports (an open
 * that fails, a destroy that fails, a file that cannot be written) comes in
 * as parameters; files on disk come in as maps from path to contents.
 */
module LexTable {
  import opened LexOrder
  import opened Codec
  import opened Store
  import opened LexStore

  /** THOT_OK, THOT_ERROR, or the process ending through exit(code). */
  datatype Outcome = Ok | Error | Exited(code: int)

  /** Suffix of the store's directory (line 35). */
  const LDB_EXTENSION: string := "_ldb_hmm_lexnd"
  /** Suffix of the binary interchange file (line 36). */
  const DEFAULT_EXTENSION: string := ".hmm_lexnd"

  /** The outcome of init: the open's status, then clear's exits (lines 61-74, 521-539). */
  function InitOutcome(openOk: bool, destroyOk: bool, createOk: bool): Outcome
  {
    if !openOk then Error
    else if !destroyOk then Exited(2)
    else if !createOk then Exited(3)
    else Ok
  }

  class IncrLexLevelDbTable {
    var db: Db
    var isOpen: bool
    var dbName: string

    /** What every read needs of the store: whole chunks in keys, a float in values. */
    ghost predicate Valid()
      reads this
    {
      Readable(db)
    }

    /** No store yet and an empty name (lines 32-45). */
    constructor()
      ensures Valid()
      ensures db == map[] && !isOpen && dbName == ""
    {
      db := map[];
      isOpen := false;
      dbName := "";
    }

    /**
     * drop (lines 78-98): closes the handle and destroys the store; a
     * failed destroy reports an error and leaves the contents as they were.
     */
    method Drop(destroyOk: bool) returns (r: Outcome)
      requires Valid()
      modifies this
      ensures Valid()
      ensures !isOpen && dbName == old(dbName)
      ensures destroyOk ==> r == Ok && db == map[]
      ensures !destroyOk ==> r == Error && db == old(db)
    {
      isOpen := false;
      if destroyOk {
        db := map[];
        r := Ok;
      } else {
        r := Error;
      }
    }

    /**
     * clear (lines 519-541): without a name nothing happens; otherwise the
     * store is dropped and created again empty, and the process exits with
     * code 2 when the drop fails and with code 3 when the creation fails.
     */
    method Clear(destroyOk: bool, createOk: bool) returns (r: Outcome)
      requires Valid()
      modifies this
      ensures Valid()
      ensures dbName == old(dbName)
      ensures old(dbName) == "" ==> r == Ok && db == old(db) && isOpen == old(isOpen)
      ensures old(dbName) != "" ==> r == InitOutcome(true, destroyOk, createOk)
      ensures old(dbName) != "" && destroyOk ==> db == map[]
      ensures old(dbName) != "" ==> (isOpen <==> r == Ok)
    {
      r := Ok;
      if |dbName| > 0 {
        var dropStatus := Drop(destroyOk);
        if dropStatus == Error {
          return Exited(2);
        }
        if !createOk {
          return Exited(3);
        }
        isOpen := true;
      }
    }

    /**
     * init (lines 48-75): names the store after the prefix, closes any old
     * handle, opens the store and clears it. An open that fails is an
     * error and leaves no handle.
     */
    method Init(prefFileName: string, openOk: bool, destroyOk: bool, createOk: bool) returns (r: Outcome)
      requires Valid()
      modifies this
      ensures Valid()
      ensures dbName == prefFileName + LDB_EXTENSION
      ensures r == InitOutcome(openOk, destroyOk, createOk)
      ensures r == Ok <==> isOpen
      ensures !openOk ==> db == old(db)
      ensures openOk && destroyOk ==> db == map[]
    {
      dbName := prefFileName + LDB_EXTENSION;
      isOpen := false;
      if openOk {
        isOpen := true;
        r := Clear(destroyOk, createOk);
      } else {
        r := Error;
      }
    }

    /**
     * loadLevelDb (lines 374-402): closes any old handle and opens the
     * store named after the file without creating it; it succeeds exactly
     * when that store exists, and then the handle sees its contents.
     */
    method LoadLevelDb(lexNumDenFile: string, disk: map<string, Db>) returns (r: Outcome)
      requires forall name :: name in disk ==> Readable(disk[name])
      requires Valid()
      modifies this
      ensures Valid()
      ensures dbName == lexNumDenFile + LDB_EXTENSION
      ensures dbName in disk ==> r == Ok && isOpen && db == disk[dbName]
      ensures dbName !in disk ==> r == Error && !isOpen && db == old(db)
    {
      isOpen := false;
      dbName := lexNumDenFile + LDB_EXTENSION;
      if dbName in disk {
        db := disk[dbName];
        isOpen := true;
        r := Ok;
      } else {
        r := Error;
      }
    }

    /**
     * loadBin (lines 326-371): prepares an empty store with init (whose
     * outcome it does not check), then applies setLexNumDen to every
     * record of the binary file, in file order. A missing file is an
     * error; the exits of clear end everything.
     */
    method LoadBin(lexNumDenFile: string, openOk: bool, destroyOk: bool, createOk: bool,
                   files: map<string, seq<Record>>) returns (r: Outcome)
      requires Valid()
      requires !openOk && lexNumDenFile + DEFAULT_EXTENSION in files ==> files[lexNumDenFile + DEFAULT_EXTENSION] == []
      modifies this
      ensures Valid()
      ensures dbName == lexNumDenFile + LDB_EXTENSION
      ensures InitOutcome(openOk, destroyOk, createOk).Exited? ==> r == InitOutcome(openOk, destroyOk, createOk)
      ensures !InitOutcome(openOk, destroyOk, createOk).Exited? ==>
        var binFile := lexNumDenFile + DEFAULT_EXTENSION;
        && (binFile !in files ==> r == Error)
        && (binFile in files ==> r == Ok && db == Loaded(if openOk then map[] else old(db), files[binFile]))
        && (isOpen <==> openOk)
      ensures openOk && destroyOk && createOk && lexNumDenFile + DEFAULT_EXTENSION !in files ==>
        db == map[] && isOpen
    {
      var binFile := lexNumDenFile + DEFAULT_EXTENSION;
      isOpen := false;
      r := Init(lexNumDenFile, openOk, destroyOk, createOk);
      if r.Exited? {
        return;
      }
      if binFile !in files {
        return Error;
      }
      var recs := files[binFile];
      ghost var db0 := db;
      var n := 0;
      while n < |recs|
        invariant n <= |recs|
        invariant isOpen == openOk && dbName == lexNumDenFile + LDB_EXTENSION
        invariant Valid()
        invariant db == Loaded(db0, recs[..n])
      {
        var rec := recs[n];
        assert recs[..n + 1][..n] == recs[..n];
        SetLexNumDen(rec.s, rec.t, rec.numer, rec.denom);
        n := n + 1;
      }
      assert recs[..n] == recs;
      r := Ok;
    }

    /**
     * load (lines 310-323): the store itself if it exists, otherwise the
     * binary file.
     */
    method Load(lexNumDenFile: string, disk: map<string, Db>, openOk: bool, destroyOk: bool, createOk: bool,
                files: map<string, seq<Record>>) returns (r: Outcome)
      requires forall name :: name in disk ==> Readable(disk[name])
      requires Valid()
      requires !openOk && lexNumDenFile + DEFAULT_EXTENSION in files ==> files[lexNumDenFile + DEFAULT_EXTENSION] == []
      modifies this
      ensures Valid()
      ensures dbName == lexNumDenFile + LDB_EXTENSION
      ensures dbName in disk ==> r == Ok && isOpen && db == disk[dbName]
      ensures dbName !in disk && InitOutcome(openOk, destroyOk, createOk).Exited? ==>
        r == InitOutcome(openOk, destroyOk, createOk)
      ensures dbName !in disk && !InitOutcome(openOk, destroyOk, createOk).Exited? ==>
        var binFile := lexNumDenFile + DEFAULT_EXTENSION;
        && (binFile !in files ==> r == Error)
        && (binFile in files ==> r == Ok && db == Loaded(if openOk then map[] else old(db), files[binFile]))
        && (isOpen <==> openOk)
      ensures dbName !in disk && openOk && destroyOk && createOk && lexNumDenFile + DEFAULT_EXTENSION !in files ==>
        db == map[] && isOpen
    {
      r := LoadLevelDb(lexNumDenFile, disk);
      if r == Error {
        r := LoadBin(lexNumDenFile, openOk, destroyOk, createOk, files);
      }
    }

    /**
     * retrieveData (lines 179-192): a present key gives true and its
     * float; a missing key gives false and 0.
     */
    method RetrieveData(phrase: seq<WordIndex>) returns (found: bool, value: FloatBits)
      requires Valid() && isOpen
      ensures found <==> EncodeKey(phrase) in db
      ensures found ==> value == DecodeFloat(db[EncodeKey(phrase)])
      ensures !found ==> value == 0
    {
      value := 0;
      var key := VectorToString(phrase);
      if key in db {
        found, value := StringToFloat(db[key]);
      } else {
        found := false;
      }
    }

    /** storeData (lines 195-207): one put of the phrase's key and the float's encoding. */
    method StoreData(phrase: seq<WordIndex>, value: FloatBits) returns (ok: bool)
      requires Valid() && isOpen
      modifies this
      ensures Valid() && isOpen && dbName == old(dbName)
      ensures ok && db == Stored(old(db), phrase, value)
    {
      var valueStr := FloatToString(value);
      var key := VectorToString(phrase);
      StoredReadable(db, phrase, value);
      db := db[key := valueStr];
      ok := true;
    }

    /** setLexNumer (lines 210-222): the numerator of (s, t) goes under the key [t, s]. */
    method SetLexNumer(s: WordIndex, t: WordIndex, f: FloatBits)
      requires Valid() && isOpen
      modifies this
      ensures Valid() && isOpen && dbName == old(dbName)
      ensures db == old(db)[NumerKey(s, t) := EncodeFloat(f)]
    {
      var _ := StoreData([t, s], f);
    }

    /** getLexNumer (lines 225-237). */
    method GetLexNumer(s: WordIndex, t: WordIndex) returns (lexNumer: FloatBits, found: bool)
      requires Valid() && isOpen
      ensures found <==> NumerKey(s, t) in db
      ensures lexNumer == if found then DecodeFloat(db[NumerKey(s, t)]) else 0
    {
      found, lexNumer := RetrieveData([t, s]);
    }

    /** setLexDenom (lines 240-247): the denominator of s goes under the key [s]. */
    method SetLexDenom(s: WordIndex, d: FloatBits)
      requires Valid() && isOpen
      modifies this
      ensures Valid() && isOpen && dbName == old(dbName)
      ensures db == old(db)[DenomKey(s) := EncodeFloat(d)]
    {
      var _ := StoreData([s], d);
    }

    /** getLexDenom (lines 250-260). */
    method GetLexDenom(s: WordIndex) returns (lexDenom: FloatBits, found: bool)
      requires Valid() && isOpen
      ensures found <==> DenomKey(s) in db
      ensures lexDenom == if found then DecodeFloat(db[DenomKey(s)]) else 0
    {
      found, lexDenom := RetrieveData([s]);
    }

    /** setLexNumDen (lines 300-307): the denominator first, then the numerator. */
    method SetLexNumDen(s: WordIndex, t: WordIndex, num: FloatBits, den: FloatBits)
      requires Valid() && isOpen
      modifies this
      ensures Valid() && isOpen && dbName == old(dbName)
      ensures db == WithNumDen(old(db), s, t, num, den)
    {
      SetLexDenom(s, den);
      SetLexNumer(s, t, num);
    }

    /**
     * The loop of getTransForTarget once Seek has placed the iterator at
     * position first (lines 283-290): while the key is below the upper
     * bound, decode it and insert its last index if it has more than one.
     */
    static method ScanFrom(keys: seq<Bytes>, first: nat, t: WordIndex, endStr: Bytes) returns (i: nat, transSet: set<WordIndex>)
      requires forall k :: k in keys ==> |k| % BYTES == 0
      requires first <= |keys|
      requires forall j :: first <= j < |keys| ==> !LexLess(keys[j], EncodeKey([t]))
      requires Collected(keys, first, t) == {}
      requires endStr == EncodeKey([(t + 1) % WORD_RANGE])
      ensures first <= i <= |keys| && transSet == Collected(keys, i, t)
      ensures i < |keys| ==> !LexLess(keys[i], endStr)
    {
      i := first;
      transSet := {};
      while i < |keys| && LexLess(keys[i], endStr)
        invariant first <= i <= |keys|
        invariant transSet == Collected(keys, i, t)
      {
        var vec := StringToVector(keys[i]);
        CollectedStep(keys, i, t);
        if |vec| > 1 {
          transSet := transSet + {vec[|vec| - 1]};
        }
        i := i + 1;
      }
    }

    /**
     * getTransForTarget (lines 263-297): scans the keys from [t] up to,
     * not including, [t + 1] (t + 1 computed modulo 2^32) and collects the
     * last index of every key of more than one index. The result is
     * whether anything was found and the iterator ended without error.
     */
    method GetTransForTarget(t: WordIndex, statusOk: bool) returns (result: bool, transSet: set<WordIndex>)
      requires Valid() && isOpen
      ensures transSet == Targets(db, t)
      ensures result == (transSet != {} && statusOk)
      ensures t + 1 < WORD_RANGE && Shaped(db) ==> forall s: WordIndex :: s in transSet <==> NumerKey(s, t) in db
      ensures t == WORD_RANGE - 1 ==> transSet == {}
    {
      var startStr := VectorToString([t]);
      var endStr := VectorToString([(t + 1) % WORD_RANGE]);
      var keys := SortedKeys(db);
      assert forall k :: k in keys ==> |k| % BYTES == 0;
      transSet := {};
      var i := Seek(keys, startStr);
      CollectedBelow(keys, i, t);
      SortedAbove(keys, startStr, i);
      i, transSet := ScanFrom(keys, i, t, endStr);
      ScanComplete(db, keys, i, t);
      if t + 1 < WORD_RANGE && Shaped(db) {
        TargetsExact(db, t);
      }
      if t == WORD_RANGE - 1 {
        TargetsOfLastIndex(db);
      }
      result := transSet != {} && statusOk;
    }

    /**
     * printBin (lines 415-465): visits every key in order and writes, for
     * each key [t, s] of two indices, the record (s, t, its numerator, the
     * denominator of s or 0). A file that cannot be opened is an error.
     */
    method PrintBin(lexNumDenFile: string, fileOk: bool) returns (r: Outcome, binFile: string, out: seq<Record>, ghost keys: seq<Bytes>)
      requires Valid() && isOpen
      ensures binFile == lexNumDenFile + DEFAULT_EXTENSION
      ensures !fileOk ==> r == Error && out == []
      ensures fileOk ==> r == Ok && Sorted(keys) && (forall k :: k in keys <==> k in db) && out == Export(db, keys)
    {
      binFile := lexNumDenFile + DEFAULT_EXTENSION;
      out := [];
      keys := [];
      if !fileOk {
        return Error, binFile, out, keys;
      }
      var ks := SortedKeys(db);
      keys := ks;
      for i := 0 to |ks|
        invariant out == Export(db, ks[..i])
      {
        var k := ks[i];
        assert ks[..i + 1][..i] == ks[..i];
        var vec := StringToVector(k);
        if |vec| == 2 {
          var s, t := vec[1], vec[0];
          var _, numer := StringToFloat(db[k]);
          var denom, found := GetLexDenom(s);
          out := out + [Record(s, t, numer, denom)];
        }
      }
      assert ks[..|ks|] == ks;
      r := Ok;
    }
  }
}
