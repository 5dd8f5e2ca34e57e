# Lexical numerator/denominator table over LevelDB

This project models `IncrLexLevelDbTable`, thot's table of lexical
numerators and denominators kept in a LevelDB store. It proves
properties of that model in Dafny.

The table keeps two kinds of entry:

- for a source word `s`, its denominator under the one-index key `[s]`;
- for a pair `(s, t)`, its numerator under the key `[t, s]`, target first.

Target first means that every pair with the same target `t` is a
contiguous range of the byte-ordered key space. `getTransForTarget(t)`
reads that range with a single iterator scan.

## Module map

- `LexOrder` (`lex_order.dfy`): the unsigned byte-lexicographic order used
  by LevelDB's comparator and `std::string::operator<`.
- `Codec` (`codec.dfy`): the fixed-width codec.
  - Keys: `vectorToString` / `stringToVector`.
  - Values: `floatToString` / `stringToFloat`.
  - Each is a function with its round-trip, order and range lemmas, plus
    the source's loops as methods proved to compute those functions.
- `Store` (`store.dfy`): the store as a finite map from byte strings to
  byte strings. Its iterator is modelled as two methods:
  - `SortedKeys`: every key, once, in increasing order;
  - `Seek`: the first position that is not below a target.
- `LexStore` (`lex_store.dfy`): functions that specify the table's
  operations on the stored map, and lemmas about them. They state what
  each operation writes, the prefix scan, the loading fold and the
  export.
- `LexTable` (`lex_table.dfy`): the class `IncrLexLevelDbTable`.
  - Fields: store contents `db`, `isOpen` (a non-null `db` pointer) and
    `dbName`.
  - One method per member function of the source, each specified against
    the `LexStore` functions.

## Modelling notes

- **Digits.** A word index is written as `BYTES` digits in base `BASE`,
  most significant first, each stored plus one so that no byte is zero.
- **Constants.** The header defining `WORD_INDEX_MODULO_BASE` and
  `WORD_INDEX_MODULO_BYTES` is not part of this model. The model takes
  `BASE = 254` and `BYTES = 5`. The proofs use only what `Codec.Radix`
  states about the two constants. One of those facts is
  `BASE^(BYTES-1) < 2^32`. The source casts each weight
  `pow(WORD_INDEX_MODULO_BASE, j)` to `unsigned int` (lines 107, 125, 153
  and 170), and the model's exact `Power(j)` is that weight only under
  this bound. For 254 and 5 it holds: 254^4 = 4 162 314 256.
- **Key length.** The comment at line 121 of the source says an
  encoding is `BYTES*n+1` bytes long. The encoder emits exactly
  `BYTES*n` bytes (no terminator), and the model follows the code:
  `Codec.EncodeKey` ensures `|r| == BYTES * |v|`.
- **Unsigned decoding.** `stringToVector` and `stringToFloat` accumulate
  in an unsigned 32-bit integer, so a byte 0 contributes `-1` times its
  weight modulo 2^32. `Codec.DecodeIndex` reduces modulo 2^32 explicitly.
- **Aliases.** `vectorToKey` and `keyToVector` (lines 135-144) are aliases
  of `vectorToString` and `stringToVector`, and are modelled by the same
  members.
- **Floats.** A float is handled only through its 32-bit pattern
  (`FloatBits`), which is what the encoder reads.
- **Upper scan bound.** `getTransForTarget(t)` computes `t + 1` in
  32-bit arithmetic. For `t = 2^32 - 1` the upper bound wraps to `[0]`,
  the scan range is empty, and the result is `false`. The contract
  states this case (`Targets(db, 2^32 - 1) == {}`).
- **Engine statuses.**
  - Most of what the engine reports is a boolean parameter: `openOk`,
    `destroyOk`, `createOk`, `fileOk` and the iterator status `statusOk`.
  - A store on disk is a `map<string, Db>` from directory name to
    contents. In `loadLevelDb`, the open succeeds exactly when the name is
    in that map. A store that exists but fails to open is therefore
    modelled as absent.
  - A binary file is a `map<string, seq<Record>>` from path to its
    records.
  - `exit(2)` and `exit(3)` are the outcome `Exited(code)`.

## Model

| member | source | states |
|---|---|---|
| Codec.Radix | src/sw_models/IncrLexLevelDbTable.cc:104-108 | the digit base leaves room for the +1 in a byte (2 <= BASE <= 255), BYTES digits hold every 32-bit index (BASE^BYTES >= 2^32), and every weight cast to unsigned int fits (BASE^(BYTES-1) < 2^32) |
| Codec.Digit | src/sw_models/IncrLexLevelDbTable.cc:107 | each written byte, 1 + (x / BASE^j) % BASE, lies in 1..BASE, so no byte is zero |
| Codec.DigitsAt | src/sw_models/IncrLexLevelDbTable.cc:106-108 | byte i of the n-digit encoding is 1 + the digit of weight BASE^(n-1-i): most significant first |
| Codec.ValueOfDigits | src/sw_models/IncrLexLevelDbTable.cc:123-126 | the weighted sum of (byte - 1) over an n-digit encoding of x gives back x modulo BASE^n |
| Codec.DigitOrder | src/sw_models/IncrLexLevelDbTable.cc:106-108 | two equally long digit strings compare byte-lexicographically exactly as their values compare |
| Codec.EncodeIndex | src/sw_models/IncrLexLevelDbTable.cc:104-108 | one index is BYTES bytes, each in 1..BASE |
| Codec.IndexRoundTrip | src/sw_models/IncrLexLevelDbTable.cc:104-129 | decoding one index's bytes gives the index back |
| Codec.IndexOrder | src/sw_models/IncrLexLevelDbTable.cc:104-108 | one index's encoding is byte-ordered exactly as the indices are numerically ordered (both directions) |
| Codec.IndexInjective | src/sw_models/IncrLexLevelDbTable.cc:104-108 | distinct indices have distinct encodings |
| Codec.EncodeKey | src/sw_models/IncrLexLevelDbTable.cc:101-114 | a key of n indices is BYTES*n bytes, every byte in 1..BASE |
| Codec.KeyRoundTrip | src/sw_models/IncrLexLevelDbTable.cc:101-132 | stringToVector(vectorToString(v)) == v |
| Codec.KeyInjective | src/sw_models/IncrLexLevelDbTable.cc:101-114 | distinct keys have distinct byte strings |
| Codec.KeyOrder | src/sw_models/IncrLexLevelDbTable.cc:101-114 | byte order of encoded keys is exactly lexicographic order of the index sequences (both directions) |
| Codec.PrefixRange | src/sw_models/IncrLexLevelDbTable.cc:268-283 | when t + 1 does not wrap, an encoded key is in [enc([t]), enc([t+1])) iff its first index is t |
| Codec.EncodeFloat | src/sw_models/IncrLexLevelDbTable.cc:163-176 | a value is BYTES bytes, none of them zero |
| Codec.FloatRoundTrip | src/sw_models/IncrLexLevelDbTable.cc:147-176 | stringToFloat(floatToString(f)) gives back the 32-bit pattern f |
| Codec.AppendIndexDigits | src/sw_models/IncrLexLevelDbTable.cc:106-108 | the inner digit loop appends exactly the index's BYTES-byte encoding |
| Codec.ChunkToIndex | src/sw_models/IncrLexLevelDbTable.cc:121-127 | the inner decoding loop computes the chunk's index in unsigned 32-bit arithmetic |
| Codec.VectorToString | src/sw_models/IncrLexLevelDbTable.cc:101-114 | the encoding loop returns the key's encoding |
| Codec.StringToVector | src/sw_models/IncrLexLevelDbTable.cc:117-132 | the decoding loop returns one index per chunk of BYTES bytes |
| Codec.FloatToString | src/sw_models/IncrLexLevelDbTable.cc:163-176 | the float's BYTES-byte encoding |
| Codec.StringToFloat | src/sw_models/IncrLexLevelDbTable.cc:147-160 | always reports success, with the pattern read from the first BYTES bytes |
| LexOrder.Total | src/sw_models/IncrLexLevelDbTable.cc:283 | distinct byte strings are ordered one way or the other, so the iterator order is total |
| LexOrder.Transitive | src/sw_models/IncrLexLevelDbTable.cc:283 | the key order is transitive |
| LexOrder.AppendEqualLength | src/sw_models/IncrLexLevelDbTable.cc:101-114 | concatenations with equally long first parts compare by the first parts, then by the rest |
| Store.SortedKeys | src/sw_models/IncrLexLevelDbTable.cc:439 | iterating from SeekToFirst visits every key of the store exactly once, in increasing order |
| Store.Seek | src/sw_models/IncrLexLevelDbTable.cc:283 | Seek stops at the first key that is not below the target; every key before it is below the target |
| Store.SortedAbove | src/sw_models/IncrLexLevelDbTable.cc:283 | after Seek, no later key is below the target |
| LexStore.KeysDistinct | src/sw_models/IncrLexLevelDbTable.cc:214-219 | a denominator key never equals a numerator key; numerator keys are equal iff (s, t) are; denominator keys iff s is |
| LexStore.LookupStored | src/sw_models/IncrLexLevelDbTable.cc:179-207 | after storeData(phrase, f), a lookup of the phrase gives (true, f) and every other key reads as before; a missing key reads (false, 0) |
| LexStore.LookupNumDen | src/sw_models/IncrLexLevelDbTable.cc:300-307 | after setLexNumDen(s, t, n, d), getLexNumer(s, t) reads (true, n), getLexDenom(s) reads (true, d), and no other key changes |
| LexStore.StoredShaped | src/sw_models/IncrLexLevelDbTable.cc:195-207 | writing a one- or two-index key keeps every key a valid one- or two-index encoding and every value a float encoding |
| LexStore.TargetsExact | src/sw_models/IncrLexLevelDbTable.cc:263-297 | in a Shaped store (every key a canonical one- or two-index encoding, every value a float), for t + 1 < 2^32, the sources found for t are exactly the s with a numerator entry [t, s] (both directions) |
| LexStore.TargetsOfLastIndex | src/sw_models/IncrLexLevelDbTable.cc:271 | for t = 2^32 - 1 the bound t + 1 wraps and no source is found |
| LexStore.CollectedAll | src/sw_models/IncrLexLevelDbTable.cc:283-290 | collecting over every key of the store, in any order, gives Targets(db, t): the last index of every key of more than one index in the byte range [enc([t]), enc([(t+1) mod 2^32])) |
| LexStore.ScanComplete | src/sw_models/IncrLexLevelDbTable.cc:283-290 | a sorted scan that stops at the first key not below enc([t+1]) has collected everything a full scan would |
| LexStore.LoadedFrame | src/sw_models/IncrLexLevelDbTable.cc:351-368 | loading records writes only their keys; every other key keeps its value |
| LexStore.LoadedNumer | src/sw_models/IncrLexLevelDbTable.cc:351-368 | the last record for (s, t) decides its numerator: the last write wins |
| LexStore.LoadedDenom | src/sw_models/IncrLexLevelDbTable.cc:351-368 | the last record for s decides its denominator |
| LexStore.ExportSound | src/sw_models/IncrLexLevelDbTable.cc:439-458 | every record printBin writes comes from a visited key [t, s], with the stored numerator and the denominator of s or 0 |
| LexStore.ExportOrdered | src/sw_models/IncrLexLevelDbTable.cc:439-458 | records are written in strictly increasing (t, s) order |
| LexStore.ReloadRestoresNumer | src/sw_models/IncrLexLevelDbTable.cc:326-371 | loading the records printBin writes restores exactly the store's numerator entries, with their values |
| LexStore.ReloadRestoresDenom | src/sw_models/IncrLexLevelDbTable.cc:415-465 | every denominator written by reloading an export is the stored one, or 0 for a source that had none |
| LexStore.ReloadDenomPresent | src/sw_models/IncrLexLevelDbTable.cc:351-368 | reloading the records of keys ks writes the denominator of s exactly when some two-index key among ks has source s |
| LexStore.ReloadDenomsExist | src/sw_models/IncrLexLevelDbTable.cc:443-457 | after a printBin/loadBin round trip, s has a denominator exactly when it has some numerator [t, s]; denominators of sources without a numerator are lost |
| LexTable.IncrLexLevelDbTable.constructor | src/sw_models/IncrLexLevelDbTable.cc:32-45 | no store is open, the store is empty and the name is empty |
| LexTable.IncrLexLevelDbTable.Drop | src/sw_models/IncrLexLevelDbTable.cc:78-98 | the handle is closed; a successful destroy empties the store and gives OK; a failed one gives ERROR and changes nothing |
| LexTable.IncrLexLevelDbTable.Clear | src/sw_models/IncrLexLevelDbTable.cc:519-541 | with an empty name, nothing changes; otherwise the store is empty and open, or the process exits with 2 (destroy failed) or 3 (create failed) |
| LexTable.IncrLexLevelDbTable.Init | src/sw_models/IncrLexLevelDbTable.cc:48-75 | dbName becomes prefix + "_ldb_hmm_lexnd"; a failed open is ERROR with no handle; otherwise clear runs and the store is empty |
| LexTable.IncrLexLevelDbTable.LoadLevelDb | src/sw_models/IncrLexLevelDbTable.cc:374-402 | opens prefix + "_ldb_hmm_lexnd" without creating it: OK with its contents if it exists, else ERROR with no handle |
| LexTable.IncrLexLevelDbTable.LoadBin | src/sw_models/IncrLexLevelDbTable.cc:326-371 | after init, the store is the fold of setLexNumDen over the file's records; a missing file is ERROR, and when init succeeded it leaves the old store destroyed and an empty one open; init's exits propagate |
| LexTable.IncrLexLevelDbTable.Load | src/sw_models/IncrLexLevelDbTable.cc:310-323 | the existing store if there is one, otherwise the outcome, contents and open handle of loadBin, including the emptied store when the binary file is missing |
| LexTable.IncrLexLevelDbTable.RetrieveData | src/sw_models/IncrLexLevelDbTable.cc:179-192 | true with the decoded value iff the phrase's key is present; a miss gives false and 0 |
| LexTable.IncrLexLevelDbTable.StoreData | src/sw_models/IncrLexLevelDbTable.cc:195-207 | puts the float's encoding under the phrase's key and nothing else |
| LexTable.IncrLexLevelDbTable.SetLexNumer | src/sw_models/IncrLexLevelDbTable.cc:210-222 | writes the numerator under the key [t, s] and no other key |
| LexTable.IncrLexLevelDbTable.GetLexNumer | src/sw_models/IncrLexLevelDbTable.cc:225-237 | found iff [t, s] is present; the value is its decoded float, or 0 |
| LexTable.IncrLexLevelDbTable.SetLexDenom | src/sw_models/IncrLexLevelDbTable.cc:240-247 | writes the denominator under the key [s] and no other key |
| LexTable.IncrLexLevelDbTable.GetLexDenom | src/sw_models/IncrLexLevelDbTable.cc:250-260 | found iff [s] is present; the value is its decoded float, or 0 |
| LexTable.IncrLexLevelDbTable.SetLexNumDen | src/sw_models/IncrLexLevelDbTable.cc:300-307 | the store after setLexDenom(s, den) followed by setLexNumer(s, t, num) |
| LexTable.IncrLexLevelDbTable.ScanFrom | src/sw_models/IncrLexLevelDbTable.cc:283-290 | the scan loop stops at the first key not below the upper bound, having collected the last index of every key of more than one index |
| LexTable.IncrLexLevelDbTable.GetTransForTarget | src/sw_models/IncrLexLevelDbTable.cc:263-297 | transSet is the set of sources s with a key [t, s]; it excludes the entry [t]; the result is "set non-empty and iterator status OK"; it is empty when t = 2^32 - 1 |
| LexTable.IncrLexLevelDbTable.PrintBin | src/sw_models/IncrLexLevelDbTable.cc:415-465 | writes prefix + ".hmm_lexnd"; an unwritable file is ERROR with no output; otherwise the records of every two-index key, in key order |

## Left out

- LevelDB internals are not modelled, because they do not change what the table stores or reads:
  - the bloom filter, the block cache and `max_open_files`;
  - `create_if_missing` and the `fill_cache` read option.
- The engine's outcomes are inputs to the model, because its behaviour is outside the source:
  - whether open, destroy, create or a file open succeeds is a boolean parameter;
  - the iterator's final status is the parameter `statusOk`.
- Persistence is reduced to the disk map:
  - Init and Clear empty the contents the handle sees;
  - a store reopened by name is read from that map;
  - writes to the directory on disk are not tracked.
- File streams and byte layout are out of scope, because they are I/O:
  - a binary file is the sequence of its records;
  - the byte layout of a record and the `reinterpret_cast` of floats are not modelled;
  - floats are their 32-bit patterns.
- A trailing record that is cut short in the binary file is not modelled, because the model's files hold whole records only.
- `print` and `printPlainText` (lines 405-412, 468-516) are left out: `print` only dispatches on a compile-time flag, and `printPlainText` formats floats as text.
- The destructor (lines 544-554) is left out, because it only releases the handle.
- Messages written to `std::cerr` are left out, because they are output only.
- StoreData: does not model a failed write batch; in the model it always reports success, where the source returns the write's status.
- RetrieveData: does not model a `Get` that fails for a reason other than a missing key, such as an I/O error. In the source such a failure also gives false and 0.
- LoadBin: requires that, when init failed to open the store, the binary file is absent or empty. The source would dereference a null `db` when it writes the first record.
- Valid: every read requires value strings of at least BYTES bytes and keys made of whole chunks. The source reads past the end of a shorter string, and the table only ever writes such strings.
- GetTransForTarget: the set of sources is stated exactly only for stores of the table's own shape (`Shaped`) and for t + 1 below 2^32; for other stores it is stated as the set of last indices of the keys in the scan range.
- GetTransForTarget: an iterator error is assumed not to cut the scan short. The scan always covers the whole range, and `statusOk` only decides the result. In the source, an error makes `Valid()` false and can stop the loop at line 283 early, leaving a partial set.
- ScanFrom is the loop of getTransForTarget taken out as its own method; it is not a separate member of the source.
