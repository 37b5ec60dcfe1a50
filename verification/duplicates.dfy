/** The three-stage duplicate filter of `check_for_duplicates`.

    The directory listing is an input sequence of entries, each with the name
    as listed, the resolved path and the size lookup's outcome (`None` when
    `getsize` raised). Reading a file at the partial-hash stage and at the
    full-hash stage are two separate readers, so a file can be readable at
    one stage and gone at the next. What the source prints becomes a
    structured `Report`.
 */
module Duplicates {
  import opened Tables
  import opened Hashing

  /** A resolved path. Never empty: `realpath` yields absolute paths and the
      candidate path has passed `getsize`, so a recorded path is truthy. */
  type Path = s: string | s != [] witness "/"

  /** The content of a file as one stage's `open`/`read` sees it; `None`
      when the open or the read raises `OSError`. */
  type Reader = Path -> Option<Bytes>

  /** One directory member: listed name, resolved path, size lookup. */
  datatype Entry = Entry(name: string, path: Path, size: Option<nat>)

  /** A content duplicate: `file` hashed the same as `firstSeen`. */
  datatype Duplicate = Duplicate(file: Path, firstSeen: Path)

  /** What the detector reports, in print order: a name collision, then the
      content duplicates. */
  datatype Report = Report(nameCollision: bool, duplicates: seq<Duplicate>)

  datatype Scan = Scan(sizes: Table<nat, seq<Path>>, nameCollision: bool)

  /** The state of the full-hash stage: first-seen holder per full hash,
      and the duplicates found so far. */
  datatype FullState = FullState(seen: Table<Digest, Path>, found: seq<Duplicate>)

  // ---------------------------------------------------------------- stage 1

  /** The entries the listing loop gets to: all of them up to, not
      including, the first whose name is the candidate's (the `break`). */
  function Listed(entries: seq<Entry>, name: string): (r: seq<Entry>)
    ensures |r| <= |entries| && r == entries[..|r|]
    ensures forall i :: 0 <= i < |r| ==> r[i].name != name
    ensures |r| < |entries| ==> entries[|r|].name == name
  {
    if entries == [] || entries[0].name == name then []
    else
      var rest := Listed(entries[1..], name);
      [entries[0]] + rest
  }

  /** Each listed entry as (size, path); a failed size lookup gives no key. */
  function Keyed(entries: seq<Entry>): (r: seq<(Option<nat>, Path)>)
    ensures |r| == |entries|
    ensures forall i :: 0 <= i < |r| ==> r[i] == (entries[i].size, entries[i].path)
    decreases |entries|
  {
    if entries == [] then []
    else
      var last := entries[|entries| - 1];
      Keyed(entries[..|entries| - 1]) + [(last.size, last.path)]
  }

  /** The size table before any directory entry: one group, keyed by the
      candidate's size, holding only the candidate. */
  function Seed(candidatePath: Path, candidateSize: nat): (t: Table<nat, seq<Path>>)
    ensures Get(t, candidateSize) == Some([candidatePath])
    ensures forall s :: s != candidateSize ==> Get(t, s) == None
    ensures DistinctKeys(t)
  {
    Set([], candidateSize, [candidatePath])
  }

  /** Stage 1: seed with the candidate, then file every listed entry whose
      size is known under that size, stopping at a name match. */
  function ScanDirectory(entries: seq<Entry>, candidatePath: Path, candidateName: string,
                         candidateSize: nat): (r: Scan)
    ensures r.nameCollision <==> exists i :: 0 <= i < |entries| && entries[i].name == candidateName
    ensures DistinctKeys(r.sizes)
  {
    var listed := Listed(entries, candidateName);
    assert |listed| == |entries| ==> listed == entries;
    assert |listed| < |entries| ==> entries[|listed|].name == candidateName;
    Scan(Bucket(Seed(candidatePath, candidateSize), Keyed(listed)), |listed| < |entries|)
  }

  /** The files stage 1 collected, in the order they were filed. */
  function Collected(entries: seq<Entry>, candidatePath: Path, candidateName: string): seq<Path> {
    [candidatePath] + Values(Keyed(Listed(entries, candidateName)))
  }

  // ---------------------------------------------------------------- stage 2

  /** The hash of the first 1024 bytes, or `None` when the read fails. */
  function PartialDigest(p: Path, partialRead: Reader, hash: Hash): (r: Option<Digest>)
    ensures r.None? <==> partialRead(p).None?
    ensures r.Some? ==> r.value == hash(partialRead(p).value[..Min(BlockSize, |partialRead(p).value|)])
  {
    match partialRead(p)
    case None => None
    case Some(c) => Some(GetHash(c, true, hash))
  }

  function PartialItems(files: seq<Path>, partialRead: Reader, hash: Hash): (r: seq<(Option<Digest>, Path)>)
    ensures |r| == |files|
    ensures forall i :: 0 <= i < |r| ==> r[i] == (PartialDigest(files[i], partialRead, hash), files[i])
    decreases |files|
  {
    if files == [] then []
    else
      var last := files[|files| - 1];
      PartialItems(files[..|files| - 1], partialRead, hash) + [(PartialDigest(last, partialRead, hash), last)]
  }

  /** Stage 2: the members of every size group with two or more files, group
      after group, filed into one shared table by partial hash. */
  function OneKTable(sizes: Table<nat, seq<Path>>, partialRead: Reader, hash: Hash): (r: Table<Digest, seq<Path>>)
    ensures DistinctKeys(r)
  {
    Bucket([], PartialItems(Eligible(sizes), partialRead, hash))
  }

  // ---------------------------------------------------------------- stage 3

  /** The hash of the whole file, or `None` when the read fails. */
  function FullDigest(p: Path, fullRead: Reader, hash: Hash): (r: Option<Digest>)
    ensures r.None? <==> fullRead(p).None?
    ensures r.Some? ==> r.value == hash(fullRead(p).value)
  {
    match fullRead(p)
    case None => None
    case Some(c) => Some(GetHash(c, false, hash))
  }

  /** One file of stage 3: a recorded hash yields a duplicate naming the
      first holder; a new hash makes this file its first holder. */
  function FullStep(st: FullState, p: Path, fullRead: Reader, hash: Hash): (r: FullState)
    ensures forall d :: Get(st.seen, d).Some? ==> Get(r.seen, d) == Get(st.seen, d)
    ensures r.found == st.found || exists q :: r.found == st.found + [Duplicate(p, q)]
    ensures FullDigest(p, fullRead, hash).None? ==> r == st
  {
    match FullDigest(p, fullRead, hash)
    case None => st
    case Some(d) =>
      match Get(st.seen, d)
      case Some(first) => st.(found := st.found + [Duplicate(p, first)])
      case None => st.(seen := Set(st.seen, d, p))
  }

  /** The files whose full read succeeds, in order. */
  function Readable(files: seq<Path>, fullRead: Reader): (r: seq<Path>)
    ensures |r| <= |files|
    decreases |files|
  {
    if files == [] then []
    else
      var last := files[|files| - 1];
      Readable(files[..|files| - 1], fullRead) + (if fullRead(last).Some? then [last] else [])
  }

  /** Stage 3 over `files` in order. Every recorded holder carries its own
      hash, every duplicate pairs two files of equal full hash, and each file
      read successfully either becomes a holder or yields one duplicate. */
  function FullScan(files: seq<Path>, fullRead: Reader, hash: Hash): (r: FullState)
    ensures DistinctKeys(r.seen)
    ensures HoldersOwnHash(r.seen, fullRead, hash)
    ensures PairsEqualHash(r.found, fullRead, hash)
    ensures |r.found| + |r.seen| == |Readable(files, fullRead)|
    decreases |files|
  {
    if files == [] then FullState([], [])
    else
      var init := files[..|files| - 1];
      var p := files[|files| - 1];
      var st := FullScan(init, fullRead, hash);
      FullStepKeeps(st, p, fullRead, hash);
      assert Readable(files, fullRead) == Readable(init, fullRead) + (if fullRead(p).Some? then [p] else []);
      FullStep(st, p, fullRead, hash)
  }

  /** Every recorded holder carries its own full hash. */
  ghost predicate HoldersOwnHash(seen: Table<Digest, Path>, fullRead: Reader, hash: Hash) {
    forall i :: 0 <= i < |seen| ==> FullDigest(seen[i].1, fullRead, hash) == Some(seen[i].0)
  }

  /** Every duplicate pairs two successfully hashed files of equal hash. */
  ghost predicate PairsEqualHash(found: seq<Duplicate>, fullRead: Reader, hash: Hash) {
    forall i :: 0 <= i < |found| ==>
      FullDigest(found[i].file, fullRead, hash).Some? &&
      FullDigest(found[i].file, fullRead, hash) == FullDigest(found[i].firstSeen, fullRead, hash)
  }

  /** One step of stage 3 keeps holders carrying their own hash and
      duplicates pairing equal hashes, and accounts for the file once. */
  lemma FullStepKeeps(st: FullState, p: Path, fullRead: Reader, hash: Hash)
    requires DistinctKeys(st.seen)
    requires HoldersOwnHash(st.seen, fullRead, hash)
    requires PairsEqualHash(st.found, fullRead, hash)
    ensures var r := FullStep(st, p, fullRead, hash);
            && DistinctKeys(r.seen)
            && HoldersOwnHash(r.seen, fullRead, hash)
            && PairsEqualHash(r.found, fullRead, hash)
            && |r.found| + |r.seen| == |st.found| + |st.seen| + (if fullRead(p).Some? then 1 else 0)
  {
    match FullDigest(p, fullRead, hash)
    case None =>
    case Some(d) =>
      match Get(st.seen, d)
      case Some(first) => RecordedStep(st, p, fullRead, hash, d, first);
      case None => NewHolderStep(st, p, fullRead, hash, d);
  }

  lemma RecordedStep(st: FullState, p: Path, fullRead: Reader, hash: Hash, d: Digest, first: Path)
    requires HoldersOwnHash(st.seen, fullRead, hash)
    requires PairsEqualHash(st.found, fullRead, hash)
    requires FullDigest(p, fullRead, hash) == Some(d) && Get(st.seen, d) == Some(first)
    ensures FullStep(st, p, fullRead, hash) == st.(found := st.found + [Duplicate(p, first)])
    ensures PairsEqualHash(st.found + [Duplicate(p, first)], fullRead, hash)
  {
    var i :| 0 <= i < |st.seen| && st.seen[i] == (d, first);
    assert FullDigest(first, fullRead, hash) == Some(d);
  }

  lemma NewHolderStep(st: FullState, p: Path, fullRead: Reader, hash: Hash, d: Digest)
    requires DistinctKeys(st.seen)
    requires HoldersOwnHash(st.seen, fullRead, hash)
    requires FullDigest(p, fullRead, hash) == Some(d) && Get(st.seen, d) == None
    ensures FullStep(st, p, fullRead, hash) == st.(seen := st.seen + [(d, p)])
    ensures DistinctKeys(st.seen + [(d, p)])
    ensures HoldersOwnHash(st.seen + [(d, p)], fullRead, hash)
  {
    var t := st.seen + [(d, p)];
    assert Set(st.seen, d, p) == t;
    assert DistinctKeys(t) by {
      forall i, j | 0 <= i < j < |t| ensures t[i].0 != t[j].0 {
        if j == |st.seen| {
          assert t[i] == st.seen[i];
        } else {
          assert t[i] == st.seen[i] && t[j] == st.seen[j];
        }
      }
    }
    assert HoldersOwnHash(t, fullRead, hash) by {
      forall i | 0 <= i < |t| ensures FullDigest(t[i].1, fullRead, hash) == Some(t[i].0) {
        if i < |st.seen| {
          assert t[i] == st.seen[i];
        }
      }
    }
  }

  /** `check_for_duplicates`: stage 1 may end at a name collision, and
      stages 2 and 3 run on whatever it collected either way. */
  function CheckForDuplicates(entries: seq<Entry>, candidatePath: Path, candidateName: string,
                              candidateSize: nat, partialRead: Reader, fullRead: Reader,
                              hash: Hash): (r: Report)
    ensures r.nameCollision <==> exists i :: 0 <= i < |entries| && entries[i].name == candidateName
    ensures PairsEqualHash(r.duplicates, fullRead, hash)
  {
    var scan := ScanDirectory(entries, candidatePath, candidateName, candidateSize);
    var oneK := OneKTable(scan.sizes, partialRead, hash);
    Report(scan.nameCollision, FullScan(Eligible(oneK), fullRead, hash).found)
  }
}
