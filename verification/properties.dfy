/** What the detector guarantees: how each stage fills its table, which
    files are never looked at, how stage 3 reports per full hash, and that
    every reported pair shares its content. That files of identical content
    are all caught is `Completeness.Complete`.
 */
module DuplicateProperties {
  import opened Tables
  import opened Hashing
  import opened Duplicates

  /** Different contents never share a digest. */
  ghost predicate Injective(hash: Hash) {
    forall a, b :: hash(a) == hash(b) ==> a == b
  }

  // ------------------------------------------------- reference filters

  /** The files, in order, whose read yields exactly `c`. */
  function Holding(files: seq<Path>, read: Reader, c: Bytes): (r: seq<Path>)
    ensures |r| <= |files|
    decreases |files|
  {
    if files == [] then []
    else
      var last := files[|files| - 1];
      Holding(files[..|files| - 1], read, c) + (if read(last) == Some(c) then [last] else [])
  }

  /** The files, in order, whose full hash is `d`. */
  function WithDigest(files: seq<Path>, fullRead: Reader, hash: Hash, d: Digest): (r: seq<Path>)
    ensures |r| <= |files|
    decreases |files|
  {
    if files == [] then []
    else
      var last := files[|files| - 1];
      WithDigest(files[..|files| - 1], fullRead, hash, d)
        + (if FullDigest(last, fullRead, hash) == Some(d) then [last] else [])
  }

  /** The duplicates, in order, whose reported file has full hash `d`. */
  function ReportsWithDigest(rs: seq<Duplicate>, fullRead: Reader, hash: Hash, d: Digest): (r: seq<Duplicate>)
    ensures |r| <= |rs|
    decreases |rs|
  {
    if rs == [] then []
    else
      var last := rs[|rs| - 1];
      ReportsWithDigest(rs[..|rs| - 1], fullRead, hash, d)
        + (if FullDigest(last.file, fullRead, hash) == Some(d) then [last] else [])
  }

  /** The duplicates, in order, whose reported file holds `c`. */
  function DuplicatesOf(rs: seq<Duplicate>, read: Reader, c: Bytes): (r: seq<Duplicate>)
    ensures |r| <= |rs|
    decreases |rs|
  {
    if rs == [] then []
    else
      var last := rs[|rs| - 1];
      DuplicatesOf(rs[..|rs| - 1], read, c) + (if read(last.file) == Some(c) then [last] else [])
  }

  function First(s: seq<Path>): Option<Path> {
    if s == [] then None else Some(s[0])
  }

  /** Every file after the first of `s`, each paired with the first. */
  function Pairs(s: seq<Path>): (r: seq<Duplicate>)
    ensures |r| == if s == [] then 0 else |s| - 1
    ensures forall i :: 0 <= i < |r| ==> r[i] == Duplicate(s[i + 1], s[0])
  {
    if s == [] then [] else seq(|s| - 1, i requires 0 <= i < |s| - 1 => Duplicate(s[i + 1], s[0]))
  }

  lemma PairsSnoc(s: seq<Path>, x: Path)
    requires s != []
    ensures Pairs(s + [x]) == Pairs(s) + [Duplicate(x, s[0])]
  {
    var l, r := Pairs(s + [x]), Pairs(s) + [Duplicate(x, s[0])];
    assert |l| == |r|;
    forall i | 0 <= i < |l| ensures l[i] == r[i] {
    }
  }

  // ------------------------------------------------- stage 3

  /** The full-hash stage, per digest `d`: the recorded holder of `d` is
      the first file hashed to `d`; a holder, once recorded, stays. */
  lemma {:induction false} FullScanHolder(files: seq<Path>, fullRead: Reader, hash: Hash, d: Digest)
    ensures Get(FullScan(files, fullRead, hash).seen, d) == First(WithDigest(files, fullRead, hash, d))
    decreases |files|
  {
    if files != [] {
      var init := files[..|files| - 1];
      var p := files[|files| - 1];
      var st := FullScan(init, fullRead, hash);
      var s := WithDigest(init, fullRead, hash, d);
      FullScanHolder(init, fullRead, hash, d);
      var r := FullScan(files, fullRead, hash);
      assert r == FullStep(st, p, fullRead, hash);
      var s' := WithDigest(files, fullRead, hash, d);
      assert s' == s + (if FullDigest(p, fullRead, hash) == Some(d) then [p] else []);
      match FullDigest(p, fullRead, hash)
      case None =>
        assert r == st && s' == s;
      case Some(d') =>
        match Get(st.seen, d')
        case Some(first) =>
          assert r.seen == st.seen;
          if d' == d {
            assert s != [];
          } else {
            assert s' == s;
          }
        case None =>
          assert r.seen == Set(st.seen, d', p);
          if d' == d {
            assert s == [] && s' == [p];
          } else {
            assert s' == s;
          }
    }
  }

  /** The full-hash stage, per digest `d`: the duplicates reported for `d`
      are every later file hashed to `d`, in order, each paired with the
      first file hashed to `d`. */
  lemma {:induction false} FullScanDigest(files: seq<Path>, fullRead: Reader, hash: Hash, d: Digest)
    ensures ReportsWithDigest(FullScan(files, fullRead, hash).found, fullRead, hash, d)
            == Pairs(WithDigest(files, fullRead, hash, d))
    decreases |files|
  {
    if files != [] {
      var init := files[..|files| - 1];
      var p := files[|files| - 1];
      var st := FullScan(init, fullRead, hash);
      var s := WithDigest(init, fullRead, hash, d);
      FullScanDigest(init, fullRead, hash, d);
      FullScanHolder(init, fullRead, hash, d);
      assert FullScan(files, fullRead, hash) == FullStep(st, p, fullRead, hash);
      assert WithDigest(files, fullRead, hash, d)
          == s + (if FullDigest(p, fullRead, hash) == Some(d) then [p] else []);
      FullStepReports(st, s, p, fullRead, hash, d);
    }
  }

  /** One step of stage 3, for digest `d`: if the holder and the reports for
      `d` so far match the files `s` hashed to `d`, they still match once the
      step's file is counted. */
  lemma FullStepReports(st: FullState, s: seq<Path>, p: Path, fullRead: Reader, hash: Hash, d: Digest)
    requires Get(st.seen, d) == First(s)
    requires ReportsWithDigest(st.found, fullRead, hash, d) == Pairs(s)
    ensures ReportsWithDigest(FullStep(st, p, fullRead, hash).found, fullRead, hash, d)
            == Pairs(s + (if FullDigest(p, fullRead, hash) == Some(d) then [p] else []))
  {
    var r := FullStep(st, p, fullRead, hash);
    match FullDigest(p, fullRead, hash)
    case None =>
      assert r == st;
      assert s + [] == s;
    case Some(d') =>
      match Get(st.seen, d')
      case Some(first) =>
        RecordedReports(st, s, p, fullRead, hash, d, d', first);
      case None =>
        assert r.found == st.found;
        assert d' == d ==> s == [];
        NewHolderReports(st.found, s, p, fullRead, hash, d, d');
  }

  /** The step of `FullStepReports` when the file's digest is new: no report
      is added, and the file opens the list of files hashed to `d'`. */
  lemma NewHolderReports(found: seq<Duplicate>, s: seq<Path>, p: Path, fullRead: Reader, hash: Hash,
                         d: Digest, d': Digest)
    requires ReportsWithDigest(found, fullRead, hash, d) == Pairs(s)
    requires d' == d ==> s == []
    ensures ReportsWithDigest(found, fullRead, hash, d) == Pairs(s + (if d' == d then [p] else []))
  {
    if d' == d {
      assert s + [p] == [p];
      assert Pairs([p]) == [];
    } else {
      assert s + [] == s;
    }
  }

  /** The step of `FullStepReports` when the file's digest is recorded. */
  lemma RecordedReports(st: FullState, s: seq<Path>, p: Path, fullRead: Reader, hash: Hash,
                        d: Digest, d': Digest, first: Path)
    requires Get(st.seen, d) == First(s)
    requires ReportsWithDigest(st.found, fullRead, hash, d) == Pairs(s)
    requires FullDigest(p, fullRead, hash) == Some(d') && Get(st.seen, d') == Some(first)
    ensures ReportsWithDigest(FullStep(st, p, fullRead, hash).found, fullRead, hash, d)
            == Pairs(s + (if d' == d then [p] else []))
  {
    var dup := Duplicate(p, first);
    var found := st.found + [dup];
    assert FullStep(st, p, fullRead, hash).found == found;
    assert found[..|st.found|] == st.found;
    assert found[|found| - 1] == dup;
    assert ReportsWithDigest(found, fullRead, hash, d)
        == ReportsWithDigest(st.found, fullRead, hash, d) + (if d' == d then [dup] else []);
    if d' == d {
      assert s != [] && s[0] == first;
      PairsSnoc(s, p);
    } else {
      assert s + [] == s;
    }
  }

  /** Each reported file is paired with the first file processed that has
      the same full hash. */
  lemma ReportNamesFirstHolder(files: seq<Path>, fullRead: Reader, hash: Hash, i: nat)
    requires i < |FullScan(files, fullRead, hash).found|
    ensures var dup := FullScan(files, fullRead, hash).found[i];
            var d := FullDigest(dup.file, fullRead, hash).value;
            First(WithDigest(files, fullRead, hash, d)) == Some(dup.firstSeen)
  {
    var found := FullScan(files, fullRead, hash).found;
    var d := FullDigest(found[i].file, fullRead, hash).value;
    FullScanHolder(files, fullRead, hash, d);
    FullScanDigest(files, fullRead, hash, d);
    ReportsWithDigestHas(found, fullRead, hash, d, i);
  }

  lemma {:induction false} ReportsWithDigestHas(rs: seq<Duplicate>, fullRead: Reader, hash: Hash, d: Digest, i: nat)
    requires i < |rs|
    requires FullDigest(rs[i].file, fullRead, hash) == Some(d)
    ensures rs[i] in ReportsWithDigest(rs, fullRead, hash, d)
    decreases |rs|
  {
    if i < |rs| - 1 {
      ReportsWithDigestHas(rs[..|rs| - 1], fullRead, hash, d, i);
    }
  }

  // ------------------------------------------------- stage 1

  /** The size table after the scan: the candidate's size holds the
      candidate followed by the listed entries of that size; any other size
      holds exactly the listed entries of that size, in listing order, and is
      absent when there are none. Entries whose size lookup failed and
      entries from the first name match on appear nowhere. */
  lemma SizeGroups(entries: seq<Entry>, candidatePath: Path, candidateName: string, candidateSize: nat, s: nat)
    ensures var m := Members(Keyed(Listed(entries, candidateName)), s);
            Get(ScanDirectory(entries, candidatePath, candidateName, candidateSize).sizes, s)
            == if s == candidateSize then Some([candidatePath] + m) else if m == [] then None else Some(m)
  {
    BucketGet(Seed(candidatePath, candidateSize), Keyed(Listed(entries, candidateName)), s);
  }

  /** A name match ends the listing loop only: the name collision is
      reported, and the hashing stages still run, on exactly what was
      collected before the match, so nothing from the match on matters. */
  lemma CollisionKeepsCollected(entries: seq<Entry>, candidatePath: Path, candidateName: string,
                                candidateSize: nat, partialRead: Reader, fullRead: Reader, hash: Hash, k: nat)
    requires k < |entries| && entries[k].name == candidateName
    requires forall i :: 0 <= i < k ==> entries[i].name != candidateName
    ensures Listed(entries, candidateName) == entries[..k]
    ensures var r := CheckForDuplicates(entries, candidatePath, candidateName, candidateSize,
                                        partialRead, fullRead, hash);
            var r' := CheckForDuplicates(entries[..k], candidatePath, candidateName, candidateSize,
                                         partialRead, fullRead, hash);
            r.nameCollision && !r'.nameCollision && r.duplicates == r'.duplicates
  {
    var listed := Listed(entries, candidateName);
    assert |listed| == k;
    var listed' := Listed(entries[..k], candidateName);
    assert listed' == entries[..k][..|listed'|];
    assert listed' == entries[..k];
  }

  // ------------------------------------------------- stage 2

  /** The files, in order, whose partial hash is `h`. */
  function WithPartialDigest(files: seq<Path>, partialRead: Reader, hash: Hash, h: Digest): (r: seq<Path>)
    ensures |r| <= |files|
    decreases |files|
  {
    if files == [] then []
    else
      var last := files[|files| - 1];
      WithPartialDigest(files[..|files| - 1], partialRead, hash, h)
        + (if PartialDigest(last, partialRead, hash) == Some(h) then [last] else [])
  }

  lemma {:induction false} MembersOfPartialItems(files: seq<Path>, partialRead: Reader, hash: Hash, h: Digest)
    ensures Members(PartialItems(files, partialRead, hash), h) == WithPartialDigest(files, partialRead, hash, h)
    decreases |files|
  {
    if files != [] {
      var items := PartialItems(files, partialRead, hash);
      assert items[..|items| - 1] == PartialItems(files[..|files| - 1], partialRead, hash);
      MembersOfPartialItems(files[..|files| - 1], partialRead, hash, h);
    }
  }

  /** The shared 1 KB table: the group of partial hash `h` holds exactly the
      files of the non-singleton size groups whose first kilobyte reads back
      and hashes to `h`, in processing order, and is absent when there are
      none. A file whose partial read fails is in no group. */
  lemma OneKGroups(sizes: Table<nat, seq<Path>>, partialRead: Reader, hash: Hash, h: Digest)
    ensures var m := WithPartialDigest(Eligible(sizes), partialRead, hash, h);
            Get(OneKTable(sizes, partialRead, hash), h) == if m == [] then None else Some(m)
  {
    BucketGet([], PartialItems(Eligible(sizes), partialRead, hash), h);
    MembersOfPartialItems(Eligible(sizes), partialRead, hash, h);
  }

  /** Pruning: the partial stage never reads a file outside the
      non-singleton size groups, so how such a file would read is
      irrelevant. */
  lemma PartialReadsOnlyEligible(sizes: Table<nat, seq<Path>>, read1: Reader, read2: Reader, hash: Hash)
    requires forall p :: p in Eligible(sizes) ==> read1(p) == read2(p)
    ensures OneKTable(sizes, read1, hash) == OneKTable(sizes, read2, hash)
  {
    var files := Eligible(sizes);
    var a, b := PartialItems(files, read1, hash), PartialItems(files, read2, hash);
    forall i | 0 <= i < |a| ensures a[i] == b[i] {
      assert files[i] in files;
    }
    assert a == b;
  }

  // ------------------------------------------------- stage 3, whole run

  /** Pruning: the full stage never reads a file it is not given. */
  lemma {:induction false} FullReadsOnlyGiven(files: seq<Path>, read1: Reader, read2: Reader, hash: Hash)
    requires forall p :: p in files ==> read1(p) == read2(p)
    ensures FullScan(files, read1, hash) == FullScan(files, read2, hash)
    decreases |files|
  {
    if files != [] {
      var init := files[..|files| - 1];
      forall p | p in init ensures read1(p) == read2(p) {
        assert p in files;
      }
      FullReadsOnlyGiven(init, read1, read2, hash);
      assert files[|files| - 1] in files;
    }
  }

  /** Pruning for the whole run: a file outside every non-singleton size
      group is never hashed, and one outside every non-singleton 1 KB group
      is never fully hashed, so the report does not depend on how those files
      would read. */
  lemma PrunedFilesNeverRead(entries: seq<Entry>, candidatePath: Path, candidateName: string,
                             candidateSize: nat, partial1: Reader, partial2: Reader,
                             full1: Reader, full2: Reader, hash: Hash)
    requires var sizes := ScanDirectory(entries, candidatePath, candidateName, candidateSize).sizes;
             && (forall p :: p in Eligible(sizes) ==> partial1(p) == partial2(p))
             && (forall p :: p in Eligible(OneKTable(sizes, partial1, hash)) ==> full1(p) == full2(p))
    ensures CheckForDuplicates(entries, candidatePath, candidateName, candidateSize, partial1, full1, hash)
            == CheckForDuplicates(entries, candidatePath, candidateName, candidateSize, partial2, full2, hash)
  {
    var sizes := ScanDirectory(entries, candidatePath, candidateName, candidateSize).sizes;
    PartialReadsOnlyEligible(sizes, partial1, partial2, hash);
    FullReadsOnlyGiven(Eligible(OneKTable(sizes, partial1, hash)), full1, full2, hash);
  }

  /** Soundness: with an injective hash, every reported pair is two files of
      identical content, both read successfully. */
  lemma SoundContent(entries: seq<Entry>, candidatePath: Path, candidateName: string, candidateSize: nat,
                     partialRead: Reader, fullRead: Reader, hash: Hash)
    requires Injective(hash)
    ensures var ds := CheckForDuplicates(entries, candidatePath, candidateName, candidateSize,
                                         partialRead, fullRead, hash).duplicates;
            forall i :: 0 <= i < |ds| ==>
              fullRead(ds[i].file).Some? && fullRead(ds[i].file) == fullRead(ds[i].firstSeen)
  {
    var ds := CheckForDuplicates(entries, candidatePath, candidateName, candidateSize,
                                 partialRead, fullRead, hash).duplicates;
    forall i | 0 <= i < |ds|
      ensures fullRead(ds[i].file).Some? && fullRead(ds[i].file) == fullRead(ds[i].firstSeen)
    {
      assert FullDigest(ds[i].file, fullRead, hash) == FullDigest(ds[i].firstSeen, fullRead, hash);
      var a, b := fullRead(ds[i].file).value, fullRead(ds[i].firstSeen).value;
      assert hash(a) == hash(b);
    }
  }
}
