/** Files of identical content survive both pruning stages together and are
    all reported once nothing fails: for `n` such files, `n - 1` duplicates,
    each naming the first of them.
 */
module Completeness {
  import opened Tables
  import opened Hashing
  import opened Duplicates
  import opened DuplicateProperties

  lemma {:induction false} HoldingAppend(a: seq<Path>, b: seq<Path>, read: Reader, c: Bytes)
    ensures Holding(a + b, read, c) == Holding(a, read, c) + Holding(b, read, c)
    decreases |b|
  {
    if b == [] {
      assert a + b == a;
    } else {
      assert (a + b)[..|a + b| - 1] == a + b[..|b| - 1];
      assert (a + b)[|a + b| - 1] == b[|b| - 1];
      HoldingAppend(a, b[..|b| - 1], read, c);
    }
  }

  /** Items whose value holds `c` carry key `kc` (when they carry a key). */
  ghost predicate HoldersKeyed<K>(items: seq<(Option<K>, Path)>, kc: K, read: Reader, c: Bytes) {
    forall i :: 0 <= i < |items| && items[i].0.Some? && read(items[i].1) == Some(c) ==> items[i].0 == Some(kc)
  }

  /** When holders of `c` are all keyed `kc`, the group of `kc` holds all of
      them in order, and any other group holds none. */
  lemma {:induction false} HoldingMembers<K(!new)>(items: seq<(Option<K>, Path)>, kc: K, k: K, read: Reader, c: Bytes)
    requires HoldersKeyed(items, kc, read, c)
    ensures Holding(Members(items, k), read, c) == if k == kc then Holding(Values(items), read, c) else []
    decreases |items|
  {
    if items != [] {
      var init := items[..|items| - 1];
      var last := items[|items| - 1];
      assert HoldersKeyed(init, kc, read, c) by {
        forall i | 0 <= i < |init| && init[i].0.Some? && read(init[i].1) == Some(c)
          ensures init[i].0 == Some(kc)
        {
          assert init[i] == items[i];
        }
      }
      HoldingMembers(init, kc, k, read, c);
      var inM := if last.0 == Some(k) then [last.1] else [];
      var inV := if last.0.Some? then [last.1] else [];
      HoldingAppend(Members(init, k), inM, read, c);
      HoldingAppend(Values(init), inV, read, c);
      assert Holding([last.1], read, c) == (if read(last.1) == Some(c) then [last.1] else []) by {
        assert [last.1][..0] == [];
      }
      assert Holding([], read, c) == [];
    }
  }

  /** In a table whose groups other than `kc`'s hold no file of content `c`,
      the files the next stage looks at hold `c` exactly as `kc`'s group
      does, if that group is not pruned. */
  lemma {:induction false} HoldingEligible<K(!new)>(t: Table<K, seq<Path>>, kc: K, read: Reader, c: Bytes)
    requires DistinctKeys(t)
    requires forall i :: 0 <= i < |t| && t[i].0 != kc ==> Holding(t[i].1, read, c) == []
    ensures Holding(Eligible(t), read, c)
            == match Get(t, kc) case Some(g) => (if |g| >= 2 then Holding(g, read, c) else []) case None => []
  {
    if t != [] {
      var rest := t[1..];
      assert DistinctKeys(rest) by {
        forall i, j | 0 <= i < j < |rest| ensures rest[i].0 != rest[j].0 {
          assert rest[i] == t[i + 1] && rest[j] == t[j + 1];
        }
      }
      forall i | 0 <= i < |rest| && rest[i].0 != kc ensures Holding(rest[i].1, read, c) == [] {
        assert rest[i] == t[i + 1];
      }
      HoldingEligible(rest, kc, read, c);
      var head := if |t[0].1| < 2 then [] else t[0].1;
      HoldingAppend(head, Eligible(rest), read, c);
      assert Holding([], read, c) == [];
      if t[0].0 == kc {
        assert Get(rest, kc) == None by {
          forall i | 0 <= i < |rest| ensures rest[i].0 != kc {
            assert rest[i] == t[i + 1];
          }
        }
      }
    }
  }

  /** The bucketing stages keep every holder of `c`: when holders of `c` are
      all keyed `kc` and there are at least two of them, the files that pass
      on to the next stage hold `c` exactly as the bucketed items did. */
  lemma BucketHolding<K(!new)>(items: seq<(Option<K>, Path)>, kc: K, read: Reader, c: Bytes)
    requires HoldersKeyed(items, kc, read, c)
    requires |Holding(Values(items), read, c)| >= 2
    ensures Holding(Eligible(Bucket([], items)), read, c) == Holding(Values(items), read, c)
  {
    var t := Bucket([], items);
    assert DistinctKeys(t);
    forall i | 0 <= i < |t| && t[i].0 != kc ensures Holding(t[i].1, read, c) == [] {
      GetAt(t, i);
      BucketGet([], items, t[i].0);
      HoldingMembers(items, kc, t[i].0, read, c);
    }
    HoldingEligible(t, kc, read, c);
    BucketGet([], items, kc);
    HoldingMembers(items, kc, kc, read, c);
    var m := Members(items, kc);
    assert |Holding(m, read, c)| <= |m|;
  }

  /** The partially hashed files hold `c` exactly as the files offered to the
      partial stage do, when every holder of `c` reads back at that stage. */
  lemma {:induction false} HoldingPartialValues(files: seq<Path>, partialRead: Reader, fullRead: Reader,
                                                hash: Hash, c: Bytes)
    requires forall p :: p in files && fullRead(p) == Some(c) ==> partialRead(p) == Some(c)
    ensures Holding(Values(PartialItems(files, partialRead, hash)), fullRead, c) == Holding(files, fullRead, c)
    decreases |files|
  {
    if files != [] {
      var init := files[..|files| - 1];
      var last := files[|files| - 1];
      assert last in files;
      assert forall p :: p in init ==> p in files;
      HoldingPartialValues(init, partialRead, fullRead, hash, c);
      var items := PartialItems(files, partialRead, hash);
      assert items[..|items| - 1] == PartialItems(init, partialRead, hash);
      var extra := if items[|items| - 1].0.Some? then [last] else [];
      HoldingAppend(Values(PartialItems(init, partialRead, hash)), extra, read := fullRead, c := c);
      assert Holding([last], fullRead, c) == (if fullRead(last) == Some(c) then [last] else []) by {
        assert [last][..0] == [];
      }
      assert Holding([], fullRead, c) == [];
    }
  }

  /** With an injective hash, the files of full hash `hash(c)` are the
      holders of `c`. */
  lemma {:induction false} DigestIsContent(files: seq<Path>, fullRead: Reader, hash: Hash, c: Bytes)
    requires Injective(hash)
    ensures WithDigest(files, fullRead, hash, hash(c)) == Holding(files, fullRead, c)
    decreases |files|
  {
    if files != [] {
      DigestIsContent(files[..|files| - 1], fullRead, hash, c);
    }
  }

  lemma {:induction false} ReportDigestIsContent(rs: seq<Duplicate>, fullRead: Reader, hash: Hash, c: Bytes)
    requires Injective(hash)
    ensures ReportsWithDigest(rs, fullRead, hash, hash(c)) == DuplicatesOf(rs, fullRead, c)
    decreases |rs|
  {
    if rs != [] {
      ReportDigestIsContent(rs[..|rs| - 1], fullRead, hash, c);
    }
  }

  /** The size table is the bucketing of the candidate followed by the
      listed entries, starting from an empty table. */
  lemma SizeTableFromEmpty(entries: seq<Entry>, candidatePath: Path, candidateName: string, candidateSize: nat)
    ensures var items := [(Some(candidateSize), candidatePath)] + Keyed(Listed(entries, candidateName));
            && ScanDirectory(entries, candidatePath, candidateName, candidateSize).sizes == Bucket([], items)
            && Values(items) == Collected(entries, candidatePath, candidateName)
  {
    var seed: seq<(Option<nat>, Path)> := [(Some(candidateSize), candidatePath)];
    var keyed := Keyed(Listed(entries, candidateName));
    assert seed[..0] == [];
    assert Bucket([], seed) == Seed(candidatePath, candidateSize);
    BucketAppend([], seed, keyed);
    ValuesAppend(seed, keyed);
  }

  /** Stage 1 keeps every holder of `c`: when each holder of `c` the scan
      collects has size `|c|` and there are at least two, the files passed
      to the partial-hash stage hold `c` exactly as the collected files do. */
  lemma SizeStageKeepsHolders(entries: seq<Entry>, candidatePath: Path, candidateName: string,
                              candidateSize: nat, fullRead: Reader, c: Bytes)
    requires fullRead(candidatePath) == Some(c) ==> candidateSize == |c|
    requires forall e :: e in Listed(entries, candidateName) && e.size.Some? && fullRead(e.path) == Some(c)
                         ==> e.size.value == |c|
    requires |Holding(Collected(entries, candidatePath, candidateName), fullRead, c)| >= 2
    ensures Holding(Eligible(ScanDirectory(entries, candidatePath, candidateName, candidateSize).sizes), fullRead, c)
            == Holding(Collected(entries, candidatePath, candidateName), fullRead, c)
  {
    var listed := Listed(entries, candidateName);
    var items: seq<(Option<nat>, Path)> := [(Some(candidateSize), candidatePath)] + Keyed(listed);
    SizeTableFromEmpty(entries, candidatePath, candidateName, candidateSize);
    var sizes := ScanDirectory(entries, candidatePath, candidateName, candidateSize).sizes;
    var collected := Collected(entries, candidatePath, candidateName);
    assert sizes == Bucket([], items) && Values(items) == collected;
    SizeItemsKeyed(listed, candidatePath, candidateSize, fullRead, c);
    assert |Holding(Values(items), fullRead, c)| >= 2;
    BucketHolding<nat>(items, |c|, fullRead, c);
    assert Holding(Eligible(sizes), fullRead, c) == Holding(collected, fullRead, c);
  }

  lemma SizeItemsKeyed(listed: seq<Entry>, candidatePath: Path, candidateSize: nat, fullRead: Reader, c: Bytes)
    requires fullRead(candidatePath) == Some(c) ==> candidateSize == |c|
    requires forall e :: e in listed && e.size.Some? && fullRead(e.path) == Some(c) ==> e.size.value == |c|
    ensures HoldersKeyed([(Some(candidateSize), candidatePath)] + Keyed(listed), |c|, fullRead, c)
  {
    var keyed := Keyed(listed);
    var items := [(Some(candidateSize), candidatePath)] + keyed;
    forall i | 0 <= i < |items| && items[i].0.Some? && fullRead(items[i].1) == Some(c)
      ensures items[i].0 == Some(|c|)
    {
      if i > 0 {
        var e := listed[i - 1];
        assert items[i] == keyed[i - 1] == (e.size, e.path);
        assert e in listed;
      }
    }
  }

  /** Stage 2 keeps every holder of `c`: when each holder of `c` reads back
      `c` at the partial stage and at least two are offered, the files passed
      to the full-hash stage hold `c` exactly as the offered files do. */
  lemma PartialStageKeepsHolders(sizes: Table<nat, seq<Path>>, partialRead: Reader, fullRead: Reader,
                                 hash: Hash, c: Bytes)
    requires forall p :: p in Eligible(sizes) && fullRead(p) == Some(c) ==> partialRead(p) == Some(c)
    requires |Holding(Eligible(sizes), fullRead, c)| >= 2
    ensures Holding(Eligible(OneKTable(sizes, partialRead, hash)), fullRead, c)
            == Holding(Eligible(sizes), fullRead, c)
  {
    var files := Eligible(sizes);
    var items := PartialItems(files, partialRead, hash);
    var kc := hash(c[..Min(BlockSize, |c|)]);
    assert HoldersKeyed(items, kc, fullRead, c) by {
      forall i | 0 <= i < |items| && items[i].0.Some? && fullRead(items[i].1) == Some(c)
        ensures items[i].0 == Some(kc)
      {
        assert items[i].1 == files[i] && files[i] in files;
      }
    }
    HoldingPartialValues(files, partialRead, fullRead, hash, c);
    BucketHolding(items, kc, fullRead, c);
  }

  /** Every member of a group is a value of some item. */
  lemma {:induction false} MembersInValues<K(!new), V>(items: seq<(Option<K>, V)>, k: K)
    ensures forall x :: x in Members(items, k) ==> x in Values(items)
    decreases |items|
  {
    if items != [] {
      MembersInValues(items[..|items| - 1], k);
    }
  }

  /** Bucketing and pruning pass on only files that were filed. */
  lemma BucketedInValues<K(!new), V>(items: seq<(Option<K>, V)>)
    ensures forall x :: x in Eligible(Bucket([], items)) ==> x in Values(items)
  {
    var t := Bucket([], items);
    assert DistinctKeys(t);
    forall x | x in Eligible(t) ensures x in Values(items) {
      var i :| 0 <= i < |t| && |t[i].1| >= 2 && x in t[i].1;
      GetAt(t, i);
      BucketGet([], items, t[i].0);
      assert t[i].1 == Members(items, t[i].0);
      MembersInValues(items, t[i].0);
    }
  }

  /** The files the partial-hash stage reads were all collected by stage 1. */
  lemma SizeStageKeepsCollected(entries: seq<Entry>, candidatePath: Path, candidateName: string,
                                candidateSize: nat)
    ensures forall p :: p in Eligible(ScanDirectory(entries, candidatePath, candidateName, candidateSize).sizes)
                        ==> p in Collected(entries, candidatePath, candidateName)
  {
    var items: seq<(Option<nat>, Path)> := [(Some(candidateSize), candidatePath)] + Keyed(Listed(entries, candidateName));
    SizeTableFromEmpty(entries, candidatePath, candidateName, candidateSize);
    BucketedInValues<nat, Path>(items);
  }

  /** The candidate, when it holds `c`, is the first collected holder. */
  lemma CandidateFirstHolder(entries: seq<Entry>, candidatePath: Path, candidateName: string,
                             fullRead: Reader, c: Bytes)
    requires fullRead(candidatePath) == Some(c)
    ensures var holders := Holding(Collected(entries, candidatePath, candidateName), fullRead, c);
            holders != [] && holders[0] == candidatePath
  {
    var collected := Collected(entries, candidatePath, candidateName);
    HoldingAppend([candidatePath], collected[1..], fullRead, c);
    assert [candidatePath] + collected[1..] == collected;
    assert Holding([candidatePath], fullRead, c) == [candidatePath] by {
      assert [candidatePath][..0] == [];
    }
  }

  /** The reports for content `c` are the later holders of `c`, each paired
      with the first holder. */
  lemma ReportsForContent(entries: seq<Entry>, candidatePath: Path, candidateName: string, candidateSize: nat,
                          partialRead: Reader, fullRead: Reader, hash: Hash, c: Bytes)
    requires Injective(hash)
    requires forall p :: p in Collected(entries, candidatePath, candidateName) && fullRead(p) == Some(c)
                         ==> partialRead(p) == Some(c)
    requires fullRead(candidatePath) == Some(c) ==> candidateSize == |c|
    requires forall e :: e in Listed(entries, candidateName) && e.size.Some? && fullRead(e.path) == Some(c)
                         ==> e.size.value == |c|
    requires |Holding(Collected(entries, candidatePath, candidateName), fullRead, c)| >= 2
    ensures DuplicatesOf(CheckForDuplicates(entries, candidatePath, candidateName, candidateSize,
                                            partialRead, fullRead, hash).duplicates, fullRead, c)
            == Pairs(Holding(Collected(entries, candidatePath, candidateName), fullRead, c))
  {
    var holders := Holding(Collected(entries, candidatePath, candidateName), fullRead, c);
    var sizes := ScanDirectory(entries, candidatePath, candidateName, candidateSize).sizes;
    SizeStageKeepsHolders(entries, candidatePath, candidateName, candidateSize, fullRead, c);
    assert Holding(Eligible(sizes), fullRead, c) == holders;
    SizeStageKeepsCollected(entries, candidatePath, candidateName, candidateSize);
    PartialStageKeepsHolders(sizes, partialRead, fullRead, hash, c);
    var files := Eligible(OneKTable(sizes, partialRead, hash));
    assert Holding(files, fullRead, c) == holders;
    var found := FullScan(files, fullRead, hash).found;
    assert CheckForDuplicates(entries, candidatePath, candidateName, candidateSize,
                              partialRead, fullRead, hash).duplicates == found;
    FullScanDigest(files, fullRead, hash, hash(c));
    FullScanHolder(files, fullRead, hash, hash(c));
    DigestIsContent(files, fullRead, hash, c);
    ReportDigestIsContent(found, fullRead, hash, c);
  }

  /** Completeness. Let `c` be a content held by at least two of the files
      stage 1 collected (the candidate included), every such file reading
      back `c` at both hashing stages with its size recorded as `|c|`. With an
      injective hash, the duplicates reported for content `c` are exactly the
      later holders of `c` in collection order, each paired with the first:
      `n - 1` reports for `n` holders, all naming the first holder, which is
      the candidate whenever the candidate holds `c`. */
  lemma Complete(entries: seq<Entry>, candidatePath: Path, candidateName: string, candidateSize: nat,
                 partialRead: Reader, fullRead: Reader, hash: Hash, c: Bytes)
    requires Injective(hash)
    requires forall p :: p in Collected(entries, candidatePath, candidateName) && fullRead(p) == Some(c)
                         ==> partialRead(p) == Some(c)
    requires fullRead(candidatePath) == Some(c) ==> candidateSize == |c|
    requires forall e :: e in Listed(entries, candidateName) && e.size.Some? && fullRead(e.path) == Some(c)
                         ==> e.size.value == |c|
    requires |Holding(Collected(entries, candidatePath, candidateName), fullRead, c)| >= 2
    ensures var holders := Holding(Collected(entries, candidatePath, candidateName), fullRead, c);
            var reports := DuplicatesOf(CheckForDuplicates(entries, candidatePath, candidateName, candidateSize,
                                                           partialRead, fullRead, hash).duplicates, fullRead, c);
            && reports == Pairs(holders)
            && |reports| == |holders| - 1
            && (forall i :: 0 <= i < |reports| ==> reports[i].firstSeen == holders[0])
            && (fullRead(candidatePath) == Some(c) ==> holders[0] == candidatePath)
  {
    ReportsForContent(entries, candidatePath, candidateName, candidateSize, partialRead, fullRead, hash, c);
    if fullRead(candidatePath) == Some(c) {
      CandidateFirstHolder(entries, candidatePath, candidateName, fullRead, c);
    }
  }
}
