# Duplicate-file detector, modelled in Dafny

A model of `check_for_duplicates` and its two helpers, `chunk_reader` and
`get_hash`. Before a candidate file is sent to a directory, the detector looks
for a directory entry with the same name and for files with the same content.
It narrows the field in three stages:

1. **Size.** The candidate seeds a size → paths table. Every listed entry
   whose size lookup succeeds is appended to the group for its size. The
   listing loop `break`s at the first entry named like the candidate.
2. **First kilobyte.** Every size group with two or more files is read.
   Each file's first 1024 bytes are hashed, and the files are filed by that
   hash in one table shared by all size groups.
3. **Full content.** Every 1 KB group with two or more files is read in
   full, in 1024-byte chunks, and hashed. A file whose full hash is already
   recorded is reported together with the first file recorded for that
   hash. Otherwise the file becomes that hash's first holder.

Files:

- `tables.dfy` (module `Tables`): Python's insertion-ordered dicts, modelled
  as association lists. Includes `d.get`, `d[k] = v`, the
  append-or-create idiom, bucketing, and the singleton pruning.
- `hashing.dfy` (module `Hashing`): `read(n)`, `chunk_reader`, `get_hash`.
- `duplicates.dfy` (module `Duplicates`): the three stages and
  `CheckForDuplicates`.
- `properties.dfy` (module `DuplicateProperties`): how each stage fills its
  table, the per-hash behaviour of stage 3, soundness, the name-collision
  behaviour, and pruning ("never read").
- `completeness.dfy` (module `Completeness`): files of identical content are
  all caught once nothing fails.

How the environment becomes inputs:

- The directory listing is a sequence of `Entry(name, path, size)`.
  `path` is the already resolved path. `size` is `None` when `getsize`
  raised.
- Each hashing stage gets its own reader, `Path -> Option<Bytes>`, where
  `None` means open or read raised `OSError`. So a file can be readable in
  stage 2 and gone in stage 3.
- The digest algorithm is a parameter `hash: Bytes -> Digest`. Feeding
  chunks through `update` is modelled as hashing their concatenation.
  Soundness and completeness are stated for an injective `hash`.
- The candidate's size is an input `nat`. The source lets a failing
  `getsize` on the candidate escape uncaught, so this is a precondition.
- Printing becomes a `Report`: a name-collision flag plus the sequence of
  `Duplicate(file, firstSeen)` pairs, in the order the source prints them.

Two behaviours of the code differ from what a reader might expect; the
model follows the code:

- One might expect a name collision to end the whole run before any
  hashing. In the code, the `break` at line 40 leaves only the listing loop.
  Stages 2 and 3 still run, over the candidate and the entries collected
  before the match. `CheckForDuplicates` and `CollisionKeepsCollected`
  model that.
- One might expect the partial-hash buckets to be scoped to one size group.
  The code shares one 1 KB table across all size groups (line 29). Files of
  different sizes whose first kilobytes hash alike therefore end up in the
  same 1 KB group and are fully hashed. `OneKTable` and `OneKGroups` model
  the shared table.

Python truthiness in `if duplicate:`:

- A group list is never empty once created. Even an empty one would be
  replaced by `[v]` in the else branch, so `AddToGroup` is "append or
  create".
- A recorded full-hash holder is a path. Paths are never empty: `realpath`
  returns absolute paths, and the candidate path passed `getsize`. So the
  test means "hash already recorded".

## Model

| member | source | states |
|---|---|---|
| `Hashing.Read` | check_sending_file_duplicates.py:8 | `read(n)` returns the next bytes of the file from the current offset. It returns at most `n` of them when `n >= 0`. It returns nothing exactly at end of file or when `n == 0`. |
| `Hashing.ChunksFrom` | check_sending_file_duplicates.py:5-11 | The generator stops on the first empty read. Every chunk is non-empty and at most `chunk_size` bytes. Every chunk but the last is exactly `chunk_size` bytes. The chunks concatenate to the rest of the stream. With `chunk_size == 0` nothing is yielded. |
| `Hashing.ChunkReader` | check_sending_file_duplicates.py:5-11 | On a freshly opened file, the chunks are non-empty and at most `chunk_size` bytes. For any non-zero `chunk_size`, they concatenate to the whole content. |
| `Hashing.GetHash` | check_sending_file_duplicates.py:14-24 | With `first_chunk_only`, the digest is of `content[..min(1024, len)]`. Otherwise, after streaming every chunk, the digest is of the whole content. |
| `Hashing.ShortFilePartialIsFull` | check_sending_file_duplicates.py:17-21 | For a file of at most 1024 bytes, the partial hash equals the full hash. |
| `Tables.Get` | check_sending_file_duplicates.py:51 | `d.get(k)` is `None` exactly when no entry has key `k`. Otherwise it is the value stored with `k`. |
| `Tables.Set` | check_sending_file_duplicates.py:96 | After `d[k] = v`, `k` maps to `v` and every other key is unchanged. A new key is appended last. |
| `Tables.SetKeepsKeys` | check_sending_file_duplicates.py:51-53 | Overwriting a present key keeps the dict's length and every key in its position. |
| `Tables.AddToGroup` | check_sending_file_duplicates.py:51-56 | The value is appended at the end of its key's group, or opens a new group placed last. No other group changes. Keys stay distinct. |
| `Tables.Bucket` | check_sending_file_duplicates.py:45-56 | Filing items one after another keeps the table a dict: keys stay distinct. |
| `Tables.BucketGet` | check_sending_file_duplicates.py:45-56 | After filing, each key's group is what it held before, followed by exactly the values keyed to it, in order. Items whose lookup failed are in no group. |
| `Tables.Eligible` | check_sending_file_duplicates.py:59-63 | The next stage visits exactly the members of the groups of at least two: every visited file belongs to such a group, and every member of such a group is visited. |
| `Tables.EligibleAppend` | check_sending_file_duplicates.py:59-63 | Groups are visited one after another in table order: the files of two tables in a row are those of the first followed by those of the second. |
| `Duplicates.Listed` | check_sending_file_duplicates.py:34-40 | The listing loop visits a prefix of the listing. None of the visited entries has the candidate's name. When it stops early, the next entry has the candidate's name. |
| `Duplicates.Seed` | check_sending_file_duplicates.py:31-32 | Before any entry is seen, the size table has exactly one group. It is keyed by the candidate's size and holds only the candidate. |
| `Duplicates.ScanDirectory` | check_sending_file_duplicates.py:27-56 | A name collision is reported exactly when some listed entry has the candidate's name. The size table's keys are distinct. |
| `Duplicates.PartialDigest` | check_sending_file_duplicates.py:64-68 | A file whose open or read raises `OSError` gets no partial digest and is skipped. Otherwise its partial digest is the hash of its first `min(1024, len)` bytes. |
| `Duplicates.OneKTable` | check_sending_file_duplicates.py:59-75 | The single 1 KB table shared by all size groups keeps its keys distinct. `OneKGroups` gives the contents of each group. |
| `Duplicates.FullDigest` | check_sending_file_duplicates.py:83-87 | A file whose open or read raises `OSError` gets no full digest and is skipped. Otherwise its full digest is the hash of its whole content. |
| `Duplicates.FullStep` | check_sending_file_duplicates.py:83-96 | A recorded first holder is never overwritten. A step adds at most one report, and that report names the current file. A file whose full read fails changes nothing. |
| `Duplicates.FullStepKeeps` | check_sending_file_duplicates.py:83-96 | One step keeps every holder carrying its own full hash and every report pairing equal hashes. A successfully read file adds exactly one holder or one report. |
| `Duplicates.FullScan` | check_sending_file_duplicates.py:78-96 | Every recorded holder carries its own full hash. Every report pairs two files with equal full hashes. Each successfully read file becomes a holder or yields exactly one report: reports + holders = files read. |
| `Duplicates.CheckForDuplicates` | check_sending_file_duplicates.py:27-96 | The name-collision flag is set exactly when a listed entry has the candidate's name. Every reported pair has two successfully read files with equal full hashes. |
| `DuplicateProperties.FullScanHolder` | check_sending_file_duplicates.py:89-96 | For every full hash `d`, the recorded holder is the first processed file with hash `d`, and none when no file has hash `d`. |
| `DuplicateProperties.FullScanDigest` | check_sending_file_duplicates.py:78-96 | For every full hash `d`, the reports for `d` are exactly the later files with hash `d`, in order, each paired with the first file with hash `d`. |
| `DuplicateProperties.FullStepReports` | check_sending_file_duplicates.py:83-96 | For each full hash `d`, one step keeps the reports for `d` equal to the later files hashed to `d`, each paired with the first, counting the step's own file. |
| `DuplicateProperties.ReportNamesFirstHolder` | check_sending_file_duplicates.py:89-94 | Each report names, as the existing file, the first processed file with the same full hash. |
| `DuplicateProperties.SizeGroups` | check_sending_file_duplicates.py:31-56 | The candidate's size group is the candidate, then the listed entries of that size. Any other size group is exactly the listed entries of that size, in listing order. A size with no entries has no group. Entries whose lookup failed, and entries from the name match on, appear in no group. |
| `DuplicateProperties.CollisionKeepsCollected` | check_sending_file_duplicates.py:34-40 | A name match at position `k` raises the collision flag. The run's reports are exactly those of the listing cut before `k`, for which no collision is flagged. |
| `DuplicateProperties.OneKGroups` | check_sending_file_duplicates.py:59-75 | In the shared 1 KB table, the group for hash `h` is exactly the files of non-singleton size groups whose first kilobyte reads and hashes to `h`, in processing order. Files whose read fails are in no group. |
| `DuplicateProperties.PartialReadsOnlyEligible` | check_sending_file_duplicates.py:59-68 | Files in singleton size groups are never read. The 1 KB table does not depend on how they would read. |
| `DuplicateProperties.FullReadsOnlyGiven` | check_sending_file_duplicates.py:82-87 | The full stage reads only the files it is given. |
| `DuplicateProperties.PrunedFilesNeverRead` | check_sending_file_duplicates.py:59-87 | The whole report is unchanged by how pruned files would read. |
| `DuplicateProperties.SoundContent` | check_sending_file_duplicates.py:89-94 | With an injective hash, every reported pair is two successfully read files with identical content. |
| `Completeness.SizeTableFromEmpty` | check_sending_file_duplicates.py:28-32 | Seeding the candidate into an empty dict and then scanning is the same as filing the candidate first and then the listed entries. The collected files are the candidate followed by the listed entries whose size lookup succeeded. |
| `Completeness.BucketHolding` | check_sending_file_duplicates.py:51-61 | Suppose all files holding `c` share one key and there are at least two. Then, after bucketing and pruning singletons, exactly those holders remain, in their original order. |
| `Completeness.SizeStageKeepsHolders` | check_sending_file_duplicates.py:31-61 | Size bucketing passes every collected holder of content `c` to stage 2, in collection order, once there are at least two. |
| `Completeness.PartialStageKeepsHolders` | check_sending_file_duplicates.py:59-80 | Partial-hash bucketing passes every holder of `c` to stage 3, in order, provided the offered holders read back `c` and at least two are offered. |
| `Completeness.SizeStageKeepsCollected` | check_sending_file_duplicates.py:31-63 | The partial-hash stage reads only files stage 1 collected. |
| `Completeness.CandidateFirstHolder` | check_sending_file_duplicates.py:31-32 | A candidate holding `c` is the first collected holder of `c`, because it is seeded before any entry. |
| `Completeness.ReportsForContent` | check_sending_file_duplicates.py:27-96 | With an injective hash, the reports for content `c` are exactly the later collected holders of `c`, each paired with the first holder. |
| `Completeness.Complete` | check_sending_file_duplicates.py:27-96 | Assume `n >= 2` collected files, the candidate included, hold content `c`. Assume every collected holder of `c` reads back `c` at both stages and has its size recorded as `len(c)`. Then, with an injective hash, the reports for `c` are exactly the later holders in collection order, each paired with the first: `n - 1` reports, all naming the first holder. That holder is the candidate whenever the candidate holds `c`. |

## Left out

- Filesystem calls are not modelled: `os.listdir`, `os.path.join`, `os.path.realpath`, `os.path.getsize`, `open` and `close`. The listing, the resolved paths, the size lookups and the per-stage reads are inputs. Symlink resolution is outside the model.
- SHA-1 and `hashlib` internals are not modelled: the digest is an abstract function. Completeness and content soundness assume it is injective.
- The printed text is not modelled, including the `duplicate[2:]` slice at lines 92-93. The model returns structured reports instead.
- The uncaught failure of `getsize` on the candidate (line 31) is not modelled. The candidate's size is given as a precondition.
- The `__main__` block (lines 99-105) is not modelled: it only holds placeholder configuration.
- Short reads are not modelled: `read(n)` on a regular file returns `min(n, remaining)` bytes. The full content is what a single reader returns at the full-hash stage.
- File sizes are unbounded `nat`s. The 64-bit size limit never affects the control flow.
- Two further claims are not proved. One is that rerunning on an unchanged directory gives the same report; the functions are pure, so this holds trivially. The other is that an entry deleted after listing gives the same report as one that never existed. A deleted entry fails its size lookup or one of its reads, so that claim needs a proof that dropping a file from a size or 1 KB group leaves the reports for every other file unchanged; that proof is not part of this model.
