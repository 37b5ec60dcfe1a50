/** Reading a file in chunks and hashing its first kilobyte or all of it
    (`chunk_reader` and `get_hash`).

    A file is its byte content; an open file object is that content plus a
    read offset. The digest algorithm is a parameter: a function from the
    bytes fed to it to a digest. Feeding chunks one `update` at a time is
    digesting their concatenation.
 */
module Hashing {

  type Bytes = seq<bv8>
  type Digest = seq<bv8>
  type Hash = Bytes -> Digest

  /** The chunk size of `chunk_reader` and the length of the partial hash. */
  const BlockSize: nat := 1024

  function Min(a: int, b: int): int {
    if a <= b then a else b
  }

  /** `fobj.read(n)` on a regular file positioned at `pos`: a negative `n`
      reads to the end, otherwise at most `n` bytes are returned. */
  function Read(content: Bytes, pos: nat, n: int): (r: Bytes)
    requires pos <= |content|
    ensures pos + |r| <= |content| && r == content[pos..pos + |r|]
    ensures n >= 0 ==> |r| <= n
    ensures r == [] <==> n == 0 || pos == |content|
  {
    if n < 0 then content[pos..] else content[pos..Min(pos + n, |content|)]
  }

  /** All chunks glued together, as repeated `hash_obj.update` sees them. */
  function Concat(chunks: seq<Bytes>): Bytes {
    if chunks == [] then [] else chunks[0] + Concat(chunks[1..])
  }

  /** The chunks `chunk_reader` yields from offset `pos`: read `n` bytes,
      stop on the first empty read, otherwise yield the chunk and go on. */
  function ChunksFrom(content: Bytes, pos: nat, n: int): (r: seq<Bytes>)
    requires pos <= |content|
    ensures forall i :: 0 <= i < |r| ==> |r[i]| > 0
    ensures n >= 0 ==> forall i :: 0 <= i < |r| ==> |r[i]| <= n
    ensures n > 0 ==> forall i :: 0 <= i < |r| - 1 ==> |r[i]| == n
    ensures n != 0 ==> Concat(r) == content[pos..]
    ensures n == 0 ==> r == []
    decreases |content| - pos
  {
    var chunk := Read(content, pos, n);
    if chunk == [] then []
    else
      var rest := ChunksFrom(content, pos + |chunk|, n);
      assert ([chunk] + rest)[1..] == rest;
      assert n > 0 && rest != [] ==> |chunk| == n;
      assert n != 0 ==> content[pos..] == chunk + content[pos + |chunk|..];
      [chunk] + rest
  }

  /** `chunk_reader(fobj, chunk_size)` on a freshly opened file. */
  function ChunkReader(content: Bytes, chunkSize: int): (r: seq<Bytes>)
    ensures forall i :: 0 <= i < |r| ==> |r[i]| > 0
    ensures chunkSize >= 0 ==> forall i :: 0 <= i < |r| ==> |r[i]| <= chunkSize
    ensures chunkSize != 0 ==> Concat(r) == content
    ensures chunkSize == 0 ==> r == []
  {
    ChunksFrom(content, 0, chunkSize)
  }

  /** `get_hash`: with `firstChunkOnly` one `read(1024)` is digested,
      otherwise every chunk of `chunk_reader` in turn. */
  function GetHash(content: Bytes, firstChunkOnly: bool, hash: Hash): (r: Digest)
    ensures firstChunkOnly ==> r == hash(content[..Min(BlockSize, |content|)])
    ensures !firstChunkOnly ==> r == hash(content)
  {
    if firstChunkOnly then hash(Read(content, 0, BlockSize))
    else hash(Concat(ChunkReader(content, BlockSize)))
  }

  /** For a file of at most 1024 bytes the partial hash is the full hash. */
  lemma ShortFilePartialIsFull(content: Bytes, hash: Hash)
    requires |content| <= BlockSize
    ensures GetHash(content, true, hash) == GetHash(content, false, hash)
  {
    assert content[..Min(BlockSize, |content|)] == content;
  }
}
