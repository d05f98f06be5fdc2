/**
  Reading files through the content cache. Only content with the entry's hash is ever
  returned, whatever the cache holds; only fully verified content is ever stored.
 */
module CachedBlob {
  import opened Wrappers
  import opened Bytes
  import opened Archive
  import opened Readers
  import StreamingFile
  import opened ContentCache
  import BlockCache
  import opened Disk

  /** Every cached file has the hash it is filed under. */
  ghost predicate Coherent(c: Codec, shard: nat, files: Dir) {
    forall h: Bytes :: h != [] && ContentPath(shard, h) in files ==> c.hash(files[ContentPath(shard, h)].data) == h
  }

  ghost predicate CollisionFree(c: Codec) {
    forall x, y :: c.hash(x) == c.hash(y) ==> x == y
  }

  /** With a collision-free hash, content with the entry's hash is the content that reading
      the entry without the cache returns. */
  lemma CachedAgrees(c: Codec, e: Entry, data: Bytes, maxFileSize: U64, content: Bytes)
    requires CollisionFree(c) && c.hash(content) == e.hash
    ensures ReadEntry(c, e, data, maxFileSize).Ok? ==> ReadEntry(c, e, data, maxFileSize) == Ok(content)
    ensures Verified(c, e, data, maxFileSize).Ok? ==> Verified(c, e, data, maxFileSize) == Ok(content)
  {
  }

  lemma ContentPathInjective(shard: nat, h: Bytes, g: Bytes)
    requires ContentPath(shard, h) == ContentPath(shard, g)
    ensures h == g
  {
    BlockCache.PathInjective(shard, BlockCache.Hex(h), BlockCache.Hex(g));
    BlockCache.HexInjective(h, g);
  }

  /** Evictions, and filing content under its own hash, keep the cache coherent. */
  lemma StaysCoherent(c: Codec, shard: nat, before: Dir, after: Dir, h: Bytes)
    requires forall p :: p in after && p != ContentPath(shard, h) ==> p in before && after[p] == before[p]
    requires ContentPath(shard, h) in after ==> c.hash(after[ContentPath(shard, h)].data) == h
    ensures Coherent(c, shard, before) ==> Coherent(c, shard, after)
  {
    forall g: Bytes | Coherent(c, shard, before) && g != [] && ContentPath(shard, g) in after
      ensures c.hash(after[ContentPath(shard, g)].data) == g
    {
      if ContentPath(shard, g) == ContentPath(shard, h) { ContentPathInjective(shard, g, h); }
    }
  }

  /** A cached file read to its end in any chunks, hashing on the way; a mismatch is
      reported and the cached file deleted. */
  method ReadCached(c: Codec, cache: Cache, hash: Bytes, stored: Bytes) returns (r: Result<Bytes>)
    requires cache.Valid() && hash != []
    modifies cache
    ensures cache.Valid()
    ensures if c.hash(stored) == hash then r == Ok(stored) && cache.files == old(cache.files)
            else r == Err(HashMismatch) && cache.files == old(cache.files) - {cache.PathOf(hash)}
  {
    var rd := new ChunkReader(Decoded(stored, Clean));
    var hashed: Bytes := [];
    var err := NoErr;
    while err.NoErr?
      invariant rd.Valid() && fresh(rd) && rd.pos == |hashed| && hashed == stored[..|hashed|]
      invariant rd.bytes == stored && rd.end.Clean? && !err.Fail? && (err.EOF? ==> rd.pos == |stored|)
      invariant cache.Valid() && cache.files == old(cache.files)
      decreases |stored| - |hashed|, if err.NoErr? then 1 else 0
    {
      var n :| n > 0;
      var chunk: Bytes;
      chunk, err := rd.Read(n);
      hashed := hashed + chunk;
    }
    assert hashed == stored;
    if c.hash(hashed) != hash {
      cache.Delete(hash);
      return Err(HashMismatch);
    }
    return Ok(hashed);
  }

  /** Blob.ReadFile with a cache, for the entry found by lookup. */
  method ReadFile(c: Codec, cache: Cache, e: Entry, data: Bytes, maxFileSize: U64, tmp: Bytes)
    returns (r: Result<Bytes>)
    requires cache.Valid() && tmp !in cache.files && tmp != cache.PathOf(e.hash)
    requires |data| <= MAX_INT64
    modifies cache
    ensures cache.Valid()
    ensures r.Ok? ==> c.hash(r.value) == e.hash
    ensures e.hash == [] || cache.PathOf(e.hash) !in old(cache.files) ==>
              r == ReadEntry(c, e, data, maxFileSize)
    ensures r.Ok? && e.hash != [] && cache.maxBytes == 0 ==>
              cache.PathOf(e.hash) in cache.files && cache.files[cache.PathOf(e.hash)].data == r.value
    ensures (e.hash != [] && cache.PathOf(e.hash) in old(cache.files)
             && c.hash(old(cache.files)[cache.PathOf(e.hash)].data) != e.hash) ==>
              r == Err(HashMismatch) && cache.PathOf(e.hash) !in cache.files
    ensures cache.maxBytes == 0 ==>
              forall p :: p in old(cache.files) && p != cache.PathOf(e.hash) ==>
                p in cache.files && cache.files[p] == old(cache.files)[p]
    ensures (e.hash != [] && cache.PathOf(e.hash) in old(cache.files)
             && c.hash(old(cache.files)[cache.PathOf(e.hash)].data) == e.hash) ==>
              r == Ok(old(cache.files)[cache.PathOf(e.hash)].data) && cache.files == old(cache.files)
    ensures Coherent(c, cache.shard, old(cache.files)) ==> Coherent(c, cache.shard, cache.files)
    ensures Coherent(c, cache.shard, old(cache.files)) && ReadEntry(c, e, data, maxFileSize).Ok? ==>
              r.Ok? && (CollisionFree(c) ==> r == ReadEntry(c, e, data, maxFileSize))
  {
    var hit := cache.Get(e.hash);
    if hit.Some? {
      r := ReadCached(c, cache, e.hash, hit.value);
      StaysCoherent(c, cache.shard, old(cache.files), cache.files, e.hash);
      if CollisionFree(c) && r.Ok? { CachedAgrees(c, e, data, maxFileSize, r.value); }
      return;
    }
    r := ReadAll(c, e, data, maxFileSize);
    if r.Err? { return; }
    var _ := cache.Put(e.hash, r.value, tmp);
    StaysCoherent(c, cache.shard, old(cache.files), cache.files, e.hash);
  }

  /** Blob.Open with a cache, then reading the file to its end. A miss streams the entry
      into the cache first; a failing Put fails the open. */
  method OpenAndRead(c: Codec, cache: Cache, e: Entry, data: Bytes, maxFileSize: U64, tmp: Bytes)
    returns (r: Result<Bytes>)
    requires cache.Valid() && tmp !in cache.files && tmp != cache.PathOf(e.hash)
    modifies cache
    ensures cache.Valid()
    ensures r.Ok? ==> c.hash(r.value) == e.hash
    ensures cache.maxBytes == 0 ==>
              forall p :: p in old(cache.files) && p != cache.PathOf(e.hash) ==>
                p in cache.files && cache.files[p] == old(cache.files)[p]
    ensures (e.hash != [] && cache.PathOf(e.hash) in old(cache.files)
             && c.hash(old(cache.files)[cache.PathOf(e.hash)].data) == e.hash) ==>
              r == Ok(old(cache.files)[cache.PathOf(e.hash)].data) && cache.files == old(cache.files)
    ensures Coherent(c, cache.shard, old(cache.files)) ==> Coherent(c, cache.shard, cache.files)
    ensures (e.hash != [] && cache.PathOf(e.hash) in old(cache.files)
             && c.hash(old(cache.files)[cache.PathOf(e.hash)].data) != e.hash) ==>
              r == Err(HashMismatch) && cache.PathOf(e.hash) !in cache.files
    ensures e.hash == [] || cache.PathOf(e.hash) !in old(cache.files) ==>
              var v := Verified(c, e, data, maxFileSize);
              r == if v.Ok? && old(cache.PutFails(e.hash, |v.value|, tmp)) then Err(CacheFailed) else v
    ensures (e.hash != [] && cache.PathOf(e.hash) in old(cache.files) && CollisionFree(c)
             && Coherent(c, cache.shard, old(cache.files)) && Verified(c, e, data, maxFileSize).Ok?) ==>
              r == Verified(c, e, data, maxFileSize)
  {
    var hit := cache.Get(e.hash);
    if hit.Some? {
      r := ReadCached(c, cache, e.hash, hit.value);
      StaysCoherent(c, cache.shard, old(cache.files), cache.files, e.hash);
      if CollisionFree(c) && r.Ok? { CachedAgrees(c, e, data, maxFileSize, r.value); }
      return;
    }
    var streamed := StreamingFile.Drain(c, e, data, maxFileSize);
    if streamed.Err? { return streamed; }
    var ok := cache.Put(e.hash, streamed.value, tmp);
    StaysCoherent(c, cache.shard, old(cache.files), cache.files, e.hash);
    if !ok { return Err(CacheFailed); }
    var again := cache.Get(e.hash);
    if again.Some? {
      assert again.value == streamed.value;
      r := ReadCached(c, cache, e.hash, again.value);
    } else {
      r := StreamingFile.Drain(c, e, data, maxFileSize);
    }
  }
}
