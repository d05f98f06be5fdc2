/**
  From a pinned digest to a file's bytes. The manifest's bytes have the pinned digest, the
  index has the digest that the manifest names, and the file has the hash that the index
  names: the digest alone fixes what can be read, whoever served it.
 */
module DigestChain {
  import opened Wrappers
  import opened Bytes
  import opened Archive
  import opened Manifest
  import Readers
  import Index
  import ContentCache
  import CachedBlob
  import opened Registry

  /** How an index blob is decoded; None when it is malformed. */
  type IndexReader = Bytes -> Option<seq<Entry>>

  /** One way from the digest to the content of a path. */
  ghost predicate Link(k: Kit, c: Readers.Codec, decode: IndexReader, digest: Bytes, path: Bytes, content: Bytes,
                       m: BlobManifest, raw: Bytes, index: Bytes) {
    && m.digest == digest && ReadFrom(k, m, raw)
    && k.Matches(m.indexDesc.digest, index) && Named(c, decode, index, path, content)
  }

  ghost predicate Pinned(k: Kit, c: Readers.Codec, decode: IndexReader, digest: Bytes, path: Bytes, content: Bytes) {
    exists m, raw, index :: Link(k, c, decode, digest, path, content, m, raw, index)
  }

  /** A digest pins at most one content for each path. */
  lemma PinnedUnique(k: Kit, c: Readers.Codec, decode: IndexReader, digest: Bytes, path: Bytes, x: Bytes, y: Bytes)
    requires k.CollisionFree() && CachedBlob.CollisionFree(c)
    requires Pinned(k, c, decode, digest, path, x) && Pinned(k, c, decode, digest, path, y)
    ensures x == y
  {
    var m, raw, index :| Link(k, c, decode, digest, path, x, m, raw, index);
    var n, raw', index' :| Link(k, c, decode, digest, path, y, n, raw', index');
    MatchUnique(k, digest, raw, raw');
    DescribesUnique(m, n, m.raw, digest);
    MatchUnique(k, m.indexDesc.digest, index, index');
  }

  /** What one pull may meet: its options, what the registry replies, and the bytes that
      the data source serves. */
  datatype Call = Call(
    skipCache: bool,
    maxIndexSize: int,
    replies: Replies,
    now: int,
    data: Bytes,
    maxFileSize: U64,
    tmp: Bytes)

  ghost predicate CacheReady(cache: ContentCache.Cache?, call: Call)
    reads if cache == null then {} else {cache}
  {
    && |call.data| <= MAX_INT64
    && (cache != null ==> cache.Valid() && call.tmp !in cache.files && forall h :: call.tmp != cache.PathOf(h))
  }

  /** The index names a hash for the path, and the content has it. */
  ghost predicate Named(c: Readers.Codec, decode: IndexReader, index: Bytes, path: Bytes, content: Bytes) {
    && decode(index).Some?
    && var e := Index.Lookup(decode(index).value, path);
       e.Some? && c.hash(content) == e.value.hash
  }

  /** ReadFile of a path, over the index that was pulled. */
  method ReadPath(c: Readers.Codec, decode: IndexReader, index: Bytes, path: Bytes, cache: ContentCache.Cache?,
                  call: Call)
    returns (r: Option<Bytes>)
    requires CacheReady(cache, call)
    modifies if cache == null then {} else {cache}
    ensures cache != null ==> cache.Valid()
    ensures r.Some? ==> Named(c, decode, index, path, r.value)
  {
    if decode(index).None? { return None; }
    var found := Index.LookupByKey(decode(index).value, path);
    if found.None? { return None; }
    var content: Result<Bytes>;
    if cache == null {
      content := Readers.ReadAll(c, found.value, call.data, call.maxFileSize);
    } else {
      content := CachedBlob.ReadFile(c, cache, found.value, call.data, call.maxFileSize, call.tmp);
    }
    if content.Err? { return None; }
    return Some(content.value);
  }

  /** Where content came from: a manifest that every policy accepted in this call, under the
      pinned digest if there is one, and the index that it names. */
  ghost predicate Source(k: Kit, c: Readers.Codec, decode: IndexReader, policies: seq<Policy>, ref: Bytes,
                         reference: Bytes, path: Bytes, content: Bytes, m: BlobManifest, index: Bytes) {
    && Trusted(k, policies, ref, m) && (COLON in reference ==> m.digest == reference)
    && k.Matches(m.indexDesc.digest, index) && Named(c, decode, index, path, content)
  }

  /** What matters of a pull here. */
  method PullChecked(k: Kit, policies: seq<Policy>, ref: Bytes, reference: Bytes, client: Client, call: Call)
    returns (r: Outcome<(BlobManifest, Bytes)>)
    requires client.Valid()
    modifies client.Stores()
    ensures client.Valid()
    ensures r.Done? ==> Trusted(k, policies, ref, r.value.0) && k.Matches(r.value.0.indexDesc.digest, r.value.1)
    ensures r.Done? && COLON in reference ==> r.value.0.digest == reference
  {
    r := client.Pull(k, policies, ref, reference, call.skipCache, call.maxIndexSize, call.replies, call.now);
  }

  /** Pull, then ReadFile of a path; None when either fails. For any cache contents and
      any replies, a digest-pinned pull reads what every other pull of that digest reads. */
  method PullAndRead(k: Kit, c: Readers.Codec, decode: IndexReader, policies: seq<Policy>, ref: Bytes, reference: Bytes,
                     path: Bytes, client: Client, cache: ContentCache.Cache?, call: Call)
    returns (r: Option<Bytes>)
    requires client.Valid() && CacheReady(cache, call)
    modifies client.Stores(), if cache == null then {} else {cache}
    ensures client.Valid() && (cache != null ==> cache.Valid())
    ensures r.Some? ==> exists m, index :: Source(k, c, decode, policies, ref, reference, path, r.value, m, index)
    ensures r.Some? && COLON in reference ==> Pinned(k, c, decode, reference, path, r.value)
    ensures r.Some? && COLON in reference && k.CollisionFree() && CachedBlob.CollisionFree(c) ==>
              forall other :: Pinned(k, c, decode, reference, path, other) ==> other == r.value
  {
    var pulled := PullChecked(k, policies, ref, reference, client, call);
    if pulled.Failed? { return None; }
    var (m, index) := pulled.value;
    r := ReadPath(c, decode, index, path, cache, call);
    if r.Some? { PullPins(k, c, decode, policies, ref, reference, path, m, index, r.value); }
  }

  /** A trusted manifest, its index and a file read from it pin that file. */
  lemma PullPins(k: Kit, c: Readers.Codec, decode: IndexReader, policies: seq<Policy>, ref: Bytes, reference: Bytes,
                 path: Bytes, m: BlobManifest, index: Bytes, content: Bytes)
    requires Trusted(k, policies, ref, m) && k.Matches(m.indexDesc.digest, index)
    requires Named(c, decode, index, path, content) && (COLON in reference ==> m.digest == reference)
    ensures exists m, index :: Source(k, c, decode, policies, ref, reference, path, content, m, index)
    ensures Pinned(k, c, decode, m.digest, path, content)
    ensures k.CollisionFree() && CachedBlob.CollisionFree(c) ==>
              forall other :: Pinned(k, c, decode, m.digest, path, other) ==> other == content
  {
    assert Source(k, c, decode, policies, ref, reference, path, content, m, index);
    var raw :| ReadFrom(k, m, raw) && Passes(policies, Request(ref, m, |raw|));
    assert Link(k, c, decode, m.digest, path, content, m, raw, index);
    if k.CollisionFree() && CachedBlob.CollisionFree(c) {
      forall other | Pinned(k, c, decode, m.digest, path, other) ensures other == content {
        PinnedUnique(k, c, decode, m.digest, path, other, content);
      }
    }
  }
}
