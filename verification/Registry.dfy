/**
  Pulling an archive from a registry by tag or digest: the reference, manifest and index
  caches, the checks on what the registry replies, and the policies. Nothing a cache or
  the registry holds is trusted: each step is checked against the digest before it.
 */
module Registry {
  import opened Wrappers
  import opened Bytes
  import opened Manifest
  import opened Disk
  import opened SizedStore
  import BlockCache

  const COLON: Byte := 58

  // ----- digests -----

  /** strings.IndexByte for the colon; the length when there is none. */
  function IndexOfColon(d: Bytes): (i: nat)
    ensures i <= |d| && COLON !in d[..i] && (i < |d| ==> d[i] == COLON)
  {
    if d == [] || d[0] == COLON then 0 else 1 + IndexOfColon(d[1..])
  }

  predicate IsHexChar(b: Byte) {
    48 <= b <= 57 || 97 <= b <= 102 || 65 <= b <= 70
  }

  predicate IsAlgorithmChar(b: Byte) {
    97 <= b <= 122 || 65 <= b <= 90 || 48 <= b <= 57 || b in {43, 45, 46, 95}
  }

  /** sanitizeHexDigest: the part after the first colon, all hexadecimal. */
  function SanitizeHexDigest(d: Bytes): Option<Bytes> {
    var hex := if COLON in d then d[IndexOfColon(d) + 1..] else d;
    if hex != [] && forall b :: b in hex ==> IsHexChar(b) then Some(hex) else None
  }

  predicate IsValidDigestFormat(d: Bytes) {
    var i := IndexOfColon(d);
    && 0 < i < |d| - 1
    && (forall b :: b in d[..i] ==> IsAlgorithmChar(b))
    && (forall b :: b in d[i + 1..] ==> IsHexChar(b))
  }

  /** The digest is written as an algorithm, a colon and hexadecimal digits. */
  ghost predicate Written(digest: Bytes, algorithm: Bytes, hex: Bytes) {
    digest == algorithm + [COLON] + hex && COLON !in algorithm && InHex(hex)
  }

  ghost predicate InHex(text: Bytes) {
    text != [] &&
    forall i :: 0 <= i < |text| ==>
      var c := text[i] as char; '0' <= c <= '9' || 'a' <= c <= 'f' || 'A' <= c <= 'F'
  }

  /** The algorithm has a nonempty name of letters, digits and signs. */
  ghost predicate Named(algorithm: Bytes) {
    algorithm != [] &&
    forall i :: 0 <= i < |algorithm| ==>
      var c := algorithm[i] as char;
      'a' <= c <= 'z' || 'A' <= c <= 'Z' || '0' <= c <= '9' || c in "+-._"
  }

  lemma InHexIff(text: Bytes)
    ensures InHex(text) <==> text != [] && forall b :: b in text ==> IsHexChar(b)
  {
    assert forall i :: 0 <= i < |text| ==> text[i] in text;
  }

  lemma NamedIff(text: Bytes)
    ensures Named(text) <==> text != [] && forall b :: b in text ==> IsAlgorithmChar(b)
  {
    assert "+-._" == ['+', '-', '.', '_'];
    assert forall i :: 0 <= i < |text| ==> text[i] in text;
  }

  lemma ColonAt(digest: Bytes, algorithm: Bytes, hex: Bytes)
    requires digest == algorithm + [COLON] + hex && COLON !in algorithm
    ensures IndexOfColon(digest) == |algorithm| < |digest|
    ensures digest[..|algorithm|] == algorithm && digest[|algorithm| + 1..] == hex
  {
    var i := IndexOfColon(digest);
    assert digest[|algorithm|] == COLON && digest[..|algorithm|] == algorithm;
    assert forall j :: 0 <= j < |algorithm| ==> digest[j] == algorithm[j];
    assert forall j :: 0 <= j < i ==> digest[j] == digest[..i][j];
  }

  lemma SplitsAt(text: Bytes, i: nat)
    requires i < |text|
    ensures text == text[..i] + [text[i]] + text[i + 1..]
  {
  }

  /** The files of a digest are named by its digits. */
  lemma HexOfDigest(digest: Bytes, algorithm: Bytes, hex: Bytes)
    requires Written(digest, algorithm, hex)
    ensures SanitizeHexDigest(digest) == Some(hex)
  {
    ColonAt(digest, algorithm, hex);
    InHexIff(hex);
    assert digest[|algorithm|] == COLON;
  }

  /** Which texts name a file: digests, and hexadecimal digits alone. */
  lemma HexDigestIff(digest: Bytes)
    ensures SanitizeHexDigest(digest).Some? <==>
            (exists algorithm, hex :: Written(digest, algorithm, hex)) || InHex(digest)
    ensures InHex(digest) ==> SanitizeHexDigest(digest) == Some(digest)
  {
    InHexIff(digest);
    assert digest[..|digest|] == digest;
    if algorithm, hex :| Written(digest, algorithm, hex) { HexOfDigest(digest, algorithm, hex); }
    if IndexOfColon(digest) < |digest| {
      var i := IndexOfColon(digest);
      SplitsAt(digest, i);
      InHexIff(digest[i + 1..]);
      assert InHex(digest[i + 1..]) ==> Written(digest, digest[..i], digest[i + 1..]);
    }
  }

  /** The format of cached digests: a named algorithm, a colon and hexadecimal digits. */
  lemma FormatIff(digest: Bytes)
    ensures IsValidDigestFormat(digest) <==>
            exists algorithm, hex :: Written(digest, algorithm, hex) && Named(algorithm)
  {
    if algorithm, hex :| Written(digest, algorithm, hex) && Named(algorithm) {
      ColonAt(digest, algorithm, hex);
      InHexIff(hex);
      NamedIff(algorithm);
    }
    if IsValidDigestFormat(digest) {
      var i := IndexOfColon(digest);
      SplitsAt(digest, i);
      InHexIff(digest[i + 1..]);
      NamedIff(digest[..i]);
      assert Written(digest, digest[..i], digest[i + 1..]);
    }
  }

  /** What the digest library, JSON decoding and the file hash of the reference cache
      compute: `valid` is digest validation, `sum` the digest of data under an algorithm. */
  datatype Kit = Kit(valid: Bytes -> bool, sum: (Bytes, Bytes) -> Bytes, parse: Bytes -> Option<OciManifest>,
                     refHash: Bytes -> Bytes)
  {
    /** The data has the digest. */
    predicate Matches(digest: Bytes, data: Bytes) {
      valid(digest) && sum(digest[..IndexOfColon(digest)], data) == digest
    }

    predicate Decodes(data: Bytes) {
      parse(data).Some?
    }

    ghost predicate CollisionFree() {
      forall algorithm, x, y :: sum(algorithm, x) == sum(algorithm, y) ==> x == y
    }
  }

  /** Data is checked under the algorithm that the digest names. */
  lemma MatchesUnder(k: Kit, digest: Bytes, algorithm: Bytes, hex: Bytes, data: Bytes)
    requires Written(digest, algorithm, hex)
    ensures k.Matches(digest, data) <==> k.valid(digest) && k.sum(algorithm, data) == digest
  {
    ColonAt(digest, algorithm, hex);
  }

  /** Without collisions a digest has at most one content. */
  lemma MatchUnique(k: Kit, digest: Bytes, x: Bytes, y: Bytes)
    requires k.CollisionFree() && k.Matches(digest, x) && k.Matches(digest, y)
    ensures x == y
  {
  }

  // ----- the caches -----

  /** The manifest cache and the index cache: files named by the digest's hex part. */
  class DigestCache {
    const shard: nat
    const store: Store

    constructor (shard: nat, store: Store)
      ensures this.shard == shard && this.store == store
    {
      this.shard, this.store := shard, store;
    }

    function PathOf(digest: Bytes): Option<Bytes> {
      var hex := SanitizeHexDigest(digest);
      if hex.None? then None else Some(BlockCache.PathForKey(shard, hex.value))
    }

    /** The file is named by the digits alone, below a directory named by the first `shard`. */
    lemma PathOfDigest(digest: Bytes, algorithm: Bytes, hex: Bytes)
      requires Written(digest, algorithm, hex)
      ensures shard == 0 ==> PathOf(digest) == Some(hex)
      ensures 0 < shard <= |hex| ==> PathOf(digest) == Some(hex[..shard] + [SLASH] + hex)
      ensures |hex| < shard ==> PathOf(digest) == Some(hex + [SLASH] + hex)
    {
      HexOfDigest(digest, algorithm, hex);
      assert hex[..|hex|] == hex;
    }

    /** The file for the digest holds data with the digest that can be used. */
    ghost predicate Holds(k: Kit, digest: Bytes, readable: Bytes -> bool)
      reads store
    {
      && PathOf(digest).Some? && PathOf(digest).value in store.files
      && var data := store.files[PathOf(digest).value].data; k.Matches(digest, data) && readable(data)
    }

    /** GetManifest and GetIndex: whatever is on disk, only data with the digest that
        `readable` accepts comes back; anything else filed there is deleted. */
    method Get(k: Kit, digest: Bytes, readable: Bytes -> bool) returns (r: Option<Bytes>)
      requires store.Valid()
      modifies store
      ensures store.Valid()
      ensures r.Some? <==> old(Holds(k, digest, readable))
      ensures r.Some? ==> r.value == old(store.files)[PathOf(digest).value].data && store.files == old(store.files)
      ensures r.None? ==>
                store.files == old(store.files) - (if PathOf(digest).Some? then {PathOf(digest).value} else {})
    {
      var path := PathOf(digest);
      if path.None? || path.value !in store.files {
        assert store.files - (if PathOf(digest).Some? then {PathOf(digest).value} else {}) == store.files;
        return None;
      }
      var data := store.files[path.value].data;
      if !k.Matches(digest, data) || !readable(data) {
        store.Delete(path.value);
        return None;
      }
      return Some(data);
    }

    /** PutManifest and PutIndex: an existing file is kept, and only data with the digest
        is written. */
    method Put(k: Kit, digest: Bytes, raw: Bytes) returns (ok: bool)
      requires store.Valid()
      modifies store
      ensures store.Valid()
      ensures ok <==> PathOf(digest).Some? && (PathOf(digest).value in old(store.files) || k.Matches(digest, raw))
      ensures forall p :: p in store.files ==>
                || (p in old(store.files) && store.files[p] == old(store.files)[p])
                || (Some(p) == PathOf(digest) && store.files[p].data == raw && k.Matches(digest, raw))
      ensures ok && (store.maxBytes == 0 || |raw| <= store.maxBytes) ==> PathOf(digest).value in store.files
      ensures !ok ==> store.files == old(store.files)
      ensures store.maxBytes == 0 ==>
                forall p :: p in old(store.files) ==> p in store.files && store.files[p] == old(store.files)[p]
    {
      var path := PathOf(digest);
      if path.None? { return false; }
      if path.value in store.files { return true; }
      if !k.Matches(digest, raw) { return false; }
      store.Put(path.value, raw);
      return true;
    }

    /** Delete. */
    method Delete(digest: Bytes)
      requires store.Valid()
      modifies store
      ensures store.Valid()
      ensures store.files == old(store.files) - (if PathOf(digest).Some? then {PathOf(digest).value} else {})
    {
      var path := PathOf(digest);
      if path.Some? {
        store.Delete(path.value);
      } else {
        assert store.files - {} == store.files;
      }
    }
  }

  /** The reference cache: files named by the hash of the reference, with an age limit. */
  class RefCache {
    const shard: nat
    const ttl: nat  // 0 means no limit
    const store: Store

    constructor (shard: nat, ttl: nat, store: Store)
      ensures this.shard == shard && this.ttl == ttl && this.store == store
    {
      this.shard, this.ttl, this.store := shard, ttl, store;
    }

    function PathOf(k: Kit, ref: Bytes): Bytes {
      BlockCache.PathForKey(shard, BlockCache.Hex(k.refHash(ref)))
    }

    /** References have files of their own. */
    lemma PathOfInjective(k: Kit, a: Bytes, b: Bytes)
      requires PathOf(k, a) == PathOf(k, b)
      ensures k.refHash(a) == k.refHash(b)
    {
      BlockCache.PathInjective(shard, BlockCache.Hex(k.refHash(a)), BlockCache.Hex(k.refHash(b)));
      BlockCache.HexInjective(k.refHash(a), k.refHash(b));
    }

    /** The reference has a fresh, well-formed digest at time `now`. */
    ghost predicate Fresh(k: Kit, ref: Bytes, now: int)
      reads store
    {
      && PathOf(k, ref) in store.files
      && (ttl > 0 ==> now - store.files[PathOf(k, ref)].mtime <= ttl)
      && IsValidDigestFormat(store.files[PathOf(k, ref)].data)
    }

    /** GetDigest at time `now`: a fresh, well-formed digest, or the file is deleted. */
    method GetDigest(k: Kit, ref: Bytes, now: int) returns (r: Option<Bytes>)
      requires store.Valid()
      modifies store
      ensures store.Valid()
      ensures r.Some? <==> old(Fresh(k, ref, now))
      ensures r.Some? <==>
                && PathOf(k, ref) in old(store.files)
                && (ttl == 0 || now - old(store.files)[PathOf(k, ref)].mtime <= ttl)
                && exists algorithm, hex ::
                     Written(old(store.files)[PathOf(k, ref)].data, algorithm, hex) && Named(algorithm)
      ensures r.Some? ==> r.value == old(store.files)[PathOf(k, ref)].data && store.files == old(store.files)
      ensures r.None? ==> store.files == old(store.files) - {PathOf(k, ref)}
    {
      var path := PathOf(k, ref);
      if path !in store.files {
        assert store.files - {path} == store.files;
        return None;
      }
      if ttl > 0 && now - store.files[path].mtime > ttl {
        store.Delete(path);
        return None;
      }
      var digest := store.files[path].data;
      FormatIff(digest);
      if !IsValidDigestFormat(digest) {
        store.Delete(path);
        return None;
      }
      return Some(digest);
    }
  }

  // ----- what the registry answers -----

  /** A streamed body; `clean` says that it ends without a read error. */
  datatype Body = Body(data: Bytes, clean: bool)
  datatype ManifestReply = ManifestReply(mediaType: MediaType, size: int, body: Body)
  datatype Replies = Replies(resolve: Option<Bytes>, manifest: Option<ManifestReply>, index: Option<Body>)

  /** io.ReadAll of a body, of at most `limit` bytes when a limit is given. */
  function ReadBody(body: Body, limit: Option<nat>): Option<Bytes> {
    if limit.Some? && limit.value <= |body.data| then Some(body.data[..limit.value])
    else if body.clean then Some(body.data) else None
  }

  /** FetchManifest of the registry client, for a descriptor that carries only a digest:
      the manifest is parsed only after its bytes were found to have the digest. */
  method FetchManifest(k: Kit, digest: Bytes, reply: Option<ManifestReply>) returns (r: Outcome<Bytes>)
    ensures r.Done? ==> k.Matches(digest, r.value) && k.parse(r.value).Some?
    ensures r.Done? ==> reply.Some? && r.value <= reply.value.body.data
    ensures r.Done? && reply.value.size > 0 ==> |r.value| == reply.value.size
    ensures r.Done? <==>
              && digest != [] && k.valid(digest) && reply.Some?
              && (reply.value.mediaType == NoType || reply.value.mediaType == ImageManifest)
              && var size, body := reply.value.size, reply.value.body;
                 if size > 0 then size <= |body.data| && Usable(k, digest, body.data[..size])
                 else body.clean && Usable(k, digest, body.data)
    ensures r.Failed? && r.error == InvalidDescriptor <==> digest == [] || !k.valid(digest)
    ensures r.Failed? && r.error == SizeMismatch ==> reply.Some? && |reply.value.body.data| < reply.value.size
    ensures r.Failed? ==> r.error != PolicyViolation
    ensures k.valid(digest) && digest != [] && reply.Some? && GoodReply(k, digest, reply.value) ==>
              r == Done(reply.value.body.data)
  {
    if digest == [] || !k.valid(digest) { return Failed(InvalidDescriptor); }
    if reply.None? { return Failed(NetworkFailed); }
    var desc := reply.value;
    if desc.mediaType != NoType && desc.mediaType != ImageManifest { return Failed(InvalidManifest); }
    var raw := ReadBody(desc.body, if desc.size > 0 then Some(desc.size) else None);
    if raw.None? { return Failed(InvalidManifest); }
    assert desc.body.data[..|desc.body.data|] == desc.body.data;
    if desc.size > 0 && |raw.value| != desc.size { return Failed(SizeMismatch); }
    if !k.Matches(digest, raw.value) { return Failed(DigestMismatch); }
    if k.parse(raw.value).None? { return Failed(InvalidManifest); }
    return Done(raw.value);
  }

  ghost predicate Usable(k: Kit, digest: Bytes, raw: Bytes) {
    k.Matches(digest, raw) && k.parse(raw).Some?
  }

  /** The reply of an honest registry. */
  ghost predicate GoodReply(k: Kit, digest: Bytes, reply: ManifestReply) {
    && (reply.mediaType == NoType || reply.mediaType == ImageManifest)
    && (reply.size <= 0 || reply.size == |reply.body.data|) && reply.body.clean
    && k.Matches(digest, reply.body.data) && k.parse(reply.body.data).Some?
  }

  // ----- policies -----

  datatype Request = Request(ref: Bytes, manifest: BlobManifest, subjectSize: nat)
  type Policy = Request -> bool

  ghost predicate Passes(policies: seq<Policy>, req: Request) {
    forall i :: 0 <= i < |policies| ==> policies[i](req)
  }

  /** evaluatePolicies; a digest is only parsed when there is a policy to ask. */
  method EvaluatePolicies(k: Kit, policies: seq<Policy>, req: Request) returns (r: Outcome<()>)
    ensures r.Done? <==> policies == [] || (k.valid(req.manifest.digest) && Passes(policies, req))
    ensures r.Failed? ==> r.error == if k.valid(req.manifest.digest) then PolicyViolation else InvalidReference
  {
    if |policies| == 0 { return Done(()); }
    if !k.valid(req.manifest.digest) { return Failed(InvalidReference); }
    for i := 0 to |policies|
      invariant forall j :: 0 <= j < i ==> policies[j](req)
    {
      if !policies[i](req) { return Failed(PolicyViolation); }
    }
    return Done(());
  }

  // ----- the client -----

  /** The manifest was read from bytes with its digest. */
  ghost predicate ReadFrom(k: Kit, m: BlobManifest, raw: Bytes) {
    k.Matches(m.digest, raw) && k.parse(raw) == Some(m.raw) && WellFormed(m.raw) && Describes(m, m.raw, m.digest)
  }

  /** The manifest is what its digest says, and every policy accepted it. */
  ghost predicate Trusted(k: Kit, policies: seq<Policy>, ref: Bytes, m: BlobManifest) {
    exists raw :: ReadFrom(k, m, raw) && Passes(policies, Request(ref, m, |raw|))
  }

  /** An honest registry serves, under the digest, a manifest that the policies accept. */
  ghost predicate Serves(k: Kit, policies: seq<Policy>, ref: Bytes, digest: Bytes, reply: Option<ManifestReply>,
                         m: BlobManifest) {
    && (exists algorithm, hex :: Written(digest, algorithm, hex))
    && reply.Some? && GoodReply(k, digest, reply.value)
    && ReadFrom(k, m, reply.value.body.data) && m.digest == digest
    && Passes(policies, Request(ref, m, |reply.value.body.data|))
  }

  /** What was read under a digest is what an honest registry serves under it. */
  lemma ServedIs(k: Kit, policies: seq<Policy>, ref: Bytes, digest: Bytes, reply: Option<ManifestReply>,
                 m: BlobManifest, raw: Bytes)
    requires k.CollisionFree() && ReadFrom(k, m, raw) && m.digest == digest
    ensures forall b :: Serves(k, policies, ref, digest, reply, b) ==>
              b == m && Passes(policies, Request(ref, m, |raw|))
  {
    forall b | Serves(k, policies, ref, digest, reply, b) ensures b == m && Passes(policies, Request(ref, m, |raw|)) {
      MatchUnique(k, digest, raw, reply.value.body.data);
      DescribesUnique(b, m, m.raw, m.digest);
    }
  }

  class Client {
    const refs: RefCache?
    const manifests: DigestCache?
    const indexes: DigestCache?

    constructor (refs: RefCache?, manifests: DigestCache?, indexes: DigestCache?)
      ensures this.refs == refs && this.manifests == manifests && this.indexes == indexes
    {
      this.refs, this.manifests, this.indexes := refs, manifests, indexes;
    }

    ghost function Stores(): set<Store> {
      (if refs == null then {} else {refs.store}) +
      (if manifests == null then {} else {manifests.store}) +
      (if indexes == null then {} else {indexes.store})
    }

    ghost predicate Valid()
      reads Stores()
    {
      && (refs != null ==> refs.store.Valid())
      && (manifests != null ==> manifests.store.Valid())
      && (indexes != null ==> indexes.store.Valid())
      && (refs != null && manifests != null ==> refs.store != manifests.store)
      && (refs != null && indexes != null ==> refs.store != indexes.store)
      && (manifests != null && indexes != null ==> manifests.store != indexes.store)
    }

    /** The manifest cache has a file for the digest. */
    ghost predicate Cached(digest: Bytes)
      requires manifests != null
      reads manifests.store
    {
      manifests.PathOf(digest).Some? && manifests.PathOf(digest).value in manifests.store.files
    }

    /** What the reference resolves to: itself when it is a digest, the fresh cached digest
        of a tag, or the registry's answer. */
    ghost function Resolved(k: Kit, ref: Bytes, reference: Bytes, skipCache: bool, reply: Option<Bytes>, now: int)
      : Outcome<Bytes>
      reads if refs == null then {} else {refs.store}
    {
      if COLON in reference then Done(reference)
      else if !skipCache && refs != null && refs.Fresh(k, ref, now) then
        Done(refs.store.files[refs.PathOf(k, ref)].data)
      else if reply.Some? then Done(reply.value) else Failed(NetworkFailed)
    }

    /** resolveDigest. */
    method ResolveDigest(k: Kit, ref: Bytes, reference: Bytes, skipCache: bool, reply: Option<Bytes>, now: int)
      returns (r: Outcome<Bytes>)
      requires Valid()
      modifies if refs == null then {} else {refs.store}
      ensures Valid()
      ensures r == old(Resolved(k, ref, reference, skipCache, reply, now))
      ensures COLON in reference ==> r == Done(reference)
      ensures COLON !in reference && !skipCache && refs != null && old(refs.Fresh(k, ref, now)) ==>
                r == Done(old(refs.store.files)[refs.PathOf(k, ref)].data)
      ensures COLON !in reference && (skipCache || refs == null || !old(refs.Fresh(k, ref, now))) ==>
                r == if reply.Some? then Done(reply.value) else Failed(NetworkFailed)
      ensures r.Done? && COLON !in reference && !skipCache && refs != null && refs.store.maxBytes == 0 ==>
                refs.PathOf(k, ref) in refs.store.files && refs.store.files[refs.PathOf(k, ref)].data == r.value
    {
      if COLON in reference { return Done(reference); }
      if !skipCache && refs != null {
        var cached := refs.GetDigest(k, ref, now);
        if cached.Some? { return Done(cached.value); }
      }
      if reply.None? { return Failed(NetworkFailed); }
      if refs != null { refs.store.Put(refs.PathOf(k, ref), reply.value); }
      return Done(reply.value);
    }

    /** fetchManifestByDigest: the manifest's bytes, and whether the cache had them. */
    method FetchManifestByDigest(k: Kit, digest: Bytes, skipCache: bool, reply: Option<ManifestReply>)
      returns (r: Outcome<(BlobManifest, Bytes)>, fromCache: bool)
      requires Valid()
      modifies if manifests == null then {} else {manifests.store}
      ensures Valid()
      ensures r.Failed? ==> r.error != PolicyViolation
      ensures r.Done? ==> r.value.0.digest == digest && ReadFrom(k, r.value.0, r.value.1)
      ensures fromCache ==> manifests != null && !skipCache && manifests.store.files == old(manifests.store.files)
      ensures fromCache <==> manifests != null && !skipCache && old(manifests.Holds(k, digest, k.Decodes))
      ensures fromCache ==>
                var raw := old(manifests.store.files)[manifests.PathOf(digest).value].data;
                (r.Done? <==> WellFormed(k.parse(raw).value)) && (r.Done? ==> r.value.1 == raw)
      ensures manifests != null && skipCache ==> manifests.store.files == old(manifests.store.files)
      ensures manifests != null && !skipCache && !fromCache ==> !Cached(digest)
      ensures (digest != [] && reply.Some? && GoodReply(k, digest, reply.value)
               && WellFormed(k.parse(reply.value.body.data).value) && k.CollisionFree()) ==>
                r.Done? && r.value.1 == reply.value.body.data
    {
      fromCache := false;
      if !skipCache && manifests != null {
        var cached := manifests.Get(k, digest, k.Decodes);
        if cached.Some? {
          var m := ParseBlobManifest(k.parse(cached.value).value, digest);
          if m.Failed? { return Failed(m.error), true; }
          return Done((m.value, cached.value)), true;
        }
      }
      if !k.valid(digest) { return Failed(InvalidReference), false; }
      var raw := FetchManifest(k, digest, reply);
      if raw.Failed? { return Failed(raw.error), false; }
      var m := ParseBlobManifest(k.parse(raw.value).value, digest);
      if m.Failed? { return Failed(m.error), false; }
      r := Done((m.value, raw.value));
    }

    /** Fetch from the resolved digest on. */
    method FetchTrusted(k: Kit, policies: seq<Policy>, ref: Bytes, digest: Bytes, skipCache: bool,
                        reply: Option<ManifestReply>)
      returns (r: Outcome<BlobManifest>)
      requires Valid()
      modifies if manifests == null then {} else {manifests.store}
      ensures Valid()
      ensures r.Done? ==> Trusted(k, policies, ref, r.value) && r.value.digest == digest
      ensures r == Failed(PolicyViolation) && manifests != null && !skipCache ==> !Cached(digest)
      ensures r.Done? && manifests != null && !skipCache && manifests.store.maxBytes == 0 ==> Cached(digest)
      ensures manifests != null && skipCache ==> manifests.store.files == old(manifests.store.files)
      ensures forall m ::
                digest != [] && k.CollisionFree() && Serves(k, policies, ref, digest, reply, m) ==> r == Done(m)
    {
      var fetched, fromCache := FetchManifestByDigest(k, digest, skipCache, reply);
      if fetched.Failed? { return Failed(fetched.error); }
      var (m, raw) := fetched.value;
      if digest != [] && k.CollisionFree() { ServedIs(k, policies, ref, digest, reply, m, raw); }
      var verdict := EvaluatePolicies(k, policies, Request(ref, m, |raw|));
      if verdict.Failed? {
        if fromCache && manifests != null { manifests.Delete(digest); }
        return Failed(verdict.error);
      }
      if !fromCache && manifests != null && !skipCache {
        HexDigestIff(digest);
        var ok := manifests.Put(k, digest, raw);
        if !ok { return Failed(CacheFailed); }
      }
      return Done(m);
    }

    /** Fetch: for any cache contents and any replies, a manifest that comes back is
        trusted, a rejected one is not left in the cache, and no cache contents keep an
        honest registry's manifest from coming back. */
    method Fetch(k: Kit, policies: seq<Policy>, ref: Bytes, reference: Bytes, skipCache: bool, replies: Replies,
                 now: int)
      returns (r: Outcome<BlobManifest>)
      requires Valid()
      modifies if refs == null then {} else {refs.store}, if manifests == null then {} else {manifests.store}
      ensures Valid()
      ensures r.Done? ==> Trusted(k, policies, ref, r.value)
      ensures r.Done? ==> Done(r.value.digest) == old(Resolved(k, ref, reference, skipCache, replies.resolve, now))
      ensures r == Failed(PolicyViolation) && manifests != null && !skipCache ==>
                var digest := old(Resolved(k, ref, reference, skipCache, replies.resolve, now));
                digest.Done? && !Cached(digest.value)
      ensures manifests != null && skipCache ==> manifests.store.files == old(manifests.store.files)
      ensures forall m ::
                COLON in reference && k.CollisionFree() && Serves(k, policies, ref, reference, replies.manifest, m) ==>
                  r == Done(m)
      ensures forall m, digest ::
                (reference != [] && old(Resolved(k, ref, reference, skipCache, replies.resolve, now)) == Done(digest)
                 && k.CollisionFree() && Serves(k, policies, ref, digest, replies.manifest, m)) ==> r == Done(m)
    {
      if reference == [] { return Failed(InvalidReference); }
      var digest := ResolveDigest(k, ref, reference, skipCache, replies.resolve, now);
      if digest.Failed? { return Failed(digest.error); }
      r := FetchTrusted(k, policies, ref, digest.value, skipCache, replies.manifest);
    }

    /** tryIndexCache: a hit has the descriptor's digest, and its size when it names one. */
    method TryIndexCache(k: Kit, desc: Descriptor, skipCache: bool, maxIndexSize: int) returns (r: Option<Bytes>)
      requires Valid()
      modifies if indexes == null then {} else {indexes.store}
      ensures Valid()
      ensures r.Some? ==> k.Matches(desc.digest, r.value) && (maxIndexSize > 0 ==> |r.value| <= maxIndexSize)
      ensures r.Some? && desc.size > 0 ==> |r.value| == desc.size
      ensures !skipCache && indexes != null && old(indexes.Holds(k, desc.digest, _ => true)) ==>
                var data := old(indexes.store.files)[indexes.PathOf(desc.digest).value].data;
                && ((maxIndexSize > 0 ==> |data| <= maxIndexSize) && (desc.size > 0 ==> |data| == desc.size) ==>
                      r == Some(data))
                && (maxIndexSize > 0 && |data| > maxIndexSize ==> indexes.store.files == old(indexes.store.files))
      ensures indexes != null && (skipCache || r.Some?) ==> indexes.store.files == old(indexes.store.files)
      ensures indexes != null ==>
                forall p :: p in old(indexes.store.files) && Some(p) != indexes.PathOf(desc.digest) ==>
                  p in indexes.store.files && indexes.store.files[p] == old(indexes.store.files)[p]
    {
      if skipCache || indexes == null { return None; }
      var cached := indexes.Get(k, desc.digest, _ => true);
      if cached.None? { return None; }
      if maxIndexSize > 0 && |cached.value| > maxIndexSize { return None; }
      if desc.size > 0 && |cached.value| != desc.size {
        indexes.Delete(desc.digest);
        return None;
      }
      return cached;
    }

    /** fetchIndexBlob: the index has the digest that the manifest names. */
    method FetchIndexBlob(k: Kit, desc: Descriptor, skipCache: bool, maxIndexSize: int, reply: Option<Body>)
      returns (r: Outcome<Bytes>)
      requires Valid()
      modifies if indexes == null then {} else {indexes.store}
      ensures Valid()
      ensures r.Done? ==> k.Matches(desc.digest, r.value) && (maxIndexSize > 0 ==> |r.value| <= maxIndexSize)
      ensures maxIndexSize > 0 && desc.size > maxIndexSize ==> r == Failed(TooLarge)
      ensures r == Failed(TooLarge) ==>
                maxIndexSize > 0 && (desc.size > maxIndexSize || (reply.Some? && |reply.value.data| > maxIndexSize))
      ensures r == Failed(DigestMismatch) ==>
                && reply.Some? && !k.Matches(desc.digest, reply.value.data)
                && (maxIndexSize > 0 ==> |reply.value.data| <= maxIndexSize)
      ensures k.CollisionFree() && reply.Some? && ServesIndex(k, desc, maxIndexSize, reply.value) ==>
                r == Done(reply.value.data)
    {
      if maxIndexSize > 0 && desc.size > maxIndexSize { return Failed(TooLarge); }
      var cached := TryIndexCache(k, desc, skipCache, maxIndexSize);
      if cached.Some? {
        if k.CollisionFree() && reply.Some? && ServesIndex(k, desc, maxIndexSize, reply.value) {
          MatchUnique(k, desc.digest, cached.value, reply.value.data);
        }
        return Done(cached.value);
      }
      if desc.size < 0 || desc.digest == [] || !k.valid(desc.digest) { return Failed(InvalidDescriptor); }
      if reply.None? { return Failed(NetworkFailed); }
      var data := ReadBody(reply.value, if maxIndexSize > 0 then Some(maxIndexSize + 1) else None);
      if data.None? { return Failed(NetworkFailed); }
      if maxIndexSize > 0 && |data.value| > maxIndexSize { return Failed(TooLarge); }
      if !k.Matches(desc.digest, data.value) { return Failed(DigestMismatch); }
      if indexes != null {
        HexDigestIff(desc.digest);
        var ok := indexes.Put(k, desc.digest, data.value);
        if !ok { return Failed(CacheFailed); }
      }
      return Done(data.value);
    }

    /** Pull up to the lazy data source: the manifest and the index bytes. */
    method Pull(k: Kit, policies: seq<Policy>, ref: Bytes, reference: Bytes, skipCache: bool, maxIndexSize: int,
                replies: Replies, now: int) returns (r: Outcome<(BlobManifest, Bytes)>)
      requires Valid()
      modifies Stores()
      ensures Valid()
      ensures r.Done? ==> Trusted(k, policies, ref, r.value.0) && k.Matches(r.value.0.indexDesc.digest, r.value.1)
      ensures r.Done? && COLON in reference ==> r.value.0.digest == reference
      ensures forall m ::
                (COLON in reference && k.CollisionFree() && Serves(k, policies, ref, reference, replies.manifest, m)
                 && replies.index.Some? && ServesIndex(k, m.indexDesc, maxIndexSize, replies.index.value)) ==>
                  r == Done((m, replies.index.value.data))
      ensures forall m, digest ::
                (reference != [] && old(Resolved(k, ref, reference, skipCache, replies.resolve, now)) == Done(digest)
                 && k.CollisionFree() && Serves(k, policies, ref, digest, replies.manifest, m)
                 && replies.index.Some? && ServesIndex(k, m.indexDesc, maxIndexSize, replies.index.value)) ==>
                  r == Done((m, replies.index.value.data))
    {
      var m := Fetch(k, policies, ref, reference, skipCache, replies, now);
      if m.Failed? { return Failed(m.error); }
      var index := FetchIndexBlob(k, m.value.indexDesc, skipCache, maxIndexSize, replies.index);
      if index.Failed? { return Failed(index.error); }
      return Done((m.value, index.value));
    }
  }

  /** An honest registry serves the index that the descriptor names, within the limit. */
  ghost predicate ServesIndex(k: Kit, desc: Descriptor, maxIndexSize: int, body: Body) {
    && k.Matches(desc.digest, body.data) && body.clean
    && desc.size >= 0 && (exists algorithm, hex :: Written(desc.digest, algorithm, hex))
    && (maxIndexSize > 0 ==> desc.size <= maxIndexSize && |body.data| <= maxIndexSize)
  }

  // ----- the hypotheses can be met -----

  /** A digest that spells out the data in hexadecimal: "x:" and the digits. */
  function SpelledOut(algorithm: Bytes, data: Bytes): Bytes {
    algorithm + ([COLON] + BlockCache.Hex(data))
  }

  /** With it as the digest function nothing collides and all data has its digest. */
  lemma KitExample(valid: Bytes -> bool, parse: Bytes -> Option<OciManifest>, refHash: Bytes -> Bytes, data: Bytes)
    requires valid(SpelledOut([120], data))
    ensures var k := Kit(valid, (algorithm, x) => SpelledOut(algorithm, x), parse, refHash);
            k.CollisionFree() && k.Matches(SpelledOut([120], data), data)
  {
    var d := SpelledOut([120], data);
    assert d[0] == 120 && d[1] == COLON && d[1..][0] == COLON;
    assert IndexOfColon(d) == 1 + IndexOfColon(d[1..]) == 1;
    assert d[..1] == [120];
    forall a, x, y | SpelledOut(a, x) == SpelledOut(a, y) ensures x == y {
      assert BlockCache.Hex(x) == SpelledOut(a, x)[|a| + 1..] && BlockCache.Hex(y) == SpelledOut(a, y)[|a| + 1..];
      BlockCache.HexInjective(x, y);
    }
  }
}
