/**
  The block cache: reads of a byte source are served from fixed-size blocks stored one
  per file. Whatever the cache holds, as long as each block of the right length equals
  its slice of the source, a cached read delivers what a direct read would; and every
  operation keeps the cache that way and its byte counter exact.
 */
module BlockCache {
  import opened Bytes
  import opened Disk
  import opened SizedStore

  // ----- block keys -----

  /** n as k bytes, most significant first. */
  function BigEndian(n: nat, k: nat): (b: Bytes)
    ensures |b| == k
  {
    if k == 0 then [] else BigEndian(n / 256, k - 1) + [n % 256]
  }

  function Pow256(k: nat): nat {
    if k == 0 then 1 else 256 * Pow256(k - 1)
  }

  /** The number that bytes spell, most significant first. */
  function ValueOf(b: Bytes): nat {
    if b == [] then 0 else 256 * ValueOf(b[..|b| - 1]) + b[|b| - 1]
  }

  lemma {:induction false} BigEndianValue(n: nat, k: nat)
    requires n < Pow256(k)
    ensures ValueOf(BigEndian(n, k)) == n
  {
    if k > 0 {
      BigEndianValue(n / 256, k - 1);
      assert BigEndian(n, k)[..k - 1] == BigEndian(n / 256, k - 1);
    }
  }

  lemma BigEndianInjective(a: nat, b: nat, k: nat)
    requires a < Pow256(k) && b < Pow256(k) && BigEndian(a, k) == BigEndian(b, k)
    ensures a == b
  {
    BigEndianValue(a, k);
    BigEndianValue(b, k);
  }

  /** Names one block of one source. */
  datatype BlockId = BlockId(source: Bytes, blockSize: nat, index: nat) {
    predicate Valid() {
      0 < blockSize < Pow256(8) && index < Pow256(8)
    }
  }

  function KeyBytes(id: BlockId): Bytes {
    id.source + (BigEndian(id.blockSize, 8) + BigEndian(id.index, 8))
  }

  /** A key is the source's name, the block size in 8 bytes and the index in 8 bytes. */
  lemma KeyLayout(id: BlockId)
    requires id.Valid()
    ensures var k, n := KeyBytes(id), |id.source|;
            && |k| == n + 16 && k[..n] == id.source
            && ValueOf(k[n..n + 8]) == id.blockSize && ValueOf(k[n + 8..]) == id.index
  {
    var k, n := KeyBytes(id), |id.source|;
    assert k[..n] == id.source;
    assert k[n..n + 8] == BigEndian(id.blockSize, 8) && k[n + 8..] == BigEndian(id.index, 8);
    BigEndianValue(id.blockSize, 8);
    BigEndianValue(id.index, 8);
  }

  /** The fixed-width tail makes the concatenation unambiguous. */
  lemma KeyBytesInjective(a: BlockId, b: BlockId)
    requires a.Valid() && b.Valid() && KeyBytes(a) == KeyBytes(b)
    ensures a == b
  {
    var s, t := BigEndian(a.blockSize, 8), BigEndian(a.index, 8);
    var u, v := BigEndian(b.blockSize, 8), BigEndian(b.index, 8);
    var k := KeyBytes(a);
    var n := |k| - 16;
    assert a.source == k[..n] == b.source;
    assert s == k[n..n + 8] == u && t == k[n + 8..] == v;
    BigEndianInjective(a.blockSize, b.blockSize, 8);
    BigEndianInjective(a.index, b.index, 8);
  }

  function HexDigit(d: nat): Byte
    requires d < 16
  {
    if d < 10 then 48 + d else 87 + d
  }

  function Hex(b: Bytes): (h: Bytes)
    ensures |h| == 2 * |b|
  {
    if b == [] then [] else [HexDigit(b[0] / 16), HexDigit(b[0] % 16)] + Hex(b[1..])
  }

  /** Two lower-case digits for each byte, the high half first. */
  lemma {:induction false} HexAt(b: Bytes, i: nat)
    requires i < |b|
    ensures Hex(b)[2 * i] as char == "0123456789abcdef"[b[i] / 16]
    ensures Hex(b)[2 * i + 1] as char == "0123456789abcdef"[b[i] % 16]
    decreases i
  {
    if i > 0 { HexAt(b[1..], i - 1); }
  }

  lemma {:induction false} HexInjective(a: Bytes, b: Bytes)
    requires Hex(a) == Hex(b)
    ensures a == b
  {
    if a != [] {
      assert b != [];
      assert Hex(a)[2..] == Hex(a[1..]) && Hex(b)[2..] == Hex(b[1..]);
      assert Hex(a)[0] == Hex(b)[0] && Hex(a)[1] == Hex(b)[1];
      HexInjective(a[1..], b[1..]);
      assert a == [a[0]] + a[1..] && b == [b[0]] + b[1..];
    }
  }

  /** The file of a key, below a subdirectory named by its first `shard` characters. */
  function PathForKey(shard: nat, key: Bytes): Bytes {
    if shard == 0 then key
    else key[..if shard > |key| then |key| else shard] + [SLASH] + key
  }

  lemma PathInjective(shard: nat, a: Bytes, b: Bytes)
    requires PathForKey(shard, a) == PathForKey(shard, b)
    ensures a == b
  {
    assert |a| == |b|;
    if shard > 0 {
      var k := (if shard > |a| then |a| else shard) + 1;
      assert a == PathForKey(shard, a)[k..] && b == PathForKey(shard, b)[k..];
    }
  }

  // ----- blocks of a source -----

  /** i * bs, by repeated addition; `TimesIsProduct` ties it to multiplication. */
  function Times(i: nat, bs: nat): nat {
    if i == 0 then 0 else Times(i - 1, bs) + bs
  }

  lemma {:induction false} TimesIsProduct(i: nat, bs: nat)
    ensures Times(i, bs) == i * bs
  {
    if i > 0 {
      TimesIsProduct(i - 1, bs);
      assert i * bs == (i - 1) * bs + bs;
    }
  }

  lemma {:induction false} TimesGrows(i: nat, j: nat, bs: nat)
    requires i < j
    ensures Times(i, bs) + bs <= Times(j, bs)
  {
    if i < j - 1 { TimesGrows(i, j - 1, bs); }
  }

  lemma {:induction false} TimesAtLeast(i: nat, bs: nat)
    requires bs > 0
    ensures i <= Times(i, bs)
  {
    if i > 0 { TimesAtLeast(i - 1, bs); }
  }

  /** The block of an offset. */
  lemma BlockOfOffset(x: nat, bs: nat)
    requires bs > 0
    ensures Times(x / bs, bs) <= x < Times(x / bs, bs) + bs
  {
    TimesIsProduct(x / bs, bs);
    assert x == (x / bs) * bs + x % bs;
  }

  function BlockEnd(bs: nat, i: nat, size: nat): nat {
    var end := Times(i, bs) + bs;
    if end > size then size else end
  }

  /** Block i of the source; the last one may be short. */
  function Block(src: Bytes, bs: nat, i: nat): Bytes
    requires Times(i, bs) <= |src|
  {
    src[Times(i, bs)..BlockEnd(bs, i, |src|)]
  }

  ghost predicate BlockOk(content: Bytes -> Bytes, id: BlockId, data: Bytes) {
    var src := content(id.source);
    Times(id.index, id.blockSize) <= |src| && |data| == |Block(src, id.blockSize, id.index)| ==>
      data == Block(src, id.blockSize, id.index)
  }

  function PathOf(hash: Bytes -> Bytes, shard: nat, id: BlockId): Bytes {
    PathForKey(shard, Hex(hash(KeyBytes(id))))
  }

  ghost predicate CollisionFree(hash: Bytes -> Bytes) {
    forall x, y :: hash(x) == hash(y) ==> x == y
  }

  /** Every stored block of the right length is the source's block; `content` gives the
      bytes behind each source identifier. */
  ghost predicate Coherent(hash: Bytes -> Bytes, shard: nat, files: Dir, content: Bytes -> Bytes) {
    forall id: BlockId :: id.Valid() && PathOf(hash, shard, id) in files ==>
      BlockOk(content, id, files[PathOf(hash, shard, id)].data)
  }

  /** Different blocks have different files. */
  lemma PathOfInjective(hash: Bytes -> Bytes, shard: nat, a: BlockId, b: BlockId)
    requires CollisionFree(hash) && a.Valid() && b.Valid() && PathOf(hash, shard, a) == PathOf(hash, shard, b)
    ensures a == b
  {
    PathInjective(shard, Hex(hash(KeyBytes(a))), Hex(hash(KeyBytes(b))));
    HexInjective(hash(KeyBytes(a)), hash(KeyBytes(b)));
    KeyBytesInjective(a, b);
  }

  /** Removing files, and storing the block of one id, keep a cache coherent. */
  lemma CoherentStep(hash: Bytes -> Bytes, shard: nat, before: Dir, after: Dir, content: Bytes -> Bytes, id: BlockId)
    requires CollisionFree(hash) && id.Valid() && Coherent(hash, shard, before, content)
    requires forall p :: p in after && p != PathOf(hash, shard, id) ==> p in before && after[p] == before[p]
    requires PathOf(hash, shard, id) in after ==> BlockOk(content, id, after[PathOf(hash, shard, id)].data)
    ensures Coherent(hash, shard, after, content)
  {
    forall o: BlockId | o.Valid() && PathOf(hash, shard, o) in after
      ensures BlockOk(content, o, after[PathOf(hash, shard, o)].data)
    {
      if PathOf(hash, shard, o) == PathOf(hash, shard, id) { PathOfInjective(hash, shard, o, id); }
    }
  }

  /** getBlock: a stored block of the right length is served; a wrong one is dropped, the
      block fetched from the source and stored if it fits. */
  method GetBlock(store: Store, hash: Bytes -> Bytes, shard: nat, id: BlockId, blockLen: nat, src: Bytes,
                  ghost content: Bytes -> Bytes)
    returns (data: Bytes)
    requires store.Valid() && id.Valid() && content(id.source) == src
    requires Times(id.index, id.blockSize) <= |src| && blockLen == |Block(src, id.blockSize, id.index)|
    modifies store
    ensures store.Valid()
    ensures CollisionFree(hash) && old(Coherent(hash, shard, store.files, content)) ==>
              Coherent(hash, shard, store.files, content) && data == Block(src, id.blockSize, id.index)
    ensures store.maxBytes > 0 && old(store.bytes) <= store.maxBytes ==> store.bytes <= store.maxBytes
    ensures blockLen > 0 && (store.maxBytes == 0 || blockLen <= store.maxBytes) ==>
              var path := PathOf(hash, shard, id); path in store.files && store.files[path].data == data
    ensures var path := PathOf(hash, shard, id);
            if path in old(store.files) && |old(store.files)[path].data| == blockLen
            then data == old(store.files)[path].data && store.files == old(store.files)
            else data == Block(src, id.blockSize, id.index)
    ensures store.maxBytes == 0 ==>
              forall p :: p in old(store.files) && p != PathOf(hash, shard, id) ==>
                p in store.files && store.files[p] == old(store.files)[p]
  {
    var path := PathOf(hash, shard, id);
    if path in store.files {
      if |store.files[path].data| == blockLen { return store.files[path].data; }
      store.Delete(path);
    }
    data := Block(src, id.blockSize, id.index);
    if data != [] { store.Put(path, data); }
    if CollisionFree(hash) && old(Coherent(hash, shard, store.files, content)) {
      CoherentStep(hash, shard, old(store.files), store.files, content, id);
    }
  }

  // ----- reads -----

  datatype IoErr = Nil | EOF | Failed

  lemma Pow256Eight()
    ensures Pow256(8) == 0x1_0000_0000_0000_0000
  {
    assert Pow256(4) == 0x1_0000_0000;
    assert Pow256(5) == 0x100_0000_0000;
    assert Pow256(6) == 0x1_0000_0000_0000;
    assert Pow256(7) == 0x100_0000_0000_0000;
  }

  /** Block b of the range overlaps the request, and starts inside it unless it is the first. */
  lemma BlockTouched(off: nat, expected: nat, bs: nat, startBlock: nat, endBlock: nat, b: nat)
    requires startBlock <= b <= endBlock
    requires Times(startBlock, bs) <= off < Times(startBlock, bs) + bs && Times(endBlock, bs) < off + expected
    ensures Times(b, bs) < off + expected && off < Times(b, bs) + bs
    ensures b > startBlock ==> off < Times(b, bs)
  {
    if b < endBlock { TimesGrows(b, endBlock, bs); }
    if startBlock < b { TimesGrows(startBlock, b, bs); }
  }

  /** The blocks that hold the first and the last byte of a range. */
  method BlocksOf(off: nat, expected: nat, bs: nat) returns (startBlock: nat, endBlock: nat)
    requires bs > 0 && expected > 0
    ensures Times(startBlock, bs) <= off < Times(startBlock, bs) + bs
    ensures Times(endBlock, bs) < off + expected <= Times(endBlock, bs) + bs
  {
    startBlock, endBlock := off / bs, (off + expected - 1) / bs;
    BlockOfOffset(off, bs);
    BlockOfOffset(off + expected - 1, bs);
  }

  /** A source read through the cache. */
  class CachedSource {
    const store: Store
    const hash: Bytes -> Bytes
    const shard: nat
    const id: Bytes
    const src: Bytes
    const blockSize: nat
    const maxBlocksPerRead: nat
    ghost const content: Bytes -> Bytes

    ghost predicate Valid()
      reads this, store
    {
      && 0 < blockSize < 0x8000_0000_0000_0000 && |src| < 0x8000_0000_0000_0000
      && content(id) == src && CollisionFree(hash)
      && store.Valid() && Coherent(hash, shard, store.files, content)
    }

    constructor (store: Store, hash: Bytes -> Bytes, shard: nat, id: Bytes, src: Bytes, blockSize: nat,
                 maxBlocksPerRead: nat, ghost content: Bytes -> Bytes)
      requires 0 < blockSize < 0x8000_0000_0000_0000 && |src| < 0x8000_0000_0000_0000
      requires content(id) == src && CollisionFree(hash)
      requires store.Valid() && Coherent(hash, shard, store.files, content)
      ensures Valid() && this.store == store && this.src == src
    {
      this.store, this.hash, this.shard, this.id, this.src := store, hash, shard, id, src;
      this.blockSize, this.maxBlocksPerRead, this.content := blockSize, maxBlocksPerRead, content;
    }

    /** Block i of the source, through the cache. */
    method Fetch(i: nat, blockLen: nat) returns (data: Bytes)
      requires Valid() && Times(i, blockSize) <= |src| && blockLen == |Block(src, blockSize, i)|
      modifies store
      ensures Valid() && data == Block(src, blockSize, i)
      ensures store.maxBytes > 0 && old(store.bytes) <= store.maxBytes ==> store.bytes <= store.maxBytes
    {
      Pow256Eight();
      TimesAtLeast(i, blockSize);
      data := GetBlock(store, hash, shard, BlockId(id, blockSize, i), blockLen, src, content);
    }

    /** cachedSource.ReadAt: same bytes, count and error as reading the source directly. */
    method ReadAt(p: array<Byte>, off: int) returns (n: nat, err: IoErr)
      requires Valid()
      modifies p, store
      ensures Valid()
      ensures p.Length == 0 ==> n == 0 && err == Nil
      ensures p.Length > 0 && off < 0 ==> n == 0 && err == Failed
      ensures p.Length > 0 && off >= |src| ==> n == 0 && err == EOF
      ensures p.Length > 0 && 0 <= off < |src| ==>
                && n == (if p.Length <= |src| - off then p.Length else |src| - off)
                && err == (if off + p.Length > |src| then EOF else Nil)
      ensures n <= p.Length && (n > 0 ==> 0 <= off && off + n <= |src| && p[..n] == src[off..off + n])
      ensures p[n..] == old(p[n..])
      ensures store.maxBytes > 0 && old(store.bytes) <= store.maxBytes ==> store.bytes <= store.maxBytes
    {
      n := 0;
      if p.Length == 0 { return 0, Nil; }
      if off < 0 { return 0, Failed; }
      var size := |src|;
      if off >= size { return 0, EOF; }
      var expected := if off + p.Length > size then size - off else p.Length;
      n := ReadInside(p, off, expected);
      err := if expected < p.Length then EOF else Nil;
    }

    /** The part of ReadAt for a range inside the source: block by block, or directly when
        it spans too many blocks. */
    method ReadInside(p: array<Byte>, off: nat, expected: nat) returns (n: nat)
      requires Valid() && 0 < expected <= p.Length && off + expected <= |src|
      modifies p, store
      ensures Valid() && n == expected
      ensures forall k :: 0 <= k < n ==> p[k] == src[off + k]
      ensures forall k :: n <= k < p.Length ==> p[k] == old(p[k])
      ensures store.maxBytes > 0 && old(store.bytes) <= store.maxBytes ==> store.bytes <= store.maxBytes
    {
      var startBlock, endBlock := BlocksOf(off, expected, blockSize);
      if maxBlocksPerRead > 0 && endBlock - startBlock + 1 > maxBlocksPerRead {
        n := expected;
        CopyInto(p, 0, src, off, expected);
      } else {
        n := ReadBlocks(p, off, expected, startBlock, endBlock);
      }
    }

    /** The loop over the blocks that hold [off, off + expected). */
    method ReadBlocks(p: array<Byte>, off: nat, expected: nat, startBlock: nat, endBlock: nat) returns (n: nat)
      requires Valid() && 0 < expected <= p.Length && off + expected <= |src|
      requires Times(startBlock, blockSize) <= off < Times(startBlock, blockSize) + blockSize
      requires Times(endBlock, blockSize) < off + expected <= Times(endBlock, blockSize) + blockSize
      modifies p, store
      ensures Valid() && n == expected
      ensures forall k :: 0 <= k < n ==> p[k] == src[off + k]
      ensures forall k :: n <= k < p.Length ==> p[k] == old(p[k])
      ensures store.maxBytes > 0 && old(store.bytes) <= store.maxBytes ==> store.bytes <= store.maxBytes
    {
      if startBlock > endBlock { TimesGrows(endBlock, startBlock, blockSize); }
      n := 0;
      var b := startBlock;
      while b <= endBlock
        invariant startBlock <= b <= endBlock + 1 && Valid() && n <= expected
        invariant forall k :: 0 <= k < n ==> p[k] == src[off + k]
        invariant forall k :: n <= k < p.Length ==> p[k] == old(p[k])
        invariant if b == startBlock then n == 0 else off + n == Min(off + expected, Times(b, blockSize))
        invariant store.maxBytes > 0 && old(store.bytes) <= store.maxBytes ==> store.bytes <= store.maxBytes
      {
        BlockTouched(off, expected, blockSize, startBlock, endBlock, b);
        assert Times(b + 1, blockSize) == Times(b, blockSize) + blockSize;
        n := ReadBlock(p, off, expected, b, n);
        b := b + 1;
      }
    }

    /** One round of the loop: block b, of which the part inside the request is copied. */
    method ReadBlock(p: array<Byte>, off: nat, expected: nat, b: nat, n0: nat) returns (n: nat)
      requires Valid() && expected <= p.Length && off + expected <= |src|
      requires off + n0 == Max(off, Times(b, blockSize)) < off + expected && off < Times(b, blockSize) + blockSize
      modifies p, store
      ensures Valid() && n0 <= n <= expected && off + n == Min(off + expected, Times(b, blockSize) + blockSize)
      ensures forall k :: n0 <= k < n ==> p[k] == src[off + k]
      ensures forall k :: 0 <= k < p.Length && !(n0 <= k < n) ==> p[k] == old(p[k])
      ensures store.maxBytes > 0 && old(store.bytes) <= store.maxBytes ==> store.bytes <= store.maxBytes
    {
      var blockStart := Times(b, blockSize);
      var blockEnd := Min(blockStart + blockSize, |src|);
      var data := Fetch(b, blockEnd - blockStart);
      var copyStart, copyEnd := Max(off, blockStart), Min(off + expected, blockEnd);
      CopyInto(p, copyStart - off, data, copyStart - blockStart, copyEnd - copyStart);
      n := n0 + (copyEnd - copyStart);
    }

    /** cachedSource.ReadRange: the section of the source, read to its end in any pieces. */
    method ReadRange(off: int, length: int) returns (content': Bytes, err: IoErr)
      requires Valid()
      modifies store
      ensures Valid()
      ensures length < 0 || (length > 0 && off < 0) ==> err == Failed && content' == []
      ensures length == 0 ==> err == Nil && content' == []
      ensures length > 0 && off >= |src| ==> err == EOF && content' == []
      ensures length > 0 && 0 <= off < |src| ==> err == Nil && content' == src[off..Min(off + length, |src|)]
    {
      content' := [];
      if length < 0 { return [], Failed; }
      if length == 0 { return [], Nil; }
      if off < 0 { return [], Failed; }
      if off >= |src| { return [], EOF; }
      var len := if length > |src| - off then |src| - off else length;
      while |content'| < len
        invariant |content'| <= len && content' == src[off..off + |content'|] && Valid()
      {
        var want :| 0 < want <= len - |content'|;
        var buf := new Byte[want];
        var n, _ := ReadAt(buf, off + |content'|);
        content' := content' + buf[..n];
      }
      err := Nil;
    }
  }

  /** copy(p[at:at+length], data[from:from+length]). */
  method CopyInto(p: array<Byte>, at: nat, data: Bytes, from: nat, length: nat)
    requires at + length <= p.Length && from + length <= |data|
    modifies p
    ensures forall k :: at <= k < at + length ==> p[k] == data[from + (k - at)]
    ensures forall k :: 0 <= k < p.Length && !(at <= k < at + length) ==> p[k] == old(p[k])
  {
    forall k | 0 <= k < length { p[at + k] := data[from + k]; }
  }

  function Min(a: int, b: int): int {
    if a < b then a else b
  }

  function Max(a: int, b: int): int {
    if a > b then a else b
  }

  /** A read through any coherent cache contents, whatever the limit, the sharding, the
      block size and the bypass threshold, is a read of the source. */
  method ReadThrough(files: Dir, clock: int, maxBytes: nat, hash: Bytes -> Bytes, shard: nat, id: Bytes, src: Bytes,
                     blockSize: nat, maxBlocksPerRead: nat, off: int, len: nat, ghost content: Bytes -> Bytes)
    returns (n: nat, err: IoErr, out: Bytes)
    requires 0 < blockSize < 0x8000_0000_0000_0000 && |src| < 0x8000_0000_0000_0000
    requires content(id) == src && CollisionFree(hash) && Coherent(hash, shard, files, content)
    ensures |out| == n
    ensures len == 0 ==> n == 0 && err == Nil
    ensures len > 0 && off < 0 ==> n == 0 && err == Failed
    ensures len > 0 && off >= |src| ==> n == 0 && err == EOF
    ensures len > 0 && 0 <= off < |src| ==>
              && n == (if len <= |src| - off then len else |src| - off)
              && err == (if off + len > |src| then EOF else Nil)
    ensures n > 0 ==> 0 <= off && off + n <= |src| && out == src[off..off + n]
  {
    var store := new Store(files, clock, maxBytes);
    var s := new CachedSource(store, hash, shard, id, src, blockSize, maxBlocksPerRead, content);
    var p := new Byte[len];
    n, err := s.ReadAt(p, off);
    out := p[..n];
  }

  // ----- the hypotheses can be met -----

  /** A directory with one block of the right content is coherent. */
  lemma OneBlockCoherent(hash: Bytes -> Bytes, shard: nat, files: Dir, content: Bytes -> Bytes, id: BlockId)
    requires CollisionFree(hash) && id.Valid() && files.Keys == {PathOf(hash, shard, id)}
    requires BlockOk(content, id, files[PathOf(hash, shard, id)].data)
    ensures Coherent(hash, shard, files, content)
  {
    forall o: BlockId | o.Valid() && PathOf(hash, shard, o) in files
      ensures BlockOk(content, o, files[PathOf(hash, shard, o)].data)
    {
      PathOfInjective(hash, shard, o, id);
    }
  }

  function Identity(b: Bytes): Bytes {
    b
  }

  /** With the identity as hash and the first block of any source stored, the source can be
      read through the cache. */
  method CoherentExample(id: Bytes, shard: nat, src: Bytes, blockSize: nat) returns (s: CachedSource)
    requires 0 < blockSize < 0x8000_0000_0000_0000 && |src| < 0x8000_0000_0000_0000
    ensures s.Valid() && s.src == src && s.store.files != map[]
  {
    Pow256Eight();
    var block := BlockId(id, blockSize, 0);
    var files: Dir := map[PathOf(Identity, shard, block) := FileRec(Block(src, blockSize, 0), 0)];
    ghost var content: Bytes -> Bytes := _ => src;
    OneBlockCoherent(Identity, shard, files, content, block);
    var store := new Store(files, 0, 0);
    s := new CachedSource(store, Identity, shard, id, src, blockSize, 0, content);
  }
}
