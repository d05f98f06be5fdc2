/**
  The content-addressed cache. Its Put writes a temporary file into the cache directory
  before it makes room, so pruning sees that file too: the counter may over-report, and
  the new content itself can be evicted, in which case Put fails. Modification times are
  arbitrary: files may share one, or lie in the future.
 */
module ContentCache {
  import opened Wrappers
  import opened Bytes
  import opened Disk
  import BlockCache

  function ContentPath(shard: nat, hash: Bytes): Bytes {
    BlockCache.PathForKey(shard, BlockCache.Hex(hash))
  }

  class Cache {
    const shard: nat
    const maxBytes: nat  // 0 means no limit
    var files: Dir
    var bytes: int
    var clock: int       // modification time of the next file, whatever the system clock says

    /** The counter never under-reports. */
    ghost predicate Valid()
      reads this
    {
      TotalSize(files) <= bytes
    }

    function PathOf(hash: Bytes): Bytes {
      ContentPath(shard, hash)
    }

    constructor (files: Dir, clock: int, shard: nat, maxBytes: nat)
      ensures Valid() && this.files == files && this.shard == shard && this.maxBytes == maxBytes
      ensures this.clock == clock && bytes == TotalSize(files)
    {
      this.files, this.clock, this.shard, this.maxBytes := files, clock, shard, maxBytes;
      var _, total := CollectByAge(files);
      bytes := total;
    }

    method Get(hash: Bytes) returns (r: Option<Bytes>)
      ensures r.Some? <==> hash != [] && PathOf(hash) in files
      ensures r.Some? ==> r.value == files[PathOf(hash)].data
    {
      if hash == [] || PathOf(hash) !in files { return None; }
      return Some(files[PathOf(hash)].data);
    }

    method Delete(hash: Bytes)
      requires Valid()
      modifies this`files, this`bytes
      ensures Valid() && bytes <= old(bytes)
      ensures files == if hash == [] then old(files) else old(files) - {PathOf(hash)}
    {
      if hash == [] { return; }
      var path := PathOf(hash);
      if path !in files {
        assert files - {path} == files;
        return;
      }
      TotalWithout(files, path);
      bytes := bytes - |files[path].data|;
      files := files - {path};
    }

    method Prune(targetBytes: int) returns (freed: nat)
      modifies this`files, this`bytes
      ensures Valid() && bytes == TotalSize(files) && files == old(files) - (old(files).Keys - files.Keys)
      ensures Pruned(old(files), if targetBytes < 0 then 0 else targetBytes, old(files).Keys - files.Keys)
      ensures freed + bytes == TotalSize(old(files))
    {
      var kept, f, remaining := PruneDir(files, targetBytes);
      files, bytes, freed := kept, remaining, f;
    }

    /** Whether Put of new content has to prune. */
    ghost predicate MustPrune(need: nat)
      reads this
    {
      maxBytes > 0 && need <= maxBytes && bytes + need > maxBytes
    }

    /** Put of new content fails: room has to be made, and the temporary file does not
        survive, because with everything younger it exceeds what the limit leaves. */
    ghost predicate PutFails(hash: Bytes, need: nat, tmp: Bytes)
      reads this
    {
      && hash != [] && PathOf(hash) !in files && MustPrune(need)
      && 2 * need + TotalSize(YoungerThan(files, clock, tmp)) > maxBytes
    }

    /** Put of content whose source was read to the end. `tmp` is the name CreateTemp
        chose. The new content is stored unless it can never fit, or `PutFails`. */
    method Put(hash: Bytes, data: Bytes, tmp: Bytes) returns (ok: bool)
      requires Valid() && tmp !in files && tmp != PathOf(hash)
      modifies this
      ensures Valid()
      ensures ok <==> hash != [] && !old(PutFails(hash, |data|, tmp))
      ensures hash == [] || PathOf(hash) in old(files) || (maxBytes > 0 && |data| > maxBytes) ==> files == old(files)
      ensures ok && PathOf(hash) !in old(files) && (maxBytes == 0 || |data| <= maxBytes) ==>
                && PathOf(hash) in files && files[PathOf(hash)].data == data
                && (maxBytes > 0 ==> bytes <= maxBytes)
                && var evicted, f := old(files).Keys - files.Keys, FileRec(data, old(clock));
                   && files == (old(files) - evicted)[PathOf(hash) := f]
                   && if old(MustPrune(|data|)) then Pruned(old(files)[tmp := f], maxBytes - |data|, evicted)
                      else evicted == {}
      ensures old(PutFails(hash, |data|, tmp)) ==>
                var all := old(files)[tmp := FileRec(data, old(clock))];
                && Pruned(all, maxBytes - |data|, all.Keys - files.Keys)
                && files == all - (all.Keys - files.Keys) && tmp !in files
      ensures forall p :: p in files && p != PathOf(hash) ==> p in old(files) && files[p] == old(files)[p]
      ensures maxBytes > 0 && old(bytes) <= maxBytes ==> bytes <= maxBytes
    {
      if hash == [] { return false; }
      var path := PathOf(hash);
      if path in files { return true; }
      var f := FileRec(data, clock);
      TotalWith(files, tmp, f);
      ghost var stored := files;
      files := files[tmp := f];
      ghost var all := files;
      assert all - {tmp} == stored;
      var need := |data|;
      if maxBytes > 0 {
        if need > maxBytes {
          files := files - {tmp};
          return true;
        }
        if bytes + need > maxBytes {
          var _ := Prune(maxBytes - need);
          TempRemovedIff(stored, tmp, f, maxBytes - need, all.Keys - files.Keys);
          if tmp !in files { return false; }
        }
      }
      KeptFiles(stored, tmp, f, files, path);
      Rename(tmp, path, need);
      clock := *;
      return true;
    }

    /** Rename the temporary file and count it. */
    method Rename(tmp: Bytes, path: Bytes, need: nat)
      requires tmp in files && path !in files && |files[tmp].data| == need
      requires TotalSize(files) <= bytes + need
      modifies this`files, this`bytes
      ensures Valid() && bytes == old(bytes) + need && files == (old(files) - {tmp})[path := old(files)[tmp]]
    {
      TotalWithout(files, tmp);
      TotalWith(files - {tmp}, path, files[tmp]);
      files := (files - {tmp})[path := files[tmp]];
      bytes := bytes + need;
    }
  }

  /** What was evicted is what pruning took, when the temporary file is not among it. */
  lemma KeptFiles(stored: Dir, tmp: Bytes, f: FileRec, kept: Dir, path: Bytes)
    requires tmp !in stored && path !in stored && path != tmp && tmp in kept
    requires var all := stored[tmp := f]; kept == all - (all.Keys - kept.Keys)
    ensures var after := (kept - {tmp})[path := kept[tmp]];
            && stored.Keys - after.Keys == stored[tmp := f].Keys - kept.Keys
            && after == (stored - (stored.Keys - after.Keys))[path := f]
  {
    var all, after := stored[tmp := f], (kept - {tmp})[path := kept[tmp]];
    assert forall p :: p in kept <==> p in all && p !in all.Keys - kept.Keys;
    assert stored.Keys - after.Keys == all.Keys - kept.Keys;
  }

  /** Pruning right after writing tmp removes it exactly when it exceeds the target together
      with the files that are younger already. */
  lemma TempRemovedIff(stored: Dir, tmp: Bytes, f: FileRec, t: nat, R: set<Bytes>)
    requires tmp !in stored && Pruned(stored[tmp := f], t, R)
    ensures tmp in R <==> |f.data| + TotalSize(YoungerThan(stored, f.mtime, tmp)) > t
  {
    var all := stored[tmp := f];
    RemovedIff(all, t, R, tmp);
    LessIrreflexive(tmp);
    assert YoungerThan(all, f.mtime, tmp) == YoungerThan(stored, f.mtime, tmp);
  }

  /** When no file is younger than tmp, it is removed exactly when it exceeds the target
      alone, and then everything is: a Put of more than half the limit empties the cache. */
  lemma NewestSurvives(d: Dir, tmp: Bytes, t: nat, R: set<Bytes>)
    requires tmp in d && Pruned(d, t, R) && YoungerThan(d, d[tmp].mtime, tmp) == map[]
    ensures tmp in R <==> |d[tmp].data| > t
    ensures tmp in R ==> R == d.Keys && d - R == map[]
  {
    RemovedIff(d, t, R, tmp);
    forall p | p in d && p != tmp ensures !Older(d, tmp, p) { assert p !in YoungerThan(d, d[tmp].mtime, tmp); }
    if tmp in R {
      assert R == d.Keys;
      assert (d - R).Keys == {};
    }
  }

  datatype Op = Insert(hash: Bytes, data: Bytes, tmp: Bytes) | Remove(hash: Bytes) | PruneTo(target: int)

  /** A whole run of operations on a cache opened over any directory: the reported size is
      never below what is stored, and once it is within the limit it stays there. (An
      insertion whose temporary name is taken is skipped: CreateTemp chooses free names.) */
  method RunOps(files: Dir, clock: int, shard: nat, maxBytes: nat, ops: seq<Op>) returns (left: Dir, size: int)
    ensures TotalSize(left) <= size
    ensures maxBytes > 0 && TotalSize(files) <= maxBytes ==> size <= maxBytes
  {
    var c := new Cache(files, clock, shard, maxBytes);
    for k := 0 to |ops|
      invariant c.Valid() && c.maxBytes == maxBytes
      invariant maxBytes > 0 && TotalSize(files) <= maxBytes ==> c.bytes <= maxBytes
    {
      match ops[k] {
        case Insert(hash, data, tmp) =>
          if tmp !in c.files && tmp != c.PathOf(hash) { var _ := c.Put(hash, data, tmp); }
        case Remove(hash) => c.Delete(hash);
        case PruneTo(target) => var _ := c.Prune(target);
      }
    }
    left, size := c.files, c.bytes;
  }

  /** Two bytes stored, a limit of three: two more would fit after pruning, and Put fails
      and leaves nothing. */
  method FittingPutCanFail(p: Bytes, hash: Bytes, tmp: Bytes) returns (ok: bool, left: Dir)
    requires hash != [] && p != ContentPath(0, hash) && tmp != p && tmp != ContentPath(0, hash)
    ensures !ok && left == map[]
  {
    var f := FileRec([1, 2], 0);
    TotalWith(map[], p, f);
    var c := new Cache(map[p := f], 1, 0, 3);
    ghost var all := c.files[tmp := FileRec([3, 4], 1)];
    LessIrreflexive(tmp);
    assert YoungerThan(c.files, 1, tmp) == map[] && YoungerThan(all, 1, tmp) == map[];
    ok := c.Put(hash, [3, 4], tmp);
    left := c.files;
    NewestSurvives(all, tmp, 1, all.Keys - left.Keys);
  }

  /** Three bytes stored in the same tick under a larger path, a limit of four: two bytes
      are no more than half the limit, and Put fails all the same. */
  method TiedPutCanFail(p: Bytes, hash: Bytes, tmp: Bytes) returns (ok: bool)
    requires hash != [] && p != ContentPath(0, hash) && tmp != ContentPath(0, hash) && Less(tmp, p)
    ensures !ok
  {
    LessIrreflexive(p);
    var f := FileRec([1, 2, 3], 0);
    TotalWith(map[], p, f);
    var c := new Cache(map[p := f], 0, 0, 4);
    assert YoungerThan(c.files, 0, tmp) == c.files;
    ok := c.Put(hash, [4, 5], tmp);
  }
}
