/**
  A disk cache with a byte limit and a running byte counter, as the block, reference,
  manifest and index caches keep it: make room first, then write the file under its final
  name. The counter is exact after every operation and insertions respect the limit.
 */
module SizedStore {
  import opened Bytes
  import opened Disk

  class Store {
    const maxBytes: nat  // 0 means no limit
    var files: Dir
    var bytes: int
    var clock: int       // modification time of the next file, whatever the system clock says

    ghost predicate Valid()
      reads this
    {
      bytes == TotalSize(files)
    }

    constructor (files: Dir, clock: int, maxBytes: nat)
      ensures Valid() && this.files == files && this.clock == clock && this.maxBytes == maxBytes
    {
      this.files, this.clock, this.maxBytes := files, clock, maxBytes;
      var _, total := CollectByAge(files);
      bytes := total;
    }

    /** Prune. */
    method Prune(targetBytes: int) returns (freed: nat)
      requires Valid()
      modifies this`files, this`bytes
      ensures Valid() && files == old(files) - (old(files).Keys - files.Keys)
      ensures Pruned(old(files), if targetBytes < 0 then 0 else targetBytes, old(files).Keys - files.Keys)
      ensures freed + bytes == old(bytes) && bytes <= if targetBytes < 0 then 0 else targetBytes
    {
      var kept, f, remaining := PruneDir(files, targetBytes);
      assert files - (files.Keys - kept.Keys) == kept;
      files, bytes, freed := kept, remaining, f;
    }

    /** ensureCapacity: make room for `need` more bytes, or say that there cannot be any. */
    method EnsureCapacity(need: nat) returns (ok: bool)
      requires Valid()
      modifies this`files, this`bytes
      ensures Valid() && files == old(files) - (old(files).Keys - files.Keys)
      ensures ok <==> maxBytes == 0 || need <= maxBytes
      ensures ok && maxBytes > 0 ==> bytes + need <= maxBytes
      ensures if ok && maxBytes > 0 && old(bytes) + need > maxBytes
              then Pruned(old(files), maxBytes - need, old(files).Keys - files.Keys)
              else files == old(files)
    {
      assert files - (files.Keys - files.Keys) == files;
      if maxBytes == 0 { return true; }
      if need > maxBytes { return false; }
      if bytes + need <= maxBytes { return true; }
      var _ := Prune(maxBytes - need);
      ok := bytes + need <= maxBytes;
    }

    /** Storing a file: nothing happens when it is already there or can never fit; else
        the oldest files make room. */
    method Put(path: Bytes, data: Bytes)
      requires Valid()
      modifies this
      ensures Valid()
      ensures path in old(files) || (maxBytes > 0 && |data| > maxBytes) ==> files == old(files)
      ensures path !in old(files) && (maxBytes == 0 || |data| <= maxBytes) ==>
                && path in files && files[path].data == data
                && (maxBytes > 0 ==> bytes <= maxBytes)
      ensures path !in old(files) && (maxBytes == 0 || |data| <= maxBytes) ==>
                var evicted := old(files).Keys - files.Keys;
                && files == (old(files) - evicted)[path := FileRec(data, old(clock))]
                && if maxBytes > 0 && old(bytes) + |data| > maxBytes
                   then Pruned(old(files), maxBytes - |data|, evicted) else evicted == {}
      ensures forall p :: p in files && p != path ==> p in old(files) && files[p] == old(files)[p]
      ensures maxBytes > 0 && old(bytes) <= maxBytes ==> bytes <= maxBytes
    {
      if path in files { return; }
      var ok := EnsureCapacity(|data|);
      if !ok { return; }
      Evicted(old(files), files, path, FileRec(data, clock));
      TotalWith(files, path, FileRec(data, clock));
      files := files[path := FileRec(data, clock)];
      clock := *;
      bytes := bytes + |data|;
    }

    /** Removing a file; absent files are no error. */
    method Delete(path: Bytes)
      requires Valid()
      modifies this`files, this`bytes
      ensures Valid() && files == old(files) - {path} && bytes <= old(bytes)
    {
      if path !in files {
        assert files - {path} == files;
        return;
      }
      TotalWithout(files, path);
      bytes := bytes - |files[path].data|;
      files := files - {path};
    }
  }

  /** Adding a file hides no eviction. */
  lemma Evicted(before: Dir, kept: Dir, path: Bytes, f: FileRec)
    requires path !in before && kept == before - (before.Keys - kept.Keys)
    ensures before.Keys - kept[path := f].Keys == before.Keys - kept.Keys
  {
  }

  datatype Op = Insert(path: Bytes, data: Bytes) | Remove(path: Bytes) | PruneTo(target: int)

  /** A whole run of operations on a cache opened over any directory: the reported size is
      exact at the end, and once it is within the limit it stays there. */
  method RunOps(files: Dir, clock: int, maxBytes: nat, ops: seq<Op>) returns (left: Dir, size: int)
    ensures size == TotalSize(left)
    ensures maxBytes > 0 && TotalSize(files) <= maxBytes ==> size <= maxBytes
    ensures forall p :: p in left ==>
              (p in files && left[p] == files[p]) || exists i :: 0 <= i < |ops| && ops[i] == Insert(p, left[p].data)
    ensures maxBytes == 0 && (forall i :: 0 <= i < |ops| ==> ops[i].Insert?) ==>
              && (forall p :: p in files ==> p in left && left[p] == files[p])
              && (forall i :: 0 <= i < |ops| ==> ops[i].path in left)
  {
    var s := new Store(files, clock, maxBytes);
    for k := 0 to |ops|
      invariant s.Valid() && s.maxBytes == maxBytes
      invariant maxBytes > 0 && TotalSize(files) <= maxBytes ==> s.bytes <= maxBytes
      invariant forall p :: p in s.files ==>
                  || (p in files && s.files[p] == files[p])
                  || exists i :: 0 <= i < k && ops[i] == Insert(p, s.files[p].data)
      invariant maxBytes == 0 && (forall i :: 0 <= i < k ==> ops[i].Insert?) ==>
                  && (forall p :: p in files ==> p in s.files && s.files[p] == files[p])
                  && (forall i :: 0 <= i < k ==> ops[i].path in s.files)
    {
      match ops[k] {
        case Insert(path, data) => s.Put(path, data);
        case Remove(path) => s.Delete(path);
        case PruneTo(target) => var _ := s.Prune(target);
      }
    }
    left, size := s.files, s.bytes;
  }
}
