/**
  The streaming file: reads hash incrementally and verify at the end of the stream.
  Draining it agrees with the whole-file reader, for every chunking by the source and
  every choice of buffer sizes by the caller.
 */
module StreamingFile {
  import opened Wrappers
  import opened Bytes
  import opened Archive
  import opened Readers

  /** Why opening an entry fails before any byte is read, if it does. */
  function OpenError(e: Entry, data: Bytes, maxFileSize: U64): Option<Error> {
    var v := ValidateAll(e, |data|, maxFileSize);
    if v.Err? then Some(v.error)
    else if e.compression.Unknown? then Some(UnknownCompression)
    else None
  }

  class File {
    const codec: Codec
    const entry: Entry
    const data: Bytes
    const maxFileSize: U64
    const verifyOnClose: bool

    var r: ChunkReader?
    var hashed: Bytes       // the bytes fed to the hasher
    var remaining: nat
    var initialized: bool
    var initErr: Option<Error>
    var verified: bool
    var verifyErr: bool
    ghost var overrun: nat  // bytes taken from the stream beyond originalSize

    /** What the entry's decoder delivers. */
    ghost function Source(): Decoded
      requires OpenError(entry, data, maxFileSize).None?
    {
      Stream(codec, entry, Stored(entry, data))
    }

    ghost predicate Streaming()
      requires OpenError(entry, data, maxFileSize).None?
      reads this, r
    {
      && r != null && r.Valid() && r.bytes == Source().bytes && r.end == Source().end
      && |hashed| + remaining == entry.originalSize && hashed <= r.bytes
      && r.pos == |hashed| + overrun && (overrun > 0 ==> remaining == 0)
      && (verifyErr ==> verified)
      && (verified ==> remaining == 0 && r.end.Clean? && r.pos == |r.bytes|)
      && (verified ==> (verifyErr <==> codec.hash(hashed) != entry.hash))
    }

    ghost predicate Valid()
      reads this, r
    {
      if initialized then
        && initErr == OpenError(entry, data, maxFileSize)
        && (initErr.None? ==> Streaming())
      else !verified && !verifyErr && hashed == [] && overrun == 0
    }

    /** The end of the stream is reported exactly as the specification judges it. */
    ghost predicate Verdict(err: ReadErr)
      requires OpenError(entry, data, maxFileSize).None?
      reads this
    {
      match err
      case NoErr => true
      case EOF => overrun == 0 && Judge(Streamed, codec, entry, Source()) == Ok(hashed)
      case Fail(e) => Judge(Streamed, codec, entry, Source()) == Err(e)
    }

    constructor (codec: Codec, entry: Entry, data: Bytes, maxFileSize: U64, verifyOnClose: bool)
      ensures Valid() && !initialized && r == null
      ensures this.codec == codec && this.entry == entry && this.data == data
      ensures this.maxFileSize == maxFileSize && this.verifyOnClose == verifyOnClose
    {
      this.codec, this.entry, this.data := codec, entry, data;
      this.maxFileSize, this.verifyOnClose := maxFileSize, verifyOnClose;
      r, hashed, remaining, overrun := null, [], 0, 0;
      initialized, initErr, verified, verifyErr := false, None, false, false;
    }

    method Init() returns (err: Option<Error>)
      requires Valid()
      modifies this
      ensures Valid() && initialized && err == initErr
      ensures old(initialized) ==> unchanged(this)
      ensures !old(initialized) ==> hashed == [] && overrun == 0 && !verified && (r == old(r) || fresh(r))
    {
      if initialized { return initErr; }
      initialized := true;
      initErr := OpenError(entry, data, maxFileSize);
      if initErr.None? {
        r := new ChunkReader(Stream(codec, entry, Stored(entry, data)));
        remaining := entry.originalSize;
      }
      return initErr;
    }

    method VerifyHash() returns (ok: bool)
      requires initialized && initErr.None? && Valid() && remaining == 0 && r.end.Clean? && r.pos == |r.bytes|
      modifies this
      ensures Valid() && verified && ok == !verifyErr
      ensures ok <==> codec.hash(hashed) == entry.hash
      ensures r == old(r) && hashed == old(hashed) && overrun == old(overrun) && remaining == old(remaining)
      ensures initialized && initErr == old(initErr)
    {
      if !verified {
        verifyErr := codec.hash(hashed) != entry.hash;
        verified := true;
      }
      return !verifyErr;
    }

    /** What a read past the promised content reports when `pos` bytes of the stream are
        gone: surplus data, a failing stream, or the outcome of the hash comparison. */
    ghost function AtEnd(pos: nat): ReadErr
      requires OpenError(entry, data, maxFileSize).None?
      reads this
    {
      if pos < |Source().bytes| then Fail(SizeOverflow)
      else if !Source().end.Clean? then Fail(StreamError(Source().end))
      else if codec.hash(hashed) == entry.hash then EOF
      else Fail(HashMismatch)
    }

    /** File.Read. `Verdict` speaks about a file that has not yet reported surplus data. */
    method Read(n: nat) returns (chunk: Bytes, err: ReadErr)
      requires Valid()
      modifies this, r
      ensures Valid() && initialized && (r == old(r) || fresh(r))
      ensures |chunk| <= n && hashed == old(hashed) + chunk
      ensures initErr.Some? ==> chunk == [] && err == Fail(initErr.value)
      ensures initErr.None? && old(verifyErr) ==> chunk == [] && err == Fail(HashMismatch) && verifyErr
      ensures initErr.None? && err.NoErr? && n > 0 ==> chunk != []
      ensures initErr.None? && err.NoErr? ==> overrun == old(overrun)
      ensures initErr.None? && |old(hashed)| < entry.originalSize && |hashed| < |Source().bytes| ==> err.NoErr?
      ensures initErr.None? && err.EOF? ==> verified && !verifyErr
      ensures initErr.None? && old(overrun) == 0 ==> Verdict(err)
      ensures old(initialized) && initErr.None? && old(remaining) == 0 && !old(verifyErr) && n > 0 ==>
                && chunk == [] && remaining == 0 && err == AtEnd(old(r.pos)) && r == old(r)
                && (err == Fail(SizeOverflow) ==> r.pos == old(r.pos) + 1 && overrun == old(overrun) + 1 && !verifyErr)
                && (err.EOF? ==> overrun == old(overrun))
    {
      chunk := [];
      var ie := Init();
      if ie.Some? { return [], Fail(ie.value); }
      if verifyErr {
        assert overrun == 0 ==> hashed == r.bytes;
        return [], Fail(HashMismatch);
      }
      if n == 0 { return [], NoErr; }
      if remaining == 0 {
        err := ReadExtra();
        return;
      }
      chunk, err := ReadContent(if n > remaining then remaining else n);
    }

    method ReadContent(n: nat) returns (chunk: Bytes, err: ReadErr)
      requires Valid() && initialized && initErr.None? && 0 < n <= remaining && !verifyErr
      modifies this, r
      ensures Valid() && initialized && initErr.None? && r == old(r) && overrun == 0
      ensures |chunk| <= n && hashed == old(hashed) + chunk
      ensures err.NoErr? ==> chunk != []
      ensures |hashed| < |Source().bytes| ==> err.NoErr?
      ensures err.EOF? ==> verified && !verifyErr
      ensures Verdict(err)
    {
      chunk, err := r.Read(n);
      hashed := hashed + chunk;
      remaining := remaining - |chunk|;
      if err.EOF? {
        if remaining != 0 { return chunk, Fail(DecodeFailed); }
        assert hashed == r.bytes;
        var ok := VerifyHash();
        if !ok { err := Fail(HashMismatch); }
      }
    }

    /** One more byte after the promised content is an overflow; it is not hashed. */
    method ReadExtra() returns (err: ReadErr)
      requires Valid() && initialized && initErr.None? && remaining == 0 && !verifyErr
      modifies this, r
      ensures Valid() && initialized && initErr.None? && r == old(r)
      ensures hashed == old(hashed) && remaining == 0
      ensures err == AtEnd(old(r.pos)) && !err.NoErr?
      ensures old(overrun) == 0 ==> Verdict(err)
      ensures err == Fail(SizeOverflow) ==> r.pos == old(r.pos) + 1 && overrun == old(overrun) + 1 && !verifyErr
      ensures err.EOF? ==> verified && !verifyErr && overrun == old(overrun)
    {
      var chunk;
      chunk, err := r.Read(1);
      if |chunk| > 0 {
        overrun := overrun + 1;
        return Fail(SizeOverflow);
      }
      if err.EOF? {
        assert overrun == 0 ==> hashed == r.bytes;
        var ok := VerifyHash();
        if !ok { err := Fail(HashMismatch); }
      }
    }

    /** File.Close. With verification, a file that has not reported surplus data closes
        without error exactly when the whole stream passes; after a surplus report only what
        is left of the stream counts, as in the next Read. */
    method Close() returns (r0: Result<()>)
      requires Valid()
      modifies this, r
      ensures Valid() && initialized
      ensures initErr.Some? ==> r0 == Err(initErr.value)
      ensures initErr.None? && old(overrun) == 0 && (verifyOnClose || old(verified)) ==>
                match Judge(Streamed, codec, entry, Source()) case Ok(_) => r0 == Ok(()) case Err(e) => r0 == Err(e)
      ensures initErr.None? && old(overrun) > 0 && old(verified) ==>
                r0 == if old(verifyErr) then Err(HashMismatch) else Ok(())
      ensures old(initialized) && initErr.None? && old(overrun) > 0 && !old(verified) && verifyOnClose ==>
                match AtEnd(old(r.pos)) case Fail(e) => r0 == Err(e) case _ => r0 == Ok(())
      ensures initErr.None? && !verifyOnClose && !old(verified) ==> r0 == Ok(())
    {
      var ie := Init();
      if ie.Some? { return Err(ie.value); }
      if verified {
        assert overrun == 0 ==> hashed == r.bytes;
        return if verifyErr then Err(HashMismatch) else Ok(());
      }
      if !verifyOnClose { return Ok(()); }
      while true
        invariant Valid() && initialized && initErr.None? && overrun == old(overrun) && (r == old(r) || fresh(r))
        invariant old(overrun) > 0 ==> r == old(r) && r.pos == old(r.pos) && hashed == old(hashed) && !verified
        decreases entry.originalSize - |hashed|
      {
        var chunk, err := Read(32 * 1024);
        if err.EOF? { return Ok(()); }
        if err.Fail? { return Err(err.error); }
      }
    }
  }

  /** Open and read to the end, with whatever buffer sizes the caller likes. */
  method Drain(c: Codec, e: Entry, data: Bytes, maxFileSize: U64) returns (r: Result<Bytes>)
    ensures r == Verified(c, e, data, maxFileSize)
  {
    var f := new File(c, e, data, maxFileSize, true);
    var content: Bytes := [];
    while true
      invariant f.Valid() && f.overrun == 0 && content == f.hashed && (f.r == null || fresh(f.r))
      invariant f.initialized ==> f.initErr.None?
      decreases e.originalSize - |content|
    {
      var n :| n > 0;
      var chunk, err := f.Read(n);
      content := content + chunk;
      if err.EOF? { return Ok(content); }
      if err.Fail? { return Err(err.error); }
    }
  }

  /** The four readers accept the same entries with the same content, and reject the rest
      with the same errors, except that a stream that breaks off before the promised size is
      reported in three ways. Only the streaming reader can go past 2^63 - 1 bytes. */
  method FourReadersAgree(c: Codec, e: Entry, data: Bytes, maxFileSize: U64)
    returns (whole: Result<Bytes>, streamed: Result<Bytes>, buffered: Result<Bytes>, copied: Result<Bytes>)
    requires |data| <= MAX_INT64
    ensures whole == buffered && (whole.Ok? <==> copied.Ok?) && (whole.Ok? ==> whole == copied)
    ensures e.originalSize <= MAX_INT64 && !BreaksOff(c, e, data, maxFileSize) ==> whole == streamed == copied
    ensures e.originalSize <= MAX_INT64 && BreaksOff(c, e, data, maxFileSize) ==>
              var end := c.decode(Stored(e, data)).end;
              && whole == Err(DecodeFailed) && streamed == Err(StreamError(end))
              && copied == Err(if end.Truncated? then DecodeFailed else StreamError(Corrupt))
    ensures e.originalSize > MAX_INT64 ==> whole.Err?
    ensures streamed.Ok? ==> |streamed.value| == e.originalSize && c.hash(streamed.value) == e.hash
    ensures streamed.Ok? <==>
            && ValidateAll(e, |data|, maxFileSize).Ok? && !e.compression.Unknown?
            && Stream(c, e, Stored(e, data)).end.Clean?
            && |Stream(c, e, Stored(e, data)).bytes| == e.originalSize
            && c.hash(Stream(c, e, Stored(e, data)).bytes) == e.hash
  {
    whole := ReadAll(c, e, data, maxFileSize);
    streamed := Drain(c, e, data, maxFileSize);
    var v := ValidateAll(e, |data|, maxFileSize);
    if v.Err? {
      buffered, copied := Err(v.error), Err(v.error);
    } else {
      buffered := DecodeBuffered(c, e, Stored(e, data));
      copied := DecodeStreaming(c, e, Stored(e, data), None);
    }
  }

  /** The decoder of a valid entry fails before it has delivered the promised size. */
  predicate BreaksOff(c: Codec, e: Entry, data: Bytes, maxFileSize: U64) {
    && ValidateAll(e, |data|, maxFileSize).Ok? && e.compression.Zstd?
    && |c.decode(Stored(e, data)).bytes| < e.originalSize && !c.decode(Stored(e, data)).end.Clean?
  }

  /** Surplus data is reported once and its first byte is gone: the read after the report
      ends normally exactly when there was one surplus byte and the rest verifies. */
  method ReadAfterSurplus(f: File, n: nat, m: nat) returns (first: ReadErr, second: ReadErr)
    requires f.Valid() && f.initialized && f.initErr.None? && n > 0 && m > 0
    requires f.remaining == 0 && f.overrun == 0 && f.r.pos < |f.r.bytes|
    modifies f, f.r
    ensures f.Valid() && f.initialized && f.initErr.None? && f.r == old(f.r)
    ensures second == EOF ==> f.overrun > 0 && f.verified && !f.verifyErr
    ensures first == Fail(SizeOverflow)
    ensures second == EOF <==>
            && |f.Source().bytes| == f.entry.originalSize + 1 && f.Source().end.Clean?
            && f.codec.hash(f.Source().bytes[..f.entry.originalSize]) == f.entry.hash
  {
    ghost var promised := f.Source().bytes[..f.entry.originalSize];
    assert f.hashed == promised;
    var chunk;
    chunk, first := f.Read(n);
    assert f.hashed == promised;
    chunk, second := f.Read(m);
    assert f.hashed == promised;
  }

  /** Such a file exists: one byte promised, two decoded. The surplus is reported once, and
      then the file ends normally and closes without error. */
  method SurplusExample(x: Byte, y: Byte) returns (first: ReadErr, second: ReadErr, closed: Result<()>)
    ensures first == Fail(SizeOverflow) && second == EOF && closed == Ok(())
  {
    var hash: Bytes := seq(32, _ => 0);
    var codec := Codec(b => b, b => Decoded([x, y], Clean), b => hash);
    var f := new File(codec, Entry([97], 0, 1, 1, hash, Zstd), [0], 0, true);
    var chunk, err := f.Read(1);
    assert f.initErr.None? && f.remaining == 0;
    first, second := ReadAfterSurplus(f, 1, 1);
    closed := f.Close();
  }
}
