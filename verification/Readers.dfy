/**
  The readers that turn an entry and the data blob into verified content: the
  whole-file reader, the streaming file, and the two decoders of batch extraction.
  They are separate loops over a stream that may deliver its bytes in any chunks; each
  is proved against the one specification `Verified`.
 */
module Readers {
  import opened Wrappers
  import opened Bytes
  import opened Archive

  /** What a decoder delivers: some bytes, then its end. */
  datatype Decoded = Decoded(bytes: Bytes, end: End)

  /** The compressor and the content hash, as functions. */
  datatype Codec = Codec(encode: Bytes -> Bytes, decode: Bytes -> Decoded, hash: Bytes -> Bytes)

  function Stored(e: Entry, data: Bytes): Bytes
    requires e.dataOffset + e.dataSize <= |data|
  {
    data[e.dataOffset..e.dataOffset + e.dataSize]
  }

  function Stream(c: Codec, e: Entry, stored: Bytes): Decoded {
    if e.compression.Zstd? then c.decode(stored) else Decoded(stored, Clean)
  }

  /** The readers differ in one thing: what they report for a stream that ends too early. */
  datatype Style = Whole | Streamed | Copied

  function TooShort(style: Style, end: End): Error {
    match style
    case Whole => DecodeFailed
    case Streamed => if end.Clean? then DecodeFailed else StreamError(end)
    case Copied => if end.Corrupt? then StreamError(end) else DecodeFailed
  }

  /** The verdict on a stream: it must end cleanly after exactly the promised number of
      bytes, and these must have the promised hash. */
  function Judge(style: Style, c: Codec, e: Entry, s: Decoded): Result<Bytes> {
    if |s.bytes| > e.originalSize then Err(SizeOverflow)
    else if |s.bytes| < e.originalSize then Err(TooShort(style, s.end))
    else if !s.end.Clean? then Err(StreamError(s.end))
    else if c.hash(s.bytes) != e.hash then Err(HashMismatch)
    else Ok(s.bytes)
  }

  /** The specification of streaming one entry from the data blob. */
  function Verified(c: Codec, e: Entry, data: Bytes, maxFileSize: U64): Result<Bytes> {
    var v := ValidateAll(e, |data|, maxFileSize);
    if v.Err? then Err(v.error)
    else if e.compression.Unknown? then Err(UnknownCompression)
    else Judge(Streamed, c, e, Stream(c, e, Stored(e, data)))
  }

  /** The specification of the readers that take the whole content, given a validated
      entry's stored bytes: the content's size must fit a signed 64-bit integer. */
  function ReadStored(style: Style, c: Codec, e: Entry, stored: Bytes): Result<Bytes> {
    if e.compression.Unknown? then Err(UnknownCompression)
    else if e.originalSize > MAX_INT64 then Err(SizeOverflow)
    else Judge(style, c, e, Stream(c, e, stored))
  }

  function ReadEntry(c: Codec, e: Entry, data: Bytes, maxFileSize: U64): Result<Bytes> {
    var v := ValidateAll(e, |data|, maxFileSize);
    if v.Err? then Err(v.error) else ReadStored(Whole, c, e, Stored(e, data))
  }

  // ----- a stream that delivers its bytes in arbitrary chunks -----

  datatype ReadErr = NoErr | EOF | Fail(error: Error)

  /** An io.Reader: a read into a nonempty buffer delivers at least one byte or reports
      the end; the end may come with the last bytes or after them. */
  class ChunkReader {
    const bytes: Bytes
    const end: End
    var pos: nat

    ghost predicate Valid()
      reads this
    {
      pos <= |bytes|
    }

    constructor (s: Decoded)
      ensures Valid() && bytes == s.bytes && end == s.end && pos == 0
    {
      bytes, end, pos := s.bytes, s.end, 0;
    }

    function AtEnd(): ReadErr {
      if end.Clean? then EOF else Fail(StreamError(end))
    }

    method Read(n: nat) returns (chunk: Bytes, err: ReadErr)
      requires Valid()
      modifies this
      ensures Valid() && |chunk| <= n && pos == old(pos) + |chunk| && chunk == bytes[old(pos)..pos]
      ensures err.NoErr? && n > 0 ==> chunk != []
      ensures !err.NoErr? ==> pos == |bytes| && err == AtEnd()
      ensures n > 0 && old(pos) == |bytes| ==> !err.NoErr?
    {
      var left := |bytes| - pos;
      if left == 0 {
        return [], if n == 0 then NoErr else AtEnd();
      }
      var k :| 0 <= k <= n && k <= left && (n > 0 ==> k > 0);
      chunk := bytes[pos..pos + k];
      pos := pos + k;
      var endComesAlong: bool := *;
      err := if k < left || n == 0 || !endComesAlong then NoErr else AtEnd();
    }
  }

  // ----- building blocks -----

  /** io.ReadFull: reads until `size` bytes have arrived or the stream ends. */
  method ReadFull(r: ChunkReader, size: nat) returns (content: Bytes, full: bool)
    requires r.Valid() && r.pos == 0
    modifies r
    ensures r.Valid() && r.pos == |content| && content == r.bytes[..|content|]
    ensures full <==> |content| == size
    ensures full <==> size <= |r.bytes|
    ensures |content| <= size
  {
    content := [];
    var err := NoErr;
    while |content| < size && err.NoErr?
      invariant r.Valid() && r.pos == |content| <= size && content == r.bytes[..|content|]
      invariant !err.NoErr? ==> r.pos == |r.bytes|
      decreases size - |content|, if err.NoErr? then 1 else 0
    {
      var chunk: Bytes;
      chunk, err := r.Read(size - |content|);
      content := content + chunk;
    }
    full := |content| == size;
  }

  /** EnsureNoExtra: one more byte is an overflow, a clean end is fine, and a failing
      stream's error is handed on. */
  method EnsureNoExtra(r: ChunkReader) returns (e: Result<()>)
    requires r.Valid()
    modifies r
    ensures e == if old(r.pos) < |r.bytes| then Err(SizeOverflow)
                 else if r.end.Clean? then Ok(()) else Err(StreamError(r.end))
  {
    var chunk, err := r.Read(1);
    e := if |chunk| > 0 then Err(SizeOverflow) else if err.Fail? then Err(err.error) else Ok(());
  }

  /** Read exactly originalSize bytes, insist that nothing follows, compare the hash. */
  method ReadExactly(c: Codec, e: Entry, s: Decoded) returns (r: Result<Bytes>)
    ensures r == Judge(Whole, c, e, s)
  {
    var rd := new ChunkReader(s);
    var content, full := ReadFull(rd, e.originalSize);
    if !full { return Err(DecodeFailed); }
    var extra := EnsureNoExtra(rd);
    if extra.Err? { return Err(extra.error); }
    assert content == s.bytes;
    r := if c.hash(content) != e.hash then Err(HashMismatch) else Ok(content);
  }

  // ----- whole-file reads -----

  /** Reader.ReadAll. */
  method ReadAll(c: Codec, e: Entry, data: Bytes, maxFileSize: U64) returns (r: Result<Bytes>)
    requires |data| <= MAX_INT64
    ensures r == ReadEntry(c, e, data, maxFileSize)
  {
    var v := ValidateAll(e, |data|, maxFileSize);
    if v.Err? { return Err(v.error); }
    if e.compression.Unknown? { return Err(UnknownCompression); }
    var s := Stream(c, e, Stored(e, data));
    if e.originalSize > MAX_INT64 { return Err(SizeOverflow); }
    r := ReadExactly(c, e, s);
  }

  // ----- batch decoders -----

  /** Batch extraction into a buffering sink: decompress, then compare the hash. */
  method DecodeBuffered(c: Codec, e: Entry, stored: Bytes) returns (r: Result<Bytes>)
    requires |stored| == e.dataSize <= MAX_INT64 && ValidateCompression(e).Ok?
    ensures r == ReadStored(Whole, c, e, stored)
  {
    match e.compression {
      case Uncompressed =>
        if |stored| != e.originalSize { return Err(DecodeFailed); }
        r := if c.hash(stored) != e.hash then Err(HashMismatch) else Ok(stored);
      case Zstd =>
        if e.originalSize > MAX_INT64 { return Err(SizeOverflow); }
        r := ReadExactly(c, e, c.decode(stored));
      case Unknown =>
        r := Err(UnknownCompression);
    }
  }

  /** A sink's writer takes `room` bytes before it fails, any number without a limit. */
  predicate Overfull(room: Option<nat>, n: nat) {
    room.Some? && n > room.value
  }

  /** io.CopyN through the hasher into the writer: at most `size` bytes, in chunks. */
  method CopyN(r: ChunkReader, size: nat, room: Option<nat>) returns (written: Bytes, err: Option<Error>)
    requires r.Valid() && r.pos == 0
    modifies r
    ensures r.Valid()
    ensures err == if Overfull(room, if size < |r.bytes| then size else |r.bytes|) then Some(WriteFailed)
                   else if size <= |r.bytes| then None else Some(TooShort(Copied, r.end))
    ensures err.None? ==> written == r.bytes[..size] && r.pos == size
  {
    written := [];
    var end := NoErr;
    while |written| < size && end.NoErr?
      invariant r.Valid() && r.pos == |written| <= size && written == r.bytes[..|written|]
      invariant !Overfull(room, |written|)
      invariant !end.NoErr? ==> r.pos == |r.bytes| && end == r.AtEnd()
      decreases size - |written|, if end.NoErr? then 1 else 0
    {
      var buf := 32 * 1024;
      if size - |written| < buf { buf := size - |written|; }
      var chunk: Bytes;
      chunk, end := r.Read(buf);
      if Overfull(room, |written| + |chunk|) { return written, Some(WriteFailed); }
      written := written + chunk;
    }
    if |written| == size { return written, None; }
    return written, Some(if end.EOF? || end.error == StreamError(Truncated) then DecodeFailed else end.error);
  }

  /** What the writer of a streaming sink is asked to keep, and what can go wrong. */
  function WriteStored(c: Codec, e: Entry, stored: Bytes, room: Option<nat>): Result<Bytes> {
    var s := Stream(c, e, stored);
    var r := ReadStored(Copied, c, e, stored);
    if e.compression.Unknown? || e.originalSize > MAX_INT64 then r
    else if e.compression.Uncompressed? then
      if r.Ok? && Overfull(room, |stored|) then Err(WriteFailed) else r
    else if Overfull(room, if e.originalSize < |s.bytes| then e.originalSize else |s.bytes|) then Err(WriteFailed)
    else r
  }

  /** Batch extraction into a streaming sink: uncompressed content is verified before it is
      written, decompressed content on its way to the writer. */
  method DecodeStreaming(c: Codec, e: Entry, stored: Bytes, room: Option<nat>) returns (r: Result<Bytes>)
    requires |stored| == e.dataSize <= MAX_INT64 && ValidateCompression(e).Ok?
    ensures r == WriteStored(c, e, stored, room)
  {
    if e.compression.Uncompressed? {
      if |stored| != e.originalSize { return Err(DecodeFailed); }
      if c.hash(stored) != e.hash { return Err(HashMismatch); }
      return if Overfull(room, |stored|) then Err(WriteFailed) else Ok(stored);
    }
    if e.compression.Unknown? { return Err(UnknownCompression); }
    if e.originalSize > MAX_INT64 { return Err(SizeOverflow); }
    var rd := new ChunkReader(c.decode(stored));
    var written, err := CopyN(rd, e.originalSize, room);
    if err.Some? { return Err(err.value); }
    var extra := EnsureNoExtra(rd);
    if extra.Err? { return Err(extra.error); }
    assert written == rd.bytes;
    r := if c.hash(written) != e.hash then Err(HashMismatch) else Ok(written);
  }

  /** A writer that takes the content makes no difference. */
  lemma WriteStoredOk(c: Codec, e: Entry, stored: Bytes, room: Option<nat>)
    requires e.compression.Uncompressed? ==> |stored| == e.originalSize
    ensures WriteStored(c, e, stored, room).Ok? <==>
            var r := ReadStored(Whole, c, e, stored); r.Ok? && (room.Some? ==> |r.value| <= room.value)
    ensures WriteStored(c, e, stored, room).Ok? ==> WriteStored(c, e, stored, room) == ReadStored(Whole, c, e, stored)
  {
  }
}
