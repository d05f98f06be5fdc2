/** Archive entries, 64-bit sizes, and the checks made before an entry is read. */
module Archive {
  import opened Bytes

  const TWO_64: nat := 0x1_0000_0000_0000_0000
  const MAX_INT64: nat := 0x7fff_ffff_ffff_ffff
  const HASH_SIZE: nat := 32

  type U64 = x: int | 0 <= x < TWO_64

  datatype Compression = Uncompressed | Zstd | Unknown

  datatype Entry = Entry(
    path: Bytes,
    dataOffset: U64,
    dataSize: U64,
    originalSize: U64,
    hash: Bytes,
    compression: Compression)

  /** How a decoder's output ends: normally, with io.ErrUnexpectedEOF because the compressed
      data is cut off, or with another error. */
  datatype End = Clean | Truncated | Corrupt

  /** `DecodeFailed` is ErrDecompression, wrapped around what went wrong; `StreamError` is
      the decoder's own error, handed on as it is. */
  datatype Error =
    | SizeOverflow | BadHashLength | SizeMismatch | DecodeFailed | StreamError(end: End) | WriteFailed | SinkFailed
    | HashMismatch | UnknownCompression | NotExist | InvalidPath | TooManyFiles | CacheFailed

  datatype Result<+T> = Ok(value: T) | Err(error: Error)

  /** 64-bit addition and subtraction, which wrap around. */
  function WrapAdd(a: U64, b: U64): U64 {
    if a + b < TWO_64 then a + b else a + b - TWO_64
  }

  function WrapSub(a: U64, b: U64): U64 {
    if b <= a then a - b else a - b + TWO_64
  }

  /** They are arithmetic modulo 2^64. */
  lemma WrapIsModulo(a: U64, b: U64)
    ensures WrapAdd(a, b) == (a + b) % TWO_64
    ensures WrapSub(a, b) == (a - b) % TWO_64
  {
    assert a - b < 0 ==> (a - b + TWO_64) % TWO_64 == a - b + TWO_64;
  }

  /** a + b as the machine computes it, and whether it wrapped around. */
  function AddUint64(a: U64, b: U64): (r: (U64, bool))
    ensures r.1 <==> a + b < TWO_64
    ensures r.1 ==> r.0 == a + b
  {
    var sum := WrapAdd(a, b);
    if sum < a then (0, false) else (sum, true)
  }

  function ValidateForRead(e: Entry, sourceSize: int, maxFileSize: U64): Result<()> {
    if sourceSize < 0 then Err(SizeOverflow)
    else if maxFileSize > 0 && (e.dataSize > maxFileSize || e.originalSize > maxFileSize) then Err(SizeOverflow)
    else
      var (end, ok) := AddUint64(e.dataOffset, e.dataSize);
      if !ok then Err(SizeOverflow)
      else if end > sourceSize then Err(SizeOverflow)
      else Ok(())
  }

  function ValidateHash(e: Entry): Result<()> {
    if |e.hash| != HASH_SIZE then Err(BadHashLength) else Ok(())
  }

  function ValidateCompression(e: Entry): Result<()> {
    if e.compression.Uncompressed? && e.dataSize != e.originalSize then Err(SizeMismatch) else Ok(())
  }

  /** A validated entry's data range lies inside the source, within the size limit. */
  function ValidateAll(e: Entry, sourceSize: int, maxFileSize: U64): (r: Result<()>)
    ensures r.Ok? <==>
            && e.dataOffset + e.dataSize <= sourceSize
            && (maxFileSize > 0 ==> e.dataSize <= maxFileSize && e.originalSize <= maxFileSize)
            && e.dataOffset + e.dataSize < TWO_64
            && |e.hash| == HASH_SIZE
            && (e.compression.Uncompressed? ==> e.dataSize == e.originalSize)
  {
    var read := ValidateForRead(e, sourceSize, maxFileSize);
    if read.Err? then read
    else
      var hash := ValidateHash(e);
      if hash.Err? then hash else ValidateCompression(e)
  }
}
