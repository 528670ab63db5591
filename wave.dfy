/**
 * The WAV reader (wave.c): `wave_open` reads the 44-byte canonical RIFF/WAVE header
 * field by field and derives `num_samples`; `wave_read` decodes interleaved PCM frames
 * into per-frame rows of samples. The file is a byte sequence with a read cursor.
 * Field and sample decoding are written as the C's own `|`, `&` and `<<` expressions
 * (module CInt) and proved equal to their arithmetic little-endian values.
 */
module Wave {
  import opened ModArith
  import opened CInt

  datatype Error = ShortHeader | DivisionByZero

  datatype Result<T> = Ok(value: T) | Err(error: Error)

  // ---------------------------------------------------------------------------
  // Header fields: `unsigned char` buffers promoted to `int`, OR-ed and stored
  // into `unsigned int` fields.

  /** `buffer2[0] | (buffer2[1] << 8)`, a value below 2^16. */
  function Field16(b: seq<Byte>): (v: int)
    requires |b| == 2
    ensures 0 <= v < 0x1_0000
  {
    Pow2Values();
    ShlByte(b[1], 8, 0x100);
    OrAbove(b[0], Shl(b[1], 8), 0x100, 8);
    BitOr(b[0], Shl(b[1], 8))
  }

  /** `buffer4[0] | (buffer4[1] << 8) | (buffer4[2] << 16) | (buffer4[3] << 24)` */
  function Field32(b: seq<Byte>): (v: int)
    requires |b| == 4
    ensures 0 <= v < TwoTo32
  {
    Pow2Values();
    ShlByte(b[1], 8, 0x100);
    ShlByte(b[2], 16, 0x1_0000);
    ShlByte(b[3], 24, 0x100_0000);
    OrBytes(b[0], Shl(b[1], 8), Shl(b[2], 16), Shl(b[3], 24), b[0], b[1], b[2], b[3]);
    BitOr(BitOr(BitOr(b[0], Shl(b[1], 8)), Shl(b[2], 16)), Shl(b[3], 24))
  }

  /** A 2-byte field is the little-endian value of its bytes. */
  lemma Field16Value(b: seq<Byte>)
    requires |b| == 2
    ensures Field16(b) == b[0] as int + 256 * (b[1] as int)
  {
    Pow2Values();
    ShlByte(b[1], 8, 0x100);
    OrAbove(b[0], Shl(b[1], 8), 0x100, 8);
  }

  /** A 4-byte field is the little-endian value of its bytes, as an unsigned 32-bit value. */
  lemma Field32Value(b: seq<Byte>)
    requires |b| == 4
    ensures Field32(b) == b[0] as int + 256 * (b[1] as int) + 0x1_0000 * (b[2] as int) + 0x100_0000 * (b[3] as int)
  {
    Pow2Values();
    ShlByte(b[1], 8, 0x100);
    ShlByte(b[2], 16, 0x1_0000);
    ShlByte(b[3], 24, 0x100_0000);
    OrBytes(b[0], Shl(b[1], 8), Shl(b[2], 16), Shl(b[3], 24), b[0], b[1], b[2], b[3]);
  }

  /** The little-endian bytes of an unsigned 32-bit value, the inverse of `Field32`. */
  function LittleEndian32(x: int): (b: seq<Byte>)
    requires 0 <= x < TwoTo32
    ensures |b| == 4
  {
    var q1 := x / 256;
    var q2 := q1 / 256;
    var q3 := q2 / 256;
    [x % 256, q1 % 256, q2 % 256, q3]
  }

  /** Encoding then decoding a 4-byte field gives the value back ... */
  lemma Field32Encode(x: int)
    requires 0 <= x < TwoTo32
    ensures Field32(LittleEndian32(x)) == x
  {
    Field32Value(LittleEndian32(x));
  }

  /** ... and decoding then encoding gives the bytes back. */
  lemma Field32Decode(b: seq<Byte>)
    requires |b| == 4
    ensures 0 <= Field32(b) < TwoTo32 && LittleEndian32(Field32(b)) == b
  {
    Field32Value(b);
    var c1, c2 := b[1] as int + 256 * (b[2] as int) + 0x1_0000 * (b[3] as int), b[2] as int + 256 * (b[3] as int);
    ModUnique(Field32(b), 256, c1, b[0]);
    ModUnique(c1, 256, c2, b[1]);
    ModUnique(c2, 256, b[3], b[2]);
  }

  // ---------------------------------------------------------------------------
  // The header and `num_samples`.

  /** `struct HEADER`, field for field; the four markers are kept as raw bytes. */
  datatype Header = Header(
    riff: seq<Byte>,
    overallSize: int,
    wave: seq<Byte>,
    fmtChunkMarker: seq<Byte>,
    lengthOfFmt: int,
    formatType: int,
    channels: int,
    sampleRate: int,
    byterate: int,
    blockAlign: int,
    bitsPerSample: int,
    dataChunkHeader: seq<Byte>,
    dataSize: int)

  /** The header occupies the first 44 bytes, read in field order with nothing skipped. */
  const HeaderSize := 44

  /**
   * The header that `wave_open`'s thirteen reads produce from a file's first bytes. Any
   * 44 bytes are accepted: no marker is checked. With fewer, a read comes up short and
   * leaves its buffer indeterminate, so no header results.
   */
  function ParseHeader(bytes: seq<Byte>): (r: Result<Header>)
    ensures r.Ok? <==> |bytes| >= HeaderSize
  {
    if |bytes| < HeaderSize then Err(ShortHeader)
    else Ok(Header(
      bytes[0..4], Field32(bytes[4..8]), bytes[8..12], bytes[12..16], Field32(bytes[16..20]),
      Field16(bytes[20..22]), Field16(bytes[22..24]), Field32(bytes[24..28]),
      Field32(bytes[28..32]), Field16(bytes[32..34]), Field16(bytes[34..36]),
      bytes[36..40], Field32(bytes[40..44])))
  }

  /** The little-endian value of the `k`-byte field at `offset`. */
  function LE(bytes: seq<Byte>, offset: nat, k: nat): (v: int)
    requires offset + k <= |bytes|
    decreases k
  {
    if k == 0 then 0 else bytes[offset] + 256 * LE(bytes, offset + 1, k - 1)
  }

  /** Each numeric field of a parsed header is the little-endian value at its fixed offset. */
  lemma ParseHeaderFields(bytes: seq<Byte>)
    requires |bytes| >= HeaderSize
    ensures var h := ParseHeader(bytes).value;
      && h.riff == bytes[0..4] && h.wave == bytes[8..12] && h.fmtChunkMarker == bytes[12..16]
      && h.dataChunkHeader == bytes[36..40]
      && h.overallSize == LE(bytes, 4, 4) && h.lengthOfFmt == LE(bytes, 16, 4)
      && h.formatType == LE(bytes, 20, 2) && h.channels == LE(bytes, 22, 2)
      && h.sampleRate == LE(bytes, 24, 4) && h.byterate == LE(bytes, 28, 4)
      && h.blockAlign == LE(bytes, 32, 2) && h.bitsPerSample == LE(bytes, 34, 2)
      && h.dataSize == LE(bytes, 40, 4)
  {
    Field32At(bytes, 4);
    Field32At(bytes, 16);
    Field16At(bytes, 20);
    Field16At(bytes, 22);
    Field32At(bytes, 24);
    Field32At(bytes, 28);
    Field16At(bytes, 32);
    Field16At(bytes, 34);
    Field32At(bytes, 40);
  }

  lemma Field32At(bytes: seq<Byte>, o: nat)
    requires o + 4 <= |bytes|
    ensures Field32(bytes[o..o + 4]) == LE(bytes, o, 4)
  {
    Field32Value(bytes[o..o + 4]);
  }

  lemma Field16At(bytes: seq<Byte>, o: nat)
    requires o + 2 <= |bytes|
    ensures Field16(bytes[o..o + 2]) == LE(bytes, o, 2)
  {
    Field16Value(bytes[o..o + 2]);
  }

  /**
   * `num_samples = (8 * (data_size - 8)) / (channels * bits_per_sample) - 8` in `unsigned
   * int` arithmetic: each step keeps the low 32 bits; a zero divisor has no result.
   */
  function NumSamples(h: Header): (r: Result<int>)
    ensures r.Err? <==> Bits(h.channels * h.bitsPerSample) == 0
    ensures r.Ok? ==> 0 <= r.value < TwoTo32
  {
    var width := Bits(h.channels * h.bitsPerSample);
    if width == 0 then Err(DivisionByZero)
    else Ok(Bits(Bits(8 * Bits(h.dataSize - 8)) / width - 8))
  }

  /**
   * For 16-bit stereo data holding `frames` whole frames (`data_size == 4 * frames`),
   * `num_samples` comes out 10 short of `frames`: the two `- 8`s cost 2 and 8 frames.
   */
  lemma NumSamplesStereo16(h: Header, frames: int)
    requires h.channels == 2 && h.bitsPerSample == 16
    requires h.dataSize == 4 * frames && 10 <= frames < 0x800_0000
    ensures NumSamples(h) == Ok(frames - 10)
  {
    ModUnique(32, TwoTo32, 0, 32);
    ModUnique(h.dataSize - 8, TwoTo32, 0, h.dataSize - 8);
    ModUnique(8 * (h.dataSize - 8), TwoTo32, 0, 8 * (h.dataSize - 8));
    ModUnique(32 * frames - 64, 32, frames - 2, 0);
    ModUnique(frames - 10, TwoTo32, 0, frames - 10);
  }

  /**
   * The general formula while `8 * (data_size - 8)` fits in 32 bits: the quotient by the
   * non-zero 32-bit divisor less 8, which wraps to just below 2^32 when the quotient is
   * under 8 (16-bit stereo with 2 to 9 frames, say).
   */
  lemma NumSamplesValue(h: Header, d: int)
    requires d == Bits(h.channels * h.bitsPerSample) && d != 0
    requires 8 <= h.dataSize && 8 * (h.dataSize - 8) < TwoTo32
    ensures var q := 8 * (h.dataSize - 8) / d;
      NumSamples(h) == Ok(if q >= 8 then q - 8 else TwoTo32 - (8 - q))
  {
    var x := 8 * (h.dataSize - 8);
    ModUnique(h.dataSize - 8, TwoTo32, 0, h.dataSize - 8);
    ModUnique(x, TwoTo32, 0, x);
    var q := x / d;
    assert 0 <= q <= x by {
      ModUnique(x, d, x / d, x % d);
      MulAtLeast(d, 1);
    }
    if q >= 8 {
      ModUnique(q - 8, TwoTo32, 0, q - 8);
    } else {
      ModUnique(q - 8, TwoTo32, -1, q - 8 + TwoTo32);
    }
  }

  /** With `data_size` below 8 the subtraction wraps round, and `num_samples` is huge. */
  lemma NumSamplesEmptyData(h: Header)
    requires h.channels == 2 && h.bitsPerSample == 16 && h.dataSize == 0
    ensures NumSamples(h) == Ok(0x7FF_FFF6)
  {
    ModUnique(32, TwoTo32, 0, 32);
    ModUnique(-8, TwoTo32, -1, TwoTo32 - 8);
    ModUnique(8 * (TwoTo32 - 8), TwoTo32, 7, TwoTo32 - 64);
    ModUnique(TwoTo32 - 64, 32, 0x7FF_FFFE, 0);
    ModUnique(0x7FF_FFF6, TwoTo32, 0, 0x7FF_FFF6);
  }

  /** `struct WAVE` after `wave_open`: the header and the derived `num_samples`. */
  datatype WaveInfo = WaveInfo(header: Header, numSamples: int)

  /** What `wave_open` produces from the file's bytes. */
  function OpenWave(bytes: seq<Byte>): (r: Result<WaveInfo>)
    ensures r.Ok? <==> ParseHeader(bytes).Ok? && NumSamples(ParseHeader(bytes).value).Ok?
  {
    match ParseHeader(bytes)
    case Err(e) => Err(e)
    case Ok(h) =>
      match NumSamples(h)
      case Err(e) => Err(e)
      case Ok(n) => Ok(WaveInfo(h, n))
  }

  // ---------------------------------------------------------------------------
  // The open file.

  /** An open `FILE *` for reading: the file's bytes and the position of the next read. */
  class WaveFile {
    const bytes: seq<Byte>
    var pos: int

    ghost predicate Valid()
      reads this
    {
      0 <= pos <= |bytes|
    }

    /** `fopen(file_path, "rb")` on a file holding `bytes`. */
    constructor (bytes: seq<Byte>)
      ensures Valid() && this.bytes == bytes && pos == 0
    {
      this.bytes := bytes;
      pos := 0;
    }

    /**
     * `fread(buffer, n, 1, file) == 1`: succeeds exactly when `n > 0` and `n` bytes
     * remain. A short read still consumes what is left.
     */
    method Fread(n: int) returns (ok: bool, chunk: seq<Byte>)
      requires Valid() && n >= 0
      modifies this
      ensures Valid()
      ensures ok <==> 0 < n <= |bytes| - old(pos)
      ensures pos == if n == 0 then old(pos) else Min(|bytes|, old(pos) + n)
      ensures chunk == bytes[old(pos)..pos]
    {
      if 0 < n <= |bytes| - pos {
        chunk := bytes[pos..pos + n];
        pos := pos + n;
        ok := true;
      } else {
        if n > 0 {
          chunk := bytes[pos..];
          pos := |bytes|;
        } else {
          chunk := [];
        }
        ok := false;
      }
    }
  }

  /**
   * `wave_open` on a freshly opened file: thirteen reads in header order, each numeric
   * field decoded as it comes in, then `num_samples`. The cursor ends after the header.
   */
  method Open(f: WaveFile) returns (r: Result<WaveInfo>)
    requires f.Valid() && f.pos == 0
    modifies f
    ensures f.Valid() && f.pos == Min(|f.bytes|, HeaderSize)
    ensures r == OpenWave(f.bytes)
  {
    var ok1, riff := ReadTag(f, 0);
    var ok2, overallSize := ReadU32(f, 4);
    var ok3, wave := ReadTag(f, 8);
    var ok4, fmtChunkMarker := ReadTag(f, 12);
    var ok5, lengthOfFmt := ReadU32(f, 16);
    var ok6, formatType := ReadU16(f, 20);
    var ok7, channels := ReadU16(f, 22);
    var ok8, sampleRate := ReadU32(f, 24);
    var ok9, byterate := ReadU32(f, 28);
    var ok10, blockAlign := ReadU16(f, 32);
    var ok11, bitsPerSample := ReadU16(f, 34);
    var ok12, dataChunkHeader := ReadTag(f, 36);
    var ok13, dataSize := ReadU32(f, 40);
    if ok1 && ok2 && ok3 && ok4 && ok5 && ok6 && ok7 && ok8 && ok9 && ok10 && ok11 && ok12 && ok13 {
      var header := Header(riff, overallSize, wave, fmtChunkMarker, lengthOfFmt, formatType,
        channels, sampleRate, byterate, blockAlign, bitsPerSample, dataChunkHeader, dataSize);
      assert header == ParseHeader(f.bytes).value;
      match NumSamples(header)
      case Err(e) => r := Err(e);
      case Ok(n) => r := Ok(WaveInfo(header, n));
    } else {
      r := Err(ShortHeader);
    }
  }

  /**
   * `fread` of a 4-byte marker (`riff`, `wave`, `fmt_chunk_marker`, `data_chunk_header`)
   * at byte `at`, the bytes taken as they are.
   */
  method ReadTag(f: WaveFile, ghost at: nat) returns (ok: bool, tag: seq<Byte>)
    requires f.Valid() && f.pos == Min(|f.bytes|, at)
    modifies f
    ensures f.Valid() && f.pos == Min(|f.bytes|, at + 4)
    ensures ok <==> at + 4 <= |f.bytes|
    ensures ok ==> tag == f.bytes[at..at + 4]
  {
    ok, tag := f.Fread(4);
  }

  /** `fread(buffer4, ...)` at byte `at`, then the 4-byte little-endian conversion. */
  method ReadU32(f: WaveFile, ghost at: nat) returns (ok: bool, value: int)
    requires f.Valid() && f.pos == Min(|f.bytes|, at)
    modifies f
    ensures f.Valid() && f.pos == Min(|f.bytes|, at + 4)
    ensures ok <==> at + 4 <= |f.bytes|
    ensures ok ==> value == Field32(f.bytes[at..at + 4])
  {
    var buffer4;
    ok, buffer4 := f.Fread(4);
    value := if ok then Field32(buffer4) else 0;
  }

  /** `fread(buffer2, ...)` at byte `at`, then the 2-byte little-endian conversion. */
  method ReadU16(f: WaveFile, ghost at: nat) returns (ok: bool, value: int)
    requires f.Valid() && f.pos == Min(|f.bytes|, at)
    modifies f
    ensures f.Valid() && f.pos == Min(|f.bytes|, at + 2)
    ensures ok <==> at + 2 <= |f.bytes|
    ensures ok ==> value == Field16(f.bytes[at..at + 2])
  {
    var buffer2;
    ok, buffer2 := f.Fread(2);
    value := if ok then Field16(buffer2) else 0;
  }

  // ---------------------------------------------------------------------------
  // Samples.

  /**
   * A `float` sample: `(float) data_in_channel / high_limit`, taken as exact real
   * division; a zero `high_limit` (an unsupported bit depth) gives an IEEE infinity or NaN.
   */
  datatype Sample = Finite(value: real) | PosInf | NegInf | NaN

  /** The positive full-scale value for 8-, 16- and 32-bit PCM; 0 for any other depth. */
  function HighLimit(bits: int): (l: int)
    ensures l != 0 <==> bits == 8 || bits == 16 || bits == 32
  {
    if bits == 8 then 127 else if bits == 16 then 32767 else if bits == 32 then 2147483647 else 0
  }

  /** A supported depth's limit is `2^(bits - 1) - 1`, the largest value of that many signed bits. */
  lemma HighLimitFullScale(bits: int)
    requires HighLimit(bits) != 0
    ensures HighLimit(bits) == Pow2(bits - 1) - 1
  {
    Pow2Values();
    assert Pow2(31) == 0x8000_0000;
  }

  /** `(float) v / limit`. */
  function Scale(v: int, limit: int): (s: Sample)
    ensures limit != 0 ==> s.Finite? && s.value * (limit as real) == v as real
    ensures limit == 0 ==> (s == PosInf <==> v > 0) && (s == NegInf <==> v < 0) && (s == NaN <==> v == 0)
  {
    if limit != 0 then Finite(v as real / limit as real)
    else if v > 0 then PosInf
    else if v < 0 then NegInf
    else NaN
  }

  /** `(data_buffer[offset] & 0x00ff) - 128`: 8-bit samples are unsigned. */
  function Channel8(b0: Byte): (v: int)
    ensures -128 <= v <= 127
  {
    LowByte(b0);
    BitAnd(Bits(SChar(b0)), 0xFF) - 128
  }

  /** The bit pattern of `(data_buffer[offset] & 0x00ff) | (data_buffer[offset + 1] << 8)`. */
  function Pattern16(b0: Byte, b1: Byte): (p: nat)
  {
    BitOr(BitAnd(Bits(SChar(b0)), 0xFF), Shl(Bits(SChar(b1)), 8))
  }

  /**
   * The bit pattern of `(data_buffer[offset] & 0x00ff) | ((data_buffer[offset + 1] & 0x00ff) << 8)
   * | ((data_buffer[offset + 2] & 0x00ff) << 16) | (data_buffer[offset + 3] << 24)`.
   */
  function Pattern32(b0: Byte, b1: Byte, b2: Byte, b3: Byte): (p: nat)
  {
    LowByte(b1);
    LowByte(b2);
    BitOr(BitOr(BitOr(
      BitAnd(Bits(SChar(b0)), 0xFF),
      Shl(BitAnd(Bits(SChar(b1)), 0xFF), 8)),
      Shl(BitAnd(Bits(SChar(b2)), 0xFF), 16)),
      Shl(Bits(SChar(b3)), 24))
  }

  /** The 16-bit pattern: the low byte, then the sign-extended high byte from bit 8 up. */
  lemma Pattern16Value(b0: Byte, b1: Byte)
    ensures Pattern16(b0, b1) == b0 as int + 256 * (if b1 < 128 then b1 else b1 + 0xFF_FF00)
    ensures Pattern16(b0, b1) < TwoTo32
  {
    Pow2Values();
    LowByte(b0);
    ShlChar8(b1);
    OrAbove(BitAnd(Bits(SChar(b0)), 0xFF), Shl(Bits(SChar(b1)), 8), 0x100, 8);
  }

  /** The 32-bit pattern: the four bytes in little-endian order. */
  lemma Pattern32Value(b0: Byte, b1: Byte, b2: Byte, b3: Byte)
    ensures Pattern32(b0, b1, b2, b3) == b0 as int + 256 * (b1 as int) + 0x1_0000 * (b2 as int) + 0x100_0000 * (b3 as int)
    ensures Pattern32(b0, b1, b2, b3) < TwoTo32
  {
    Pow2Values();
    LowByte(b0);
    LowByte(b1);
    LowByte(b2);
    ShlByte(b1, 8, 0x100);
    ShlByte(b2, 16, 0x1_0000);
    ShlChar24(b3);
    OrBytes(BitAnd(Bits(SChar(b0)), 0xFF), Shl(BitAnd(Bits(SChar(b1)), 0xFF), 8),
      Shl(BitAnd(Bits(SChar(b2)), 0xFF), 16), Shl(Bits(SChar(b3)), 24), b0, b1, b2, b3);
  }

  /** A 16-bit sample: the pattern stored into the `int` `data_in_channel`. */
  function Channel16(b0: Byte, b1: Byte): (v: int)
    ensures -0x8000 <= v < 0x8000
  {
    Pattern16Value(b0, b1);
    Signed(Pattern16(b0, b1))
  }

  /** A 32-bit sample: the pattern stored into the `int` `data_in_channel`. */
  function Channel32(b0: Byte, b1: Byte, b2: Byte, b3: Byte): (v: int)
    ensures -TwoTo31 <= v < TwoTo31
  {
    Pattern32Value(b0, b1, b2, b3);
    Signed(Pattern32(b0, b1, b2, b3))
  }

  /** An 8-bit sample is its byte re-centred by 128, so byte 128 is silence. */
  lemma Channel8Value(b0: Byte)
    ensures Channel8(b0) == b0 as int - 128 && -128 <= Channel8(b0) <= 127
  {
    LowByte(b0);
  }

  /** A 16-bit sample is signed little-endian: the high byte is sign-extended. */
  lemma Channel16Value(b0: Byte, b1: Byte)
    ensures Channel16(b0, b1) == b0 as int + 256 * SChar(b1)
    ensures -0x8000 <= Channel16(b0, b1) < 0x8000
  {
    Pattern16Value(b0, b1);
  }

  /** A 32-bit sample is signed little-endian two's complement. */
  lemma Channel32Value(b0: Byte, b1: Byte, b2: Byte, b3: Byte)
    ensures Channel32(b0, b1, b2, b3) == b0 as int + 256 * (b1 as int) + 0x1_0000 * (b2 as int) + 0x100_0000 * SChar(b3)
    ensures -TwoTo31 <= Channel32(b0, b1, b2, b3) < TwoTo31
  {
    Pattern32Value(b0, b1, b2, b3);
  }

  /** The little-endian bytes of a signed 16-bit value. */
  function Encode16(v: int): (b: seq<Byte>)
    requires -0x8000 <= v < 0x8000
    ensures |b| == 2
  {
    [v % 256, (v / 256) % 256]
  }

  /** The `char` read back from the low byte of `q`, for `q` in `-128..127`, is `q`. */
  lemma SCharOfLow(q: int)
    requires -128 <= q < 128
    ensures SChar(q % 256) == q
  {
    if q >= 0 {
      ModUnique(q, 256, 0, q);
    } else {
      ModUnique(q, 256, -1, q + 256);
    }
  }

  /** Decoding the encoding of a 16-bit value gives it back. */
  lemma Channel16Encode(v: int)
    requires -0x8000 <= v < 0x8000
    ensures Channel16(Encode16(v)[0], Encode16(v)[1]) == v
  {
    var b := Encode16(v);
    Channel16Value(b[0], b[1]);
    SCharOfLow(v / 256);
  }

  /** The little-endian bytes of a signed 32-bit value. */
  function Encode32(v: int): (b: seq<Byte>)
    requires -TwoTo31 <= v < TwoTo31
    ensures |b| == 4
  {
    var q1 := v / 256;
    var q2 := q1 / 256;
    var q3 := q2 / 256;
    [v % 256, q1 % 256, q2 % 256, q3 % 256]
  }

  /** Decoding the encoding of a 32-bit value gives it back. */
  lemma Channel32Encode(v: int)
    requires -TwoTo31 <= v < TwoTo31
    ensures Channel32(Encode32(v)[0], Encode32(v)[1], Encode32(v)[2], Encode32(v)[3]) == v
  {
    var b := Encode32(v);
    Channel32Value(b[0], b[1], b[2], b[3]);
    SCharOfLow(v / 256 / 256 / 256);
  }

  // ---------------------------------------------------------------------------
  // Frames.

  /** `size_of_each_sample = (channels * bits_per_sample) / 8`, the product in `unsigned int`. */
  function FrameSize(h: Header): (n: int)
    ensures 0 <= n < 0x2000_0000
  {
    Bits(h.channels * h.bitsPerSample) / 8
  }

  /** `bytes_in_each_channel = size_of_each_sample / channels`. */
  function ChannelWidth(h: Header): (w: int)
    requires h.channels >= 1
    ensures w >= 0 && w * h.channels <= FrameSize(h)
  {
    FrameSize(h) / h.channels
  }

  /** `size_is_correct`: the frame splits evenly into one field per channel. */
  predicate SizeIsCorrect(h: Header): (ok: bool)
    requires h.channels >= 1
    ensures ok <==> FrameSize(h) % h.channels == 0
  {
    ChannelWidth(h) * h.channels == FrameSize(h)
  }

  /**
   * The value of the channel field of `width` bytes at `offset`: 8-bit samples are
   * unsigned with silence at 128, 16- and 32-bit ones signed little-endian. Any other
   * width yields 0, the value `data_in_channel` starts each frame with.
   */
  function ChannelValue(buf: seq<Byte>, offset: int, width: int): (v: int)
    requires 0 <= offset && (width == 1 || width == 2 || width == 4 ==> offset + width <= |buf|)
  {
    if width == 4 then
      buf[offset] as int + 256 * (buf[offset + 1] as int) + 0x1_0000 * (buf[offset + 2] as int)
        + 0x100_0000 * SChar(buf[offset + 3])
    else if width == 2 then buf[offset] as int + 256 * SChar(buf[offset + 1])
    else if width == 1 then buf[offset] as int - 128
    else 0
  }

  lemma ChannelOffset(c: int, n: int, w: int)
    requires 0 <= c < n && w >= 0
    ensures 0 <= c * w && c * w + w <= w * n
  {
    MulMono(c, n - 1, w, w);
    assert (n - 1) * w + w == w * n;
  }

  /**
   * One frame of `channels` fields of `width` bytes: channel `c` is decoded from its
   * field at `c * width` and scaled by `limit`.
   */
  function DecodeFrame(buf: seq<Byte>, channels: int, width: int, limit: int): (s: seq<Sample>)
    requires channels >= 0 && width >= 0 && |buf| == width * channels
    ensures |s| == channels
  {
    seq(channels, c requires 0 <= c < channels =>
      ChannelOffset(c, channels, width);
      Scale(ChannelValue(buf, c * width, width), limit))
  }

  /**
   * At most `n` frames of `channels` fields of `width` bytes, decoded front to back from
   * `data`, stopping at the first incomplete one (or at once when a frame is 0 bytes,
   * since such a read never succeeds).
   */
  function Frames(data: seq<Byte>, channels: int, width: int, limit: int, n: int): (s: seq<seq<Sample>>)
    requires channels >= 1 && width >= 0
    ensures |s| <= Max(n, 0)
    ensures forall i :: 0 <= i < |s| ==> |s[i]| == channels
    decreases n
  {
    var size := width * channels;
    if n <= 0 || size == 0 || |data| < size then []
    else [DecodeFrame(data[..size], channels, width, limit)] + Frames(data[size..], channels, width, limit, n - 1)
  }

  /**
   * The bytes that reading at most `n` frames of `size` bytes from `data` consumes: all
   * `n` frames when they are there, otherwise everything, since the short read that ends
   * the loop takes what is left. A read of 0 bytes takes nothing.
   */
  function Consumed(data: seq<Byte>, size: int, n: int): (k: int)
    requires size >= 0
    ensures 0 <= k <= |data|
  {
    if n <= 0 || size == 0 then 0 else Min(|data|, n * size)
  }

  /**
   * What `wave_read` decodes from `data` for header `h`: nothing at all when the frame
   * does not split evenly by channel.
   */
  function DecodeFrames(data: seq<Byte>, h: Header, n: int): (s: seq<seq<Sample>>)
    requires h.channels >= 1
    ensures |s| <= Max(n, 0)
    ensures forall i :: 0 <= i < |s| ==> |s[i]| == h.channels
  {
    if SizeIsCorrect(h) then Frames(data, h.channels, ChannelWidth(h), HighLimit(h.bitsPerSample), n) else []
  }

  /** The number of frames decoded: `n`, or fewer when the data runs out first. */
  lemma FramesCount(data: seq<Byte>, channels: int, width: int, limit: int, n: int)
    requires channels >= 1 && width >= 1 && n >= 0
    ensures |Frames(data, channels, width, limit, n)| == Min(n, |data| / (width * channels))
  {
    var size := width * channels;
    MulMono(1, width, 1, channels);
    FramesFit(data, channels, width, limit, n);
    WholeFrames(|data|, size, |Frames(data, channels, width, limit, n)|, n);
  }

  /**
   * The decoded frames fit in the data, and unless all `n` were decoded the bytes left
   * over are fewer than one frame.
   */
  lemma {:induction false} FramesFit(data: seq<Byte>, channels: int, width: int, limit: int, n: int)
    requires channels >= 1 && width >= 0 && n >= 0
    ensures var count, size := |Frames(data, channels, width, limit, n)|, width * channels;
      && 0 <= count <= n && count * size <= |data|
      && (count == n || size == 0 || |data| - count * size < size)
    decreases n
  {
    var size := width * channels;
    if n > 0 && size > 0 && |data| >= size {
      var rest := data[size..];
      var count' := |Frames(rest, channels, width, limit, n - 1)|;
      assert |Frames(data, channels, width, limit, n)| == count' + 1;
      FramesFit(rest, channels, width, limit, n - 1);
      MulNext(count', size);
    }
  }

  /** `count` whole frames of `size` fit in `len` bytes, with less than one left unless `count == n`. */
  lemma WholeFrames(len: int, size: int, count: int, n: int)
    requires size >= 1 && 0 <= count <= n && 0 <= count * size <= len && (count == n || len - count * size < size)
    ensures count == Min(n, len / size)
  {
    var q, r := len / size, len % size;
    if count < n {
      ModUnique(len, size, count, len - count * size);
    } else if q < count {
      MulNext(q, size);
      MulMono(q + 1, count, size, size);
    }
  }

  /**
   * Reading consumes exactly the frames decoded, plus the rest of the data when it
   * stopped on an incomplete frame.
   */
  lemma ConsumedFrames(data: seq<Byte>, channels: int, width: int, limit: int, n: int)
    requires channels >= 1 && width >= 0 && n >= 0
    ensures var size, count := width * channels, |Frames(data, channels, width, limit, n)|;
      Consumed(data, size, n) == if count == n || size == 0 then count * size else |data|
  {
    var size, count := width * channels, |Frames(data, channels, width, limit, n)|;
    FramesFit(data, channels, width, limit, n);
    if size > 0 && count < n {
      MulNext(count, size);
      MulMono(count + 1, n, size, size);
    }
  }

  /** Frame `k` is decoded from bytes `k * size .. (k + 1) * size`: frames come in file order. */
  lemma {:induction false} FramesAt(data: seq<Byte>, channels: int, width: int, limit: int, n: int, k: int)
    requires channels >= 1 && width >= 0 && 0 <= k < |Frames(data, channels, width, limit, n)|
    ensures var size := width * channels;
      && 0 <= k * size && k * size + size <= |data|
      && Frames(data, channels, width, limit, n)[k] == DecodeFrame(data[k * size..k * size + size], channels, width, limit)
    decreases k
  {
    var size := width * channels;
    if k > 0 {
      FramesTail(data, channels, width, limit, n, k);
      FramesAt(data[size..], channels, width, limit, n - 1, k - 1);
      FramesAtStep(data, channels, width, limit, n, k);
    } else {
      MulZero(k, size);
      assert data[k * size..k * size + size] == data[..size];
    }
  }

  lemma MulZero(k: int, w: int)
    requires k == 0
    ensures k * w == 0
  {
  }

  /** The inductive step of `FramesAt`: from frame `k - 1` of the frames after the first to frame `k`. */
  lemma FramesAtStep(data: seq<Byte>, channels: int, width: int, limit: int, n: int, k: int)
    requires channels >= 1 && width >= 0 && 0 < k < |Frames(data, channels, width, limit, n)|
    requires var size := width * channels;
      && 0 <= size <= |data| && k - 1 < |Frames(data[size..], channels, width, limit, n - 1)|
      && Frames(data, channels, width, limit, n)[k] == Frames(data[size..], channels, width, limit, n - 1)[k - 1]
      && 0 <= (k - 1) * size && (k - 1) * size + size <= |data[size..]|
      && Frames(data[size..], channels, width, limit, n - 1)[k - 1]
        == DecodeFrame(data[size..][(k - 1) * size..(k - 1) * size + size], channels, width, limit)
    ensures var size := width * channels;
      && 0 <= k * size && k * size + size <= |data|
      && Frames(data, channels, width, limit, n)[k] == DecodeFrame(data[k * size..k * size + size], channels, width, limit)
  {
    var size := width * channels;
    var lo, start := (k - 1) * size, k * size;
    MulPrev(k, size);
    DropSlice(data, size, lo, start, size);
  }

  /** Frame `k > 0` is frame `k - 1` of the frames after the first. */
  lemma FramesTail(data: seq<Byte>, channels: int, width: int, limit: int, n: int, k: int)
    requires channels >= 1 && width >= 0 && 0 < k < |Frames(data, channels, width, limit, n)|
    ensures var size := width * channels;
      && 0 <= size <= |data| && k - 1 < |Frames(data[size..], channels, width, limit, n - 1)|
      && Frames(data, channels, width, limit, n)[k] == Frames(data[size..], channels, width, limit, n - 1)[k - 1]
  {
  }

  lemma DropSlice<T>(data: seq<T>, size: int, lo: int, start: int, len: int)
    requires 0 <= size <= |data| && 0 <= lo && 0 <= len && lo + len <= |data| - size && start == lo + size
    ensures data[size..][lo..lo + len] == data[start..start + len]
  {
  }

  /** Channel `c` of a frame comes from the field at `o == c * width`. */
  lemma DecodeAt(buf: seq<Byte>, channels: int, width: int, limit: int, c: int, o: int)
    requires channels >= 0 && width >= 0 && |buf| == width * channels
    requires 0 <= c < channels && o == c * width
    ensures 0 <= o && o + width <= |buf|
    ensures DecodeFrame(buf, channels, width, limit)[c] == Scale(ChannelValue(buf, o, width), limit)
  {
    ChannelOffset(c, channels, width);
  }

  /**
   * Sample `c` of frame `k` is the channel field at byte `k * size + c * width` of the
   * data, scaled: the rows and columns of `wave_read`'s result lie where the file has them.
   */
  lemma SampleAt(data: seq<Byte>, channels: int, width: int, limit: int, n: int, k: int, c: int)
    requires channels >= 1 && width >= 0 && 0 <= k < |Frames(data, channels, width, limit, n)| && 0 <= c < channels
    ensures var o := k * (width * channels) + c * width;
      && 0 <= o && o + width <= |data| && |Frames(data, channels, width, limit, n)[k]| == channels
      && Frames(data, channels, width, limit, n)[k][c] == Scale(ChannelValue(data, o, width), limit)
  {
    var size := width * channels;
    var start := k * size;
    FramesAt(data, channels, width, limit, n, k);
    ghost var frame := Frames(data, channels, width, limit, n)[k];
    assert frame == DecodeFrame(data[start..start + size], channels, width, limit);
    DecodeSlice(data, start, channels, width, limit, c);
    assert frame[c] == Scale(ChannelValue(data, start + c * width, width), limit);
  }

  /** Channel `c` of the frame that starts at byte `start` of the data. */
  lemma DecodeSlice(data: seq<Byte>, start: int, channels: int, width: int, limit: int, c: int)
    requires channels >= 1 && width >= 0 && 0 <= start && start + width * channels <= |data| && 0 <= c < channels
    ensures 0 <= start + c * width && start + c * width + width <= |data|
    ensures DecodeFrame(data[start..start + width * channels], channels, width, limit)[c]
      == Scale(ChannelValue(data, start + c * width, width), limit)
  {
    var size := width * channels;
    var buf := data[start..start + size];
    DecodeAt(buf, channels, width, limit, c, c * width);
    SliceChannel(data, start, size, c * width, width);
  }

  /** A channel field read from a slice of the data is the field at the same place in the data. */
  lemma SliceChannel(data: seq<Byte>, start: int, len: int, o: int, width: int)
    requires 0 <= start && 0 <= len && start + len <= |data| && 0 <= o && o + width <= len
    ensures ChannelValue(data[start..start + len], o, width) == ChannelValue(data, start + o, width)
  {
  }

  /**
   * For 8-, 16- and 32-bit PCM (`bits == 8 * w`) with no 32-bit overflow, the frame is
   * `w * channels` bytes, `w` per channel, and its limit is the depth's full scale.
   */
  lemma Widths(h: Header, w: int)
    requires w == 1 || w == 2 || w == 4
    requires 1 <= h.channels && h.bitsPerSample == 8 * w && h.channels * h.bitsPerSample < TwoTo32
    ensures FrameSize(h) == w * h.channels && ChannelWidth(h) == w && SizeIsCorrect(h)
    ensures HighLimit(h.bitsPerSample) == if w == 1 then 127 else if w == 2 then 32767 else 2147483647
  {
    var n := h.channels * h.bitsPerSample;
    assert n == 8 * (w * h.channels);
    ModUnique(n, TwoTo32, 0, n);
    ModUnique(w * h.channels, h.channels, w, 0);
  }

  /**
   * For 8-, 16- and 32-bit PCM, sample `c` of frame `k` that `wave_read` produces is the
   * channel's integer value at byte `k * w * channels + c * w` of the data (re-centred for
   * 8 bits, signed little-endian otherwise) divided by the depth's full scale.
   */
  lemma DecodedSample(data: seq<Byte>, h: Header, n: int, w: int, k: int, c: int)
    requires w == 1 || w == 2 || w == 4
    requires 1 <= h.channels && h.bitsPerSample == 8 * w && h.channels * h.bitsPerSample < TwoTo32
    requires 0 <= k < |DecodeFrames(data, h, n)| && 0 <= c < h.channels
    ensures var o := k * (w * h.channels) + c * w;
      && 0 <= o && o + w <= |data|
      && DecodeFrames(data, h, n)[k][c]
        == Finite(ChannelValue(data, o, w) as real / HighLimit(h.bitsPerSample) as real)
  {
    Widths(h, w);
    SampleAt(data, h.channels, w, HighLimit(h.bitsPerSample), n, k, c);
  }

  /**
   * `wave_read(wav, num_samples)`: one row per frame, decoded in file order; reading stops
   * at the first short frame. Rows past the decoded ones are never written (here, empty).
   */
  method Read(f: WaveFile, h: Header, numSamples: int) returns (samples: array<seq<Sample>>, decoded: int)
    requires f.Valid() && h.channels >= 1 && 0 <= numSamples < TwoTo32
    modifies f
    ensures fresh(samples) && samples.Length == numSamples && f.Valid()
    ensures 0 <= decoded <= numSamples
    ensures samples[..decoded] == DecodeFrames(old(f.bytes[f.pos..]), h, numSamples)
    ensures forall k :: decoded <= k < numSamples ==> samples[k] == []
    ensures f.pos == old(f.pos) + if SizeIsCorrect(h) then Consumed(old(f.bytes[f.pos..]), FrameSize(h), numSamples) else 0
  {
    samples := new seq<Sample>[numSamples](_ => []);
    var sizeOfEachSample := Bits(h.channels * h.bitsPerSample) / 8;
    var bytesInEachChannel := sizeOfEachSample / h.channels;
    var sizeIsCorrect := bytesInEachChannel * h.channels == sizeOfEachSample;
    decoded := 0;
    if sizeIsCorrect {
      var highLimit := HighLimit(h.bitsPerSample);
      decoded := ReadFrames(f, samples, h.channels, bytesInEachChannel, highLimit);
    }
  }

  /**
   * The frame loop of `wave_read`, `for (i = 1; i <= num_samples; i++)`: read a frame of
   * `width * channels` bytes, stop on a failed read, else decode it into row `i - 1`.
   * Returns the number of rows written (`i - 1` when the loop ends).
   */
  method ReadFrames(f: WaveFile, samples: array<seq<Sample>>, channels: int, width: int, highLimit: int)
    returns (decoded: int)
    requires f.Valid() && channels >= 1 && width >= 0
    modifies f, samples
    ensures f.Valid() && 0 <= decoded <= samples.Length
    ensures samples[..decoded] == Frames(old(f.bytes[f.pos..]), channels, width, highLimit, samples.Length)
    ensures forall k :: decoded <= k < samples.Length ==> samples[k] == old(samples[k])
    ensures f.pos == old(f.pos) + Consumed(old(f.bytes[f.pos..]), width * channels, samples.Length)
  {
    var numSamples := samples.Length;
    var sizeOfEachSample := width * channels;
    ghost var start, data := f.pos, f.bytes[f.pos..];
    ghost var consumed := 0;
    var i := 1;
    while i <= numSamples
      invariant 1 <= i <= numSamples + 1 && f.Valid()
      invariant consumed == (i - 1) * sizeOfEachSample <= |data| && f.pos == start + consumed
      invariant Progress(samples[..i - 1], data, consumed, channels, width, highLimit, numSamples - (i - 1), numSamples)
      invariant forall k :: i - 1 <= k < numSamples ==> samples[k] == old(samples[k])
    {
      ghost var prefix := samples[..i - 1];
      var ok, row := ReadRow(f, channels, width, highLimit, start, consumed);
      if ok {
        samples[i - 1] := row;
        assert samples[..i] == prefix + [row];
        ReadStep(prefix, data, consumed, channels, width, highLimit, numSamples - (i - 1), numSamples);
        MulNext(i - 1, sizeOfEachSample);
        consumed := consumed + sizeOfEachSample;
      } else {
        ReadStop(prefix, data, consumed, channels, width, highLimit, numSamples - (i - 1), numSamples);
        break;
      }
      i := i + 1;
    }
    if i == numSamples + 1 {
      ReadDone(samples[..i - 1], data, consumed, channels, width, highLimit, numSamples);
    }
    decoded := i - 1;
  }

  /**
   * One iteration's `fread(data_buffer, sizeof(data_buffer), 1, wav->ptr)` of a frame of
   * `width * channels` bytes at byte `consumed` past `start`, decoded into a row when the
   * read succeeds; a failed read means that less than a frame (or a 0-byte frame) was left.
   */
  method ReadRow(f: WaveFile, channels: int, width: int, highLimit: int, ghost start: int, ghost consumed: int)
    returns (ok: bool, row: seq<Sample>)
    requires f.Valid() && channels >= 1 && width >= 0 && 0 <= start && 0 <= consumed
    requires f.pos == start + consumed <= |f.bytes|
    modifies f
    ensures f.Valid()
    ensures ok <==> width * channels > 0 && consumed + width * channels <= |f.bytes| - start
    ensures ok ==> f.pos == start + consumed + width * channels
    ensures ok ==> row == DecodeFrame(f.bytes[start..][consumed..consumed + width * channels], channels, width, highLimit)
    ensures !ok ==> f.pos == if width * channels == 0 then old(f.pos) else |f.bytes|
  {
    var size := width * channels;
    var buffer;
    ok, buffer := f.Fread(size);
    if ok {
      DropSlice(f.bytes, start, consumed, f.pos - size, size);
      row := ReadFrame(buffer, channels, width, highLimit);
    } else {
      row := [];
    }
  }

  /**
   * The loop invariant of `ReadFrames`: the rows decoded so far, followed by the at most
   * `m` frames still to be read from byte `consumed` on, are the whole result.
   */
  ghost predicate Progress(rows: seq<seq<Sample>>, data: seq<Byte>, consumed: int, channels: int, width: int,
                           limit: int, m: int, n: int)
    requires channels >= 1 && width >= 0 && 0 <= consumed <= |data|
  {
    rows + Frames(data[consumed..], channels, width, limit, m) == Frames(data, channels, width, limit, n)
  }

  /** A failed read ends the frames: the rows so far are the result, and all bytes are taken. */
  lemma ReadStop(rows: seq<seq<Sample>>, data: seq<Byte>, consumed: int, channels: int, width: int, limit: int,
                 m: int, n: int)
    requires channels >= 1 && width >= 0 && 1 <= m <= n && consumed == (n - m) * (width * channels) <= |data|
    requires width * channels == 0 || |data| - consumed < width * channels
    requires Progress(rows, data, consumed, channels, width, limit, m, n)
    ensures rows == Frames(data, channels, width, limit, n)
    ensures (if width * channels == 0 then consumed else |data|) == Consumed(data, width * channels, n)
  {
    NoFrame(data[consumed..], channels, width, limit, m);
    assert rows + [] == rows;
    ShortRead(data, consumed, n - m, width * channels, n);
  }

  /** Less than one frame of bytes (or a 0-byte frame) decodes to no frames. */
  lemma NoFrame(data: seq<Byte>, channels: int, width: int, limit: int, m: int)
    requires channels >= 1 && width >= 0
    requires width * channels == 0 || |data| < width * channels
    ensures Frames(data, channels, width, limit, m) == []
  {
  }

  /** A read that comes short after `done < n` whole frames of `size` bytes has taken all the bytes. */
  lemma ShortRead(data: seq<Byte>, consumed: int, done: int, size: int, n: int)
    requires 0 <= done < n && size >= 0 && consumed == done * size <= |data|
    requires size == 0 || |data| - consumed < size
    ensures (if size == 0 then consumed else |data|) == Consumed(data, size, n)
  {
    if size > 0 {
      MulNext(done, size);
      MulMono(done + 1, n, size, size);
    }
  }

  /** All `n` frames were read: the rows are the result, and exactly `n` frames of bytes are taken. */
  lemma ReadDone(rows: seq<seq<Sample>>, data: seq<Byte>, consumed: int, channels: int, width: int, limit: int, n: int)
    requires channels >= 1 && width >= 0 && n >= 0 && consumed == n * (width * channels) <= |data|
    requires Progress(rows, data, consumed, channels, width, limit, 0, n)
    ensures rows == Frames(data, channels, width, limit, n)
    ensures consumed == Consumed(data, width * channels, n)
  {
    assert rows + [] == rows;
  }

  /** One whole frame read: it is decoded, and the frames still to come start after it. */
  lemma ReadStep(prefix: seq<seq<Sample>>, data: seq<Byte>, consumed: int, channels: int, width: int, limit: int,
                 m: int, n: int)
    requires channels >= 1 && width >= 0 && m >= 1 && 0 <= consumed
    requires width * channels > 0 && consumed + width * channels <= |data|
    requires Progress(prefix, data, consumed, channels, width, limit, m, n)
    ensures var next := consumed + width * channels;
      Progress(prefix + [DecodeFrame(data[consumed..next], channels, width, limit)], data, next, channels, width, limit, m - 1, n)
  {
    var size := width * channels;
    var rest := data[consumed..];
    assert rest[..size] == data[consumed..consumed + size];
    assert rest[size..] == data[consumed + size..];
    assert Frames(rest, channels, width, limit, m)
      == [DecodeFrame(data[consumed..consumed + size], channels, width, limit)] + Frames(data[consumed + size..], channels, width, limit, m - 1);
  }

  /**
   * The channel loop of `wave_read` for one frame held in `buffer`: the field of each
   * channel in turn, at an offset advanced by `width`, decoded and scaled.
   */
  method ReadFrame(buffer: seq<Byte>, channels: int, width: int, highLimit: int) returns (row: seq<Sample>)
    requires channels >= 1 && width >= 0 && |buffer| == width * channels
    ensures row == DecodeFrame(buffer, channels, width, highLimit)
  {
    ghost var expected := DecodeFrame(buffer, channels, width, highLimit);
    var frame := new Sample[channels];
    var dataInChannel := 0;
    var offset := 0;
    var xchannels := 0;
    while xchannels < channels
      invariant 0 <= xchannels <= channels && offset == xchannels * width
      invariant !(width == 1 || width == 2 || width == 4) ==> dataInChannel == 0
      invariant forall c :: 0 <= c < xchannels ==> frame[c] == expected[c]
    {
      DecodeAt(buffer, channels, width, highLimit, xchannels, offset);
      dataInChannel := ReadChannel(buffer, offset, width, dataInChannel);
      ghost var sample := Scale(dataInChannel, highLimit);
      assert sample == expected[xchannels];
      offset := offset + width;
      MulNext(xchannels, width);
      frame[xchannels] := Scale(dataInChannel, highLimit);
      assert frame[xchannels] == sample;
      xchannels := xchannels + 1;
    }
    row := frame[..];
  }

  /**
   * The `if` chain of the channel loop: the C expression for the width, 4, 2 or 1 bytes,
   * evaluated on the field at `offset`; any other width leaves `dataInChannel` as it was.
   */
  method ReadChannel(buffer: seq<Byte>, offset: int, width: int, previous: int) returns (dataInChannel: int)
    requires 0 <= offset && (width == 1 || width == 2 || width == 4 ==> offset + width <= |buffer|)
    ensures dataInChannel == if width == 1 || width == 2 || width == 4 then ChannelValue(buffer, offset, width) else previous
  {
    dataInChannel := previous;
    if width == 4 {
      dataInChannel := Channel32(buffer[offset], buffer[offset + 1], buffer[offset + 2], buffer[offset + 3]);
      Channel32Value(buffer[offset], buffer[offset + 1], buffer[offset + 2], buffer[offset + 3]);
    } else if width == 2 {
      dataInChannel := Channel16(buffer[offset], buffer[offset + 1]);
      Channel16Value(buffer[offset], buffer[offset + 1]);
    } else if width == 1 {
      dataInChannel := Channel8(buffer[offset]);
      Channel8Value(buffer[offset]);
    }
  }
}
