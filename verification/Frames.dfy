/** The ORP wire format (lib/orp/frame.go): an 8-byte big-endian header and a payload. Encoding and
    decoding are functions on byte sequences; the code that fills a buffer and the code that pulls
    bytes from a reader are in FrameIO. Header bits are written as arithmetic on words. */
module Frames {
  import opened Wrappers

  const HEADER_SIZE := 8
  const MAX_PAYLOAD := 0x100_0000
  const MAX_TYPE := 0x7FF
  const MAX_VERSION := 7

  type u8 = x: int | 0 <= x < 0x100
  type u16 = x: int | 0 <= x < 0x1_0000

  datatype Frame = Frame(version: u8, typ: u16, flags: u16, payload: seq<byte>)

  datatype MarshalError = ErrInvalidVersion | ErrInvalidType | ErrPayloadTooLarge

  /** How a reader can end: with io.EOF itself, with an error wrapping io.EOF, with
      io.ErrUnexpectedEOF, or with any other error. */
  datatype ReadEnd = Eof | WrapsEof | Truncated | Broken

  datatype IoError = EOF | WrappedEOF | UnexpectedEOF | Failed

  /** Bare errors reach the caller as they are; the others are wrapped with what was being read. */
  datatype ParseError = Bare(io: IoError) | InHeader(io: IoError) | InPayload(io: IoError) | TooLarge

  predicate Encodable(f: Frame) {
    f.version <= MAX_VERSION && f.typ <= MAX_TYPE && |f.payload| <= MAX_PAYLOAD
  }

  function Word0(f: Frame): int { f.version * 0x2000 + f.typ }

  /** The bytes of an encodable frame. */
  function Wire(f: Frame): (w: seq<byte>)
    requires Encodable(f)
    ensures |w| == HEADER_SIZE + |f.payload|
  {
    var n := |f.payload|;
    [Word0(f) / 0x100, Word0(f) % 0x100, f.flags / 0x100, f.flags % 0x100,
     n / 0x100_0000, n / 0x1_0000 % 0x100, n / 0x100 % 0x100, n % 0x100] + f.payload
  }

  function Encode(f: Frame): Result<seq<byte>, MarshalError> {
    if f.version > MAX_VERSION then Err(ErrInvalidVersion)
    else if f.typ > MAX_TYPE then Err(ErrInvalidType)
    else if |f.payload| > MAX_PAYLOAD then Err(ErrPayloadTooLarge)
    else Ok(Wire(f))
  }

  // ---------- Decoding ----------

  function Be16(hi: int, lo: int): int { hi * 0x100 + lo }

  function Be32(a: int, b: int, c: int, d: int): int { a * 0x100_0000 + b * 0x1_0000 + c * 0x100 + d }

  function HeaderWord(h: seq<byte>): int
    requires |h| >= HEADER_SIZE
  {
    Be16(h[0], h[1])
  }

  function HeaderLength(h: seq<byte>): int
    requires |h| >= HEADER_SIZE
  {
    Be32(h[4], h[5], h[6], h[7])
  }

  function FrameOf(h: seq<byte>, payload: seq<byte>): Frame
    requires |h| >= HEADER_SIZE
  {
    Frame(HeaderWord(h) / 0x2000, HeaderWord(h) % 0x800, Be16(h[2], h[3]), payload)
  }

  /** What io.ReadFull reports when only got bytes were there of the ones it wanted. */
  function ShortRead(got: nat, end: ReadEnd): IoError {
    match end
    case Eof => if got == 0 then EOF else UnexpectedEOF
    case WrapsEof => WrappedEOF
    case Truncated => UnexpectedEOF
    case Broken => Failed
  }

  /** One ParseFrame on a reader that will yield data and then end: the outcome, and what is left. */
  function Decode(data: seq<byte>, end: ReadEnd): (r: (Result<Frame, ParseError>, seq<byte>))
    ensures r.0.Ok? ==> |r.1| + HEADER_SIZE <= |data|
  {
    if |data| < HEADER_SIZE then
      var e := ShortRead(|data|, end);
      var bare := e.UnexpectedEOF? || (|data| == 0 && (e.EOF? || e.WrappedEOF?));
      (Err(if bare then Bare(e) else InHeader(e)), [])
    else
      var n := HeaderLength(data);
      if n > MAX_PAYLOAD then (Err(TooLarge), data[HEADER_SIZE..])
      else if |data| - HEADER_SIZE < n then (Err(InPayload(ShortRead(|data| - HEADER_SIZE, end))), [])
      else (Ok(FrameOf(data, data[HEADER_SIZE..HEADER_SIZE + n])), data[HEADER_SIZE + n..])
  }

  // ---------- The layout ----------

  /** The length field of a header: bytes 4 to 7, most significant first. */
  function LengthField(data: seq<byte>): int
    requires |data| >= 8
  {
    ((data[4] as int * 256 + data[5] as int) * 256 + data[6] as int) * 256 + data[7] as int
  }

  /** The bytes of a frame: version and type share a big-endian word, 3 bits and 11 bits with two
      between them; then flags and payload length, big-endian; then the payload. */
  ghost predicate LaidOut(w: seq<byte>, f: Frame) {
    && |w| == 8 + |f.payload| && w[8..] == f.payload
    && w[0] as int * 256 + w[1] as int == f.version as int * 8192 + f.typ as int
    && w[2] as int * 256 + w[3] as int == f.flags
    && LengthField(w) == |f.payload|
  }

  lemma WireIsLaidOut(f: Frame)
    requires Encodable(f)
    ensures LaidOut(Wire(f), f)
  {
    LengthBytes(|f.payload|);
  }

  /** What marshalling answers: exactly the frames within range are encoded, laid out as documented and
      parsed back as they were whatever follows; the first field out of range names the error. */
  ghost predicate Marshals(f: Frame, res: Result<seq<byte>, MarshalError>) {
    && (res.Ok? <==> f.version <= 7 && f.typ <= 2047 && |f.payload| <= 16_777_216)
    && (res == Err(ErrInvalidVersion) <==> f.version > 7)
    && (res == Err(ErrInvalidType) <==> f.version <= 7 && f.typ > 2047)
    && (res == Err(ErrPayloadTooLarge) <==> f.version <= 7 && f.typ <= 2047 && |f.payload| > 16_777_216)
    && (res.Ok? ==> LaidOut(res.value, f))
    && (res.Ok? ==> forall rest, end :: Decode(res.value + rest, end) == (Ok(f), rest))
  }

  lemma EncodeMarshals(f: Frame)
    ensures Marshals(f, Encode(f))
  {
    if Encodable(f) {
      WireIsLaidOut(f);
      forall rest, end
        ensures Decode(Wire(f) + rest, end) == (Ok(f), rest)
      {
        RoundTrip(f, rest, end);
      }
    }
  }

  // ---------- Round trip ----------

  lemma RoundTrip(f: Frame, rest: seq<byte>, end: ReadEnd)
    requires Encodable(f)
    ensures Decode(Wire(f) + rest, end) == (Ok(f), rest)
  {
    var data := Wire(f) + rest;
    HeaderFields(f, data);
    assert data[HEADER_SIZE..HEADER_SIZE + |f.payload|] == f.payload;
    assert data[HEADER_SIZE + |f.payload|..] == rest;
  }

  lemma HeaderFields(f: Frame, data: seq<byte>)
    requires Encodable(f) && |data| >= HEADER_SIZE && data[..HEADER_SIZE] == Wire(f)[..HEADER_SIZE]
    ensures HeaderLength(data) == |f.payload|
    ensures FrameOf(data, f.payload) == f
  {
    assert forall i :: 0 <= i < HEADER_SIZE ==> data[i] == data[..HEADER_SIZE][i] == Wire(f)[i];
    assert HeaderWord(data) == Word0(f);
    WordFields(f.version, f.typ);
    LengthBytes(|f.payload|);
  }

  lemma WordFields(version: int, typ: int)
    requires 0 <= version && 0 <= typ < 0x800
    ensures (version * 0x2000 + typ) / 0x2000 == version && (version * 0x2000 + typ) % 0x800 == typ
  {
  }

  lemma LengthBytes(n: nat)
    ensures n == n / 0x100_0000 * 0x100_0000 + n / 0x1_0000 % 0x100 * 0x1_0000 + n / 0x100 % 0x100 * 0x100 + n % 0x100
  {
    assert n / 0x1_0000 == n / 0x100 / 0x100;
    assert n / 0x100_0000 == n / 0x1_0000 / 0x100;
  }

  function WireAll(fs: seq<Frame>): seq<byte>
    requires forall i :: 0 <= i < |fs| ==> Encodable(fs[i])
  {
    if fs == [] then [] else Wire(fs[0]) + WireAll(fs[1..])
  }

  /** Parse until the first error. */
  function DecodeAll(data: seq<byte>, end: ReadEnd): (seq<Frame>, ParseError)
    decreases |data|
  {
    var (res, rest) := Decode(data, end);
    match res
    case Err(e) => ([], e)
    case Ok(f) =>
      var (fs, e) := DecodeAll(rest, end);
      ([f] + fs, e)
  }

  lemma DecodeAllStep(data: seq<byte>, end: ReadEnd, f: Frame, rest: seq<byte>)
    requires Decode(data, end) == (Ok(f), rest)
    ensures DecodeAll(data, end) == ([f] + DecodeAll(rest, end).0, DecodeAll(rest, end).1)
  {
  }

  lemma FirstOfStream(fs: seq<Frame>)
    requires fs != [] && forall i :: 0 <= i < |fs| ==> Encodable(fs[i])
    ensures Decode(WireAll(fs), Eof) == (Ok(fs[0]), WireAll(fs[1..]))
  {
    RoundTrip(fs[0], WireAll(fs[1..]), Eof);
  }

  /** Any sequence of encodable frames, concatenated on a stream, parses back to itself and leaves
      the reader at a clean end. */
  lemma {:induction false} StreamRoundTrip(fs: seq<Frame>)
    requires forall i :: 0 <= i < |fs| ==> Encodable(fs[i])
    ensures DecodeAll(WireAll(fs), Eof) == (fs, Bare(EOF))
  {
    if fs == [] {
      assert DecodeAll([], Eof) == ([], Bare(EOF));
    } else {
      StreamRoundTrip(fs[1..]);
      FirstOfStream(fs);
      DecodeAllStep(WireAll(fs), Eof, fs[0], WireAll(fs[1..]));
      assert [fs[0]] + fs[1..] == fs;
    }
  }

  /** Hence encoding is injective, on frames and on streams, and no encoding is a proper prefix of
      another. */
  lemma StreamEncodingInjective(fs: seq<Frame>, gs: seq<Frame>)
    requires forall i :: 0 <= i < |fs| ==> Encodable(fs[i])
    requires forall i :: 0 <= i < |gs| ==> Encodable(gs[i])
    requires WireAll(fs) == WireAll(gs)
    ensures fs == gs
  {
    StreamRoundTrip(fs);
    StreamRoundTrip(gs);
  }

  lemma PrefixFree(f: Frame, g: Frame)
    requires Encodable(f) && Encodable(g) && Wire(f) <= Wire(g)
    ensures f == g
  {
    var rest := Wire(g)[|Wire(f)|..];
    assert Wire(g) == Wire(f) + rest == Wire(g) + [];
    RoundTrip(f, rest, Eof);
    RoundTrip(g, [], Eof);
  }

  // ---------- Soundness of parsing ----------

  /** The header with the two reserved bits (bits 3 and 4 of the first byte) cleared. */
  function ClearReserved(w: seq<byte>): seq<byte>
    requires |w| > 0
  {
    w[0 := w[0] / 32 * 32 + w[0] % 8]
  }

  /** A successful parse consumed exactly an encoding of the frame it returns, up to the reserved
      bits. */
  lemma ParseIsSound(data: seq<byte>, end: ReadEnd)
    requires Decode(data, end).0.Ok?
    ensures var (res, rest) := Decode(data, end);
            && Encodable(res.value)
            && |Wire(res.value)| + |rest| == |data|
            && data[|Wire(res.value)|..] == rest
            && Wire(res.value) == ClearReserved(data[..|Wire(res.value)|])
  {
    var (res, rest) := Decode(data, end);
    var f, n := res.value, HeaderLength(data);
    var consumed := data[..HEADER_SIZE + n];
    WordBytes(data[0], data[1]);
    BytesOfWord(data[2], data[3]);
    BytesOfLength(data[4], data[5], data[6], data[7]);
    assert consumed == consumed[..HEADER_SIZE] + data[HEADER_SIZE..HEADER_SIZE + n];
    assert Wire(f)[..HEADER_SIZE] == ClearReserved(consumed)[..HEADER_SIZE];
    assert Wire(f)[HEADER_SIZE..] == f.payload == ClearReserved(consumed)[HEADER_SIZE..];
    assert Wire(f) == Wire(f)[..HEADER_SIZE] + Wire(f)[HEADER_SIZE..];
    assert ClearReserved(consumed) == ClearReserved(consumed)[..HEADER_SIZE] + ClearReserved(consumed)[HEADER_SIZE..];
  }

  lemma WordBytes(hi: int, lo: int)
    requires 0 <= hi < 0x100 && 0 <= lo < 0x100
    ensures var w := Be16(hi, lo);
            var kept := w / 0x2000 * 0x2000 + w % 0x800;
            0 <= w / 0x2000 <= MAX_VERSION && kept / 0x100 == hi / 32 * 32 + hi % 8 && kept % 0x100 == lo
  {
    var v, r, k := hi / 32, hi / 8 % 4, hi % 8;
    var w := Be16(hi, lo);
    assert hi == v * 32 + r * 8 + k;
    assert w / 0x2000 == v;
    assert w % 0x800 == k * 0x100 + lo;
  }

  lemma BytesOfWord(hi: int, lo: int)
    requires 0 <= hi < 0x100 && 0 <= lo < 0x100
    ensures Be16(hi, lo) / 0x100 == hi && Be16(hi, lo) % 0x100 == lo
  {
  }

  lemma BytesOfLength(a: int, b: int, c: int, d: int)
    requires 0 <= a < 0x100 && 0 <= b < 0x100 && 0 <= c < 0x100 && 0 <= d < 0x100
    ensures var n := Be32(a, b, c, d);
            n / 0x100_0000 == a && n / 0x1_0000 % 0x100 == b && n / 0x100 % 0x100 == c && n % 0x100 == d
  {
    var n := Be32(a, b, c, d);
    assert n / 0x100 == a * 0x1_0000 + b * 0x100 + c;
    assert n / 0x1_0000 == a * 0x100 + b;
  }

  /** Cut anywhere short of its end, an encoding never yields a frame. */
  lemma TruncationNeverParses(f: Frame, k: nat, end: ReadEnd)
    requires Encodable(f) && k < |Wire(f)|
    ensures Decode(Wire(f)[..k], end).0.Err?
    ensures Decode(Wire(f)[..k], end).1 == []
  {
    var data := Wire(f)[..k];
    if k >= HEADER_SIZE {
      assert data[..HEADER_SIZE] == Wire(f)[..HEADER_SIZE];
      HeaderFields(f, data);
    }
  }

  /** The error that cuts a header short, exactly: a bare io.EOF means the reader ended cleanly on a
      frame boundary and nothing else does; a bare unexpected EOF means it ended cleanly inside a
      header, or reported an unexpected EOF of its own, even on a boundary. */
  lemma BareEofIffBoundary(data: seq<byte>, end: ReadEnd)
    ensures Decode(data, end).0 == Err(Bare(EOF)) <==> data == [] && end == Eof
    ensures Decode(data, end).0 == Err(Bare(WrappedEOF)) <==> data == [] && end == WrapsEof
    ensures Decode(data, end).0 == Err(Bare(UnexpectedEOF))
            <==> |data| < HEADER_SIZE && (end == Truncated || (end == Eof && data != []))
    ensures (exists io :: Decode(data, end).0 == Err(InHeader(io)))
            <==> |data| < HEADER_SIZE && (end == Broken || (end == WrapsEof && data != []))
  {
    if |data| < HEADER_SIZE && (end == Broken || (end == WrapsEof && data != [])) {
      assert Decode(data, end).0 == Err(InHeader(ShortRead(|data|, end)));
    }
  }

  /** Past the header, exactly: an oversized length is refused with the payload unread, a payload cut
      short is reported with the reader's error, and anything else is a frame. An io.EOF in place of a
      non-empty payload's first byte stays an EOF, wrapped. */
  lemma PayloadOutcomes(data: seq<byte>, end: ReadEnd)
    requires |data| >= 8
    ensures var n, res, rest := LengthField(data), Decode(data, end).0, Decode(data, end).1;
            && (res == Err(TooLarge) <==> n > 16_777_216)
            && (res.Err? && res.error.InPayload? <==> n <= 16_777_216 && |data| - 8 < n)
            && (res.Ok? <==> n <= 16_777_216 && n <= |data| - 8)
            && (res == Err(TooLarge) ==> rest == data[8..])
            && (res.Err? && res.error.InPayload? ==>
                  && rest == []
                  && (res.error.io == EOF <==> end == Eof && |data| == 8)
                  && (res.error.io == UnexpectedEOF <==> end == Truncated || (end == Eof && |data| > 8))
                  && (res.error.io == WrappedEOF <==> end == WrapsEof)
                  && (res.error.io == Failed <==> end == Broken))
            && (res.Ok? ==> res.value.payload == data[8..8 + n] && rest == data[8 + n..])
  {
  }

  // ---------- The source's bit operations ----------

  lemma SplitAt11(word: bv16)
    ensures word == (word >> 11) * 0x800 + (word & 0x7FF)
    ensures word >> 11 <= 0x1F && word & 0x7FF <= 0x7FF
  {
  }

  lemma FieldsAsInt(high: bv16, low: bv16)
    requires high <= 0x1F && low <= 0x7FF
    ensures (high * 0x800 + low) as int == (high as int) * 0x800 + (low as int)
    ensures 0 <= low as int < 0x800
  {
  }

  lemma Remainder(word: int, high: int, low: int)
    requires word == high * 0x800 + low && 0 <= low < 0x800
    ensures word % 0x800 == low
  {
  }

  /** The low eleven bits of a word. */
  lemma LowBits(word: bv16)
    ensures (word & 0x7FF) as int == (word as int) % 0x800
  {
    var high, low := word >> 11, word & 0x7FF;
    assert word as int == (high as int) * 0x800 + (low as int) && 0 <= low as int < 0x800 by {
      SplitAt11(word);
      FieldsAsInt(high, low);
    }
    Remainder(word as int, high as int, low as int);
  }

  /** The top three bits of a word. */
  lemma TopBits(word: bv16)
    ensures (word >> 13) as int == (word as int) / 0x2000
  {
    assert word >> 13 == word / 0x2000;
  }

  /** The header word as MarshalBinary shifts it together is Word0. */
  lemma WordOfBits(f: Frame, version: bv16, typ: bv16)
    requires Encodable(f) && version as int == f.version && typ as int == f.typ
    ensures (((version & 7) << 13) | (typ & 0x7FF)) as int == Word0(f)
  {
    SmallAsInt(version, typ);
    ShiftedTogether(version, typ);
    WordAsInt(version, typ);
  }

  lemma SmallAsInt(version: bv16, typ: bv16)
    requires version as int <= 7 && typ as int <= 0x7FF
    ensures version <= 7 && typ <= 0x7FF
  {
  }

  lemma ShiftedTogether(version: bv16, typ: bv16)
    requires version <= 7 && typ <= 0x7FF
    ensures ((version & 7) << 13) | (typ & 0x7FF) == version * 0x2000 + typ
  {
  }

  lemma WordAsInt(version: bv16, typ: bv16)
    requires version <= 7 && typ <= 0x7FF
    ensures (version * 0x2000 + typ) as int == (version as int) * 0x2000 + (typ as int)
  {
  }

  /** The fields ParseFrame shifts and masks out of a header word are the fields of FrameOf. */
  lemma BitsOfWord(h: seq<byte>, payload: seq<byte>, word: bv16)
    requires |h| >= HEADER_SIZE && word as int == HeaderWord(h)
    ensures (word >> 13) as int == FrameOf(h, payload).version
    ensures (word & 0x7FF) as int == FrameOf(h, payload).typ
  {
    TopBits(word);
    LowBits(word);
  }
}
