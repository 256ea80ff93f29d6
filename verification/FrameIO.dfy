/** Frame.MarshalBinary and ParseFrame as code: filling a buffer byte by byte, and pulling a header
    and a payload out of a reader that hands over its bytes in arbitrary pieces. */
module FrameIO {
  import opened Wrappers
  import opened Frames

  /** f.MarshalBinary(). */
  method MarshalBinary(f: Frame) returns (buf: array<byte>, err: Option<MarshalError>)
    ensures fresh(buf)
    ensures (if err.None? then Ok(buf[..]) else Err(err.value)) == Encode(f)
    ensures Marshals(f, if err.None? then Ok(buf[..]) else Err(err.value))
  {
    EncodeMarshals(f);
    if f.version > MAX_VERSION {
      buf := new byte[0];
      return buf, Some(ErrInvalidVersion);
    }
    if f.typ > MAX_TYPE {
      buf := new byte[0];
      return buf, Some(ErrInvalidType);
    }
    if |f.payload| > MAX_PAYLOAD {
      buf := new byte[0];
      return buf, Some(ErrPayloadTooLarge);
    }
    buf := new byte[HEADER_SIZE + |f.payload|];
    var word0 := f.version * 0x2000 + f.typ;
    var n := |f.payload|;
    buf[0], buf[1] := word0 / 0x100, word0 % 0x100;
    buf[2], buf[3] := f.flags / 0x100, f.flags % 0x100;
    buf[4], buf[5], buf[6], buf[7] := n / 0x100_0000, n / 0x1_0000 % 0x100, n / 0x100 % 0x100, n % 0x100;
    forall i | 0 <= i < |f.payload| {
      buf[HEADER_SIZE + i] := f.payload[i];
    }
    err := None;
    assert buf[..] == Wire(f);
  }

  function Flat(chunks: seq<seq<byte>>): seq<byte> {
    if chunks == [] then [] else chunks[0] + Flat(chunks[1..])
  }

  /** An io.Reader: each Read gives up to max bytes of the next piece, possibly none; after the last
      piece it reports its end. An eager reader reports the end together with the last bytes. */
  class Reader {
    var chunks: seq<seq<byte>>
    const end: ReadEnd
    const eager: bool

    constructor (chunks: seq<seq<byte>>, end: ReadEnd, eager: bool)
      ensures this.chunks == chunks && this.end == end && this.eager == eager
    {
      this.chunks, this.end, this.eager := chunks, end, eager;
    }

    ghost function Rest(): seq<byte>
      reads this
    {
      Flat(chunks)
    }

    method Read(max: nat) returns (p: seq<byte>, err: Option<ReadEnd>)
      requires max > 0
      modifies this
      ensures |p| <= max && old(Rest()) == p + Rest()
      ensures err.Some? ==> err.value == end && Rest() == []
      ensures err.None? ==> |chunks| + |Rest()| < old(|chunks| + |Rest()|)
    {
      if chunks == [] {
        return [], Some(end);
      }
      var head := chunks[0];
      if |head| <= max {
        p := head;
        chunks := chunks[1..];
      } else {
        p := head[..max];
        chunks := [head[max..]] + chunks[1..];
        assert chunks[1..] == old(chunks)[1..];
      }
      err := if eager && chunks == [] then Some(end) else None;
    }
  }

  /** A reader's own error as a caller of Read sees it. */
  function AsReported(end: ReadEnd): IoError {
    match end
    case Eof => EOF
    case WrapsEof => WrappedEOF
    case Truncated => UnexpectedEOF
    case Broken => Failed
  }

  /** io.ReadFull: exactly n bytes, or what there was and why it stopped. */
  method ReadFull(r: Reader, n: nat) returns (buf: seq<byte>, err: Option<IoError>)
    modifies r
    ensures n <= |old(r.Rest())| ==> err.None? && buf == old(r.Rest())[..n] && r.Rest() == old(r.Rest())[n..]
    ensures n > |old(r.Rest())| ==> buf == old(r.Rest()) && r.Rest() == [] && err == Some(ShortRead(|buf|, r.end))
  {
    buf := [];
    var end: Option<ReadEnd> := None;
    while |buf| < n && end.None?
      invariant |buf| <= n && old(r.Rest()) == buf + r.Rest()
      invariant end.Some? ==> end.value == r.end && r.Rest() == []
      decreases n > |buf| && end.None?, |r.chunks| + |r.Rest()|
    {
      ghost var before := buf;
      var p;
      p, end := r.Read(n - |buf|);
      buf := buf + p;
      assert before + (p + r.Rest()) == buf + r.Rest();
    }
    if |buf| >= n {
      err := None;
    } else if |buf| > 0 && end == Some(Eof) {
      err := Some(UnexpectedEOF);
    } else {
      err := Some(AsReported(end.value));
    }
  }

  /** The outcome depends only on the bytes left and how they end, never on how they are cut into
      pieces. */
  method ParseFrame(r: Reader) returns (res: Result<Frame, ParseError>)
    modifies r
    ensures (res, r.Rest()) == Decode(old(r.Rest()), r.end)
  {
    ghost var data := r.Rest();
    var hdr, err := ReadFull(r, HEADER_SIZE);
    if err.Some? {
      if err.value == UnexpectedEOF || (|hdr| == 0 && (err.value == EOF || err.value == WrappedEOF)) {
        return Err(Bare(err.value));
      }
      return Err(InHeader(err.value));
    }
    assert forall i :: 0 <= i < HEADER_SIZE ==> hdr[i] == data[i];
    var length := HeaderLength(hdr);
    if length > MAX_PAYLOAD {
      return Err(TooLarge);
    }
    var payload := [];
    if length > 0 {
      payload, err := ReadFull(r, length);
      if err.Some? {
        return Err(InPayload(err.value));
      }
    }
    assert length <= |data| - HEADER_SIZE ==> data[HEADER_SIZE..][..length] == data[HEADER_SIZE..HEADER_SIZE + length];
    assert length <= |data| - HEADER_SIZE ==> data[HEADER_SIZE..][length..] == data[HEADER_SIZE + length..];
    res := Ok(FrameOf(hdr, payload));
  }

  /** Parsing data gives the frames fs and then whatever parsing rest gives. */
  ghost predicate Leads(data: seq<byte>, end: ReadEnd, fs: seq<Frame>, rest: seq<byte>) {
    DecodeAll(data, end) == (fs + DecodeAll(rest, end).0, DecodeAll(rest, end).1)
  }

  lemma LeadsStart(data: seq<byte>, end: ReadEnd)
    ensures Leads(data, end, [], data)
  {
    assert [] + DecodeAll(data, end).0 == DecodeAll(data, end).0;
  }

  lemma LeadsOneMore(data: seq<byte>, end: ReadEnd, fs: seq<Frame>, rest: seq<byte>, f: Frame, rest': seq<byte>)
    requires Leads(data, end, fs, rest) && Decode(rest, end) == (Ok(f), rest')
    ensures Leads(data, end, fs + [f], rest')
  {
    var more := DecodeAll(rest', end).0;
    DecodeAllStep(rest, end, f, rest');
    assert fs + ([f] + more) == (fs + [f]) + more;
  }

  lemma LeadsEnd(data: seq<byte>, end: ReadEnd, fs: seq<Frame>, rest: seq<byte>, e: ParseError)
    requires Leads(data, end, fs, rest) && Decode(rest, end).0 == Err(e)
    ensures DecodeAll(data, end) == (fs, e)
  {
    assert DecodeAll(rest, end) == ([], e);
    assert fs + [] == fs;
  }

  /** ParseFrame until it fails. */
  method ParseAll(r: Reader) returns (fs: seq<Frame>, err: ParseError)
    modifies r
    ensures (fs, err) == DecodeAll(old(r.Rest()), r.end)
  {
    fs := [];
    ghost var data, rest := r.Rest(), r.Rest();
    LeadsStart(data, r.end);
    var res := ParseFrame(r);
    while res.Ok?
      invariant Leads(data, r.end, fs, rest) && (res, r.Rest()) == Decode(rest, r.end)
      decreases |rest|
    {
      LeadsOneMore(data, r.end, fs, rest, res.value, r.Rest());
      fs := fs + [res.value];
      rest := r.Rest();
      res := ParseFrame(r);
    }
    LeadsEnd(data, r.end, fs, rest, res.error);
    err := res.error;
  }

  /** Any frames, written one after another and handed over in any pieces, come back as they were, and
      the reader then stands at a clean end. */
  method StreamComesBack(ghost fs: seq<Frame>, chunks: seq<seq<byte>>, eager: bool)
    returns (got: seq<Frame>, err: ParseError)
    requires forall i :: 0 <= i < |fs| ==> Encodable(fs[i])
    requires Flat(chunks) == WireAll(fs)
    ensures got == fs && err == Bare(EOF)
  {
    var r := new Reader(chunks, Eof, eager);
    StreamRoundTrip(fs);
    got, err := ParseAll(r);
  }
}
