/** In-protocol fragmentation: the sub-header codec and the splitter. */
module FragmentModel {
  import opened Wrappers
  import opened Arithmetic

  type byte = x: int | 0 <= x < 256
  type u8 = byte
  type u16 = x: int | 0 <= x < 65536
  type Bytes = seq<byte>

  const FRAGMENT_HEADER_LEN := 4
  const MAX_FRAGMENTS := 64

  datatype FragmentError =
    ShortHeader | InvalidHeader | TooManyFragments | FragmentTooLarge | EmptyPayload | Inconsistent | MismatchedTotal

  datatype FragmentHeader = FragmentHeader(fragmentId: u16, offset: u8, total: u8) {
    /** What `FragmentHeader::new` checks. */
    predicate Valid() {
      offset < total
    }

    /** The four bytes on the wire; the id is big-endian. */
    function Bytes(): (b: Bytes)
      ensures |b| == FRAGMENT_HEADER_LEN
    {
      [fragmentId / 256, fragmentId % 256, offset, total]
    }
  }

  function NewHeader(fragmentId: u16, offset: u8, total: u8): Result<FragmentHeader, FragmentError> {
    if total == 0 || offset >= total then Err(InvalidHeader) else Ok(FragmentHeader(fragmentId, offset, total))
  }

  /** Write the header over the first four bytes of `buf`. */
  method EncodeHeader(h: FragmentHeader, buf: array<byte>) returns (r: Result<(), FragmentError>)
    modifies buf
    ensures buf.Length < FRAGMENT_HEADER_LEN ==> r == Err(ShortHeader) && buf[..] == old(buf[..])
    ensures buf.Length >= FRAGMENT_HEADER_LEN ==>
      r == Ok(()) && buf[..] == h.Bytes() + old(buf[..])[FRAGMENT_HEADER_LEN..]
  {
    if buf.Length < FRAGMENT_HEADER_LEN {
      return Err(ShortHeader);
    }
    buf[0], buf[1] := h.fragmentId / 256, h.fragmentId % 256;
    buf[2] := h.offset;
    buf[3] := h.total;
    return Ok(());
  }

  function DecodeHeader(buf: Bytes): Result<FragmentHeader, FragmentError> {
    if |buf| < FRAGMENT_HEADER_LEN then Err(ShortHeader)
    else NewHeader((buf[0] as int) * 256 + buf[1] as int, buf[2], buf[3])
  }

  /** Decoding succeeds exactly on the encodings of valid headers, and recovers the header: a big-endian
      id, then the offset, then the total. */
  lemma HeaderRoundTrip(h: FragmentHeader, buf: Bytes)
    ensures DecodeHeader(buf) == Ok(h) <==> h.Valid() && h.Bytes() <= buf
    ensures DecodeHeader(buf) == Ok(h) ==>
      (buf[0] as int) * 256 + buf[1] as int == h.fragmentId && buf[2] == h.offset && buf[3] == h.total
  {
    if |buf| >= FRAGMENT_HEADER_LEN && h.Bytes() == buf[..FRAGMENT_HEADER_LEN] {
      assert h.Bytes()[0] == buf[0] && h.Bytes()[1] == buf[1] && h.Bytes()[2] == buf[2] && h.Bytes()[3] == buf[3];
    }
    if DecodeHeader(buf) == Ok(h) {
      assert buf[..4] == [buf[0], buf[1], buf[2], buf[3]];
    }
  }

  // ----- The splitter

  /** `payload.chunks(size)`. */
  function Chunks(payload: Bytes, size: nat): (c: seq<Bytes>)
    requires size > 0
    ensures payload == [] <==> c == []
    ensures forall i :: 0 <= i < |c| ==> 0 < |c[i]| <= size
  {
    if payload == [] then []
    else if |payload| <= size then [payload]
    else [payload[..size]] + Chunks(payload[size..], size)
  }

  function Concat(parts: seq<Bytes>): Bytes {
    if parts == [] then [] else parts[0] + Concat(parts[1..])
  }

  lemma ConcatCons(part: Bytes, parts: seq<Bytes>)
    ensures Concat([]) == [] && Concat([part] + parts) == part + Concat(parts)
  {
    assert ([part] + parts)[1..] == parts;
  }

  lemma {:induction false} ConcatChunks(payload: Bytes, size: nat)
    requires size > 0
    ensures Concat(Chunks(payload, size)) == payload
  {
    hide Concat;
    ConcatCons([], []);
    if |payload| > size {
      ConcatChunks(payload[size..], size);
      ConcatCons(payload[..size], Chunks(payload[size..], size));
    } else if payload != [] {
      ConcatCons(payload, []);
      assert [payload] + [] == [payload];
    }
  }

  /** Every chunk but the last is full. */
  lemma {:induction false} ChunksFull(payload: Bytes, size: nat, i: nat)
    requires size > 0 && i < |Chunks(payload, size)| - 1
    ensures |Chunks(payload, size)[i]| == size
  {
    if i > 0 {
      ChunksFull(payload[size..], size, i - 1);
    }
  }

  lemma {:induction false} ChunkCount(payload: Bytes, size: nat)
    requires size > 0
    ensures |Chunks(payload, size)| == DivCeil(|payload|, size)
  {
    hide DivCeil;
    DivCeilStep(|payload|, size);
    if |payload| > size {
      ChunkCount(payload[size..], size);
    }
  }

  /** The framed fragments of a payload: each chunk behind its sub-header. */
  function Fragments(chunks: seq<Bytes>, fragmentId: u16): (f: seq<Bytes>)
    requires |chunks| <= MAX_FRAGMENTS
  {
    seq(|chunks|, i requires 0 <= i < |chunks| => FragmentHeader(fragmentId, i, |chunks|).Bytes() + chunks[i])
  }

  /** One framed fragment: a zeroed header area, overwritten by the header, then the chunk.
      Neither the header check nor the encoder can fail here, so the error exits are unreachable. */
  method Frame(fragmentId: u16, idx: u8, total: u8, chunk: Bytes) returns (framed: Bytes)
    requires idx < total
    ensures framed == FragmentHeader(fragmentId, idx, total).Bytes() + chunk
  {
    var hdr := NewHeader(fragmentId, idx, total).value;
    var buf := new byte[FRAGMENT_HEADER_LEN](_ => 0);
    var encoded := EncodeHeader(hdr, buf);
    assert encoded.Ok? && buf[..] == hdr.Bytes();
    framed := buf[..] + chunk;
  }

  lemma FirstChunk(payload: Bytes, size: nat)
    requires size > 0 && payload != []
    ensures var chunk := if |payload| <= size then payload else payload[..size];
            Chunks(payload, size) == [chunk] + Chunks(payload[|chunk|..], size)
  {
  }

  /** The loop over the chunks. */
  method FrameChunks(payload: Bytes, size: nat, total: u8, fragmentId: u16) returns (out: seq<Bytes>)
    requires size > 0 && |Chunks(payload, size)| == total <= MAX_FRAGMENTS
    ensures out == Fragments(Chunks(payload, size), fragmentId)
  {
    hide Chunks, FragmentHeader.Bytes;
    ghost var chunks := Chunks(payload, size);
    out := [];
    var rest := payload;
    while rest != []
      invariant |out| <= total && Chunks(rest, size) == chunks[|out|..]
      invariant forall i :: 0 <= i < |out| ==> out[i] == FragmentHeader(fragmentId, i, total).Bytes() + chunks[i]
      decreases |rest|
    {
      var chunk := if |rest| <= size then rest else rest[..size];
      FirstChunk(rest, size);
      assert chunk == chunks[|out|];
      var framed := Frame(fragmentId, |out|, total, chunk);
      rest := rest[|chunk|..];
      out := out + [framed];
    }
  }

  /** `fragment` accepts a payload exactly when it is not empty and fits in 64 fragments. */
  ghost predicate Accepts(payload: Bytes, maxFragmentLen: nat) {
    && payload != [] && maxFragmentLen > FRAGMENT_HEADER_LEN
    && DivCeil(|payload|, maxFragmentLen - FRAGMENT_HEADER_LEN) <= MAX_FRAGMENTS
  }

  /** Split `payload` into framed fragments of at most `maxFragmentLen` bytes. */
  method Fragment(payload: Bytes, maxFragmentLen: nat, fragmentId: u16) returns (r: Result<seq<Bytes>, FragmentError>)
    ensures r.Ok? <==> Accepts(payload, maxFragmentLen)
    ensures r.Err? ==>
      r.error == if payload == [] then EmptyPayload
                 else if maxFragmentLen <= FRAGMENT_HEADER_LEN then FragmentTooLarge else TooManyFragments
    ensures r.Ok? ==>
      var chunks := Chunks(payload, maxFragmentLen - FRAGMENT_HEADER_LEN);
      && 1 <= |chunks| <= MAX_FRAGMENTS && Concat(chunks) == payload
      && r.value == Fragments(chunks, fragmentId)
      && (forall i :: 0 <= i < |r.value| ==> |r.value[i]| <= maxFragmentLen)
      && forall i :: 0 <= i < |r.value| - 1 ==> |r.value[i]| == maxFragmentLen
  {
    hide Chunks, Concat, DivCeil;
    if payload == [] {
      return Err(EmptyPayload);
    }
    if maxFragmentLen <= FRAGMENT_HEADER_LEN {
      return Err(FragmentTooLarge);
    }
    var size := maxFragmentLen - FRAGMENT_HEADER_LEN;
    var total := DivCeil(|payload|, size);
    ChunkCount(payload, size);
    if total == 0 || total > MAX_FRAGMENTS || total > 255 {
      return Err(TooManyFragments);
    }
    var out := FrameChunks(payload, size, total, fragmentId);
    ConcatChunks(payload, size);
    forall i | 0 <= i < |out| - 1 ensures |out[i]| == maxFragmentLen {
      ChunksFull(payload, size, i);
    }
    return Ok(out);
  }
}
