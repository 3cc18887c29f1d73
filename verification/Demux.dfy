/** Docker's multiplexed output stream: the incremental decoder `readDemuxed` and the one-shot
    decoder `stripStreamHeaders` (daemon/main.go:1617-1635, 1722-1753).

    A frame is an 8-byte header, whose first byte is the stream type and whose last four are
    the payload size in big-endian order, followed by the payload. */
module Demux {
  newtype byte = x: int | 0 <= x < 256
  type bytes = seq<byte>

  datatype Frame = Frame(kind: byte, payload: bytes)

  predicate ValidFrame(f: Frame) {
    |f.payload| < 0x1_0000_0000
  }

  predicate ValidFrames(fs: seq<Frame>) {
    forall i :: 0 <= i < |fs| ==> ValidFrame(fs[i])
  }

  function SizeBytes(n: nat): bytes
    requires n < 0x1_0000_0000
  {
    [(n / 0x100_0000) as byte, (n / 0x1_0000 % 256) as byte, (n / 256 % 256) as byte, (n % 256) as byte]
  }

  function Encode(f: Frame): bytes
    requires ValidFrame(f)
  {
    [f.kind, 0, 0, 0] + SizeBytes(|f.payload|) + f.payload
  }

  function EncodeAll(fs: seq<Frame>): bytes
    requires ValidFrames(fs)
  {
    if fs == [] then [] else Encode(fs[0]) + EncodeAll(fs[1..])
  }

  /** The part of a payload that is shown: stdout and stderr only. */
  function Shown(kind: byte, payload: bytes): bytes {
    if kind == 1 || kind == 2 then payload else []
  }

  function Payloads(fs: seq<Frame>): bytes {
    if fs == [] then [] else Shown(fs[0].kind, fs[0].payload) + Payloads(fs[1..])
  }

  /** Each stdout or stderr frame adds its payload, and no other frame adds anything. */
  lemma {:induction false} PayloadsAppend(fs: seq<Frame>, f: Frame)
    ensures Payloads(fs + [f]) == Payloads(fs) + if f.kind == 1 || f.kind == 2 then f.payload else []
  {
    if fs == [] {
      assert [] + [f] == [f] && [f][1..] == [];
    } else {
      assert (fs + [f])[1..] == fs[1..] + [f];
      PayloadsAppend(fs[1..], f);
    }
  }

  function FrameSize(data: bytes): nat
    requires |data| >= 8
  {
    data[4] as int * 0x100_0000 + data[5] as int * 0x1_0000 + data[6] as int * 256 + data[7] as int
  }

  /** `data` starts with a whole frame. */
  predicate HasFrame(data: bytes) {
    |data| >= 8 && |data| >= 8 + FrameSize(data)
  }

  datatype Decoded = Decoded(out: bytes, rest: bytes)

  /** The shown payloads of the whole frames at the start of `data`, and what is left. */
  function Decode(data: bytes): Decoded
    decreases |data|
  {
    if !HasFrame(data) then Decoded([], data)
    else
      var end := 8 + FrameSize(data);
      var next := Decode(data[end..]);
      Decoded(Shown(data[0], data[8..end]) + next.out, next.rest)
  }

  /** Decoding stops where no whole frame is left. */
  lemma {:induction false} DecodeStops(data: bytes)
    ensures !HasFrame(Decode(data).rest) && Decode(Decode(data).rest) == Decoded([], Decode(data).rest)
    decreases |data|
  {
    if HasFrame(data) {
      DecodeStops(data[8 + FrameSize(data)..]);
    }
  }

  function Concat(chunks: seq<bytes>): bytes {
    if chunks == [] then [] else chunks[0] + Concat(chunks[1..])
  }

  // ---------------------------------------------------------------- the incremental decoder

  /** What the loop carries to the next read: an unfinished frame whose header is complete is
      appended twice, once before the inner loop breaks off and once after it. */
  function Carried(rest: bytes): bytes {
    if |rest| >= 8 then rest + rest else rest
  }

  /** The output of the loop as written, from bytes `leftover` and the reads still to come. */
  function Literal(leftover: bytes, chunks: seq<bytes>): bytes
    decreases |chunks|
  {
    if chunks == [] then []
    else
      var d := Decode(leftover + chunks[0]);
      d.out + Literal(Carried(d.rest), chunks[1..])
  }

  /** The output of the loop that keeps an unfinished frame once. */
  function Intended(leftover: bytes, chunks: seq<bytes>): bytes
    decreases |chunks|
  {
    if chunks == [] then []
    else
      var d := Decode(leftover + chunks[0]);
      d.out + Intended(d.rest, chunks[1..])
  }

  lemma Assoc(a: bytes, b: bytes, c: bytes)
    ensures (a + b) + c == a + (b + c)
  {
  }

  /** Having shown `out`, the inner loop has come as far as `data`. */
  ghost predicate Consumed(all: Decoded, out: bytes, data: bytes) {
    out + Decode(data).out == all.out && Decode(data).rest == all.rest
  }

  lemma ConsumeStep(all: Decoded, out: bytes, data: bytes, shown: bytes, rest: bytes)
    requires Consumed(all, out, data)
    requires Decode(data) == Decoded(shown + Decode(rest).out, Decode(rest).rest)
    ensures Consumed(all, out + shown, rest)
  {
    Assoc(out, shown, Decode(rest).out);
  }

  lemma ConsumeEnds(out: bytes, data: bytes)
    ensures [] + out == out && out + [] == out
    ensures !HasFrame(data) ==> Decode(data) == Decoded([], data)
  {
  }

  lemma ConsumeStarts(input: bytes)
    ensures Consumed(Decode(input), [], input)
  {
  }

  lemma ConsumeDone(all: Decoded, out: bytes, data: bytes)
    requires Consumed(all, out, data) && !HasFrame(data)
    ensures all == Decoded(out, data) && [] + data == data
  {
    ConsumeEnds(out, data);
  }

  /** The body of the inner loop: one frame, if the buffer holds all of it. */
  method TakeFrame(data: bytes) returns (whole: bool, shown: bytes, rest: bytes)
    requires |data| >= 8
    ensures whole <==> HasFrame(data)
    ensures whole ==> |rest| < |data| && Decode(data) == Decoded(shown + Decode(rest).out, Decode(rest).rest)
  {
    var streamType := data[0];
    var size := FrameSize(data);
    whole, shown, rest := |data| >= 8 + size, [], data;
    if whole {
      if streamType == 1 || streamType == 2 {
        shown := data[8..8 + size];
      }
      rest := data[8 + size..];
    }
  }

  /** The inner loop: consumes the whole frames at the start of `input`; it ends early, with the
      remainder appended to the empty `leftover`, at an unfinished frame. */
  method ConsumeFrames(input: bytes) returns (out: bytes, data: bytes, leftover: bytes)
    ensures out == Decode(input).out && data == Decode(input).rest
    ensures leftover == if |data| >= 8 then data else []
  {
    out, data, leftover := [], input, [];
    ghost var all := Decode(input);
    ConsumeStarts(input);
    while |data| >= 8
      invariant leftover == []
      invariant Consumed(all, out, data)
      decreases |data|
    {
      var whole, shown, rest := TakeFrame(data);
      if !whole {
        leftover := leftover + data;
        break;
      }
      ConsumeStep(all, out, data, shown, rest);
      out := out + shown;
      data := rest;
    }
    ConsumeDone(all, out, data);
  }

  lemma ReadStep(result: bytes, leftover: bytes, chunks: seq<bytes>, i: nat)
    requires i < |chunks|
    ensures var d := Decode(leftover + chunks[i]);
            (result + d.out) + Literal(Carried(d.rest), chunks[i + 1..]) == result + Literal(leftover, chunks[i..])
  {
    assert chunks[i..][0] == chunks[i] && chunks[i..][1..] == chunks[i + 1..];
    var d := Decode(leftover + chunks[i]);
    Assoc(result, d.out, Literal(Carried(d.rest), chunks[i + 1..]));
  }

  lemma ReadEnds(result: bytes, chunks: seq<bytes>)
    ensures [] + result == result && result + [] == result
    ensures chunks[0..] == chunks && chunks[|chunks|..] == []
  {
  }

  /** `readDemuxed` as written.  The reader delivers `chunks` one after the other, possibly empty,
      the last one together with its error or end of stream. */
  method ReadDemuxed(chunks: seq<bytes>) returns (result: bytes)
    ensures result == Literal([], chunks)
  {
    result := [];
    var leftover: bytes := [];
    ghost var all := Literal([], chunks);
    ReadEnds(all, chunks);
    for i := 0 to |chunks|
      invariant result + Literal(leftover, chunks[i..]) == all
    {
      ReadStep(result, leftover, chunks, i);
      var data := leftover;
      data := data + chunks[i];
      var out;
      out, data, leftover := ConsumeFrames(data);
      result := result + out;
      if |data| > 0 {
        leftover := leftover + data;
      }
      ConsumeEnds(data, data);
    }
    ReadEnds(result, chunks);
  }

  /** The same loop keeping the unfinished frame once. */
  method ReadDemuxedOnce(chunks: seq<bytes>) returns (result: bytes)
    ensures result == Decode(Concat(chunks)).out
  {
    result := [];
    var leftover: bytes := [];
    for i := 0 to |chunks|
      invariant result + Intended(leftover, chunks[i..]) == Intended([], chunks)
    {
      assert chunks[i..][0] == chunks[i] && chunks[i..][1..] == chunks[i + 1..];
      var out, data, partial := ConsumeFrames(leftover + chunks[i]);
      leftover := data;
      Assoc(result, out, Intended(leftover, chunks[i + 1..]));
      result := result + out;
    }
    IntendedDecodes([], chunks);
    assert [] + Concat(chunks) == Concat(chunks);
  }

  // ---------------------------------------------------------------- read boundaries

  /** Appending bytes changes neither a header nor a whole frame. */
  lemma AppendAfter(a: bytes, b: bytes)
    requires |a| >= 8
    ensures FrameSize(a + b) == FrameSize(a) && (a + b)[0] == a[0]
    ensures HasFrame(a) ==>
              var end := 8 + FrameSize(a);
              HasFrame(a + b) && (a + b)[8..end] == a[8..end] && (a + b)[end..] == a[end..] + b
  {
  }

  /** Bytes already decoded need not be looked at again. */
  lemma {:induction false} DecodeAppend(a: bytes, b: bytes)
    ensures var d := Decode(a); var e := Decode(d.rest + b);
            Decode(a + b) == Decoded(d.out + e.out, e.rest)
    decreases |a|
  {
    if HasFrame(a) {
      var end := 8 + FrameSize(a);
      AppendAfter(a, b);
      DecodeAppend(a[end..], b);
      Assoc(Shown(a[0], a[8..end]), Decode(a[end..]).out, Decode(Decode(a).rest + b).out);
    }
  }

  /** Keeping the remainder once, the output depends only on the bytes, not on how they were cut
      into reads. */
  lemma {:induction false} IntendedDecodes(leftover: bytes, chunks: seq<bytes>)
    requires !HasFrame(leftover)
    ensures Intended(leftover, chunks) == Decode(leftover + Concat(chunks)).out
    decreases |chunks|
  {
    if chunks == [] {
      assert leftover + Concat(chunks) == leftover;
    } else {
      var d := Decode(leftover + chunks[0]);
      DecodeStops(leftover + chunks[0]);
      IntendedDecodes(d.rest, chunks[1..]);
      Assoc(leftover, chunks[0], Concat(chunks[1..]));
      DecodeAppend(leftover + chunks[0], Concat(chunks[1..]));
    }
  }

  lemma HeaderRoundTrip(n: nat)
    requires n < 0x1_0000_0000
    ensures var h := SizeBytes(n);
            n == h[0] as int * 0x100_0000 + h[1] as int * 0x1_0000 + h[2] as int * 256 + h[3] as int
  {
    var a, b := n / 256, n / 0x1_0000;
    assert n == 256 * a + n % 256 && a == 256 * (a / 256) + a % 256 && b == 256 * (b / 256) + b % 256;
    assert a / 256 == b && b / 256 == n / 0x100_0000;
  }

  lemma EncodedFrame(f: Frame, rest: bytes)
    requires ValidFrame(f)
    ensures var data := Encode(f) + rest;
            && |Encode(f)| == 8 + |f.payload| && HasFrame(data) && FrameSize(data) == |f.payload|
            && data[0] == f.kind && data[8..8 + |f.payload|] == f.payload && data[8 + |f.payload|..] == rest
  {
    HeaderRoundTrip(|f.payload|);
    var data := Encode(f) + rest;
    assert data[4..8] == SizeBytes(|f.payload|);
    assert forall k :: 0 <= k < 4 ==> data[4 + k] == data[4..8][k];
  }

  lemma DecodeFirst(f: Frame, rest: bytes)
    requires ValidFrame(f)
    ensures Decode(Encode(f) + rest) == Decoded(Shown(f.kind, f.payload) + Decode(rest).out, Decode(rest).rest)
  {
    EncodedFrame(f, rest);
  }

  /** Decoding a complete sequence of frames yields the shown payloads and leaves nothing. */
  lemma {:induction false} DecodeFrames(fs: seq<Frame>)
    requires ValidFrames(fs)
    ensures Decode(EncodeAll(fs)) == Decoded(Payloads(fs), [])
  {
    if fs != [] {
      DecodeFrames(fs[1..]);
      DecodeFirst(fs[0], EncodeAll(fs[1..]));
    }
  }

  /** Main result for the corrected loop: any frames, any cutting into reads. */
  lemma {:induction false} BoundaryIndependence(fs: seq<Frame>, chunks: seq<bytes>)
    requires ValidFrames(fs) && Concat(chunks) == EncodeAll(fs)
    ensures Intended([], chunks) == Payloads(fs)
  {
    IntendedDecodes([], chunks);
    assert [] + Concat(chunks) == Concat(chunks);
    DecodeFrames(fs);
  }

  lemma EncodedLength(f: Frame)
    requires ValidFrame(f)
    ensures |Encode(f)| == 8 + |f.payload|
  {
  }

  /** Less than a whole frame decodes to nothing. */
  lemma PartialFrame(f: Frame, more: bytes, d: bytes, tail: bytes)
    requires ValidFrame(f) && d + tail == Encode(f) + more && |d| < 8 + |f.payload|
    ensures Decode(d) == Decoded([], d)
    ensures |d| >= 8 ==> FrameSize(d) == |f.payload| && d[0] == f.kind
  {
    EncodedFrame(f, more);
    if |d| >= 8 {
      AppendAfter(d, tail);
    }
  }

  // ---------------------------------------------------------------- the one-shot decoder

  /** The loop of `stripStreamHeaders`: a payload cut short is taken as far as it goes. */
  function StripFrames(data: bytes): Decoded
    decreases |data|
  {
    if |data| < 8 then Decoded([], data)
    else
      var body := data[8..];
      var n := if FrameSize(data) > |body| then |body| else FrameSize(data);
      var next := StripFrames(body[n..]);
      Decoded(Shown(data[0], body[..n]) + next.out, next.rest)
  }

  function Stripped(data: bytes): bytes {
    var r := StripFrames(data);
    if |r.rest| > 0 && |r.out| == 0 then r.rest else r.out
  }

  lemma StripStep(result: bytes, data: bytes)
    requires |data| >= 8
    ensures var body := data[8..];
            var n := if FrameSize(data) > |body| then |body| else FrameSize(data);
            && (result + Shown(data[0], body[..n])) + StripFrames(body[n..]).out == result + StripFrames(data).out
            && StripFrames(body[n..]).rest == StripFrames(data).rest
  {
    var body := data[8..];
    var n := if FrameSize(data) > |body| then |body| else FrameSize(data);
    Assoc(result, Shown(data[0], body[..n]), StripFrames(body[n..]).out);
  }

  /** `stripStreamHeaders`. */
  method StripStreamHeaders(input: bytes) returns (result: bytes)
    ensures result == Stripped(input)
  {
    var data := input;
    result := [];
    while |data| >= 8
      invariant result + StripFrames(data).out == StripFrames(input).out
      invariant StripFrames(data).rest == StripFrames(input).rest
      decreases |data|
    {
      StripStep(result, data);
      var streamType := data[0];
      var frameSize := FrameSize(data);
      data := data[8..];
      if frameSize > |data| {
        frameSize := |data|;
      }
      result := result + (if streamType == 1 || streamType == 2 then data[..frameSize] else []);
      data := data[frameSize..];
    }
    if |data| > 0 && |result| == 0 {
      result := data;
    }
  }

  /** The two decoders on every input: they agree on the whole frames; the one-shot decoder adds
      what there is of a payload cut short, and returns the raw tail only when a header is cut
      short and nothing was decoded. */
  lemma {:induction false} StripVersusDecode(data: bytes)
    ensures var d := Decode(data);
            StripFrames(data) == if |d.rest| >= 8 then Decoded(d.out + Shown(d.rest[0], d.rest[8..]), []) else d
    ensures var d := Decode(data);
            Stripped(data) == if |d.rest| >= 8 then d.out + Shown(d.rest[0], d.rest[8..])
                              else if d.out == [] then d.rest else d.out
    decreases |data|
  {
    if HasFrame(data) {
      var end := 8 + FrameSize(data);
      StripWhole(data);
      StripVersusDecode(data[end..]);
      var r := Decode(data[end..]);
      if |r.rest| >= 8 {
        Assoc(Shown(data[0], data[8..end]), r.out, Shown(r.rest[0], r.rest[8..]));
      }
    } else if |data| >= 8 {
      StripPartial(data);
    }
  }

  lemma StripWhole(data: bytes)
    requires HasFrame(data)
    ensures var end := 8 + FrameSize(data);
            var next := StripFrames(data[end..]);
            StripFrames(data) == Decoded(Shown(data[0], data[8..end]) + next.out, next.rest)
  {
    var end := 8 + FrameSize(data);
    assert data[8..][..end - 8] == data[8..end] && data[8..][end - 8..] == data[end..];
  }

  lemma StripPartial(data: bytes)
    requires |data| >= 8 && !HasFrame(data)
    ensures StripFrames(data) == Decoded(Shown(data[0], data[8..]), [])
  {
    var body := data[8..];
    assert body[..|body|] == body && body[|body|..] == [];
    assert Shown(data[0], body) + [] == Shown(data[0], body);
  }

  /** On complete frame sequences the decoders agree. */
  lemma {:induction false} StripComplete(fs: seq<Frame>)
    requires ValidFrames(fs)
    ensures Stripped(EncodeAll(fs)) == Payloads(fs) == Decode(EncodeAll(fs)).out
  {
    DecodeFrames(fs);
    StripVersusDecode(EncodeAll(fs));
  }

  /** On a final frame cut `n` bytes in: past the header the available payload is added; inside the
      header the difference is the raw tail, returned only when nothing was shown. */
  lemma {:induction false} StripCut(fs: seq<Frame>, f: Frame, n: nat)
    requires ValidFrames(fs) && ValidFrame(f) && n < 8 + |f.payload|
    ensures var data := EncodeAll(fs) + Encode(f)[..n];
            && Decode(data).out == Payloads(fs)
            && (n >= 8 ==> Stripped(data) == Payloads(fs) + Shown(f.kind, f.payload[..n - 8]))
            && (n < 8 ==> Stripped(data) == if Payloads(fs) == [] then Encode(f)[..n] else Payloads(fs))
  {
    var cut := Encode(f)[..n];
    DecodeFrames(fs);
    DecodeAppend(EncodeAll(fs), cut);
    assert [] + cut == cut && Payloads(fs) + [] == Payloads(fs);
    CutFrame(f, n);
    StripVersusDecode(EncodeAll(fs) + cut);
  }

  lemma {:induction false} CutFrame(f: Frame, n: nat)
    requires ValidFrame(f) && n < 8 + |f.payload|
    ensures var cut := Encode(f)[..n];
            && |cut| == n && Decode(cut) == Decoded([], cut)
            && (n >= 8 ==> cut[0] == f.kind && cut[8..] == f.payload[..n - 8])
  {
    var cut := Encode(f)[..n];
    assert Encode(f)[8..] == f.payload && cut + Encode(f)[n..] == Encode(f) + [];
    PartialFrame(f, [], cut, Encode(f)[n..]);
  }
}
