/** When `readDemuxed` as written is right (daemon/main.go:1722-1753).

    A read that ends inside a payload makes the loop keep the unfinished frame twice.  The results
    below say exactly when that spoils the output. */
module DemuxLiteral {
  import opened Prelude
  import opened Demux

  /** How far the first `n` bytes of a frame sequence reach into an unfinished frame. */
  function Unfinished(fs: seq<Frame>, n: nat): (r: nat)
    ensures r <= n
  {
    if fs == [] then 0
    else if n < 8 + |fs[0].payload| then n
    else Unfinished(fs[1..], n - 8 - |fs[0].payload|)
  }

  /** The number of frames complete within the first `n` bytes. */
  function Whole(fs: seq<Frame>, n: nat): (j: nat)
    ensures j <= |fs| && (Unfinished(fs, n) > 0 ==> j < |fs|)
  {
    if fs == [] || n < 8 + |fs[0].payload| then 0
    else 1 + Whole(fs[1..], n - 8 - |fs[0].payload|)
  }

  /** The type of the frame that a read ending after `n` bytes cuts 8 or more bytes in. */
  function CutAt(fs: seq<Frame>, n: nat): Option<byte> {
    if Unfinished(fs, n) >= 8 then Some(fs[Whole(fs, n)].kind) else None
  }

  /** The type of the frame in which, from byte `start` on, a read first ends 8 or more bytes in
      without finishing it; `None` if no read does. */
  function FirstCut(fs: seq<Frame>, start: nat, chunks: seq<bytes>): Option<byte>
    decreases |chunks|
  {
    if CutAt(fs, start).Some? then CutAt(fs, start)
    else if chunks == [] then None
    else FirstCut(fs, start + |chunks[0]|, chunks[1..])
  }

  /** From byte `start` on, no read ends 8 or more bytes into an unfinished frame. */
  predicate SafeCuts(fs: seq<Frame>, start: nat, chunks: seq<bytes>) {
    FirstCut(fs, start, chunks).None?
  }

  /** Where a prefix ends can be measured from the frame it ends in. */
  lemma {:induction false} UnfinishedAfter(fs: seq<Frame>, n: nat, m: nat)
    ensures var later := fs[Whole(fs, n)..];
            && Unfinished(fs, n + m) == Unfinished(later, Unfinished(fs, n) + m)
            && Whole(fs, n + m) == Whole(fs, n) + Whole(later, Unfinished(fs, n) + m)
    decreases |fs|
  {
    if fs != [] {
      var size := 8 + |fs[0].payload|;
      if n >= size {
        UnfinishedAfter(fs[1..], n - size, m);
        assert fs[1..][Whole(fs, n) - 1..] == fs[Whole(fs, n)..];
      } else {
        assert fs[0..] == fs;
      }
    }
  }

  /** A prefix of a frame sequence: the bytes `d`, of which the last `part` are the start of
      frame `j`, all frames before it being whole. */
  ghost predicate PrefixOf(fs: seq<Frame>, d: bytes, tail: bytes, j: nat, part: bytes)
    requires ValidFrames(fs)
  {
    && j <= |fs|
    && part + tail == EncodeAll(fs[j..])
    && (j < |fs| ==> |part| < 8 + |fs[j].payload|)
    && (j == |fs| ==> part == [])
    && Decode(d).rest == part
    && Decode(d).out + Payloads(fs[j..]) == Payloads(fs)
  }

  lemma PrefixStep(fs: seq<Frame>, rest: bytes, tail: bytes, j: nat, part: bytes)
    requires fs != [] && ValidFrames(fs) && PrefixOf(fs[1..], rest, tail, j, part)
    ensures PrefixOf(fs, Encode(fs[0]) + rest, tail, j + 1, part)
  {
    var f := fs[0];
    DecodeFirst(f, rest);
    assert fs[1..][j..] == fs[j + 1..];
    Assoc(Shown(f.kind, f.payload), Decode(rest).out, Payloads(fs[j + 1..]));
  }

  lemma PrefixStart(fs: seq<Frame>, d: bytes, tail: bytes)
    requires fs != [] && ValidFrames(fs) && d + tail == EncodeAll(fs) && |d| < 8 + |fs[0].payload|
    ensures PrefixOf(fs, d, tail, 0, d)
  {
    PartialFrame(fs[0], EncodeAll(fs[1..]), d, tail);
    assert fs[0..] == fs;
    assert [] + Payloads(fs) == Payloads(fs);
  }

  /** Decoding a prefix of a frame sequence: the whole frames are shown, and what is left is
      the start of the next one. */
  lemma {:induction false} DecodePrefix(fs: seq<Frame>, d: bytes, tail: bytes)
    requires ValidFrames(fs) && d + tail == EncodeAll(fs)
    ensures |Decode(d).rest| == Unfinished(fs, |d|)
    ensures PrefixOf(fs, d, tail, Whole(fs, |d|), Decode(d).rest)
    decreases |fs|
  {
    if fs == [] {
      assert d == [];
    } else {
      EncodedLength(fs[0]);
      if |d| < 8 + |fs[0].payload| {
        PrefixStart(fs, d, tail);
      } else {
        var rest := d[8 + |fs[0].payload|..];
        PrefixSplit(Encode(fs[0]), EncodeAll(fs[1..]), d, tail);
        DecodePrefix(fs[1..], rest, tail);
        PrefixStep(fs, rest, tail, Whole(fs[1..], |rest|), Decode(rest).rest);
      }
    }
  }

  lemma PrefixSplit(a: bytes, b: bytes, d: bytes, tail: bytes)
    requires a + b == d + tail && |a| <= |d|
    ensures d == a + d[|a|..] && d[|a|..] + tail == b
  {
    assert (a + b)[..|a|] == a && (d + tail)[..|a|] == d[..|a|];
    assert (a + b)[|a|..] == b && (d + tail)[|a|..] == d[|a|..] + tail;
  }

  lemma CutAtAfter(fs: seq<Frame>, n: nat, later: seq<Frame>, u: nat, m: nat)
    requires later == fs[Whole(fs, n)..] && u == Unfinished(fs, n)
    ensures CutAt(fs, n + m) == CutAt(later, u + m)
  {
    UnfinishedAfter(fs, n, m);
  }

  /** Cuts can be measured from the frame they start in. */
  lemma {:induction false} CutsAfter(fs: seq<Frame>, n: nat, later: seq<Frame>, u: nat, m: nat, chunks: seq<bytes>)
    requires later == fs[Whole(fs, n)..] && u == Unfinished(fs, n)
    ensures FirstCut(fs, n + m, chunks) == FirstCut(later, u + m, chunks)
    decreases |chunks|
  {
    CutAtAfter(fs, n, later, u, m);
    if chunks != [] {
      CutsAfter(fs, n, later, u, m + |chunks[0]|, chunks[1..]);
    }
  }

  /** What a read that completes the bytes `d` leaves: the frames `gs`, and in `r.rest` the start of
      the first of them; all frames before are decoded into `r.out`. */
  ghost predicate Leaves(fs: seq<Frame>, d: bytes, tail: bytes, gs: seq<Frame>, r: Decoded)
    requires ValidFrames(fs)
  {
    && r == Decode(d) && ValidFrames(gs)
    && r.rest + tail == EncodeAll(gs) && r.out + Payloads(gs) == Payloads(fs)
    && |r.rest| == Unfinished(fs, |d|)
    && (if gs == [] then r.rest == [] else |r.rest| < 8 + |gs[0].payload|)
  }

  lemma PrefixLeaves(fs: seq<Frame>, d: bytes, tail: bytes, gs: seq<Frame>, r: Decoded)
    requires ValidFrames(fs) && d + tail == EncodeAll(fs) && gs == fs[Whole(fs, |d|)..] && r == Decode(d)
    ensures Leaves(fs, d, tail, gs, r)
  {
    DecodePrefix(fs, d, tail);
  }

  /** One read of a run over a frame sequence, seen from the start of the frame it begins in. */
  lemma OneRead(fs: seq<Frame>, d: bytes, tail: bytes, later: seq<bytes>) returns (gs: seq<Frame>, r: Decoded)
    requires ValidFrames(fs) && d + tail == EncodeAll(fs)
    ensures Leaves(fs, d, tail, gs, r) && FirstCut(fs, |d|, later) == FirstCut(gs, |r.rest|, later)
  {
    gs, r := fs[Whole(fs, |d|)..], Decode(d);
    PrefixLeaves(fs, d, tail, gs, r);
    CutsAfter(fs, |d|, gs, |r.rest|, 0, later);
  }

  lemma LiteralRead(l: bytes, c: bytes, later: seq<bytes>)
    ensures var r := Decode(l + c); Literal(l, [c] + later) == r.out + Literal(Carried(r.rest), later)
  {
    assert ([c] + later)[1..] == later;
  }

  lemma SafeHead(fs: seq<Frame>, n: nat, c: bytes, later: seq<bytes>)
    requires SafeCuts(fs, n, [c] + later)
    ensures SafeCuts(fs, n + |c|, later) && Unfinished(fs, n + |c|) < 8
  {
    assert ([c] + later)[1..] == later;
    assert FirstCut(fs, n + |c|, later).None?;
  }

  lemma ConcatHead(l: bytes, c: bytes, later: seq<bytes>)
    ensures l + Concat([c] + later) == (l + c) + Concat(later)
  {
    assert ([c] + later)[1..] == later;
    Assoc(l, c, Concat(later));
  }

  /** With safe cuts the loop as written is right. */
  lemma {:induction false} SafeLiteral(fs: seq<Frame>, l: bytes, chunks: seq<bytes>)
    requires ValidFrames(fs) && l + Concat(chunks) == EncodeAll(fs) && |l| < 8 && SafeCuts(fs, |l|, chunks)
    ensures Literal(l, chunks) == Payloads(fs)
    decreases |chunks|, 0
  {
    if chunks == [] {
      assert l + [] == l;
      ShortMeansEmpty(fs);
    } else {
      var c, later := chunks[0], chunks[1..];
      assert chunks == [c] + later;
      SafeRead(fs, l, c, later);
    }
  }

  lemma {:induction false} SafeRead(fs: seq<Frame>, l: bytes, c: bytes, later: seq<bytes>)
    requires ValidFrames(fs) && l + Concat([c] + later) == EncodeAll(fs) && SafeCuts(fs, |l|, [c] + later)
    ensures Literal(l, [c] + later) == Payloads(fs)
    decreases |later|, 1
  {
    ConcatHead(l, c, later);
    SafeHead(fs, |l|, c, later);
    LiteralRead(l, c, later);
    var gs, r := OneRead(fs, l + c, Concat(later), later);
    SafeLiteral(gs, r.rest, later);
  }

  lemma ShortMeansEmpty(fs: seq<Frame>)
    requires ValidFrames(fs)
    ensures |EncodeAll(fs)| < 8 ==> fs == []
  {
    if fs != [] {
      EncodedLength(fs[0]);
    }
  }

  /** Once an unfinished frame has been doubled, the byte that follows its first `p` payload
      bytes in the output is the stream type of the repeated header. */
  lemma {:induction false} DoubledOutput(l: bytes, chunks: seq<bytes>, p: nat)
    requires |l| > 8 + p && (l[0] == 1 || l[0] == 2) && l[8 + p] == l[0]
    requires p < FrameSize(l) && chunks != [] && |l| + |Concat(chunks)| >= 8 + FrameSize(l)
    ensures |Literal(l, chunks)| > p && Literal(l, chunks)[p] == l[0]
    decreases |chunks|
  {
    var d := l + chunks[0];
    AppendAfter(l, chunks[0]);
    if HasFrame(d) {
      FirstPayload(d, p);
    } else {
      AppendAfter(d, d);
      DoubledOutput(d + d, chunks[1..], p);
      ConsumeEnds(Literal(d + d, chunks[1..]), d);
    }
  }

  lemma FirstPayload(d: bytes, p: nat)
    requires HasFrame(d) && (d[0] == 1 || d[0] == 2) && p < FrameSize(d)
    ensures |Decode(d).out| > p && Decode(d).out[p] == d[8 + p]
  {
    assert d[8..8 + FrameSize(d)][p] == d[8 + p];
  }

  /** The stream types that are shown. */
  predicate Visible(kind: byte) {
    kind == 1 || kind == 2
  }

  /** A byte of the output is a stream type. */
  ghost predicate HasHeader(out: bytes) {
    exists p :: 0 <= p < |out| && Visible(out[p])
  }

  /** A doubled unfinished frame puts a header into the output. */
  lemma DoubledFrame(fs: seq<Frame>, rest: bytes, chunks: seq<bytes>)
    requires ValidFrames(fs) && fs != [] && Visible(fs[0].kind)
    requires rest + Concat(chunks) == EncodeAll(fs) && 8 <= |rest| < 8 + |fs[0].payload|
    ensures HasHeader(Literal(rest + rest, chunks))
  {
    var f, p := fs[0], |rest| - 8;
    EncodedFrame(f, EncodeAll(fs[1..]));
    PartialFrame(f, EncodeAll(fs[1..]), rest, Concat(chunks));
    AppendAfter(rest, rest);
    DoubledOutput(rest + rest, chunks, p);
  }

  /** A first unsafe cut in a frame that is shown puts a header into the output of the loop as written. */
  lemma {:induction false} UnsafeLiteral(fs: seq<Frame>, l: bytes, chunks: seq<bytes>)
    requires ValidFrames(fs) && l + Concat(chunks) == EncodeAll(fs) && Unfinished(fs, |l|) < 8
    requires FirstCut(fs, |l|, chunks).Some? && Visible(FirstCut(fs, |l|, chunks).value)
    ensures HasHeader(Literal(l, chunks))
    decreases |chunks|
  {
    var c, later := chunks[0], chunks[1..];
    Assoc(l, c, Concat(later));
    var gs, r := OneRead(fs, l + c, Concat(later), later);
    if |r.rest| < 8 {
      UnsafeLiteral(gs, r.rest, later);
    } else {
      FirstFrameCut(gs, |r.rest|, later);
      DoubledFrame(gs, r.rest, later);
    }
    HeaderAfter(r.out, Literal(Carried(r.rest), later));
  }

  lemma FirstFrameCut(fs: seq<Frame>, n: nat, chunks: seq<bytes>)
    requires fs != [] && 8 <= n < 8 + |fs[0].payload|
    ensures FirstCut(fs, n, chunks) == Some(fs[0].kind)
  {
  }

  lemma HeaderAfter(a: bytes, b: bytes)
    requires HasHeader(b)
    ensures HasHeader(a + b)
  {
    var p :| 0 <= p < |b| && Visible(b[p]);
    assert (a + b)[|a| + p] == b[p];
  }

  /** The first unsafe cut, if there is one, lies in a frame that is shown.  It does on every
      stream that holds stdout and stderr frames only. */
  predicate ShownCut(fs: seq<Frame>, chunks: seq<bytes>) {
    SafeCuts(fs, 0, chunks) || Visible(FirstCut(fs, 0, chunks).value)
  }

  lemma {:induction false} OutputCut(fs: seq<Frame>, start: nat, chunks: seq<bytes>)
    requires forall i :: 0 <= i < |fs| ==> Visible(fs[i].kind)
    ensures SafeCuts(fs, start, chunks) || Visible(FirstCut(fs, start, chunks).value)
    decreases |chunks|
  {
    if Unfinished(fs, start) < 8 && chunks != [] {
      OutputCut(fs, start + |chunks[0]|, chunks[1..]);
    }
  }

  /** With a first unsafe cut in a frame that is shown, the output holds a header. */
  lemma {:induction false} UnsafeReads(fs: seq<Frame>, chunks: seq<bytes>)
    requires ValidFrames(fs) && Concat(chunks) == EncodeAll(fs)
    requires ShownCut(fs, chunks) && !SafeCuts(fs, 0, chunks)
    ensures HasHeader(Literal([], chunks))
  {
    assert [] + Concat(chunks) == Concat(chunks);
    UnsafeLiteral(fs, [], chunks);
  }

  /** The exact condition for one stream: when the payloads hold no byte 1 or 2, as text does, the
      loop as written is right if and only if no read ends 8 or more bytes into an unfinished frame. */
  lemma {:induction false} LiteralExact(fs: seq<Frame>, chunks: seq<bytes>)
    requires ValidFrames(fs) && Concat(chunks) == EncodeAll(fs) && ShownCut(fs, chunks)
    requires !HasHeader(Payloads(fs))
    ensures Literal([], chunks) == Payloads(fs) <==> SafeCuts(fs, 0, chunks)
  {
    if SafeCuts(fs, 0, chunks) {
      SafeReads(fs, chunks);
    } else {
      UnsafeReads(fs, chunks);
    }
  }

  /** On every stream that holds stdout and stderr frames only, as those of commands do. */
  lemma {:induction false} OutputExact(fs: seq<Frame>, chunks: seq<bytes>)
    requires ValidFrames(fs) && Concat(chunks) == EncodeAll(fs)
    requires (forall i :: 0 <= i < |fs| ==> Visible(fs[i].kind)) && !HasHeader(Payloads(fs))
    ensures Literal([], chunks) == Payloads(fs) <==> SafeCuts(fs, 0, chunks)
  {
    OutputCut(fs, 0, chunks);
    LiteralExact(fs, chunks);
  }

  /** The same frames with every payload byte zero. */
  function Zeroed(fs: seq<Frame>): seq<Frame> {
    seq(|fs|, i requires 0 <= i < |fs| => Frame(fs[i].kind, seq(|fs[i].payload|, _ => 0)))
  }

  lemma {:induction false} ZeroPayloads(fs: seq<Frame>)
    requires forall i :: 0 <= i < |fs| ==> forall k :: 0 <= k < |fs[i].payload| ==> fs[i].payload[k] == 0
    ensures !HasHeader(Payloads(fs))
  {
    if fs != [] {
      ZeroPayloads(fs[1..]);
      assert forall k :: 0 <= k < |Payloads(fs[1..])| ==> !Visible(Payloads(fs[1..])[k]);
    }
  }

  /** Frames of the same types and sizes, cut at the same places. */
  predicate SameShape(fs: seq<Frame>, chunks: seq<bytes>, gs: seq<Frame>, cuts: seq<bytes>) {
    && |fs| == |gs| && |chunks| == |cuts|
    && (forall i :: 0 <= i < |fs| ==> fs[i].kind == gs[i].kind && |fs[i].payload| == |gs[i].payload|)
    && (forall i :: 0 <= i < |chunks| ==> |chunks[i]| == |cuts[i]|)
  }

  lemma {:induction false} SameUnfinished(fs: seq<Frame>, gs: seq<Frame>, n: nat)
    requires |fs| == |gs| && forall i :: 0 <= i < |fs| ==> |fs[i].payload| == |gs[i].payload|
    ensures Unfinished(fs, n) == Unfinished(gs, n) && Whole(fs, n) == Whole(gs, n)
  {
    if fs != [] && n >= 8 + |fs[0].payload| {
      SameUnfinished(fs[1..], gs[1..], n - 8 - |fs[0].payload|);
    }
  }

  lemma {:induction false} SameCuts(fs: seq<Frame>, gs: seq<Frame>, start: nat, chunks: seq<bytes>, cuts: seq<bytes>)
    requires SameShape(fs, chunks, gs, cuts)
    ensures FirstCut(fs, start, chunks) == FirstCut(gs, start, cuts)
    decreases |chunks|
  {
    SameUnfinished(fs, gs, start);
    if chunks != [] {
      SameCuts(fs, gs, start + |chunks[0]|, chunks[1..], cuts[1..]);
    }
  }

  /** Cut `data` into pieces as long as those of `chunks`. */
  function Recut(data: bytes, chunks: seq<bytes>): (r: seq<bytes>)
    requires |data| == |Concat(chunks)|
    ensures Concat(r) == data && |r| == |chunks|
    ensures forall i :: 0 <= i < |r| ==> |r[i]| == |chunks[i]|
    decreases |chunks|
  {
    if chunks == [] then [] else [data[..|chunks[0]|]] + Recut(data[|chunks[0]|..], chunks[1..])
  }

  lemma {:induction false} SameEncodedLength(fs: seq<Frame>, gs: seq<Frame>)
    requires ValidFrames(fs) && ValidFrames(gs)
    requires |fs| == |gs| && forall i :: 0 <= i < |fs| ==> |fs[i].payload| == |gs[i].payload|
    ensures |EncodeAll(fs)| == |EncodeAll(gs)|
  {
    if fs != [] {
      SameEncodedLength(fs[1..], gs[1..]);
    }
  }

  /** The exact condition over contents: the loop as written is right for every filling of the
      payloads if and only if no read ends 8 or more bytes into an unfinished frame. */
  lemma {:induction false} LiteralIff(fs: seq<Frame>, chunks: seq<bytes>)
    requires ValidFrames(fs) && Concat(chunks) == EncodeAll(fs) && ShownCut(fs, chunks)
    ensures SafeCuts(fs, 0, chunks)
       <==> forall gs, cuts | SameShape(fs, chunks, gs, cuts) && ValidFrames(gs) && Concat(cuts) == EncodeAll(gs) ::
              Literal([], cuts) == Payloads(gs)
  {
    if SafeCuts(fs, 0, chunks) {
      forall gs, cuts | SameShape(fs, chunks, gs, cuts) && ValidFrames(gs) && Concat(cuts) == EncodeAll(gs)
        ensures Literal([], cuts) == Payloads(gs)
      {
        SameCuts(fs, gs, 0, chunks, cuts);
        SafeReads(gs, cuts);
      }
    } else {
      var gs := Zeroed(fs);
      SameEncodedLength(fs, gs);
      var cuts := Recut(EncodeAll(gs), chunks);
      assert SameShape(fs, chunks, gs, cuts);
      SameCuts(fs, gs, 0, chunks, cuts);
      ZeroPayloads(gs);
      LiteralExact(gs, cuts);
    }
  }

  /** Whatever the stream types, safe cuts make the loop as written agree with the corrected one. */
  lemma {:induction false} SafeReads(fs: seq<Frame>, chunks: seq<bytes>)
    requires ValidFrames(fs) && Concat(chunks) == EncodeAll(fs) && SafeCuts(fs, 0, chunks)
    ensures Literal([], chunks) == Payloads(fs)
  {
    assert [] + Concat(chunks) == Concat(chunks);
    SafeLiteral(fs, [], chunks);
  }

  lemma LastRead(l: bytes, c: bytes)
    ensures Literal(l, [c]) == Decode(l + c).out && Concat([c]) == c
  {
    assert [c][1..] == [];
    ConsumeEnds(Decode(l + c).out, l);
    ConsumeEnds(c, l);
  }

  /** Two reads, the first of them a header alone: the header is decoded twice. */
  lemma TwoReads(h: bytes, c: bytes)
    requires |h| == 8 && FrameSize(h) > 0
    ensures Literal([], [h, c]) == Decode(h + h + c).out && Concat([h, c]) == h + c
  {
    LastRead(h + h, c);
    assert [h, c][1..] == [c];
    ConsumeEnds(h, h);
    ConsumeEnds(Literal(h + h, [c]), h);
  }

  lemma TakenFrame(d: bytes, rest: bytes)
    requires HasFrame(d) && d[8 + FrameSize(d)..] == rest
    ensures Decode(d).out == Shown(d[0], d[8..8 + FrameSize(d)]) + Decode(rest).out
  {
  }

  lemma OneFrame(f: Frame)
    requires ValidFrame(f)
    ensures EncodeAll([f]) == Encode(f) && Payloads([f]) == Shown(f.kind, f.payload)
  {
    assert [f][1..] == [];
    ConsumeEnds(Encode(f), []);
    ConsumeEnds(Shown(f.kind, f.payload), []);
  }

  lemma CutAtHeader(f: Frame, more: seq<Frame>, h: bytes, c: bytes)
    requires |h| == 8 && f.payload != []
    ensures FirstCut([f] + more, 0, [h, c]) == Some(f.kind)
  {
    FirstFrameCut([f] + more, 8, [h, c][1..]);
  }

  function OneByteHeader(kind: byte): bytes {
    [kind, 0, 0, 0, 0, 0, 0, 1]
  }

  /** A concrete failure: a frame of one byte, read as its header and then that byte, shows its
      own stream type in place of the byte. */
  lemma LiteralFails(kind: byte, v: byte)
    ensures var fs, chunks := [Frame(kind, [v])], [OneByteHeader(kind), [v]];
            && Concat(chunks) == EncodeAll(fs) && FirstCut(fs, 0, chunks) == Some(kind)
            && Payloads(fs) == Shown(kind, [v]) && Literal([], chunks) == Shown(kind, [kind])
  {
    var f, h := Frame(kind, [v]), OneByteHeader(kind);
    TwoReads(h, [v]);
    OneFrame(f);
    assert Encode(f) == h + [v];
    HeaderTwice(kind, v);
    CutAtHeader(f, [], h, [v]);
    assert [f] + [] == [f];
  }

  lemma HeaderTwice(kind: byte, v: byte)
    ensures var h := OneByteHeader(kind); Decode(h + h + [v]).out == Shown(kind, [kind])
  {
    var h := OneByteHeader(kind);
    var d, rest: bytes := h + h + [v], [0, 0, 0, 0, 0, 0, 1, v];
    assert FrameSize(d) == 1 && FrameSize(rest) == 256 + v as int;
    assert d[9..] == rest && d[8..9] == [kind];
    TakenFrame(d, rest);
    ConsumeEnds(Shown(kind, [kind]), rest);
  }

  // ---------------------------------------------------------------- long frames

  const BUFFER := 8192

  /** Where frame `i` starts in the stream. */
  function Start(fs: seq<Frame>, i: nat): nat
    requires i <= |fs|
  {
    if i == 0 then 0 else 8 + |fs[0].payload| + Start(fs[1..], i - 1)
  }

  lemma {:induction false} UnfinishedInside(fs: seq<Frame>, i: nat, n: nat)
    requires i < |fs| && Start(fs, i) <= n < Start(fs, i) + 8 + |fs[i].payload|
    ensures Unfinished(fs, n) == n - Start(fs, i)
  {
    if i > 0 {
      UnfinishedInside(fs[1..], i - 1, n - 8 - |fs[0].payload|);
    }
  }

  lemma {:induction false} StartWithin(fs: seq<Frame>, i: nat)
    requires i < |fs| && ValidFrames(fs)
    ensures Start(fs, i) + 8 + |fs[i].payload| <= |EncodeAll(fs)|
  {
    EncodedLength(fs[0]);
    if i > 0 {
      StartWithin(fs[1..], i - 1);
    }
  }

  lemma {:induction false} CutInside(fs: seq<Frame>, i: nat, start: nat, chunks: seq<bytes>)
    requires i < |fs| && |fs[i].payload| >= BUFFER
    requires start <= Start(fs, i) + 7 && start + |Concat(chunks)| >= Start(fs, i) + 8 + |fs[i].payload|
    requires forall k :: 0 <= k < |chunks| ==> |chunks[k]| <= BUFFER
    ensures !SafeCuts(fs, start, chunks)
    decreases |chunks|
  {
    var next := start + |chunks[0]|;
    if next <= Start(fs, i) + 7 {
      CutInside(fs, i, next, chunks[1..]);
    } else {
      UnfinishedInside(fs, i, next);
      assert FirstCut(fs, next, chunks[1..]).Some?;
    }
  }

  /** With the program's buffer of 8192 bytes no reads of a stream are safe once a payload is that long. */
  lemma {:induction false} LongFrameUnsafe(fs: seq<Frame>, chunks: seq<bytes>, i: nat)
    requires ValidFrames(fs) && Concat(chunks) == EncodeAll(fs)
    requires forall k :: 0 <= k < |chunks| ==> |chunks[k]| <= BUFFER
    requires i < |fs| && |fs[i].payload| >= BUFFER
    ensures !SafeCuts(fs, 0, chunks)
  {
    StartWithin(fs, i);
    CutInside(fs, i, 0, chunks);
  }

  // ---------------------------------------------------------------- frames that are not shown

  /** In a frame that is not shown an unsafe cut may do no harm: a frame of one byte of type 0,
      read as its header and then that byte, shows nothing either way. */
  lemma UnshownHarmless(v: byte)
    ensures var fs, chunks := [Frame(0, [v])], [OneByteHeader(0), [v]];
            && Concat(chunks) == EncodeAll(fs) && FirstCut(fs, 0, chunks) == Some(0)
            && Literal([], chunks) == [] == Payloads(fs)
  {
    LiteralFails(0, v);
  }

  /** Or it may: a payload that looks like a header makes the header of the next frame appear. */
  lemma UnshownHarmful(f: Frame, g: Frame, h: bytes, c: bytes)
    requires f.kind == 0 && g == Frame(2, []) && |f.payload| == 8 && f.payload[0] == 1 && FrameSize(f.payload) == 8
    requires h + f.payload == Encode(f) && |h| == 8 && c == f.payload + Encode(g)
    ensures Concat([h, c]) == EncodeAll([f] + [g]) && FirstCut([f] + [g], 0, [h, c]) == Some(0)
    ensures Payloads([f] + [g]) == [] && Literal([], [h, c]) == Encode(g)
  {
    EncodedFrame(f, []);
    assert Encode(f) + [] == h + f.payload;
    AppendAfter(h, f.payload);
    TwoReads(h, c);
    OneFrame(g);
    assert ([f] + [g])[1..] == [g];
    Assoc(h, f.payload, Encode(g));
    TwiceTaken(h, c);
    HeaderShown(f.payload, g, c);
    CutAtHeader(f, [g], h, c);
  }

  lemma TwiceTaken(h: bytes, c: bytes)
    requires |h| == 8 && h[0] == 0 && FrameSize(h) == 8
    ensures Decode(h + h + c).out == Decode(c).out
  {
    AppendAfter(h, h);
    AppendAfter(h + h, c);
    assert (h + h + c)[16..] == c;
    TakenFrame(h + h + c, c);
    ConsumeEnds(Decode(c).out, h);
  }

  lemma HeaderShown(payload: bytes, g: Frame, c: bytes)
    requires |payload| == 8 && payload[0] == 1 && FrameSize(payload) == 8
    requires ValidFrame(g) && g.payload == [] && c == payload + Encode(g)
    ensures Decode(c).out == Encode(g)
  {
    EncodedLength(g);
    AppendAfter(payload, Encode(g));
    assert c[16..] == [] && c[8..16] == Encode(g);
    TakenFrame(c, []);
    ConsumeEnds(Encode(g), []);
  }

  lemma UnshownHarmfulExists() returns (f: Frame, g: Frame, h: bytes, c: bytes)
    ensures f.kind == 0 && ValidFrames([f] + [g]) && Concat([h, c]) == EncodeAll([f] + [g])
    ensures FirstCut([f] + [g], 0, [h, c]) == Some(0) && Literal([], [h, c]) != Payloads([f] + [g])
  {
    f, g := Frame(0, [1, 0, 0, 0, 0, 0, 0, 8]), Frame(2, []);
    h, c := [0, 0, 0, 0, 0, 0, 0, 8], f.payload + Encode(g);
    EncodedLength(g);
    assert h + f.payload == Encode(f);
    UnshownHarmful(f, g, h, c);
  }
}
