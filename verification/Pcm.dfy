/**
 The microphone's PCM converter: a block resampler driven one frame at a time,
 with its start-up delay trimmed, its tail flushed, and 20 ms packets cut exactly.
 Samples are real numbers here; the resampler is any stateful transformation of
 fixed, proportional block sizes.
 */
module Pcm {
  import opened Common

  datatype AudioFormat = AudioFormat(sampleRate: nat, channels: nat) {
    predicate Valid() {
      && sampleRate in {8000, 16000, 22050, 24000, 32000, 44100, 48000, 96000, 192000}
      && channels in {1, 2, 4, 6, 8}
    }

    function PacketFrames(): nat {
      sampleRate / 50
    }

    function FrameBytes(): nat {
      channels * 2
    }

    /** A packet is a whole number of frames, and lasts exactly 20 ms. */
    function PacketBytes(): (n: nat)
      ensures n == PacketFrames() * FrameBytes()
      ensures Valid() ==> n > 0 && n * 50 == sampleRate * FrameBytes()
    {
      sampleRate / 50 * channels * 2
    }
  }

  type Frame = seq<real>

  // ----- Samples -----

  function Clamp(s: real): real {
    if s < -1.0 then -1.0 else if s > 1.0 then 1.0 else s
  }

  /** Round to the nearest integer, halves away from zero. */
  function Round(x: real): int {
    if x >= 0.0 then (x + 0.5).Floor else -((-x + 0.5).Floor)
  }

  function Quantise(s: real): (v: int)
    ensures -32767 <= v <= 32767
  {
    Round(Clamp(s) * 32767.0)
  }

  function LittleEndian(v: int): (b: seq<byte>)
    requires -32768 <= v < 32768
    ensures |b| == 2
  {
    var u := if v < 0 then v + 65536 else v;
    [(u % 256) as byte, (u / 256) as byte]
  }

  function FromLittleEndian(b: seq<byte>): int
    requires |b| == 2
  {
    var u := b[0] as int + 256 * b[1] as int;
    if u < 32768 then u else u - 65536
  }

  function SampleBytes(s: real): seq<byte> {
    LittleEndian(Quantise(s))
  }

  /** A sample in range survives to within half a quantisation step. */
  lemma SampleSurvives(s: real)
    ensures var v := FromLittleEndian(SampleBytes(s));
      && v == Quantise(s)
      && (-1.0 <= s <= 1.0 ==> -0.5 <= v as real - s * 32767.0 <= 0.5)
  {
  }

  /** Interleaved samples of one frame, channel after channel. */
  function Encode(f: Frame): seq<byte> {
    FlatMap(SampleBytes, f)
  }

  lemma {:induction false} EncodeLength(f: Frame)
    ensures |Encode(f)| == 2 * |f|
  {
    if f != [] {
      EncodeLength(f[1..]);
    }
  }

  /** The whole frames of an interleaved buffer; an incomplete last frame is dropped. */
  function Frames(samples: seq<real>, channels: nat): (fs: seq<Frame>)
    requires channels > 0
    ensures forall f :: f in fs ==> |f| == channels
    decreases |samples|
  {
    if |samples| < channels then [] else [samples[..channels]] + Frames(samples[channels..], channels)
  }

  predicate WholeFrames(samples: seq<real>, channels: nat)
    requires channels > 0
    decreases |samples|
  {
    samples == [] || (|samples| >= channels && WholeFrames(samples[channels..], channels))
  }

  /** Cutting an interleaved buffer between frames does not change its frames. */
  lemma {:induction false} FramesOfFragments(a: seq<real>, b: seq<real>, channels: nat)
    requires channels > 0 && WholeFrames(a, channels)
    ensures Frames(a + b, channels) == Frames(a, channels) + Frames(b, channels)
    decreases |a|
  {
    if a == [] {
      assert a + b == b;
    } else {
      var rest := a[channels..];
      assert (a + b)[channels..] == rest + b;
      assert (a + b)[..channels] == a[..channels];
      FramesOfFragments(rest, b, channels);
      Associative([a[..channels]], Frames(rest, channels), Frames(b, channels));
    }
  }

  /** The frames a series of pushes adds up to. */
  function FramesOfAll(fragments: seq<seq<real>>, channels: nat): seq<Frame>
    requires channels > 0
  {
    if fragments == [] then [] else Frames(fragments[0], channels) + FramesOfAll(fragments[1..], channels)
  }

  /** However a recording was cut between frames, the pushes add up to the same frames. */
  lemma {:induction false} FragmentationIndependent(fragments: seq<seq<real>>, channels: nat)
    requires channels > 0 && forall f :: f in fragments ==> WholeFrames(f, channels)
    ensures FramesOfAll(fragments, channels) == Frames(Concat(fragments), channels)
  {
    if fragments != [] {
      FragmentationIndependent(fragments[1..], channels);
      FramesOfFragments(fragments[0], Concat(fragments[1..]), channels);
    }
  }

  // ----- The resampler -----

  /** Turns the input given so far, whole blocks of `nIn` frames, into the next `nOut` frames. */
  datatype Transform = Transform(nIn: nat, nOut: nat, delay: nat, channels: nat, block: seq<Frame> -> seq<Frame>) {
    ghost predicate Valid() {
      && nIn > 0 && nOut > 0
      && forall h :: |block(h)| == nOut && forall i :: 0 <= i < nOut ==> |block(h)[i]| == channels
    }

    ghost predicate Converts(inputRate: nat, outputRate: nat) {
      Valid() && inputRate > 0 && nIn * outputRate == nOut * inputRate
    }
  }

  function Silence(channels: nat): Frame {
    seq(channels, _ => 0.0)
  }

  /** The first `n` frames of `x` followed by silence without end. */
  function Padded(x: seq<Frame>, n: nat, channels: nat): (p: seq<Frame>)
    ensures |p| == n
  {
    if n <= |x| then x[..n] else x + seq(n - |x|, _ => Silence(channels))
  }

  /** The first `k` output blocks for the input `x` followed by silence. */
  function Output(t: Transform, x: seq<Frame>, k: nat): seq<Frame> {
    if k == 0 then [] else Output(t, x, k - 1) + t.block(Padded(x, k * t.nIn, t.channels))
  }

  lemma {:induction false} OutputLength(t: Transform, x: seq<Frame>, k: nat)
    requires t.Valid()
    ensures |Output(t, x, k)| == k * t.nOut
  {
    if k > 0 {
      OutputLength(t, x, k - 1);
    }
  }

  lemma {:induction false} OutputGrows(t: Transform, x: seq<Frame>, k: nat, m: nat)
    requires k <= m
    ensures Output(t, x, k) <= Output(t, x, m)
    decreases m
  {
    if k < m {
      OutputGrows(t, x, k, m - 1);
    }
  }

  /** Frames that come later do not change the blocks already made. */
  lemma {:induction false} OutputIsCausal(t: Transform, x: seq<Frame>, more: seq<Frame>, k: nat)
    requires k * t.nIn <= |x|
    ensures Output(t, x + more, k) == Output(t, x, k)
  {
    if k > 0 {
      assert k * t.nIn == (k - 1) * t.nIn + t.nIn;
      OutputIsCausal(t, x, more, k - 1);
      assert (x + more)[..k * t.nIn] == x[..k * t.nIn];
    }
  }

  function Trim(y: seq<Frame>, delay: nat): seq<Frame> {
    if |y| <= delay then [] else y[delay..]
  }

  // ----- What a whole recording should become -----

  function TargetFrames(inputFrames: nat, inputRate: nat, outputRate: nat): nat
    requires inputRate > 0
  {
    inputFrames * outputRate / inputRate
  }

  /** `y` is the resampled recording: the delay dropped, cut to exactly `target` frames. */
  ghost predicate Recording(t: Transform, x: seq<Frame>, target: nat, y: seq<Frame>) {
    |y| == target && exists k: nat :: IsCut(t, x, target, y, k)
  }

  ghost predicate IsCut(t: Transform, x: seq<Frame>, target: nat, y: seq<Frame>, k: nat) {
    target <= |Trim(Output(t, x, k), t.delay)| && y == Trim(Output(t, x, k), t.delay)[..target]
  }

  /** There is only one such recording. */
  lemma RecordingIsUnique(t: Transform, x: seq<Frame>, target: nat, y: seq<Frame>, z: seq<Frame>)
    requires Recording(t, x, target, y) && Recording(t, x, target, z)
    ensures y == z
  {
    var k: nat :| IsCut(t, x, target, y, k);
    var m: nat :| IsCut(t, x, target, z, m);
    OutputGrows(t, x, if k <= m then k else m, if k <= m then m else k);
  }

  /** Full packets of `size` bytes, with zeros only at the end of the last one. */
  function Packets(bytes: seq<byte>, size: nat): seq<seq<byte>>
    requires size > 0
    decreases |bytes|
  {
    if bytes == [] then []
    else if |bytes| < size then [bytes + seq(size - |bytes|, _ => 0)]
    else [bytes[..size]] + Packets(bytes[size..], size)
  }

  lemma {:induction false} PacketsCarryExactly(bytes: seq<byte>, size: nat)
    requires size > 0
    ensures forall p :: p in Packets(bytes, size) ==> |p| == size
    ensures bytes <= Concat(Packets(bytes, size))
    ensures |Concat(Packets(bytes, size))| < |bytes| + size
    ensures forall i :: |bytes| <= i < |Concat(Packets(bytes, size))| ==> Concat(Packets(bytes, size))[i] == 0
    decreases |bytes|
  {
    var ps := Packets(bytes, size);
    if 0 < |bytes| < size {
      assert Concat(ps) == ps[0] + Concat(ps[1..]);
    } else if |bytes| >= size {
      PacketsCarryExactly(bytes[size..], size);
      assert ps[1..] == Packets(bytes[size..], size);
      assert Concat(ps) == bytes[..size] + Concat(ps[1..]);
    }
  }

  /** Packets already sent, and a last short one. */
  lemma {:induction false} PacketsFromParts(sent: seq<seq<byte>>, last: seq<byte>, size: nat)
    requires size > 0 && |last| < size
    requires forall p :: p in sent ==> |p| == size
    ensures Packets(Concat(sent) + last, size)
            == sent + (if last == [] then [] else [last + seq(size - |last|, _ => 0)])
  {
    if sent == [] {
      assert Concat(sent) + last == last;
    } else {
      PacketsFromParts(sent[1..], last, size);
      assert |sent[0]| == size;
      Associative(sent[0], Concat(sent[1..]), last);
      PacketsTail(sent[0], Concat(sent[1..]) + last, size);
    }
  }

  lemma PacketsTail(first: seq<byte>, rest: seq<byte>, size: nat)
    requires |first| == size > 0
    ensures Packets(first + rest, size) == [first] + Packets(rest, size)
  {
    assert (first + rest)[..size] == first;
    assert (first + rest)[size..] == rest;
  }

  /** Of the frames `x`, whole blocks of `n` are in `history` and the rest in `buffer`. */
  ghost predicate Held(x: seq<Frame>, history: seq<Frame>, buffer: seq<Frame>, blocks: nat, n: nat) {
    x == history + buffer && |history| == blocks * n
  }

  lemma HeldOneMore(t: Transform, x: seq<Frame>, frame: Frame, history: seq<Frame>, buffer: seq<Frame>, blocks: nat)
    requires Held(x, history, buffer, blocks, t.nIn)
    ensures Held(x + [frame], history, buffer + [frame], blocks, t.nIn)
    ensures Output(t, x + [frame], blocks) == Output(t, x, blocks)
  {
    Associative(history, buffer, [frame]);
    OutputIsCausal(t, x, [frame], blocks);
  }

  lemma HeldFullBlock(t: Transform, x: seq<Frame>, history: seq<Frame>, buffer: seq<Frame>, blocks: nat)
    requires Held(x, history, buffer, blocks, t.nIn) && |buffer| == t.nIn
    ensures history == Padded(x, blocks * t.nIn, t.channels)
    ensures history + buffer == Padded(x, (blocks + 1) * t.nIn, t.channels)
    ensures Held(x, Padded(x, (blocks + 1) * t.nIn, t.channels), [], blocks + 1, t.nIn)
  {
    assert (blocks + 1) * t.nIn == blocks * t.nIn + t.nIn == |x|;
    assert x[..|x|] == x;
  }

  lemma HeldThenSilence(t: Transform, x: seq<Frame>, history: seq<Frame>, buffer: seq<Frame>, blocks: nat)
    requires Held(x, history, buffer, blocks, t.nIn) && |buffer| < t.nIn
    ensures history == Padded(x, blocks * t.nIn, t.channels)
    ensures history + (buffer + seq(t.nIn - |buffer|, _ => Silence(t.channels))) ==
            Padded(x, (blocks + 1) * t.nIn, t.channels)
    ensures |x| <= (blocks + 1) * t.nIn
  {
    assert (blocks + 1) * t.nIn == blocks * t.nIn + t.nIn;
  }

  lemma OnlySilenceLeft(t: Transform, x: seq<Frame>, blocks: nat)
    requires |x| <= blocks * t.nIn
    ensures Padded(x, blocks * t.nIn, t.channels) + seq(t.nIn, _ => Silence(t.channels)) ==
            Padded(x, (blocks + 1) * t.nIn, t.channels)
    ensures |x| <= (blocks + 1) * t.nIn
  {
    assert (blocks + 1) * t.nIn == blocks * t.nIn + t.nIn;
  }

  // ----- What has been emitted for the frames produced so far -----

  function Bytes(fs: seq<Frame>): seq<byte> {
    FlatMap(Encode, fs)
  }

  /**
   `y` are the frames the resampler produced; the first `outputFrames` of them after the
   delay are in the packets sent and in the packet being filled.
   */
  ghost predicate Emission(format: AudioFormat, delay: nat, y: seq<Frame>, outputFrames: nat, skip: nat,
                           sent: seq<seq<byte>>, packet: seq<byte>, inPacket: nat)
  {
    && skip == (if |y| < delay then delay - |y| else 0)
    && outputFrames <= |Trim(y, delay)|
    && Concat(sent) + packet == Bytes(Trim(y, delay)[..outputFrames])
    && (forall p :: p in sent ==> |p| == format.PacketBytes())
    && inPacket < format.PacketFrames() && |packet| == inPacket * format.FrameBytes()
  }

  lemma PacketHoldsWholeFrames(format: AudioFormat, inPacket: nat)
    requires format.Valid() && inPacket < format.PacketFrames()
    ensures (inPacket + 1) * format.FrameBytes() == inPacket * format.FrameBytes() + format.FrameBytes()
    ensures inPacket * format.FrameBytes() < format.PacketBytes()
    ensures (inPacket + 1) * format.FrameBytes() == format.PacketBytes() <==> inPacket + 1 == format.PacketFrames()
  {
    var fb, pf := format.FrameBytes(), format.PacketFrames();
    hide AudioFormat.PacketBytes, AudioFormat.PacketFrames;
    assert (inPacket + 1) * fb == inPacket * fb + fb;
    MulMonotone(inPacket + 1, pf, fb);
    if inPacket + 1 < pf {
      assert (inPacket + 2) * fb == (inPacket + 1) * fb + fb;
      MulMonotone(inPacket + 2, pf, fb);
    }
  }

  /** No more frames can have been emitted during recording than the whole recording is worth. */
  lemma NeverAheadOfTarget(t: Transform, inputRate: nat, outputRate: nat, blocks: nat, inputFrames: nat)
    requires t.Converts(inputRate, outputRate) && blocks * t.nIn <= inputFrames
    ensures blocks * t.nOut <= TargetFrames(inputFrames, inputRate, outputRate)
  {
    calc {
      blocks * t.nOut * inputRate;
      blocks * (t.nOut * inputRate);
      blocks * (t.nIn * outputRate);
      (blocks * t.nIn) * outputRate;
    }
    MulMonotone(blocks * t.nIn, inputFrames, outputRate);
    DivLowerBound(blocks * t.nOut, inputFrames * outputRate, inputRate);
  }

  lemma MulMonotone(a: nat, b: nat, c: nat)
    requires a <= b
    ensures a * c <= b * c
  {
    assert b * c == a * c + (b - a) * c;
  }

  lemma DivLowerBound(a: nat, b: nat, c: nat)
    requires c > 0 && a * c <= b
    ensures a <= b / c
  {
    assert (b / c + 1) * c == b / c * c + c > b;
    if b / c < a {
      MulMonotone(b / c + 1, a, c);
    }
  }

  // ----- The converter -----

  /** The bounded packet queue: takes `room` more packets and then refuses. */
  class PcmSender {
    var room: nat
    var packets: seq<seq<byte>>

    constructor (room: nat)
      ensures this.room == room && packets == []
    {
      this.room, packets := room, [];
    }

    method TrySend(packet: seq<byte>) returns (ok: bool)
      modifies this
      ensures ok <==> old(room) > 0
      ensures ok ==> room == old(room) - 1 && packets == old(packets) + [packet]
      ensures !ok ==> unchanged(this)
    {
      if room == 0 {
        return false;
      }
      room, packets := room - 1, packets + [packet];
      return true;
    }
  }

  /** The frames held in the first `n` columns of a planar buffer. */
  function Columns(a: array2<real>, n: nat): (fs: seq<Frame>)
    requires n <= a.Length1
    reads a
    ensures |fs| == n && forall i :: 0 <= i < n ==> |fs[i]| == a.Length0
    ensures forall i, c :: 0 <= i < n && 0 <= c < a.Length0 ==> fs[i][c] == a[c, i]
  {
    seq(n, i requires 0 <= i < n reads a => seq(a.Length0, c requires 0 <= c < a.Length0 reads a => a[c, i]))
  }

  /** Between two moments, what the converter sent is what the queue received. */
  ghost predicate Forwarded(packets: seq<seq<byte>>, sent: seq<seq<byte>>, packets': seq<seq<byte>>,
                            sent': seq<seq<byte>>) {
    sent <= sent' && packets' == packets + sent'[|sent|..]
  }

  lemma ForwardedOnward(p0: seq<seq<byte>>, s0: seq<seq<byte>>, p1: seq<seq<byte>>, s1: seq<seq<byte>>,
                        p2: seq<seq<byte>>, s2: seq<seq<byte>>)
    requires Forwarded(p0, s0, p1, s1) && Forwarded(p1, s1, p2, s2)
    ensures Forwarded(p0, s0, p2, s2)
  {
    assert s2[|s0|..] == s1[|s0|..] + s2[|s1|..];
  }

  class Resampler {
    const t: Transform
    var history: seq<Frame>

    constructor (t: Transform)
      ensures this.t == t && history == []
    {
      this.t := t;
      history := [];
    }

    method ProcessIntoBuffer(input: array2<real>, output: array2<real>)
      requires t.Valid() && input != output
      requires input.Length0 == output.Length0 == t.channels && input.Length1 == t.nIn && output.Length1 == t.nOut
      modifies this, output
      ensures history == old(history) + old(Columns(input, t.nIn))
      ensures Columns(output, t.nOut) == t.block(history)
    {
      history := history + Columns(input, t.nIn);
      var made := t.block(history);
      forall c, i | 0 <= c < t.channels && 0 <= i < t.nOut {
        output[c, i] := made[i][c];
      }
      assert forall i :: 0 <= i < t.nOut ==> Columns(output, t.nOut)[i] == made[i];
    }
  }

  class PcmConverter {
    const resampler: Resampler
    const input: array2<real>
    const output: array2<real>
    const format: AudioFormat
    const inputRate: nat
    var filled: nat
    var packet: seq<byte>
    var inputFrames: nat
    var outputFrames: nat
    var skip: nat
    /** Every frame pushed, the blocks given to the resampler, the packets sent, the frames in `packet`. */
    ghost var pushed: seq<Frame>
    ghost var blocks: nat
    ghost var sent: seq<seq<byte>>
    ghost var inPacket: nat

    ghost predicate Fixed() {
      && format.Valid() && resampler.t.Converts(inputRate, format.sampleRate)
      && resampler.t.channels == format.channels
      && input != output
      && input.Length0 == output.Length0 == format.channels
      && input.Length1 == resampler.t.nIn && output.Length1 == resampler.t.nOut
    }

    ghost function Made(): seq<Frame>
      reads this`pushed, this`blocks
    {
      Output(resampler.t, pushed, blocks)
    }

    ghost predicate Emitting(y: seq<Frame>)
      reads this`outputFrames, this`skip, this`sent, this`packet, this`inPacket
    {
      Emission(format, resampler.t.delay, y, outputFrames, skip, sent, packet, inPacket)
    }

    /** Recording: whole blocks are resampled, the rest waits in the buffer. */
    ghost predicate Valid()
      reads this, resampler, input
    {
      && Fixed()
      && inputFrames == |pushed|
      && filled < resampler.t.nIn
      && Held(pushed, resampler.history, Columns(input, filled), blocks, resampler.t.nIn)
      && EmittedUpTo(None)
    }

    constructor (rate: nat, format: AudioFormat, t: Transform)
      requires format.Valid() && t.Converts(rate, format.sampleRate) && t.channels == format.channels
      ensures Valid() && pushed == [] && sent == []
      ensures this.format == format && inputRate == rate && resampler.t == t
      ensures fresh(resampler) && fresh(input) && fresh(output)
    {
      this.format, inputRate := format, rate;
      resampler := new Resampler(t);
      input := new real[format.channels, t.nIn]((_, _) => 0.0);
      output := new real[format.channels, t.nOut]((_, _) => 0.0);
      filled, packet, inputFrames, outputFrames, skip := 0, [], 0, 0, t.delay;
      pushed, blocks, sent, inPacket := [], 0, [], 0;
    }

    method SendPacket(pcm: PcmSender) returns (ok: bool)
      requires |packet| == format.PacketBytes()
      modifies this`packet, this`sent, this`inPacket, pcm
      ensures packet == [] && inPacket == 0
      ensures ok <==> old(pcm.room) > 0
      ensures ok ==> pcm.packets == old(pcm.packets) + [old(packet)] && sent == old(sent) + [old(packet)]
      ensures !ok ==> unchanged(pcm) && sent == old(sent)
    {
      var full := packet;
      packet, inPacket := [], 0;
      ok := pcm.TrySend(full);
      if ok {
        sent := sent + [full];
      }
    }

    /** Append the samples of one resampled frame, channel after channel. */
    method AppendSamples(frame: nat)
      requires Fixed() && frame < resampler.t.nOut
      modifies this`packet
      ensures packet == old(packet) + Encode(Columns(output, resampler.t.nOut)[frame])
    {
      ghost var f := Columns(output, resampler.t.nOut)[frame];
      ghost var before := packet;
      assert before + Encode(f[..0]) == before;
      for channel := 0 to format.channels
        invariant packet == before + Encode(f[..channel])
      {
        FlatMapSnoc(SampleBytes, f[..channel], f[channel]);
        assert f[..channel] + [f[channel]] == f[..channel + 1];
        Associative(before, Encode(f[..channel]), SampleBytes(f[channel]));
        packet := packet + SampleBytes(output[channel, frame]);
      }
      assert f[..format.channels] == f;
    }

    /** Emit one resampled frame, and send the packet when it is full. */
    method EmitFrame(frame: nat, ghost y: seq<Frame>, pcm: PcmSender) returns (ok: bool)
      requires Fixed() && frame < resampler.t.nOut
      requires Emitting(y) && outputFrames == |Trim(y, resampler.t.delay)| && skip == 0
      modifies this`packet, this`sent, this`inPacket, this`outputFrames, pcm
      ensures ok ==> Emitting(y + [Columns(output, resampler.t.nOut)[frame]]) && outputFrames == old(outputFrames) + 1
      ensures Forwarded(old(pcm.packets), old(sent), pcm.packets, sent)
      ensures !ok ==> && pcm.room == 0
                      && Concat(sent) <= Bytes(Trim(y + [Columns(output, resampler.t.nOut)[frame]], resampler.t.delay))
    {
      hide Encode, Bytes, Trim, Concat, Columns;
      ghost var f := Columns(output, resampler.t.nOut)[frame];
      EmissionStep(format, resampler.t.delay, y, f, sent, packet, inPacket);
      AppendSamples(frame);
      outputFrames, inPacket := outputFrames + 1, inPacket + 1;
      ok := true;
      if |packet| == format.PacketBytes() {
        ConcatSnoc(sent, packet);
        ok := SendPacket(pcm);
        assert Concat(sent) + [] == Concat(sent);
      }
    }

    ghost function Width(): nat {
      resampler.t.channels
    }

    /** The buffer holds the next block of the recording, or of the silence after it. */
    ghost predicate BlockReady()
      reads this`pushed, this`blocks, resampler, input
    {
      && Fixed()
      && resampler.history == Padded(pushed, blocks * resampler.t.nIn, Width())
      && resampler.history + Columns(input, resampler.t.nIn) == Padded(pushed, (blocks + 1) * resampler.t.nIn, Width())
    }

    /** Everything produced is emitted, up to the limit. */
    ghost predicate EmittedUpTo(limit: Option<nat>)
      reads this`pushed, this`blocks, this`outputFrames, this`skip, this`sent, this`packet, this`inPacket
    {
      && Emitting(Made())
      && var all := |Trim(Made(), resampler.t.delay)|;
         outputFrames == if limit.Some? && limit.value < all then limit.value else all
    }

    method Process(pcm: PcmSender, limit: Option<nat>) returns (ok: bool)
      requires BlockReady() && EmittedUpTo(None)
      requires limit.Some? ==> outputFrames <= limit.value
      modifies this`filled, this`packet, this`outputFrames, this`skip, this`sent, this`inPacket, this`blocks
      modifies resampler, output, pcm
      ensures blocks == old(blocks) + 1
      ensures ok ==> filled == 0 && resampler.history == Padded(pushed, blocks * resampler.t.nIn, Width())
      ensures ok ==> EmittedUpTo(limit)
      ensures Forwarded(old(pcm.packets), old(sent), pcm.packets, sent)
      ensures !ok ==> pcm.room == 0 && Concat(sent) <= Bytes(Trim(Made(), resampler.t.delay))
    {
      hide Emission, Bytes, Concat, Trim, Columns, Padded, Forwarded;
      ghost var y := Made();
      resampler.ProcessIntoBuffer(input, output);
      ghost var z := Columns(output, resampler.t.nOut);
      blocks := blocks + 1;
      filled := 0;
      assert Made() == y + z;
      ok := EmitBlock(pcm, limit, y, z);
    }

    /** Go through the block just produced: skip the delay, stop at the limit, emit the rest. */
    method EmitBlock(pcm: PcmSender, limit: Option<nat>, ghost y: seq<Frame>, ghost z: seq<Frame>) returns (ok: bool)
      requires Fixed() && z == Columns(output, resampler.t.nOut)
      requires Emitting(y) && outputFrames == |Trim(y, resampler.t.delay)|
      requires limit.Some? ==> outputFrames <= limit.value
      modifies this`packet, this`outputFrames, this`skip, this`sent, this`inPacket, pcm
      ensures ok ==> Emitting(y + z)
      ensures ok ==> var all := |Trim(y + z, resampler.t.delay)|;
        outputFrames == if limit.Some? && limit.value < all then limit.value else all
      ensures Forwarded(old(pcm.packets), old(sent), pcm.packets, sent)
      ensures !ok ==> pcm.room == 0 && Concat(sent) <= Bytes(Trim(y + z, resampler.t.delay))
    {
      hide Columns, Bytes, Emission;
      var frame := 0;
      assert y + z[..0] == y;
      while frame < resampler.t.nOut
        invariant 0 <= frame <= resampler.t.nOut
        invariant Emitting(y + z[..frame]) && outputFrames == |Trim(y + z[..frame], resampler.t.delay)|
        invariant limit.Some? ==> outputFrames <= limit.value
        invariant Forwarded(old(pcm.packets), old(sent), pcm.packets, sent)
      {
        assert y + z[..frame + 1] == (y + z[..frame]) + [z[frame]];
        assert y + z[..frame + 1] <= y + z && y + z[..frame] <= y + z;
        SkipLeft(y + z[..frame]);
        if skip > 0 {
          SkipFrame(format, resampler.t.delay, y + z[..frame], z[frame], outputFrames, skip, sent, packet, inPacket);
          skip := skip - 1;
        } else {
          if limit.Some? && outputFrames >= limit.value {
            EmissionLater(format, resampler.t.delay, y + z[..frame], y + z, outputFrames, sent, packet, inPacket);
            return true;
          }
          ghost var packets, before := pcm.packets, sent;
          ok := EmitFrame(frame, y + z[..frame], pcm);
          ForwardedOnward(old(pcm.packets), old(sent), packets, before, pcm.packets, sent);
          if !ok {
            BytesGrow(y + z[..frame + 1], y + z, resampler.t.delay);
            return;
          }
        }
        frame := frame + 1;
      }
      assert z[..frame] == z;
      return true;
    }

    /** Copy one frame into the next column of the planar buffer. */
    method StoreFrame(frame: Frame)
      requires Fixed() && filled < resampler.t.nIn && |frame| == format.channels
      modifies input
      ensures Columns(input, filled + 1) == old(Columns(input, filled)) + [frame]
    {
      for channel := 0 to format.channels
        invariant forall c, i :: 0 <= c < input.Length0 && 0 <= i < filled ==> input[c, i] == old(input[c, i])
        invariant forall c :: 0 <= c < channel ==> input[c, filled] == frame[c]
      {
        input[channel, filled] := frame[channel];
      }
      assert forall i :: 0 <= i < filled ==> Columns(input, filled + 1)[i] == old(Columns(input, filled))[i];
      assert Columns(input, filled + 1)[filled] == frame;
    }

    method PushFrame(frame: Frame, pcm: PcmSender) returns (ok: bool)
      requires Valid() && |frame| == format.channels
      modifies this, resampler, input, output, pcm
      ensures pushed == old(pushed) + [frame]
      ensures ok ==> Valid()
      ensures Forwarded(old(pcm.packets), old(sent), pcm.packets, sent)
      ensures !ok ==> pcm.room == 0 && Concat(sent) <= Bytes(Trim(Made(), resampler.t.delay))
    {
      hide Held, Columns, Padded, Output, Trim, Emission, Bytes;
      HeldOneMore(resampler.t, pushed, frame, resampler.history, Columns(input, filled), blocks);
      StoreFrame(frame);
      pushed := pushed + [frame];
      filled := filled + 1;
      inputFrames := inputFrames + 1;
      ok := true;
      if filled == resampler.t.nIn {
        HeldFullBlock(resampler.t, pushed, resampler.history, Columns(input, filled), blocks);
        ok := Process(pcm, None);
        assert Columns(input, 0) == [];
      }
    }

    /** Take interleaved samples; an incomplete last frame is ignored. */
    method Push(samples: seq<real>, pcm: PcmSender) returns (ok: bool)
      requires Valid()
      modifies this, resampler, input, output, pcm
      ensures ok ==> Valid() && pushed == old(pushed) + Frames(samples, format.channels)
      ensures Forwarded(old(pcm.packets), old(sent), pcm.packets, sent)
      ensures !ok ==> pcm.room == 0 && Concat(sent) <= Bytes(Trim(Made(), resampler.t.delay))
    {
      assert Forwarded(pcm.packets, sent, pcm.packets, sent);
      hide Held, Columns, Trim, Output, Bytes, Concat, Emission, Forwarded, PcmConverter.EmittedUpTo;
      var rest := samples;
      while |rest| >= format.channels
        invariant Valid()
        invariant old(pushed) + Frames(samples, format.channels) == pushed + Frames(rest, format.channels)
        invariant Forwarded(old(pcm.packets), old(sent), pcm.packets, sent)
        decreases |rest|
      {
        var frame := rest[..format.channels];
        Associative(pushed, [frame], Frames(rest[format.channels..], format.channels));
        ghost var packets, before := pcm.packets, sent;
        ok := PushFrame(frame, pcm);
        ForwardedOnward(old(pcm.packets), old(sent), packets, before, pcm.packets, sent);
        if !ok {
          return;
        }
        rest := rest[format.channels..];
      }
      return true;
    }

    /** Silence every column from `from` on. */
    method FillZeros(from: nat)
      requires Fixed() && from <= resampler.t.nIn
      modifies input
      ensures Columns(input, resampler.t.nIn) ==
              old(Columns(input, from)) + seq(resampler.t.nIn - from, _ => Silence(format.channels))
    {
      forall c, i | 0 <= c < input.Length0 && from <= i < resampler.t.nIn {
        input[c, i] := 0.0;
      }
      assert forall i :: 0 <= i < from ==> Columns(input, resampler.t.nIn)[i] == old(Columns(input, from))[i];
      assert forall i :: from <= i < resampler.t.nIn ==> Columns(input, resampler.t.nIn)[i] == Silence(format.channels);
    }

    /** Resample the rest of the recording and as much silence as it takes. */
    method FlushBlocks(target: nat, pcm: PcmSender) returns (ok: bool)
      requires BlockReady() && EmittedUpTo(None) && outputFrames <= target
      requires |pushed| <= (blocks + 1) * resampler.t.nIn
      modifies this`filled, this`packet, this`outputFrames, this`skip, this`sent, this`inPacket, this`blocks
      modifies resampler, input, output, pcm
      ensures ok ==> EmittedUpTo(Some(target)) && outputFrames == target
      ensures Forwarded(old(pcm.packets), old(sent), pcm.packets, sent)
      ensures !ok ==> pcm.room == 0
    {
      assert Forwarded(pcm.packets, sent, pcm.packets, sent);
      hide Held, Columns, Output, Bytes, Concat, Forwarded, Padded;
      while outputFrames < target
        invariant BlockReady() && EmittedUpTo(Some(target)) && outputFrames <= target
        invariant |pushed| <= (blocks + 1) * resampler.t.nIn
        invariant Forwarded(old(pcm.packets), old(sent), pcm.packets, sent)
        decreases target - outputFrames + skip
      {
        ghost var packets, before := pcm.packets, sent;
        ok := FlushBlock(target, pcm);
        ForwardedOnward(old(pcm.packets), old(sent), packets, before, pcm.packets, sent);
        if !ok {
          return;
        }
      }
      return true;
    }

    method FlushBlock(target: nat, pcm: PcmSender) returns (ok: bool)
      requires BlockReady() && EmittedUpTo(None) && outputFrames < target
      requires |pushed| <= (blocks + 1) * resampler.t.nIn
      modifies this`filled, this`packet, this`outputFrames, this`skip, this`sent, this`inPacket, this`blocks
      modifies resampler, input, output, pcm
      ensures ok ==> BlockReady() && EmittedUpTo(Some(target)) && outputFrames <= target
      ensures |pushed| <= (blocks + 1) * resampler.t.nIn
      ensures ok ==> && outputFrames >= old(outputFrames)
                     && target - outputFrames + skip < old(target - outputFrames + skip)
      ensures Forwarded(old(pcm.packets), old(sent), pcm.packets, sent)
      ensures !ok ==> pcm.room == 0
    {
      hide Columns, Output, Bytes, Concat, Forwarded, Padded;
      ghost var y := Made();
      ok := Process(pcm, Some(target));
      OnlySilenceLeft(resampler.t, pushed, blocks);
      if ok {
        MoreMade(y);
        FillZeros(0);
        NothingKept();
      }
    }

    lemma MoreMade(y: seq<Frame>)
      requires Fixed() && blocks > 0 && y == Output(resampler.t, pushed, blocks - 1)
      ensures |Made()| > |y|
    {
    }

    lemma NothingKept()
      ensures Columns(input, 0) == []
    {
    }

    /**
     Flush: the packets sent over the converter's life are exactly the resampled
     recording, delay dropped, cut to the target length, zero-padded at the end.
     */
    method Finish(pcm: PcmSender) returns (ok: bool)
      requires Valid()
      modifies this`filled, this`packet, this`outputFrames, this`skip, this`sent, this`inPacket, this`blocks
      modifies resampler, input, output, pcm
      ensures ok ==> exists y :: Recording(resampler.t, pushed, TargetFrames(|pushed|, inputRate, format.sampleRate), y)
                                 && sent == Packets(Bytes(y), format.PacketBytes())
      ensures Forwarded(old(pcm.packets), old(sent), pcm.packets, sent)
      ensures !ok ==> pcm.room == 0
    {
      var target := TargetFrames(inputFrames, inputRate, format.sampleRate);
      NotAhead();
      HeldThenSilence(resampler.t, pushed, resampler.history, Columns(input, filled), blocks);
      FillZeros(filled);
      hide Columns, Held, Padded, Output, Concat, Bytes, Packets, Forwarded;
      ok := FlushBlocks(target, pcm);
      if !ok {
        return;
      }
      ghost var y := FlushedRecording(target);
      ghost var packets, before := pcm.packets, sent;
      ok := SendRest(pcm);
      ForwardedOnward(old(pcm.packets), old(sent), packets, before, pcm.packets, sent);
    }

    /** What has been emitted when the target is reached. */
    lemma FlushedRecording(target: nat) returns (y: seq<Frame>)
      requires Fixed() && EmittedUpTo(Some(target)) && outputFrames == target
      ensures Recording(resampler.t, pushed, target, y)
      ensures |packet| < format.PacketBytes()
      ensures Packets(Bytes(y), format.PacketBytes()) == sent + LastPacket()
    {
      hide Concat, Bytes, Packets, Output, AudioFormat.PacketBytes, AudioFormat.FrameBytes, AudioFormat.PacketFrames;
      y := Trim(Made(), resampler.t.delay)[..target];
      assert IsCut(resampler.t, pushed, target, y, blocks);
      PacketHoldsWholeFrames(format, inPacket);
      PacketsFromParts(sent, packet, format.PacketBytes());
    }

    /** The packet being filled, zero-padded, unless it is empty. */
    ghost function LastPacket(): seq<seq<byte>>
      reads this`packet
      requires |packet| <= format.PacketBytes()
    {
      if packet == [] then [] else [packet + seq(format.PacketBytes() - |packet|, _ => 0)]
    }

    method SendRest(pcm: PcmSender) returns (ok: bool)
      requires |packet| < format.PacketBytes()
      modifies this`packet, this`sent, this`inPacket, pcm
      ensures ok ==> sent == old(sent) + old(LastPacket())
      ensures Forwarded(old(pcm.packets), old(sent), pcm.packets, sent)
      ensures !ok ==> pcm.room == 0
    {
      ok := true;
      if packet != [] {
        packet := packet + seq(format.PacketBytes() - |packet|, _ => 0);
        ok := SendPacket(pcm);
      }
    }

    lemma NotAhead()
      requires Valid()
      ensures outputFrames <= TargetFrames(inputFrames, inputRate, format.sampleRate)
    {
      OutputLength(resampler.t, pushed, blocks);
      NeverAheadOfTarget(resampler.t, inputRate, format.sampleRate, blocks, inputFrames);
    }

    lemma SkipLeft(y: seq<Frame>)
      requires Emitting(y)
      ensures skip == (if |y| < resampler.t.delay then resampler.t.delay - |y| else 0)
    {
    }
  }

  lemma SkipFrame(format: AudioFormat, delay: nat, y: seq<Frame>, f: Frame, outputFrames: nat, skip: nat,
                  sent: seq<seq<byte>>, packet: seq<byte>, inPacket: nat)
    requires skip > 0 && Emission(format, delay, y, outputFrames, skip, sent, packet, inPacket)
    ensures Emission(format, delay, y + [f], outputFrames, skip - 1, sent, packet, inPacket)
    ensures Trim(y + [f], delay) == Trim(y, delay) == []
  {
  }

  lemma EmissionStep(format: AudioFormat, delay: nat, y: seq<Frame>, f: Frame, sent: seq<seq<byte>>, packet: seq<byte>,
                     inPacket: nat)
    requires format.Valid() && |f| == format.channels
    requires Emission(format, delay, y, |Trim(y, delay)|, 0, sent, packet, inPacket)
    ensures var z := Trim(y + [f], delay); var full := packet + Encode(f);
      && |z| == |Trim(y, delay)| + 1
      && Concat(sent) + full == Bytes(z) == Bytes(z[..|z|])
      && |full| == (inPacket + 1) * format.FrameBytes()
      && (|full| == format.PacketBytes() <==> inPacket + 1 == format.PacketFrames())
      && 0 < format.PacketFrames()
  {
    var z := Trim(y, delay);
    assert Trim(y + [f], delay) == z + [f];
    assert z[..|z|] == z;
    assert (z + [f])[..|z| + 1] == z + [f];
    FlatMapSnoc(Encode, z, f);
    Associative(Concat(sent), packet, Encode(f));
    EncodeLength(f);
    PacketHoldsWholeFrames(format, inPacket);
  }

  /** More frames coming out of the resampler do not change what was emitted. */
  lemma EmissionLater(format: AudioFormat, delay: nat, y: seq<Frame>, z: seq<Frame>, outputFrames: nat,
                      sent: seq<seq<byte>>, packet: seq<byte>, inPacket: nat)
    requires y <= z && Emission(format, delay, y, outputFrames, 0, sent, packet, inPacket)
    ensures Emission(format, delay, z, outputFrames, 0, sent, packet, inPacket)
  {
    assert Trim(y, delay) <= Trim(z, delay);
    assert Trim(y, delay)[..outputFrames] == Trim(z, delay)[..outputFrames];
  }

  lemma BytesGrow(y: seq<Frame>, z: seq<Frame>, delay: nat)
    requires y <= z
    ensures Bytes(Trim(y, delay)) <= Bytes(Trim(z, delay))
  {
    var a, b := Trim(y, delay), Trim(z, delay);
    assert b == a + b[|a|..];
    FlatMapAppend(Encode, a, b[|a|..]);
  }

  // ----- A whole capture -----

  /** What must have been sent for a recording of the frames `x`. */
  ghost predicate SentFor(t: Transform, x: seq<Frame>, rate: nat, format: AudioFormat, packets: seq<seq<byte>>)
    requires rate > 0 && format.Valid()
  {
    exists y :: Recording(t, x, TargetFrames(|x|, rate, format.sampleRate), y)
      && packets == Packets(Bytes(y), format.PacketBytes())
  }

  /** Only the samples decide what is sent. */
  lemma SentForIsUnique(t: Transform, x: seq<Frame>, rate: nat, format: AudioFormat, p: seq<seq<byte>>,
                        q: seq<seq<byte>>)
    requires rate > 0 && format.Valid()
    requires SentFor(t, x, rate, format, p) && SentFor(t, x, rate, format, q)
    ensures p == q
  {
    var target := TargetFrames(|x|, rate, format.sampleRate);
    var y :| Recording(t, x, target, y) && p == Packets(Bytes(y), format.PacketBytes());
    var z :| Recording(t, x, target, z) && q == Packets(Bytes(z), format.PacketBytes());
    RecordingIsUnique(t, x, target, y, z);
  }

  /** Convert the blocks of a capture, one after the other. */
  method PushAll(converter: PcmConverter, blocks: seq<seq<real>>, pcm: PcmSender) returns (ok: bool)
    requires converter.Valid()
    modifies converter, converter.resampler, converter.input, converter.output, pcm
    ensures ok ==> converter.Valid()
    ensures ok ==> converter.pushed == old(converter.pushed) + FramesOfAll(blocks, converter.format.channels)
    ensures Forwarded(old(pcm.packets), old(converter.sent), pcm.packets, converter.sent)
    ensures !ok ==> pcm.room == 0
  {
    assert Forwarded(pcm.packets, converter.sent, pcm.packets, converter.sent);
    var channels := converter.format.channels;
    hide Frames, PcmConverter.Valid, Forwarded, Concat, Bytes, Trim, Output;
    for i := 0 to |blocks|
      invariant converter.Valid()
      invariant converter.pushed + FramesOfAll(blocks[i..], channels) ==
                old(converter.pushed) + FramesOfAll(blocks, channels)
      invariant Forwarded(old(pcm.packets), old(converter.sent), pcm.packets, converter.sent)
    {
      ghost var pushed, packets, sent := converter.pushed, pcm.packets, converter.sent;
      ok := converter.Push(blocks[i], pcm);
      ForwardedOnward(old(pcm.packets), old(converter.sent), packets, sent, pcm.packets, converter.sent);
      if !ok {
        return;
      }
      assert blocks[i..][1..] == blocks[i + 1..];
      Associative(pushed, Frames(blocks[i], channels), FramesOfAll(blocks[i + 1..], channels));
    }
    return true;
  }

  /**
   A whole capture: convert its blocks and flush. However the device cut the samples
   into whole frames, an accepting receiver gets the same packets.
   */
  method Capture(rate: nat, format: AudioFormat, t: Transform, blocks: seq<seq<real>>, pcm: PcmSender)
    returns (ok: bool)
    requires format.Valid() && t.Converts(rate, format.sampleRate) && t.channels == format.channels && rate > 0
    requires forall b :: b in blocks ==> WholeFrames(b, format.channels)
    modifies pcm
    ensures ok ==> old(pcm.packets) <= pcm.packets
    ensures ok ==> SentFor(t, Frames(Concat(blocks), format.channels), rate, format, pcm.packets[|old(pcm.packets)|..])
    ensures !ok ==> pcm.room == 0
  {
    hide Frames, FramesOfAll, WholeFrames, Recording, Packets, PcmConverter.Valid, Concat, Bytes;
    var converter := new PcmConverter(rate, format, t);
    ok := PushAll(converter, blocks, pcm);
    if !ok {
      return;
    }
    FragmentationIndependent(blocks, format.channels);
    assert [] + FramesOfAll(blocks, format.channels) == FramesOfAll(blocks, format.channels);
    ghost var packets, sent := pcm.packets, converter.sent;
    ok := converter.Finish(pcm);
    ForwardedOnward(old(pcm.packets), [], packets, sent, pcm.packets, converter.sent);
  }
}
