/**
 The Telnet worker's byte handling: the incremental framer of RFC 854 commands
 and RFC 855 subnegotiations, the escaping sender, and the output batcher.
 */
module Telnet {
  import opened Common

  const IAC: byte := 255
  const DONT: byte := 254
  const DO: byte := 253
  const WONT: byte := 252
  const WILL: byte := 251
  const SB: byte := 250
  const SE: byte := 240

  const MAX_PROTOCOL_FRAME_BYTES: nat := 64 * 1024
  const MAX_OUTPUT_BATCH_BYTES: nat := 16 * 1024
  const TERMINAL_INPUT_CHUNK_BYTES: nat := 16 * 1024

  // ----- The wire, one element at a time -----

  /** A data byte, an escaped IAC, or one whole command or subnegotiation. */
  datatype Element = Datum(b: byte) | Escaped | Command(wire: seq<byte>)

  function ElementWire(e: Element): seq<byte> {
    match e
    case Datum(b) => [b]
    case Escaped => [IAC, IAC]
    case Command(w) => w
  }

  /** The index after the `IAC SE` that closes the subnegotiation, scanning pairs from `i`. */
  function SubnegotiationEnd(s: seq<byte>, i: nat): (end: Option<nat>)
    ensures end.Some? ==> i + 2 <= end.value <= |s|
    decreases |s| - i
  {
    if i + 1 >= |s| then None
    else if s[i] != IAC then SubnegotiationEnd(s, i + 1)
    else if s[i + 1] == SE then Some(i + 2)
    else SubnegotiationEnd(s, i + 2)
  }

  /** How many IAC bytes stand right before `k`, looking back to `i`. */
  function IacsBefore(s: seq<byte>, i: nat, k: nat): nat
    requires i <= k <= |s|
  {
    if k == i || s[k - 1] != IAC then 0 else 1 + IacsBefore(s, i, k - 1)
  }

  /** An `IAC SE` at `k` that is not escaped: its IAC is not the second of a pair. */
  predicate EndsAt(s: seq<byte>, i: nat, k: nat) {
    i <= k && k + 1 < |s| && s[k] == IAC && s[k + 1] == SE && IacsBefore(s, i, k) % 2 == 0
  }

  lemma {:induction false} IacsFromLater(s: seq<byte>, i: nat, j: nat, k: nat)
    requires i < j <= k <= |s| && j == if s[i] != IAC then i + 1 else i + 2
    ensures IacsBefore(s, i, k) % 2 == IacsBefore(s, j, k) % 2
    decreases k
  {
    assert IacsBefore(s, i, i) == 0;
    assert IacsBefore(s, i, i + 1) == if s[i] == IAC then 1 else 0;
    if k > j && s[k - 1] == IAC {
      IacsFromLater(s, i, j, k - 1);
    }
  }

  /** The scan over pairs finds the first unescaped end, and finds none only when there is none. */
  lemma {:induction false} EndIsFirstUnescaped(s: seq<byte>, i: nat)
    ensures match SubnegotiationEnd(s, i)
      case None => forall k: nat :: !EndsAt(s, i, k)
      case Some(end) => EndsAt(s, i, end - 2) && forall k: nat :: k < end - 2 ==> !EndsAt(s, i, k)
    decreases |s| - i
  {
    if i + 1 < |s| && !(s[i] == IAC && s[i + 1] == SE) {
      var j := if s[i] != IAC then i + 1 else i + 2;
      EndIsFirstUnescaped(s, j);
      assert IacsBefore(s, i, i) == 0;
      assert IacsBefore(s, i, i + 1) == if s[i] == IAC then 1 else 0;
      forall k: nat ensures EndsAt(s, i, k) <==> EndsAt(s, j, k) {
        if j <= k < |s| {
          IacsFromLater(s, i, j, k);
        }
      }
    }
  }

  /** The length of the IAC sequence at the front of `s`, if all of it is there. */
  function SequenceLength(s: seq<byte>): (n: Option<nat>)
    requires |s| > 0 && s[0] == IAC
    ensures n.Some? ==> 2 <= n.value <= |s|
  {
    if |s| < 2 then None
    else if s[1] == IAC then Some(2)
    else if s[1] in {WILL, WONT, DO, DONT} then if |s| < 3 then None else Some(3)
    else if s[1] == SB then SubnegotiationEnd(s, 2)
    else Some(2)
  }

  /** Empty, or one IAC sequence whose end has not arrived. */
  predicate IncompleteSequence(s: seq<byte>) {
    s == [] || (s[0] == IAC && SequenceLength(s).None?)
  }

  /** The first element of `s` and how many bytes it takes. */
  function First(s: seq<byte>): (r: (Element, nat))
    requires !IncompleteSequence(s)
    ensures 1 <= r.1 <= |s| && ElementWire(r.0) == s[..r.1]
  {
    if s[0] != IAC then (Datum(s[0]), 1)
    else
      var n := SequenceLength(s).value;
      if s[1] == IAC then assert s[..2] == [IAC, IAC]; (Escaped, 2) else (Command(s[..n]), n)
  }

  /** The complete elements at the front of a byte string ... */
  function Elements(s: seq<byte>): seq<Element> {
    if IncompleteSequence(s) then [] else [First(s).0] + Elements(s[First(s).1..])
  }

  /** ... and what is left over. */
  function Leftover(s: seq<byte>): (r: seq<byte>)
    ensures IncompleteSequence(r) && |r| <= |s|
  {
    if IncompleteSequence(s) then s else Leftover(s[First(s).1..])
  }

  function WireOf(es: seq<Element>): seq<byte> {
    FlatMap(ElementWire, es)
  }

  /** Nothing is lost, duplicated or reordered. */
  lemma {:induction false} WireIsKept(s: seq<byte>)
    ensures WireOf(Elements(s)) + Leftover(s) == s
    decreases |s|
  {
    if !IncompleteSequence(s) {
      var n := First(s).1;
      WireIsKept(s[n..]);
      assert s == s[..n] + s[n..];
    }
  }

  // ----- The meaning does not depend on where the bytes were cut -----

  lemma {:induction false} SubnegotiationEndExtends(s: seq<byte>, t: seq<byte>, i: nat)
    requires SubnegotiationEnd(s, i).Some?
    ensures SubnegotiationEnd(s + t, i) == SubnegotiationEnd(s, i)
    decreases |s| - i
  {
    if s[i] != IAC {
      SubnegotiationEndExtends(s, t, i + 1);
    } else if s[i + 1] != SE {
      SubnegotiationEndExtends(s, t, i + 2);
    }
  }

  lemma FirstExtends(s: seq<byte>, t: seq<byte>)
    requires !IncompleteSequence(s)
    ensures !IncompleteSequence(s + t) && First(s + t) == First(s)
  {
    if s[0] == IAC && s[1] == SB {
      SubnegotiationEndExtends(s, t, 2);
    }
    if s[0] == IAC {
      var n := SequenceLength(s).value;
      assert (s + t)[..n] == s[..n];
    }
  }

  lemma {:induction false} ElementsResume(s: seq<byte>, t: seq<byte>)
    ensures Elements(s + t) == Elements(s) + Elements(Leftover(s) + t)
    ensures Leftover(s + t) == Leftover(Leftover(s) + t)
    decreases |s|
  {
    if !IncompleteSequence(s) {
      var n := First(s).1;
      FirstExtends(s, t);
      ElementsResume(s[n..], t);
      assert (s + t)[n..] == s[n..] + t;
    }
  }

  // ----- Frames, as the worker hands them on -----

  /** `Data` and `Control` are the source's `Parser` frames, with and without a leading IAC. */
  datatype Frame = Data(bytes: seq<byte>) | Control(bytes: seq<byte>) | Literal

  function Datums(bs: seq<byte>): (es: seq<Element>)
    ensures |es| == |bs| && forall i :: 0 <= i < |bs| ==> es[i] == Datum(bs[i])
  {
    if bs == [] then [] else [Datum(bs[0])] + Datums(bs[1..])
  }

  function FrameElements(f: Frame): seq<Element> {
    match f
    case Data(bs) => Datums(bs)
    case Control(bs) => [Command(bs)]
    case Literal => [Escaped]
  }

  function Flatten(fs: seq<Frame>): seq<Element> {
    FlatMap(FrameElements, fs)
  }

  predicate ProperFrames(fs: seq<Frame>) {
    forall f :: f in fs && f.Data? ==> f.bytes != []
  }

  /** Join adjacent plain-data frames. */
  function Merge(fs: seq<Frame>): (r: seq<Frame>)
    decreases |fs|
  {
    if |fs| < 2 then fs
    else
      var rest := Merge(fs[1..]);
      if fs[0].Data? && rest != [] && rest[0].Data?
      then [Data(fs[0].bytes + rest[0].bytes)] + rest[1..]
      else [fs[0]] + rest
  }

  /** No two plain-data frames in a row. */
  predicate Merged(fs: seq<Frame>) {
    && ProperFrames(fs)
    && forall i :: 0 <= i < |fs| - 1 ==> !(fs[i].Data? && fs[i + 1].Data?)
  }

  lemma {:induction false} MergeKeepsElements(fs: seq<Frame>)
    requires ProperFrames(fs)
    ensures Flatten(Merge(fs)) == Flatten(fs)
    decreases |fs|
  {
    hide ProperFrames;
    if |fs| >= 2 {
      MergeKeepsElements(fs[1..]) by { TailIsProper(fs); }
      var rest := Merge(fs[1..]);
      if fs[0].Data? && rest != [] && rest[0].Data? {
        var joined := Data(fs[0].bytes + rest[0].bytes);
        assert FrameElements(joined) == FrameElements(fs[0]) + FrameElements(rest[0]);
        Associative(FrameElements(fs[0]), FrameElements(rest[0]), Flatten(rest[1..]));
        assert Merge(fs)[1..] == rest[1..];
      } else {
        assert Merge(fs)[1..] == rest;
      }
    }
  }

  lemma TailIsProper(fs: seq<Frame>)
    requires ProperFrames(fs) && fs != []
    ensures ProperFrames(fs[1..])
  {
  }

  lemma {:induction false} MergeMerges(fs: seq<Frame>)
    requires ProperFrames(fs)
    ensures Merged(Merge(fs))
    decreases |fs|
  {
    if |fs| >= 2 {
      MergeMerges(fs[1..]);
    }
  }

  /** Two merged frame lists with the same elements are the same list. */
  lemma {:induction false} MergedFramesAreDetermined(a: seq<Frame>, b: seq<Frame>)
    requires Merged(a) && Merged(b) && Flatten(a) == Flatten(b)
    ensures a == b
    decreases |a|
  {
    if a == [] || b == [] {
      NonemptyFlatten(a);
      NonemptyFlatten(b);
    } else {
      HeadFrame(a);
      HeadFrame(b);
      var ea, eb := FrameElements(a[0]), FrameElements(b[0]);
      assert Flatten(a)[0] == Flatten(b)[0];
      if a[0].Data? {
        assert b[0].Data?;
        assert forall i :: 0 <= i < |ea| ==> Flatten(a)[i] == ea[i];
        assert forall i :: 0 <= i < |eb| ==> Flatten(b)[i] == eb[i];
        SameRun(Flatten(a), |ea|, |eb|);
        assert ea == Flatten(a)[..|ea|] == eb;
        assert forall i :: 0 <= i < |ea| ==> ea[i].b == a[0].bytes[i] && eb[i].b == b[0].bytes[i];
        assert a[0].bytes == b[0].bytes;
      }
      assert a[0] == b[0];
      assert Flatten(a[1..]) == Flatten(a)[|ea|..];
      MergedFramesAreDetermined(a[1..], b[1..]);
    }
  }

  /** Two lengths of the same leading run of data are equal. */
  lemma SameRun(es: seq<Element>, m: nat, n: nat)
    requires m <= |es| && n <= |es|
    requires forall i :: 0 <= i < m || 0 <= i < n ==> es[i].Datum?
    requires (m < |es| ==> !es[m].Datum?) && (n < |es| ==> !es[n].Datum?)
    ensures m == n
  {
  }

  lemma NonemptyFlatten(fs: seq<Frame>)
    requires ProperFrames(fs)
    ensures Flatten(fs) == [] <==> fs == []
  {
    if fs != [] {
      assert fs[0] in fs;
      assert |FrameElements(fs[0])| > 0;
    }
  }

  /** The elements of the first frame come first, and data does not continue after it. */
  lemma HeadFrame(fs: seq<Frame>)
    requires Merged(fs) && fs != []
    ensures var n := |FrameElements(fs[0])|;
      && 0 < n <= |Flatten(fs)| && Flatten(fs)[..n] == FrameElements(fs[0])
      && (fs[0].Data? && n < |Flatten(fs)| ==> !Flatten(fs)[n].Datum?)
    ensures Merged(fs[1..])
  {
    var n := |FrameElements(fs[0])|;
    assert fs[0] in fs;
    assert Flatten(fs) == FrameElements(fs[0]) + Flatten(fs[1..]);
    if n < |Flatten(fs)| {
      assert fs[1] in fs;
      assert Flatten(fs[1..]) == FrameElements(fs[1]) + Flatten(fs[1..][1..]);
    }
  }

  /** The merged frames that carry the elements `es`. */
  function Grouped(es: seq<Element>): (fs: seq<Frame>)
    ensures ProperFrames(fs)
    ensures es == [] <==> fs == []
  {
    if es == [] then []
    else
      var rest := Grouped(es[1..]);
      match es[0]
      case Datum(b) =>
        if rest != [] && rest[0].Data? then [Data([b] + rest[0].bytes)] + rest[1..] else [Data([b])] + rest
      case Escaped => [Literal] + rest
      case Command(w) => [Control(w)] + rest
  }

  lemma {:induction false} GroupedIsMerged(es: seq<Element>)
    ensures Merged(Grouped(es)) && Flatten(Grouped(es)) == es
  {
    hide Merged, Flatten, ProperFrames;
    if es == [] {
      NothingGrouped();
    } else {
      GroupedIsMerged(es[1..]);
      var rest := Grouped(es[1..]);
      if es[0].Datum? && rest != [] && rest[0].Data? {
        JoinsTheRun(es[0].b, rest);
      } else {
        StartsAFrame(es[0], Grouped(es)[0], rest);
      }
      assert [es[0]] + es[1..] == es;
    }
  }

  lemma NothingGrouped()
    ensures Merged([]) && Flatten([]) == []
  {
  }

  lemma JoinsTheRun(b: byte, rest: seq<Frame>)
    requires Merged(rest) && rest != [] && rest[0].Data?
    ensures var fs := [Data([b] + rest[0].bytes)] + rest[1..];
      Merged(fs) && Flatten(fs) == [Datum(b)] + Flatten(rest)
  {
    var fs := [Data([b] + rest[0].bytes)] + rest[1..];
    assert fs[1..] == rest[1..];
    assert forall i :: 0 < i < |fs| ==> fs[i] == rest[i];
    Associative([Datum(b)], FrameElements(rest[0]), Flatten(rest[1..]));
  }

  lemma StartsAFrame(e: Element, f: Frame, rest: seq<Frame>)
    requires Merged(rest) && (f.Data? && rest != [] ==> !rest[0].Data?)
    requires FrameElements(f) == [e] && (f.Data? ==> f.bytes != [])
    ensures Merged([f] + rest) && Flatten([f] + rest) == [e] + Flatten(rest)
  {
    var fs := [f] + rest;
    assert fs[1..] == rest;
    assert forall i :: 0 < i < |fs| ==> fs[i] == rest[i - 1];
  }

  /** A chunk delivered by TCP, and every frame and leftover it gives; `None` on overflow. */
  function Received(pending: seq<byte>, data: seq<byte>): Option<(seq<Frame>, seq<byte>)> {
    if |pending| + |data| > MAX_PROTOCOL_FRAME_BYTES then None
    else Some((Grouped(Elements(pending + data)), Leftover(pending + data)))
  }

  function ReceivedAll(pending: seq<byte>, chunks: seq<seq<byte>>): Option<(seq<Frame>, seq<byte>)>
    decreases |chunks|
  {
    if chunks == [] then Some(([], pending))
    else match Received(pending, chunks[0])
      case None => None
      case Some((fs, p)) =>
        match ReceivedAll(p, chunks[1..])
        case None => None
        case Some((gs, q)) => Some((fs + gs, q))
  }

  lemma {:induction false} ReceivedAllElements(pending: seq<byte>, chunks: seq<seq<byte>>)
    requires IncompleteSequence(pending) && ReceivedAll(pending, chunks).Some?
    ensures var (fs, p) := ReceivedAll(pending, chunks).value;
      && ProperFrames(fs)
      && Flatten(fs) == Elements(pending + Concat(chunks))
      && p == Leftover(pending + Concat(chunks))
    decreases |chunks|
  {
    hide Elements, Leftover, Grouped, IncompleteSequence, Flatten;
    if chunks == [] {
      assert pending + [] == pending;
      NothingComplete(pending);
    } else {
      var s, rest := pending + chunks[0], Concat(chunks[1..]);
      GroupedIsMerged(Elements(s));
      ReceivedAllElements(Leftover(s), chunks[1..]);
      ElementsResume(s, rest);
      Associative(pending, chunks[0], rest);
      FlattenAppend(Grouped(Elements(s)), ReceivedAll(Leftover(s), chunks[1..]).value.0);
    }
  }

  lemma NothingComplete(pending: seq<byte>)
    requires IncompleteSequence(pending)
    ensures Elements(pending) == [] == Flatten([]) && Leftover(pending) == pending
  {
  }

  lemma FlattenAppend(a: seq<Frame>, b: seq<Frame>)
    ensures Flatten(a + b) == Flatten(a) + Flatten(b)
  {
    FlatMapAppend(FrameElements, a, b);
  }

  /**
   Framing does not depend on fragmentation: however the bytes were cut, after
   joining adjacent data the frames and the leftover are those of one delivery,
   and frames and leftover together are exactly the bytes received.
   */
  lemma FragmentationIndependent(chunks: seq<seq<byte>>)
    requires ReceivedAll([], chunks).Some?
    ensures var (fs, p) := ReceivedAll([], chunks).value; var whole := Concat(chunks);
      && Merge(fs) == Grouped(Elements(whole))
      && p == Leftover(whole) && IncompleteSequence(p)
      && WireOf(Flatten(fs)) + p == whole
  {
    var whole := Concat(chunks);
    ReceivedAllElements([], chunks);
    assert [] + whole == whole;
    var fs := ReceivedAll([], chunks).value.0;
    MergeKeepsElements(fs);
    MergeMerges(fs);
    GroupedIsMerged(Elements(whole));
    MergedFramesAreDetermined(Merge(fs), Grouped(Elements(whole)));
    WireIsKept(whole);
  }

  // ----- Application data, escaped by the sender and recovered by the receiver -----

  /** The bytes shown to the terminal: data and escaped IACs, no commands. */
  function Shown(e: Element): seq<byte> {
    match e
    case Datum(b) => [b]
    case Escaped => [IAC]
    case Command(_) => []
  }

  function Payload(es: seq<Element>): seq<byte> {
    FlatMap(Shown, es)
  }

  function EscapeByte(b: byte): seq<byte> {
    if b == IAC then [IAC, IAC] else [b]
  }

  function Escape(d: seq<byte>): seq<byte> {
    FlatMap(EscapeByte, d)
  }

  lemma {:induction false} EscapeDecodes(d: seq<byte>)
    ensures Payload(Elements(Escape(d))) == d && Leftover(Escape(d)) == []
  {
    if d != [] {
      var e := Escape(d);
      EscapeDecodes(d[1..]);
      assert e[First(e).1..] == Escape(d[1..]);
    }
  }

  /**
   What one side sends, escaped, the other side's framer turns back into the same
   data, wherever TCP cut it.
   */
  lemma EscapedDataSurvivesTheWire(d: seq<byte>, chunks: seq<seq<byte>>)
    requires Concat(chunks) == Escape(d) && ReceivedAll([], chunks).Some?
    ensures var (fs, p) := ReceivedAll([], chunks).value;
      Payload(Flatten(fs)) == d && p == []
  {
    ReceivedAllElements([], chunks);
    assert [] + Escape(d) == Escape(d);
    EscapeDecodes(d);
  }

  // ----- The receiving buffer -----

  /** How many bytes of `s` come before the first IAC. */
  function DataRun(s: seq<byte>): (n: nat)
    ensures n <= |s|
    ensures forall i :: 0 <= i < n ==> s[i] != IAC
    ensures n < |s| ==> s[n] == IAC
  {
    if s == [] || s[0] == IAC then 0 else 1 + DataRun(s[1..])
  }

  lemma {:induction false} ElementsOfDataRun(s: seq<byte>, n: nat)
    requires n <= |s| && forall i :: 0 <= i < n ==> s[i] != IAC
    ensures Elements(s) == FrameElements(Data(s[..n])) + Elements(s[n..])
    ensures Leftover(s) == Leftover(s[n..])
    decreases n
  {
    if n == 0 {
      assert s[n..] == s;
    } else {
      ElementsOfDataRun(s[1..], n - 1);
      assert s[1..][n - 1..] == s[n..];
      assert s[..n][1..] == s[1..][..n - 1];
      Associative([Datum(s[0])], Datums(s[1..][..n - 1]), Elements(s[n..]));
    }
  }

  /** Scan a subnegotiation for its closing `IAC SE`. */
  method SubnegotiationFrameLength(buffer: seq<byte>) returns (length: Option<nat>)
    ensures length == SubnegotiationEnd(buffer, 2)
    // The length runs to the first `IAC SE` whose IAC is not escaped.
    ensures match length
      case None => forall k: nat :: !EndsAt(buffer, 2, k)
      case Some(end) => EndsAt(buffer, 2, end - 2) && forall k: nat :: k < end - 2 ==> !EndsAt(buffer, 2, k)
  {
    EndIsFirstUnescaped(buffer, 2);
    var index := 2;
    while index + 1 < |buffer|
      invariant SubnegotiationEnd(buffer, 2) == SubnegotiationEnd(buffer, index)
      decreases |buffer| - index
    {
      if buffer[index] != IAC {
        index := index + 1;
      } else if buffer[index + 1] == SE {
        return Some(index + 2);
      } else {
        index := index + 2;
      }
    }
    return None;
  }

  class TelnetFrameBuffer {
    var pending: seq<byte>

    ghost predicate Valid()
      reads this
    {
      IncompleteSequence(pending) && |pending| <= MAX_PROTOCOL_FRAME_BYTES
    }

    constructor ()
      ensures Valid() && pending == []
    {
      pending := [];
    }

    /** Take one chunk; on overflow nothing changes. */
    method Receive(data: seq<byte>) returns (frames: Option<seq<Frame>>)
      requires Valid()
      modifies this
      ensures Valid()
      ensures match Received(old(pending), data)
        case None => frames == None && pending == old(pending)
        case Some((fs, p)) => frames == Some(fs) && pending == p
    {
      if |pending| + |data| > MAX_PROTOCOL_FRAME_BYTES {
        return None;
      }
      pending := pending + data;
      ghost var whole := pending;
      var out: seq<Frame> := [];
      while pending != []
        invariant Progress(whole, out, pending)
        decreases |pending|
      {
        if pending[0] != IAC {
          var length := DataRun(pending);
          DataFrame(whole, out, pending, length);
          out := out + [Data(pending[..length])];
          pending := pending[length..];
          continue;
        }
        if |pending| < 2 {
          break;
        }
        var frame: Frame;
        var length := 2;
        if pending[1] == IAC {
          frame := Literal;
        } else if pending[1] in {WILL, WONT, DO, DONT} {
          if |pending| < 3 {
            break;
          }
          length := 3;
          frame := Control(pending[..3]);
        } else if pending[1] == SB {
          var end := SubnegotiationFrameLength(pending);
          if end.None? {
            break;
          }
          length := end.value;
          frame := Control(pending[..length]);
        } else {
          frame := Control(pending[..2]);
        }
        ControlFrame(whole, out, pending, frame, length);
        out := out + [frame];
        pending := pending[length..];
      }
      Finished(whole, out, pending);
      return Some(out);
    }
  }

  /** The loop invariant of `Receive`: `out` carries what was cut off the front of `whole`. */
  ghost predicate Progress(whole: seq<byte>, out: seq<Frame>, pending: seq<byte>) {
    && Elements(whole) == Flatten(out) + Elements(pending)
    && Leftover(whole) == Leftover(pending)
    && Merged(out)
    && (out != [] && out[|out| - 1].Data? && pending != [] ==> pending[0] == IAC)
    && |pending| <= |whole|
  }

  lemma FrameAppended(fs: seq<Frame>, f: Frame, rest: seq<Element>)
    requires Merged(fs) && (f.Data? ==> f.bytes != [] && (fs != [] ==> !fs[|fs| - 1].Data?))
    ensures Flatten(fs + [f]) + rest == Flatten(fs) + (FrameElements(f) + rest) && Merged(fs + [f])
  {
    FlatMapSnoc(FrameElements, fs, f);
    Associative(Flatten(fs), FrameElements(f), rest);
  }

  lemma DataFrame(whole: seq<byte>, out: seq<Frame>, pending: seq<byte>, n: nat)
    requires Progress(whole, out, pending) && pending != [] && pending[0] != IAC && n == DataRun(pending)
    ensures n > 0 && Progress(whole, out + [Data(pending[..n])], pending[n..])
  {
    ElementsOfDataRun(pending, n);
    FrameAppended(out, Data(pending[..n]), Elements(pending[n..]));
  }

  lemma ControlFrame(whole: seq<byte>, out: seq<Frame>, pending: seq<byte>, f: Frame, n: nat)
    requires Progress(whole, out, pending) && !IncompleteSequence(pending) && pending[0] == IAC
    requires n == First(pending).1 && f == if pending[1] == IAC then Literal else Control(pending[..n])
    ensures Progress(whole, out + [f], pending[n..])
  {
    FrameAppended(out, f, Elements(pending[n..]));
  }

  lemma Finished(whole: seq<byte>, out: seq<Frame>, pending: seq<byte>)
    requires Progress(whole, out, pending) && IncompleteSequence(pending)
    ensures out == Grouped(Elements(whole)) && pending == Leftover(whole)
  {
    GroupedIsMerged(Elements(whole));
    MergedFramesAreDetermined(out, Grouped(Elements(whole)));
  }

  // ----- Sending -----

  /** The socket: takes `accepts` more bytes and then fails. */
  class Writer {
    var accepts: nat
    ghost var written: seq<byte>

    constructor (accepts: nat)
      ensures this.accepts == accepts && written == []
    {
      this.accepts, written := accepts, [];
    }

    method WriteAll(data: seq<byte>) returns (ok: bool)
      modifies this
      ensures ok <==> |data| <= old(accepts)
      ensures ok ==> written == old(written) + data && accepts == old(accepts) - |data|
      ensures !ok ==> written == old(written) + data[..old(accepts)] && accepts == 0
    {
      ok := |data| <= accepts;
      var n := if ok then |data| else accepts;
      written, accepts := written + data[..n], accepts - n;
    }
  }

  /** Escape and write chunk by chunk; the wire sees one escaping of the whole data. */
  method SendEscaped(data: seq<byte>, writer: Writer) returns (ok: bool)
    modifies writer
    ensures ok <==> |Escape(data)| <= old(writer.accepts)
    ensures ok ==> writer.written == old(writer.written) + Escape(data)
    ensures !ok ==> writer.written == old(writer.written) + Escape(data)[..old(writer.accepts)]
  {
    hide Escape;
    var rest := data;
    ghost var sent: seq<byte> := [];
    while rest != []
      invariant Escape(data) == sent + Escape(rest)
      invariant writer.written == old(writer.written) + sent
      invariant writer.accepts == old(writer.accepts) - |sent|
      decreases |rest|
    {
      var n := if |rest| < TERMINAL_INPUT_CHUNK_BYTES then |rest| else TERMINAL_INPUT_CHUNK_BYTES;
      var chunk := Escape(rest[..n]);
      EscapeSplit(rest, n);
      Associative(sent, chunk, Escape(rest[n..]));
      var accepted := writer.WriteAll(chunk);
      if !accepted {
        CutInSecond(sent, chunk, Escape(rest[n..]), old(writer.accepts));
        return false;
      }
      sent := sent + chunk;
      rest := rest[n..];
    }
    assert Escape([]) == [] by { EscapeSplit([], 0); }
    assert Escape(data) == sent;
    return true;
  }

  lemma CutInSecond(a: seq<byte>, b: seq<byte>, c: seq<byte>, n: nat)
    requires |a| <= n <= |a| + |b|
    ensures (a + (b + c))[..n] == a + b[..n - |a|]
  {
  }

  lemma EscapeSplit(data: seq<byte>, n: nat)
    requires n <= |data|
    ensures Escape(data) == Escape(data[..n]) + Escape(data[n..])
    ensures Escape([]) == []
  {
    FlatMapAppend(EscapeByte, data[..n], data[n..]);
    assert data == data[..n] + data[n..];
  }

  // ----- Batched output events -----

  /** The worker's output buffer and the bounded event channel, open for `accepts` more events. */
  class OutputBatcher {
    var output: seq<byte>
    var accepts: nat
    var events: seq<seq<byte>>
    /** Bytes in a batch the closed channel refused. */
    ghost var lost: seq<byte>

    ghost predicate Valid()
      reads this
    {
      && |output| < MAX_OUTPUT_BATCH_BYTES
      && (forall e :: e in events ==> 1 <= |e| <= MAX_OUTPUT_BATCH_BYTES)
      && (lost != [] ==> accepts == 0)
    }

    /** Every byte handed over so far, in order. */
    ghost function Accepted(): seq<byte>
      reads this
    {
      Concat(events) + output
    }

    constructor (accepts: nat)
      ensures Valid() && Accepted() == [] && events == [] && lost == [] && this.accepts == accepts
    {
      output, events, lost := [], [], [];
      this.accepts := accepts;
    }

    method Flush() returns (ok: bool)
      requires |output| <= MAX_OUTPUT_BATCH_BYTES
      requires forall e :: e in events ==> 1 <= |e| <= MAX_OUTPUT_BATCH_BYTES
      requires lost == []
      modifies this
      ensures Valid() && output == []
      ensures ok ==> Accepted() == old(Accepted()) && lost == [] && old(events) <= events
      ensures !ok ==> old(accepts) == 0 && events == old(events) && lost == old(output) != []
      ensures old(output) == [] ==> ok && unchanged(this)
    {
      if output == [] {
        return true;
      }
      var data := output;
      output := [];
      if accepts == 0 {
        lost := data;
        return false;
      }
      ConcatSnoc(events, data);
      accepts := accepts - 1;
      events := events + [data];
      assert Concat(events) + output == Concat(events);
      return true;
    }

    /** Append terminal output; only a closed channel loses anything, and it is reported. */
    method Append(bytes: seq<byte>) returns (ok: bool)
      requires Valid() && lost == []
      modifies this
      ensures Valid()
      ensures ok ==> Accepted() == old(Accepted()) + bytes && lost == []
      ensures old(events) <= events
      ensures !ok ==> accepts == 0 && output == [] && Concat(events) + lost <= old(Accepted()) + bytes && lost != []
    {
      var data := bytes;
      ghost var taken: seq<byte> := [];
      while data != []
        invariant Valid() && lost == []
        invariant bytes == taken + data
        invariant Accepted() == old(Accepted()) + taken
        invariant old(events) <= events
        decreases |data|
      {
        var available := MAX_OUTPUT_BATCH_BYTES - |output|;
        var length := if available < |data| then available else |data|;
        ghost var whole := taken + data;
        Associative(Concat(events), output, data[..length]);
        Associative(old(Accepted()), taken, data[..length]);
        output := output + data[..length];
        taken := taken + data[..length];
        data := data[length..];
        assert taken + data == whole;
        assert Accepted() == old(Accepted()) + taken;
        assert old(Accepted()) + taken <= old(Accepted()) + bytes;
        if |output| == MAX_OUTPUT_BATCH_BYTES {
          var flushed := Flush();
          if !flushed {
            return false;
          }
        }
      }
      assert taken == bytes;
      return true;
    }
  }
}
