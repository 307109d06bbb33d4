/**
 The inbound guard of the SFTP client: a resumable framer that holds a whole
 length-prefixed packet (section 3 of draft-ietf-secsh-filexfer-02) before it
 lets any byte of that packet through.
 */
module PacketStream {
  import opened Common

  const MAX_PACKET_BYTES: nat := 256 * 1024

  // ----- What a byte stream means: whole legal packets, then a remainder -----

  /** The big-endian length field. */
  function DeclaredLength(s: seq<byte>): nat
    requires |s| >= 4
  {
    ((s[0] as nat * 256 + s[1] as nat) * 256 + s[2] as nat) * 256 + s[3] as nat
  }

  lemma SameLengthField(a: seq<byte>, b: seq<byte>)
    requires 4 <= |a| && 4 <= |b| && a[..4] == b[..4]
    ensures DeclaredLength(a) == DeclaredLength(b)
  {
    assert forall i :: 0 <= i < 4 ==> a[i] == a[..4][i] && b[i] == b[..4][i];
  }

  predicate LegalHeader(s: seq<byte>) {
    |s| >= 4 && 1 <= DeclaredLength(s) <= MAX_PACKET_BYTES
  }

  predicate IllegalHeader(s: seq<byte>) {
    |s| >= 4 && !LegalHeader(s)
  }

  /** `s` starts with a complete legal packet. */
  predicate StartsWithPacket(s: seq<byte>) {
    LegalHeader(s) && 4 + DeclaredLength(s) <= |s|
  }

  /** How many bytes of `s` belong to the complete legal packets it starts with. */
  function WholeLength(s: seq<byte>): (n: nat)
    ensures n <= |s|
  {
    if StartsWithPacket(s) then
      4 + DeclaredLength(s) + WholeLength(s[4 + DeclaredLength(s)..])
    else 0
  }

  function Whole(s: seq<byte>): seq<byte> {
    s[..WholeLength(s)]
  }

  predicate OnlyPackets(s: seq<byte>) {
    WholeLength(s) == |s|
  }

  lemma {:induction false} WholeLengthSplits(a: seq<byte>, b: seq<byte>)
    requires OnlyPackets(a)
    ensures WholeLength(a + b) == |a| + WholeLength(b)
    decreases |a|
  {
    if a == [] {
      assert a + b == b;
    } else {
      var n := 4 + DeclaredLength(a);
      WholeLengthSplits(a[n..], b);
      assert (a + b)[n..] == a[n..] + b;
      SameLengthField(a + b, a);
    }
  }

  lemma {:induction false} WholeIsOnlyPackets(s: seq<byte>)
    ensures OnlyPackets(Whole(s))
    decreases |s|
  {
    if StartsWithPacket(s) {
      var n := 4 + DeclaredLength(s);
      WholeIsOnlyPackets(s[n..]);
      assert Whole(s)[n..] == Whole(s[n..]);
    }
  }

  /**
   `Whole` is the longest packet-aligned prefix: every other packet-aligned prefix
   of `s` is a prefix of it.
   */
  lemma {:induction false} WholeIsLongest(s: seq<byte>, p: seq<byte>)
    requires p <= s && OnlyPackets(p)
    ensures p <= Whole(s) && OnlyPackets(Whole(s))
  {
    WholeIsOnlyPackets(s);
    WholeLengthSplits(p, s[|p|..]);
    assert s == p + s[|p|..];
  }

  /** Bytes once released stay released as more bytes arrive. */
  lemma WholeGrows(s: seq<byte>, t: seq<byte>)
    requires s <= t
    ensures Whole(s) <= Whole(t)
  {
    WholeIsOnlyPackets(s);
    WholeIsLongest(t, Whole(s));
  }

  // ----- The packets a peer sends, and the stream they make -----

  predicate LegalPayload(p: seq<byte>) {
    1 <= |p| <= MAX_PACKET_BYTES
  }

  function Frame(p: seq<byte>): seq<byte>
    requires LegalPayload(p)
  {
    [(|p| / 0x100_0000) as byte, (|p| / 0x1_0000 % 256) as byte, (|p| / 0x100 % 256) as byte, (|p| % 256) as byte] + p
  }

  function FrameAll(ps: seq<seq<byte>>): seq<byte>
    requires forall p :: p in ps ==> LegalPayload(p)
  {
    if ps == [] then [] else Frame(ps[0]) + FrameAll(ps[1..])
  }

  /** The payloads of the complete packets at the front of `s`. */
  function Payloads(s: seq<byte>): seq<seq<byte>>
    decreases |s|
  {
    if StartsWithPacket(s) then
      [s[4..4 + DeclaredLength(s)]] + Payloads(s[4 + DeclaredLength(s)..])
    else []
  }

  /** A cut-off packet: a proper prefix of some legal frame. */
  predicate Incomplete(s: seq<byte>) {
    |s| < 4 || (LegalHeader(s) && |s| < 4 + DeclaredLength(s))
  }

  /**
   Whatever legal packets the peer sent, followed by a cut-off one, the guard
   releases exactly those packets and holds the rest.
   */
  lemma {:induction false} FramedStreamRoundTrips(ps: seq<seq<byte>>, rest: seq<byte>)
    requires forall p :: p in ps ==> LegalPayload(p)
    requires Incomplete(rest)
    ensures Whole(FrameAll(ps) + rest) == FrameAll(ps)
    ensures Payloads(FrameAll(ps) + rest) == ps
  {
    hide Frame;
    if ps == [] {
      assert FrameAll(ps) + rest == rest;
    } else {
      var tail := FrameAll(ps[1..]) + rest;
      Associative(Frame(ps[0]), FrameAll(ps[1..]), rest);
      FrameIsFirst(ps[0], tail);
      FramedStreamRoundTrips(ps[1..], rest);
      assert Whole(Frame(ps[0]) + tail) == Frame(ps[0]) + Whole(tail);
    }
  }

  lemma FrameIsFirst(p: seq<byte>, rest: seq<byte>)
    requires LegalPayload(p)
    ensures var s := Frame(p) + rest;
      && StartsWithPacket(s) && DeclaredLength(s) == |p| && |Frame(p)| == 4 + |p|
      && s[4..4 + |p|] == p && s[4 + |p|..] == rest
  {
    var s := Frame(p) + rest;
    assert s[..4] == Frame(p)[..4];
  }

  /** What follows the complete packets. */
  function Remainder(s: seq<byte>): seq<byte> {
    s[WholeLength(s)..]
  }

  lemma WholeAtBoundary(c: seq<byte>, base: nat)
    requires base <= |c| && OnlyPackets(c[..base])
    requires Incomplete(c[base..]) || IllegalHeader(c[base..])
    ensures Whole(c) == c[..base] && Remainder(c) == c[base..]
  {
    WholeLengthSplits(c[..base], c[base..]);
    assert c == c[..base] + c[base..];
  }

  lemma WholeWithFullPacket(c: seq<byte>, base: nat)
    requires base <= |c| && OnlyPackets(c[..base])
    requires LegalHeader(c[base..]) && |c[base..]| == 4 + DeclaredLength(c[base..])
    ensures OnlyPackets(c) && Whole(c) == c && Remainder(c) == []
  {
    var p := c[base..];
    assert p[4 + DeclaredLength(p)..] == [];
    WholeLengthSplits(c[..base], p);
    assert c == c[..base] + p;
  }

  lemma WholeCoversPackets(c: seq<byte>, base: nat)
    requires base <= |c| && OnlyPackets(c[..base])
    ensures c[..base] <= Whole(c)
  {
    WholeLengthSplits(c[..base], c[base..]);
    assert c == c[..base] + c[base..];
  }

  // ----- The transport and the framer -----

  /** What one poll of the transport answers; `Bytes([])` is the end of the stream. */
  datatype InnerPoll = InnerPending | InnerError | Bytes(data: seq<byte>)

  /** The bytes a script still has to give. */
  function BytesOf(script: seq<InnerPoll>): seq<byte> {
    if script == [] then [] else (if script[0].Bytes? then script[0].data else []) + BytesOf(script[1..])
  }

  /** A transport that only ever has data, until it runs dry. */
  predicate OnlyData(script: seq<InnerPoll>) {
    forall a :: a in script ==> a.Bytes? && a.data != []
  }

  /** Between two moments, what the transport gave is what its script lost. */
  ghost predicate Supplied(given: seq<byte>, script: seq<InnerPoll>, given': seq<byte>, script': seq<InnerPoll>) {
    && given <= given'
    && given + BytesOf(script) == given' + BytesOf(script')
    && (OnlyData(script) ==> OnlyData(script'))
  }

  lemma SuppliedOnward(g0: seq<byte>, s0: seq<InnerPoll>, g1: seq<byte>, s1: seq<InnerPoll>, g2: seq<byte>,
                       s2: seq<InnerPoll>)
    requires Supplied(g0, s0, g1, s1) && Supplied(g1, s1, g2, s2)
    ensures Supplied(g0, s0, g2, s2) && (OnlyData(s0) ==> OnlyData(s1)) && g0 <= g2
  {
    assert g0 <= g1 <= g2;
  }

  /** The wrapped transport: an arbitrary script of answers, cut to the space offered. */
  class Inner {
    var script: seq<InnerPoll>
    ghost var given: seq<byte>
    ghost var last: InnerPoll
    /** How often it was polled. */
    ghost var polls: nat

    constructor (script: seq<InnerPoll>)
      ensures this.script == script && given == []
    {
      this.script := script;
      given, last, polls := [], InnerPending, 0;
    }

    method PollRead(space: nat) returns (r: InnerPoll)
      requires space > 0
      modifies this
      ensures r.Bytes? ==> |r.data| <= space
      ensures given == (if r.Bytes? then old(given) + r.data else old(given)) && last == r && polls == old(polls) + 1
      ensures Supplied(old(given), old(script), given, script)
      ensures OnlyData(old(script)) ==> if r.Bytes? then r.data != [] else r == InnerPending && script == []
      ensures old(script) == [] ==> r == InnerPending && script == []
      ensures old(script) != [] ==> match old(script)[0]
        case Bytes(d) => r == Bytes(if |d| <= space then d else d[..space])
                         && script == (if |d| <= space then [] else [Bytes(d[space..])]) + old(script)[1..]
        case o => r == o && script == old(script)[1..]
    {
      if script != [] {
        Associative(given, if script[0].Bytes? then script[0].data else [], BytesOf(script[1..]));
        assert script[0] in script;
      }
      if script == [] {
        r := InnerPending;
      } else if script[0].Bytes? && |script[0].data| > space {
        var d := script[0].data;
        assert d == d[..space] + d[space..];
        Associative(d[..space], d[space..], BytesOf(script[1..]));
        Associative(given, d[..space], d[space..] + BytesOf(script[1..]));
        r := Bytes(script[0].data[..space]);
        script := [Bytes(script[0].data[space..])] + script[1..];
      } else {
        r := script[0];
        script := script[1..];
      }
      if r.Bytes? {
        given := given + r.data;
      }
      last, polls := r, polls + 1;
    }
  }

  datatype ReadError = Transport | EndInsidePacket | BadLength

  /**
   The outcome of one `poll_read`. `data` is what was put in the caller's buffer;
   an error can arrive after whole packets were already put there.
   */
  datatype ReadPoll = Pending | Ready(data: seq<byte>) | Failed(data: seq<byte>, error: ReadError) {
    function Put(): seq<byte> {
      if Pending? then [] else data
    }
  }

  /** How one turn of the read loop leaves it: go on, or return for one of three reasons. */
  datatype Progress = Moved(data: seq<byte>) | Paused | Ended | Broken(error: ReadError)

  /**
   Each way to stop has its cause: an answer to a poll made on the way, or the bytes that follow the
   complete packets.
   */
  predicate Explained(stop: Progress, polled: bool, last: InnerPoll, rest: seq<byte>) {
    match stop
    case Moved(_) => true
    case Paused => polled && last == InnerPending
    case Ended => polled && last == Bytes([]) && rest == []
    case Broken(error) =>
      && (error.BadLength? <==> IllegalHeader(rest))
      && (error.EndInsidePacket? ==> polled && last == Bytes([]) && rest != [])
      && (error.Transport? ==> polled && last == InnerError)
  }

  lemma ExplainedByMore(stop: Progress, polled: bool, last: InnerPoll, rest: seq<byte>)
    requires Explained(stop, polled, last, rest)
    ensures Explained(stop, true, last, rest)
  {
  }

  /** Over a transport that only has data a stop means that it ran dry, or that a length was illegal. */
  predicate StopsOnlyDry(stop: Progress, script: seq<InnerPoll>) {
    match stop
    case Moved(_) => true
    case Paused => script == []
    case Ended => false
    case Broken(error) => error.BadLength?
  }

  class PacketLimitedStream {
    const inner: Inner
    var packet: seq<byte>
    var packetFilled: nat
    var packetEmitted: nat
    var packetTarget: Option<nat>
    var failed: bool
    /** Every byte put in a caller's buffer so far. */
    ghost var delivered: seq<byte>
    /** How many consumed bytes lie before the packet in the buffer. */
    ghost var base: nat

    ghost predicate Buffers()
      reads this`packet, this`packetFilled, this`packetEmitted, this`packetTarget
    {
      && packetFilled <= |packet| <= 4 + MAX_PACKET_BYTES
      && match packetTarget
         case None => |packet| == 4 && packetEmitted == 0
         case Some(t) =>
           && |packet| == t
           && LegalHeader(packet) && t == 4 + DeclaredLength(packet)
           && 4 <= packetFilled
           && packetEmitted < t
           && (packetEmitted > 0 ==> packetFilled == t)
    }

    /** What the buffer still lacks; a whole packet more while its length is unknown. */
    ghost function Missing(): nat
      reads this`packet, this`packetFilled, this`packetTarget
    {
      (if packetTarget.None? then MAX_PACKET_BYTES + 1 else 0) +
      if packetFilled < |packet| then |packet| - packetFilled else 0
    }

    ghost predicate Accounts()
      reads this`packet, this`packetFilled, this`packetEmitted, this`packetTarget, this`base, this`delivered
      reads inner`given
      requires Buffers()
    {
      && base <= |inner.given|
      && OnlyPackets(inner.given[..base])
      && inner.given[base..] == packet[..packetFilled]
      && delivered == inner.given[..base] + packet[..packetEmitted]
    }

    ghost predicate Sound()
      reads this`packet, this`packetFilled, this`packetEmitted, this`packetTarget, this`base, this`delivered
      reads inner`given
    {
      Buffers() && packetEmitted <= packetFilled && Accounts()
    }

    ghost predicate Valid()
      reads this, inner
    {
      Sound() && (!failed && packetTarget.None? ==> packetFilled < 4)
    }

    constructor (inner: Inner)
      requires inner.given == []
      ensures Valid() && this.inner == inner
      ensures delivered == [] && !failed
    {
      this.inner := inner;
      packet := [0, 0, 0, 0];
      packetFilled, packetEmitted, packetTarget, failed := 0, 0, None, false;
      delivered, base := [], 0;
    }

    /**
     What every reachable framer satisfies: consumed bytes are the delivered ones
     plus those the buffer still holds, and nothing is delivered that is not part
     of a packet already held in full.
     */
    lemma ValidAccounting()
      requires Valid()
      ensures inner.given == delivered + packet[packetEmitted..packetFilled]
      ensures delivered <= Whole(inner.given)
      ensures !failed ==> Incomplete(Remainder(inner.given))
      ensures |packet| <= 4 + MAX_PACKET_BYTES
    {
      hide DeclaredLength, WholeLength, LegalHeader;
      var c := inner.given;
      assert c == c[..base] + c[base..];
      assert packet[..packetFilled] == packet[..packetEmitted] + packet[packetEmitted..packetFilled];
      Associative(c[..base], packet[..packetEmitted], packet[packetEmitted..packetFilled]);
      if packetTarget.Some? && packetFilled == |packet| {
        FullPacket();
      } else {
        assert packet[..packetEmitted] == [];
        if failed {
          WholeCoversPackets(c, base);
        } else {
          Unreleased();
        }
      }
    }

    lemma FullPacket()
      requires Valid() && packetTarget.Some? && packetFilled == |packet|
      ensures Whole(inner.given) == inner.given && Remainder(inner.given) == []
    {
      assert packet[..packetFilled] == packet;
      WholeWithFullPacket(inner.given, base);
    }

    method PollRead(space: nat) returns (r: ReadPoll)
      requires Valid()
      modifies this, inner
      ensures Valid()
      // A failed stream only ever reports the end of the stream.
      ensures old(failed) ==> r == Ready([]) && unchanged(this) && unchanged(inner)
      ensures failed <==> old(failed) || r.Failed?
      // Exactly the bytes put in the caller's buffer count as delivered.
      ensures delivered == old(delivered) + r.Put() && |r.Put()| <= space
      ensures old(inner.given) <= inner.given
              && Supplied(old(inner.given), old(inner.script), inner.given, inner.script)
      // No complete packet is held back unless the caller's buffer is full.
      ensures !old(failed) && |r.Put()| < space ==> delivered == Whole(inner.given)
      // A failure comes with the packets completed before it, and with none exactly when all were delivered before.
      ensures r.Failed? ==> |r.data| < space && r.data == Whole(inner.given)[|old(delivered)|..]
      ensures r.Failed? ==> (r.data == [] <==> Whole(inner.given) == old(delivered))
      // Each outcome has its own cause, in an answer of the transport to this very poll.
      ensures r.Failed? ==> (r.error.BadLength? <==> IllegalHeader(Remainder(inner.given)))
      ensures r.Failed? && r.error.EndInsidePacket? ==>
        inner.polls > old(inner.polls) && inner.last == Bytes([]) && Remainder(inner.given) != []
      ensures r.Failed? && r.error.Transport? ==> inner.polls > old(inner.polls) && inner.last == InnerError
      ensures r.Pending? ==> inner.polls > old(inner.polls) && inner.last == InnerPending
      ensures r == Ready([]) && space > 0 && !old(failed) ==>
        inner.polls > old(inner.polls) && inner.last == Bytes([]) && Remainder(inner.given) == []
      // A transport that only has data is read until it is dry, the buffer is full or a length is illegal.
      ensures OnlyData(old(inner.script)) && !old(failed) ==>
        if r.Failed? then r.error.BadLength? else |r.Put()| == space || inner.script == []
    {
      if failed {
        return Ready([]);
      }
      hide WholeLength, Whole, Remainder, IllegalHeader, Incomplete, PacketLimitedStream.Valid, Supplied, OnlyData,
        BytesOf;
      ghost var before := delivered;
      var out, stop := ReadLoop(space);
      assert delivered[|before|..] == out;
      assert delivered == before <==> out == [];
      r := if stop.Broken? then Failed(out, stop.error)
           else if stop.Paused? && |out| == 0 then Pending
           else Ready(out);
    }

    /** Turn after turn until the buffer is full (`Moved`) or a turn has a reason to leave. */
    method ReadLoop(space: nat) returns (out: seq<byte>, stop: Progress)
      requires Valid() && !failed
      modifies this, inner
      ensures Valid() && (failed <==> stop.Broken?)
      ensures delivered == old(delivered) + out && |out| <= space && (stop.Moved? <==> |out| == space)
      ensures Supplied(old(inner.given), old(inner.script), inner.given, inner.script)
              && old(inner.given) <= inner.given
      ensures !stop.Moved? ==> delivered == Whole(inner.given)
      ensures Explained(stop, inner.polls > old(inner.polls), inner.last, Remainder(inner.given))
      ensures OnlyData(old(inner.script)) ==> StopsOnlyDry(stop, inner.script)
    {
      assert Supplied(inner.given, inner.script, inner.given, inner.script);
      assert Explained(Moved([]), false, inner.last, Remainder(inner.given)) && StopsOnlyDry(Moved([]), inner.script);
      hide WholeLength, Whole, Remainder, IllegalHeader, Incomplete, PacketLimitedStream.Valid, Supplied, OnlyData,
        BytesOf;
      hide Explained, StopsOnlyDry, PacketLimitedStream.Missing;
      out, stop := [], Moved([]);
      while |out| < space
        invariant Valid() && !failed && stop.Moved?
        invariant |out| <= space
        invariant delivered == old(delivered) + out
        invariant Supplied(old(inner.given), old(inner.script), inner.given, inner.script)
                  && old(inner.given) <= inner.given
        invariant old(inner.polls) <= inner.polls
        invariant Explained(stop, inner.polls > old(inner.polls), inner.last, Remainder(inner.given))
        invariant OnlyData(old(inner.script)) ==> StopsOnlyDry(stop, inner.script)
        decreases space - |out|, Missing()
      {
        ghost var given, script, polls := inner.given, inner.script, inner.polls;
        stop := Advance(space - |out|);
        SuppliedOnward(old(inner.given), old(inner.script), given, script, inner.given, inner.script);
        ExplainedByMore(stop, inner.polls > polls, inner.last, Remainder(inner.given));
        if !stop.Moved? {
          return;
        }
        Associative(old(delivered), out, stop.data);
        out := out + stop.data;
      }
    }

    /** One turn of the read loop. */
    method Advance(room: nat) returns (p: Progress)
      requires Valid() && !failed && room > 0
      modifies this, inner
      ensures Valid()
      ensures failed <==> p.Broken?
      ensures Supplied(old(inner.given), old(inner.script), inner.given, inner.script)
      ensures old(inner.polls) <= inner.polls
      ensures OnlyData(old(inner.script)) ==> StopsOnlyDry(p, inner.script)
      ensures p.Moved? ==>
        && |p.data| <= room && delivered == old(delivered) + p.data
        && (p.data == [] ==> Missing() < old(Missing()))
      ensures !p.Moved? ==> delivered == old(delivered) == Whole(inner.given)
      ensures Explained(p, inner.polls > old(inner.polls), inner.last, Remainder(inner.given))
    {
      hide DeclaredLength, WholeLength, LegalHeader, IllegalHeader, Incomplete, Accounts, Whole, Remainder;
      var target := if packetTarget.Some? then packetTarget.value else 4;
      if packetFilled < target {
        var answer := FillFromInner(target);
        match answer
        case InnerPending =>
          Unreleased();
          return Paused;
        case InnerError =>
          failed := true;
          Unreleased();
          return Broken(Transport);
        case Bytes(d) =>
          if d == [] {
            Unreleased();
            if packetFilled == 0 && packetTarget.None? {
              return Ended;
            }
            failed := true;
            return Broken(EndInsidePacket);
          }
          if packetFilled < target {
            return Moved([]);
          }
      }
      if packetTarget.None? {
        var accepted := AcceptHeader();
        return if accepted then Moved([]) else Broken(BadLength);
      }
      var data := Release(room);
      return Moved(data);
    }

    /** One poll of the transport into the unfilled part of the buffer. */
    method FillFromInner(target: nat) returns (answer: InnerPoll)
      requires Valid() && !failed
      requires packetFilled < target == |packet|
      modifies this`packet, this`packetFilled, inner
      ensures Sound()
      ensures packetTarget.Some? ==> packetFilled <= target
      ensures inner.last == answer && inner.polls == old(inner.polls) + 1
      ensures Supplied(old(inner.given), old(inner.script), inner.given, inner.script)
      ensures OnlyData(old(inner.script)) ==>
              if answer.Bytes? then answer.data != [] else answer == InnerPending && inner.script == []
      ensures |packet| == target && packetFilled == old(packetFilled) + if answer.Bytes? then |answer.data| else 0
      ensures !answer.Bytes? ==> unchanged(this)
    {
      hide DeclaredLength;
      answer := inner.PollRead(target - packetFilled);
      if answer.Bytes? {
        var d := answer.data;
        var grown := packet[..packetFilled] + d + packet[packetFilled + |d|..];
        assert grown[..packetFilled + |d|] == packet[..packetFilled] + d;
        if packetTarget.Some? {
          assert grown[..4] == packet[..4];
          SameLengthField(grown, packet);
        }
        assert packetEmitted == 0;
        assert inner.given[..base] == old(inner.given)[..base];
        assert inner.given[base..] == old(inner.given)[base..] + d;
        packet := grown;
        packetFilled := packetFilled + |d|;
      }
    }

    /** Check a complete length field and make room for the packet it announces. */
    method AcceptHeader() returns (accepted: bool)
      requires Sound() && !failed && packetTarget.None? && packetFilled == 4
      modifies this`packet, this`packetTarget, this`failed
      ensures Valid()
      ensures accepted <==> !failed
      ensures accepted <==> packetTarget.Some?
      ensures !accepted ==> delivered == Whole(inner.given) && IllegalHeader(Remainder(inner.given))
    {
      assert packet[..packetFilled] == packet;
      var length := DeclaredLength(packet);
      if length == 0 || length > MAX_PACKET_BYTES {
        failed := true;
        WholeAtBoundary(inner.given, base);
        return false;
      }
      var grown := packet + seq(length, _ => 0);
      assert grown[..4] == packet;
      packet := grown;
      packetTarget := Some(4 + length);
      return true;
    }

    /** Copy as much of a complete packet as fits, and start afresh after its last byte. */
    method Release(room: nat) returns (data: seq<byte>)
      requires Valid() && !failed && packetTarget.Some? && packetFilled == |packet|
      requires room > 0
      modifies this
      ensures Valid() && !failed
      ensures 0 < |data| <= room && delivered == old(delivered) + data
      ensures var end := old(packetEmitted) + |data|;
        && end <= |old(packet)| && data == old(packet)[old(packetEmitted)..end]
        && (if end < |old(packet)| then |data| == room && packetEmitted == end && packetTarget == old(packetTarget)
            else |packet| == 4 && packetFilled == packetEmitted == 0 && packetTarget == None)
    {
      hide DeclaredLength, WholeLength, LegalHeader, Whole, OnlyPackets;
      var target := packetTarget.value;
      var count := if room <= target - packetEmitted then room else target - packetEmitted;
      var end := packetEmitted + count;
      data := packet[packetEmitted..end];
      FullPacket();
      assert packet[..packetFilled] == packet;
      assert packet[..end] == packet[..packetEmitted] + data;
      Associative(inner.given[..base], packet[..packetEmitted], data);
      delivered := delivered + data;
      packetEmitted := end;
      if packetEmitted == target {
        assert packet[..end] == packet;
        assert inner.given == inner.given[..base] + packet;
        StartAfresh();
      }
    }

    /** Every consumed byte has been delivered: wait for the next length field. */
    method StartAfresh()
      requires |packet| >= 4 && !failed && delivered == inner.given && Whole(inner.given) == inner.given
      modifies this`packet, this`packetFilled, this`packetEmitted, this`packetTarget, this`base
      ensures Valid() && |packet| == 4 && packetFilled == packetEmitted == 0 && packetTarget == None
    {
      packet := packet[..4];
      packetFilled, packetEmitted, packetTarget := 0, 0, None;
      base := |inner.given|;
      assert inner.given[..base] == inner.given;
    }

    /** While the buffered packet is incomplete, everything complete is already delivered. */
    lemma Unreleased()
      requires Valid()
      requires packetFilled < |packet|
      ensures delivered == Whole(inner.given) && Remainder(inner.given) == packet[..packetFilled]
      ensures Incomplete(Remainder(inner.given)) && !IllegalHeader(Remainder(inner.given))
    {
      if packetFilled >= 4 {
        assert packet[..packetFilled][..4] == packet[..4];
      }
      WholeAtBoundary(inner.given, base);
    }
  }

  /** Nothing after an illegal length field is ever part of a packet. */
  lemma IllegalStops(given: seq<byte>, more: seq<byte>)
    requires IllegalHeader(Remainder(given))
    ensures Whole(given + more) == Whole(given) && IllegalHeader(Remainder(given + more))
  {
    var whole, rest := Whole(given), Remainder(given);
    WholeIsOnlyPackets(given);
    assert given == whole + rest;
    Associative(whole, rest, more);
    assert (rest + more)[..4] == rest[..4];
    SameLengthField(rest + more, rest);
    WholeLengthSplits(whole, rest + more);
    assert given + more == whole + (rest + more);
    assert WholeLength(rest + more) == 0;
  }

  /**
   When a failure comes with data. Over a transport that only has data, a poll with room
   for all of it fails exactly when a length field at a packet boundary is illegal, and
   puts every undelivered packet before that field in the buffer, failing or not.
   */
  method PollToTheEnd(stream: PacketLimitedStream, space: nat) returns (r: ReadPoll)
    requires stream.Valid() && !stream.failed && OnlyData(stream.inner.script)
    requires |stream.inner.given + BytesOf(stream.inner.script)| < space
    modifies stream, stream.inner
    ensures var total := old(stream.inner.given + BytesOf(stream.inner.script));
      && (r.Failed? <==> IllegalHeader(Remainder(total)))
      && (r.Failed? ==> r.error == BadLength)
      && old(stream.delivered) <= Whole(total) && r.Put() == Whole(total)[|old(stream.delivered)|..]
  {
    ghost var before := stream.delivered;
    r := stream.PollRead(space);
    stream.ValidAccounting();
    hide WholeLength, Whole, Remainder, IllegalHeader, PacketLimitedStream.Valid;
    assert |r.Put()| <= |stream.delivered| <= |stream.inner.given|;
    ghost var more := BytesOf(stream.inner.script);
    if r.Failed? {
      IllegalStops(stream.inner.given, more);
    } else {
      assert stream.inner.given + [] == stream.inner.given;
      IncompleteIsLegal(Remainder(stream.inner.given));
    }
    assert stream.delivered[|before|..] == r.Put();
  }

  lemma IncompleteIsLegal(s: seq<byte>)
    requires Incomplete(s)
    ensures !IllegalHeader(s)
  {
  }

  /** A packet of one byte, then an empty one: the poll that fails has already put the first in the buffer. */
  method FailureCarriesData() returns (r: ReadPoll)
    ensures r == Failed([0, 0, 0, 1, 7], BadLength)
  {
    hide Whole, WholeLength, Remainder, IllegalHeader, BytesOf, PacketLimitedStream.Valid;
    var total: seq<byte> := [0, 0, 0, 1, 7, 0, 0, 0, 0];
    var inner := new Inner([Bytes(total)]);
    var stream := new PacketLimitedStream(inner);
    OnePacketThenIllegal(total);
    OneAnswer(total);
    assert inner.given + total == total;
    r := PollToTheEnd(stream, 100);
  }

  lemma OneAnswer(data: seq<byte>)
    ensures BytesOf([Bytes(data)]) == data
  {
    assert [Bytes(data)][1..] == [];
  }

  lemma OnePacketThenIllegal(total: seq<byte>)
    requires total == [0, 0, 0, 1, 7, 0, 0, 0, 0]
    ensures Whole(total) == [0, 0, 0, 1, 7] && IllegalHeader(Remainder(total))
  {
    assert total[5..] == [0, 0, 0, 0];
    assert DeclaredLength(total) == 1 && DeclaredLength(total[5..]) == 0;
    assert WholeLength(total[5..]) == 0;
  }
}
