/** One link of the cluster bus: frames behind a fixed header, read from a byte stream. */
module BusLinks {
  import opened Wrappers
  import opened Bytes
  import opened BusArgs
  import opened Streaming

  const HEADER: nat := 2120
  const MAGIC: nat := 0x43
  const VERSION: nat := 2
  const LEGACY_VERSION: nat := 1
  const MAX_PACKET: nat := 0x1000_0000
  /** Header bytes after the length: epoch, sender, flags, port, state and slot map, carried verbatim. */
  const TAIL: nat := 2108
  const SEPARATOR: Byte := 0xC0

  datatype Frame = Frame(kind: nat, tail: Bytes, args: seq<Bytes>)

  // ---- Little-endian integers ----

  function Le(n: nat, width: nat): (s: Bytes)
    ensures |s| == width
  {
    if width == 0 then [] else [n % 256] + Le(n / 256, width - 1)
  }

  function FromLe(s: Bytes): nat {
    if s == [] then 0 else s[0] + 256 * FromLe(s[1..])
  }

  lemma {:induction false} LeRoundTrip(n: nat, width: nat)
    requires n < Limit(width)
    ensures FromLe(Le(n, width)) == n
  {
    if width > 0 {
      LeRoundTrip(n / 256, width - 1);
      assert Le(n, width)[1..] == Le(n / 256, width - 1);
    }
  }

  // ---- Frames ----

  function EncodeHead(kind: nat, length: nat): (s: Bytes)
    ensures |s| == 12
  {
    Le(MAGIC, 4) + Le(VERSION, 2) + Le(kind, 2) + Le(length, 4)
  }

  function FrameLength(f: Frame): nat {
    HEADER + |EncodeArgs(f.args)|
  }

  /** What `send_msg` appends to the send buffer. */
  function EncodeFrame(f: Frame): Bytes {
    EncodeHead(f.kind, FrameLength(f)) + f.tail + EncodeArgs(f.args)
  }

  /** A message of the C++ type: a 16-bit kind and the fixed header tail. */
  predicate IsMessage(f: Frame) {
    f.kind < 0x1_0000 && |f.tail| == TAIL
  }

  /** The frames `send_msg` does not refuse. */
  predicate Accepted(f: Frame) {
    IsMessage(f) && FrameLength(f) <= MAX_PACKET
  }

  function MagicOf(s: Bytes): nat
    requires |s| >= 12
  {
    FromLe(s[..4])
  }

  function VersionOf(s: Bytes): nat
    requires |s| >= 12
  {
    FromLe(s[4..6])
  }

  function KindOf(s: Bytes): nat
    requires |s| >= 12
  {
    FromLe(s[6..8])
  }

  function LengthOf(s: Bytes): nat
    requires |s| >= 12
  {
    FromLe(s[8..12])
  }

  /** `bus_args_decode_legacy`: split at 0xC0, dropping an empty last piece. */
  function LegacySplit(s: Bytes, current: Bytes): seq<Bytes> {
    if s == [] then (if current == [] then [] else [current])
    else if s[0] == SEPARATOR then [current] + LegacySplit(s[1..], [])
    else LegacySplit(s[1..], current + [s[0]])
  }

  /** The argument area by framing version; other versions are refused. */
  function DecodeArea(version: nat, area: Bytes): Option<seq<Bytes>> {
    if version == VERSION then DecodeArgs(area)
    else if version == LEGACY_VERSION then Some(LegacySplit(area, []))
    else None
  }

  /** Bytes that do not start with the magic number where a header is due. */
  predicate Foreign(s: Bytes) {
    |s| >= HEADER && MagicOf(s) != MAGIC
  }

  /** What the unread bytes hold: `read_complete`, then `decode_msg`. */
  function NextFrame(s: Bytes): Outcome<Frame> {
    if |s| < HEADER then Incomplete
    else if Foreign(s) || LengthOf(s) < HEADER || LengthOf(s) > MAX_PACKET then Broken
    else if |s| < LengthOf(s) then Incomplete
    else
      match DecodeArea(VersionOf(s), s[HEADER..LengthOf(s)])
      case None => Broken
      case Some(args) => Message(Frame(KindOf(s), s[12..HEADER], args), LengthOf(s))
  }

  // ---- Decoding undoes encoding ----

  lemma HeadReads(s: Bytes, kind: nat, length: nat)
    requires |s| >= 12 && s[..12] == EncodeHead(kind, length)
    requires kind < 0x1_0000 && length < 0x1_0000_0000
    ensures MagicOf(s) == MAGIC && VersionOf(s) == VERSION && KindOf(s) == kind && LengthOf(s) == length
  {
    var h := s[..12];
    assert s[..4] == h[..4] == Le(MAGIC, 4);
    assert s[4..6] == h[4..6] == Le(VERSION, 2);
    assert s[6..8] == h[6..8] == Le(kind, 2);
    assert s[8..12] == h[8..12] == Le(length, 4);
    hide Le, FromLe;
    assert Limit(2) == 0x1_0000;
    assert Limit(4) == 0x1_0000_0000;
    LeRoundTrip(MAGIC, 4);
    LeRoundTrip(VERSION, 2);
    LeRoundTrip(kind, 2);
    LeRoundTrip(length, 4);
  }

  /**
   * Every frame `send_msg` lets through is read back whole, whatever follows it,
   * unless it has more than 2^20 arguments: those the sender does not refuse
   * and the receiver disconnects on.
   */
  lemma FrameReadBack(f: Frame, rest: Bytes)
    requires Accepted(f)
    ensures |EncodeFrame(f)| == FrameLength(f)
    ensures NextFrame(EncodeFrame(f) + rest) == if |f.args| <= MAX_ARGS then Message(f, FrameLength(f)) else Broken
  {
    hide EncodeHead, EncodeArgs, DecodeArgs, MagicOf, VersionOf, KindOf, LengthOf;
    var length, area := FrameLength(f), EncodeArgs(f.args);
    var s := EncodeFrame(f) + rest;
    assert s[..12] == EncodeHead(f.kind, length);
    HeadReads(s, f.kind, length);
    assert s[12..HEADER] == f.tail;
    assert s[HEADER..length] == area;
    AreaReadBack(f.args);
  }

  lemma {:induction false} EmptyArguments(args: seq<Bytes>)
    requires forall i | 0 <= i < |args| :: args[i] == []
    ensures |EncodeEach(args)| == 2 * |args|
  {
    if args != [] {
      EmptyArguments(args[1..]);
      assert |EncodeField(0)| == 2;
    }
  }

  /** A frame of one argument too many is small enough to be sent, and the receiver drops the link on it. */
  lemma TooManyArguments(kind: nat, tail: Bytes) returns (f: Frame)
    requires IsMessage(Frame(kind, tail, []))
    ensures Accepted(f) && |f.args| == MAX_ARGS + 1 && NextFrame(EncodeFrame(f)) == Broken
  {
    hide NextFrame, EncodeFrame;
    f := Frame(kind, tail, seq(MAX_ARGS + 1, _ => []));
    EmptyArguments(f.args);
    MaxArgsShown();
    FrameReadBack(f, []);
    assert EncodeFrame(f) + [] == EncodeFrame(f);
  }

  lemma MaxArgsShown()
    ensures |EncodeField(MAX_ARGS + 1)| == 8
  {
    assert |Decimal(10)| == 2 && |Decimal(104)| == 3;
    assert |Decimal(1048)| == 4 && |Decimal(10485)| == 5;
    assert |Decimal(104857)| == 6;
  }

  lemma AreaReadBack(args: seq<Bytes>)
    requires |EncodeArgs(args)| <= MAX_PACKET
    ensures DecodeArgs(EncodeArgs(args)) == if |args| <= MAX_ARGS then Some(args) else None
  {
    hide ReadField, DecodeEach, EncodeField;
    ArgsAreShort(args);
    var s := EncodeArgs(args);
    assert s + [] == s;
    if |args| <= MAX_ARGS {
      RoundTripOrExtended(args, []);
    } else {
      AtLeastOneByteEach(args);
      assert s[0..|EncodeField(|args|)|] == EncodeField(|args|);
      FieldIs(s, 0, |args|);
    }
  }

  lemma {:induction false} ArgsAreShort(args: seq<Bytes>)
    ensures forall a | a in args :: |a| <= |EncodeEach(args)|
  {
    if args != [] {
      ArgsAreShort(args[1..]);
      assert forall a | a in args :: a == args[0] || a in args[1..];
    }
  }

  /** A frame of which bytes are still missing is never taken for a message or an error. */
  lemma FrameCut(f: Frame, k: nat)
    requires Accepted(f) && k < FrameLength(f)
    ensures |EncodeFrame(f)| == FrameLength(f)
    ensures NextFrame(EncodeFrame(f)[..k]) == Incomplete
  {
    hide EncodeHead, EncodeArgs, DecodeArgs, MagicOf, VersionOf, KindOf, LengthOf;
    var s := EncodeFrame(f)[..k];
    if k >= HEADER {
      assert s[..12] == EncodeHead(f.kind, FrameLength(f));
      HeadReads(s, f.kind, FrameLength(f));
    }
  }

  predicate Deliverable(f: Frame) {
    Accepted(f) && |f.args| <= MAX_ARGS
  }

  lemma FramesAreFramed(f: Frame)
    requires Deliverable(f)
    ensures Framed(NextFrame, EncodeFrame, f)
  {
    hide NextFrame, EncodeFrame, Accepted;
    FrameCut(f, 0);
    forall rest: Bytes
      ensures NextFrame(EncodeFrame(f) + rest) == Message(f, |EncodeFrame(f)|)
    {
      FrameReadBack(f, rest);
    }
    forall k | 0 <= k < |EncodeFrame(f)|
      ensures NextFrame(EncodeFrame(f)[..k]) == Incomplete
    {
      FrameCut(f, k);
    }
    NotEmpty(f);
  }

  lemma NotEmpty(f: Frame)
    ensures |EncodeFrame(f)| > 0
  {
  }

  /**
   * Frames sent one after another and delivered in any chunks come out whole
   * and in order; only the bytes of the unfinished frame are kept, fewer than
   * the frame limit.
   */
  lemma FramesDelivered(frames: seq<Frame>, chunks: seq<Bytes>) returns (n: nat)
    requires forall f | f in frames :: Deliverable(f)
    requires Concat(chunks) <= EncodeAll(EncodeFrame, frames)
    ensures n <= |frames|
    ensures var r := ReceiveAll(NextFrame, Receiver([], [], false), chunks);
            && r.delivered == frames[..n] && !r.broken
            && EncodeAll(EncodeFrame, frames[..n]) + r.unread == Concat(chunks)
            && |r.unread| < MAX_PACKET && (n < |frames| ==> |r.unread| < |EncodeFrame(frames[n])|)
    ensures Concat(chunks) == EncodeAll(EncodeFrame, frames) ==> n == |frames|
  {
    hide NextFrame, EncodeFrame, Framed, Deliverable, Drain, ReceiveAll, EncodeAll, InStep;
    NothingToRead();
    forall f | f in frames
      ensures Framed(NextFrame, EncodeFrame, f)
    {
      FramesAreFramed(f);
    }
    n := ChunkingIsInvisible(NextFrame, EncodeFrame, frames, chunks);
    var r := ReceiveAll(NextFrame, Receiver([], [], false), chunks);
    InStepMeans(EncodeFrame, frames, r, n);
    if n < |frames| {
      WithinLimit(frames[n]);
      MoreToCome(frames, n, r.unread);
    } else {
      assert frames[..n] == frames;
      AllArrived(EncodeAll(EncodeFrame, frames), r.unread, Concat(chunks));
    }
  }

  lemma NothingToRead()
    ensures NextFrame([]) == Incomplete
  {
  }

  /** Less than the next frame is less than all frames. */
  lemma MoreToCome(frames: seq<Frame>, n: nat, unread: Bytes)
    requires n < |frames| && |unread| < |EncodeFrame(frames[n])|
    ensures EncodeAll(EncodeFrame, frames[..n]) + unread != EncodeAll(EncodeFrame, frames)
  {
    hide EncodeFrame;
    assert frames == frames[..n] + frames[n..];
    EncodeAllSplit(EncodeFrame, frames[..n], frames[n..]);
    FirstCode(EncodeFrame, frames, n);
  }

  lemma AllArrived(all: Bytes, unread: Bytes, arrived: Bytes)
    requires all + unread == arrived && arrived <= all
    ensures unread == []
  {
  }

  lemma WithinLimit(f: Frame)
    requires Deliverable(f)
    ensures |EncodeFrame(f)| <= MAX_PACKET
  {
  }

  // ---- The link ----

  /** The magic number at `i`, with room for a whole header. */
  predicate MagicAt(s: Bytes, i: nat) {
    i + HEADER <= |s| && FromLe(s[i..i + 4]) == MAGIC
  }

  /** How many bytes `read_complete` skips to the next magic number with room for a header. */
  function Discard(s: Bytes, i: nat): (d: nat)
    requires i <= |s|
    ensures i <= d <= |s|
    ensures d < |s| ==> MagicAt(s, d)
    ensures forall k | i <= k < d :: !MagicAt(s, k)
    decreases |s| - i
  {
    if i == |s| || MagicAt(s, i) then i else Discard(s, i + 1)
  }

  class ClusterLink {
    var received: Bytes
    var toSend: Bytes
    var connected: bool
    var frameInvalid: bool
    /** The messages handed to the callback. */
    var delivered: seq<Frame>

    constructor ()
      ensures received == [] && toSend == [] && connected && !frameInvalid && delivered == []
    {
      received, toSend, connected, frameInvalid, delivered := [], [], true, false, [];
    }

    /** Either nothing is written, or one whole frame whose declared length is its length. */
    method SendMsg(f: Frame) returns (ok: bool)
      requires IsMessage(f)
      modifies this`toSend
      ensures ok <==> connected && Accepted(f)
      ensures toSend == if ok then old(toSend) + EncodeFrame(f) else old(toSend)
      ensures ok ==> LengthOf(EncodeFrame(f)) == |EncodeFrame(f)| == |toSend| - |old(toSend)|
    {
      if !connected {
        return false;
      }
      var bytes := FrameBytes(f.args);
      if HEADER + bytes > MAX_PACKET {
        return false;
      }
      var frame := EncodeArgsLoop(f.args);
      toSend := toSend + (EncodeHead(f.kind, HEADER + bytes) + f.tail + frame);
      ok := true;
      DeclaredLength(f);
    }

    /** Is a whole frame at the front? A bad length raises the flag; foreign bytes are skipped. */
    method ReadComplete() returns (ready: bool)
      modifies this`received, this`frameInvalid
      ensures received == if Foreign(old(received)) then old(received)[Discard(old(received), 0)..] else old(received)
      ensures frameInvalid == (old(frameInvalid) || BadLength(old(received)))
      ensures ready <==> Whole(old(received))
    {
      if |received| < HEADER {
        return false;
      }
      if MagicOf(received) != MAGIC {
        var i := 0;
        while i < |received| && !MagicAt(received, i)
          invariant 0 <= i <= |received| && Discard(received, 0) == Discard(received, i)
        {
          i := i + 1;
        }
        received := received[i..];
        return false;
      }
      var length := LengthOf(received);
      if length < HEADER || length > MAX_PACKET {
        frameInvalid := true;
        return false;
      }
      return |received| >= length;
    }

    /** Takes the frame at the front off the buffer and hands it over, or leaves both alone. */
    method DecodeMsg() returns (ok: bool)
      requires Whole(received)
      modifies this`received, this`delivered
      ensures ok <==> NextFrame(old(received)).Message?
      ensures ok ==> var m := NextFrame(old(received));
                     m.used <= |old(received)| && received == old(received)[m.used..] && delivered == old(delivered) + [m.m]
      ensures !ok ==> received == old(received) && delivered == old(delivered)
    {
      var length := LengthOf(received);
      var args := DecodeArea(VersionOf(received), received[HEADER..length]);
      if args.None? {
        return false;
      }
      delivered := delivered + [Frame(KindOf(received), received[12..HEADER], args.value)];
      received := received[length..];
      return true;
    }

    /**
     * One read. While the stream is well framed this is one step of the
     * abstract receiver. On a bad frame the link is dropped after the good
     * ones; foreign bytes are skipped up to the next header that fits, and the
     * link stays unless more than the frame limit is left.
     */
    method HandleRead(chunk: Bytes)
      requires frameInvalid ==> !connected
      modifies this`received, this`frameInvalid, this`delivered, this`connected
      ensures frameInvalid ==> !connected
      ensures !old(connected) ==> received == old(received) && delivered == old(delivered) && !connected
      ensures var r := Receive(NextFrame, Receiver(old(received), old(delivered), false), chunk);
              old(connected) ==>
                && delivered == r.delivered
                && received == (if r.broken && Foreign(r.unread) then r.unread[Discard(r.unread, 0)..] else r.unread)
                && (connected <==> !r.broken || (Foreign(r.unread) && |received| <= MAX_PACKET))
    {
      hide NextFrame, Foreign, BadLength, Whole, Discard;
      if !connected {
        return;
      }
      received := received + chunk;
      ghost var r := Receive(NextFrame, Receiver(old(received), old(delivered), false), chunk);
      var go := true;
      while go
        invariant connected && (go ==> !frameInvalid)
        invariant go ==> Drain(NextFrame, Receiver(received, delivered, false)) == r
        invariant !go ==> delivered == r.delivered
        invariant !go && !r.broken ==> !frameInvalid && received == r.unread && |received| <= MAX_PACKET
        invariant !go && r.broken ==> (Foreign(r.unread) <==> !frameInvalid)
        invariant !go && r.broken ==>
                    received == if Foreign(r.unread) then r.unread[Discard(r.unread, 0)..] else r.unread
        decreases go, |received|
      {
        WhatIsNext(received);
        go := ReadComplete();
        if go {
          var ok := DecodeMsg();
          if !ok {
            connected := false;
            return;
          }
        }
      }
      if frameInvalid || |received| > MAX_PACKET {
        connected := false;
      }
    }
  }

  // ---- The verdict on every stretch of bytes, with the numbers of the protocol ----

  function LowFirst(a: nat, b: nat, c: nat, d: nat): nat {
    a + 256 * b + 65536 * c + 16777216 * d
  }

  lemma FourBytes(s: Bytes)
    requires |s| == 4
    ensures FromLe(s) == LowFirst(s[0], s[1], s[2], s[3])
  {
    TwoBytes(s[2..]);
    assert s[1..][1..] == s[2..];
    assert FromLe(s[1..]) == s[1] + 256 * FromLe(s[2..]);
  }

  lemma OnlyMagic(s: Bytes)
    requires |s| == 4
    ensures LowFirst(s[0], s[1], s[2], s[3]) == 67 <==> s == [67, 0, 0, 0]
  {
  }

  lemma TwoBytes(s: Bytes)
    requires |s| == 2
    ensures FromLe(s) == LowFirst(s[0], s[1], 0, 0)
  {
    assert s[1..][1..] == [];
    assert FromLe(s[1..]) == s[1];
  }

  /**
   * What the unread bytes are: short of a header of 2120 bytes; foreign unless
   * they start with 0x43 and three zeros; broken by a length outside 2120 to
   * 2^28; short of that length; and else a message exactly in version 1, split
   * at 0xC0, or in version 2 with an argument area that decodes.
   */
  lemma Verdict(s: Bytes)
    ensures |s| < 2120 ==> NextFrame(s) == Incomplete && !Foreign(s) && !BadLength(s) && !Whole(s)
    ensures |s| >= 2120 ==>
              var magic := s[..4] == [67, 0, 0, 0];
              var length := LowFirst(s[8], s[9], s[10], s[11]);
              && (Foreign(s) <==> !magic)
              && (BadLength(s) <==> magic && !(2120 <= length <= 268435456))
              && (Whole(s) <==> magic && 2120 <= length <= 268435456 && length <= |s|)
              && (!magic || !(2120 <= length <= 268435456) ==> NextFrame(s) == Broken)
              && (magic && 2120 <= length <= 268435456 && |s| < length ==> NextFrame(s) == Incomplete)
              && (magic && 2120 <= length <= 268435456 && length <= |s| ==>
                    var version, kind := LowFirst(s[4], s[5], 0, 0), LowFirst(s[6], s[7], 0, 0);
                    NextFrame(s) == OfVersion(version, kind, s[12..2120], s[2120..length]))
  {
    hide FromLe, DecodeArgs, LegacySplit, LowFirst;
    if |s| >= 2120 {
      FourBytes(s[..4]);
      OnlyMagic(s[..4]);
      FourBytes(s[8..12]);
      TwoBytes(s[4..6]);
      TwoBytes(s[6..8]);
    }
  }

  /** Where skipping stops: the magic number with at least a whole header from there on. */
  lemma MagicAtIff(s: Bytes, i: nat)
    ensures MagicAt(s, i) <==> i + 2120 <= |s| && s[i] == 67 && s[i + 1] == 0 && s[i + 2] == 0 && s[i + 3] == 0
  {
    hide FromLe, LowFirst;
    if i + 2120 <= |s| {
      var w := s[i..i + 4];
      FourBytes(w);
      OnlyMagic(w);
      assert w == [s[i], s[i + 1], s[i + 2], s[i + 3]];
    }
  }

  function OfVersion(version: nat, kind: nat, tail: Bytes, area: Bytes): Outcome<Frame> {
    if version == 1 then Message(Frame(kind, tail, LegacySplit(area, [])), 2120 + |area|)
    else if version == 2 && DecodeArgs(area).Some? then Message(Frame(kind, tail, DecodeArgs(area).value), 2120 + |area|)
    else Broken
  }

  /** Pieces with a separator behind each. */
  function Joined(pieces: seq<Bytes>): Bytes {
    if pieces == [] then [] else pieces[0] + [0xC0] + Joined(pieces[1..])
  }

  /** The pieces of a version 1 area: none holds a separator, and separators behind them give the area back. */
  lemma {:induction false} LegacyPieces(s: Bytes, current: Bytes)
    requires 0xC0 !in current
    ensures forall p | p in LegacySplit(s, current) :: 0xC0 !in p
    ensures var all := current + s;
            Joined(LegacySplit(s, current)) == if all == [] || all[|all| - 1] == 0xC0 then all else all + [0xC0]
    decreases |s|
  {
    if s == [] {
      assert current != [] ==> Joined([current]) == current + [0xC0] + Joined([]);
    } else if s[0] == SEPARATOR {
      LegacyPieces(s[1..], []);
      var rest := LegacySplit(s[1..], []);
      assert ([current] + rest)[1..] == rest;
      assert current + s == current + [0xC0] + ([] + s[1..]);
    } else {
      LegacyPieces(s[1..], current + [s[0]]);
      assert current + [s[0]] + s[1..] == current + s;
    }
  }

  /** A header whose declared length cannot be right. */
  predicate BadLength(s: Bytes) {
    |s| >= HEADER && MagicOf(s) == MAGIC && !(HEADER <= LengthOf(s) <= MAX_PACKET)
  }

  predicate Whole(s: Bytes) {
    |s| >= HEADER && MagicOf(s) == MAGIC && HEADER <= LengthOf(s) <= MAX_PACKET && LengthOf(s) <= |s|
  }

  lemma WhatIsNext(s: Bytes)
    ensures Whole(s) ==> !BadLength(s) && !Foreign(s) && !NextFrame(s).Incomplete?
    ensures NextFrame(s).Message? ==> Whole(s) && 0 < NextFrame(s).used <= |s|
    ensures !Whole(s) ==> (NextFrame(s).Broken? <==> Foreign(s) || BadLength(s)) && !(Foreign(s) && BadLength(s))
    ensures !Whole(s) && !Foreign(s) && !BadLength(s) ==> NextFrame(s).Incomplete? && |s| <= MAX_PACKET
  {
  }

  lemma DeclaredLength(f: Frame)
    requires Accepted(f)
    ensures |EncodeFrame(f)| == FrameLength(f) == LengthOf(EncodeFrame(f))
  {
    hide EncodeHead, EncodeArgs, MagicOf, VersionOf, KindOf, LengthOf;
    assert EncodeFrame(f)[..12] == EncodeHead(f.kind, FrameLength(f));
    HeadReads(EncodeFrame(f), f.kind, FrameLength(f));
  }

  /** A link that reads frames in any chunks hands over exactly those that have arrived whole, and stays up. */
  method ReadFrames(chunks: seq<Bytes>, ghost frames: seq<Frame>) returns (link: ClusterLink, ghost n: nat)
    requires forall f | f in frames :: Deliverable(f)
    requires Concat(chunks) <= EncodeAll(EncodeFrame, frames)
    ensures n <= |frames| && link.connected && link.delivered == frames[..n]
    ensures EncodeAll(EncodeFrame, frames[..n]) + link.received == Concat(chunks)
    ensures n < |frames| ==> |link.received| < |EncodeFrame(frames[n])|
    ensures Concat(chunks) == EncodeAll(EncodeFrame, frames) ==> n == |frames|
  {
    hide NextFrame, EncodeFrame, Deliverable, Foreign, Discard, Drain;
    link := new ClusterLink();
    var i := 0;
    while i < |chunks|
      invariant 0 <= i <= |chunks| && fresh(link) && link.connected && !link.frameInvalid
      invariant ReceiveAll(NextFrame, Receiver([], [], false), chunks[..i]) == Receiver(link.received, link.delivered, false)
    {
      assert chunks[..i + 1][..i] == chunks[..i];
      SoFar(chunks, i + 1, EncodeAll(EncodeFrame, frames));
      n := FramesDelivered(frames, chunks[..i + 1]);
      link.HandleRead(chunks[i]);
      i := i + 1;
    }
    assert chunks[..i] == chunks;
    n := FramesDelivered(frames, chunks);
  }

  lemma {:induction false} SoFar(chunks: seq<Bytes>, i: nat, all: Bytes)
    requires i <= |chunks| && Concat(chunks) <= all
    ensures Concat(chunks[..i]) <= all
    decreases |chunks|
  {
    if i < |chunks| {
      var fewer := chunks[..|chunks| - 1];
      assert Concat(fewer) <= Concat(chunks);
      SoFar(fewer, i, all);
      assert fewer[..i] == chunks[..i];
    } else {
      assert chunks[..i] == chunks;
    }
  }
}
