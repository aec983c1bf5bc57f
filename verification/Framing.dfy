/** Packet framing: the length header, the outgoing queue, and the incremental reader. */
module Framing {
  import opened Bits

  /** Most packets player_parse_incoming dispatches in one call. */
  const MAX_PACKETS_PER_TICK := 32
  const PLAYER_BUFSIZE := 5000

  /** The longest payload a two-byte length header can announce. */
  const MAX_PAYLOAD := 24575

  type Payload = seq<Byte>

  /** A payload with an opcode, short enough to be framed. */
  type Packet = p: Payload | 1 <= |p| <= MAX_PAYLOAD witness [0]

  // ---- framing -------------------------------------------------------------------------------

  /** The bytes player_write_packet queues: a short packet sends its last byte right after its length. */
  function Frame(p: Packet): (f: seq<Byte>)
    ensures |f| == FrameSize(|p|)
  {
    if |p| >= 160 then [160 + |p| / 256, |p| % 256] + p
    else [|p|, p[|p| - 1]] + p[..|p| - 1]
  }

  /** The length of a frame, given that of its payload. */
  function FrameSize(len: nat): nat {
    len + (if len >= 160 then 2 else 1)
  }

  function FrameAll(ps: seq<Packet>): seq<Byte> {
    if |ps| == 0 then [] else Frame(ps[0]) + FrameAll(ps[1..])
  }

  // ---- deframing -----------------------------------------------------------------------------

  /** What the reader finds at the front of its input. */
  datatype Found = Incomplete | ZeroLength | Packet(payload: Payload, size: nat)

  /** One pass of the loop of player_parse_incoming. */
  function FindPacket(s: seq<Byte>): (f: Found)
    ensures f.Packet? ==> 2 <= f.size <= |s|
  {
    if |s| < 2 then Incomplete
    else
      var len2: int := s[1];
      var len: int := if s[0] >= 160 then (s[0] - 160) * 256 + len2 else s[0];
      if len == 0 then ZeroLength
      else if len == 1 then Packet([len2], 2)
      else if len < 160 then
        if |s| - 1 < len then Incomplete else Packet(s[2..len + 1] + [len2], len + 1)
      else if |s| - 2 < len then Incomplete
      else Packet(s[2..len + 2], len + 2)
  }

  /** All packets in the input, read at once. */
  function Deframe(s: seq<Byte>): seq<Payload>
    decreases |s|
  {
    var f := FindPacket(s);
    if f.Packet? then [f.payload] + Deframe(s[f.size..]) else []
  }

  /** The input behind its first n packets. */
  function Behind(s: seq<Byte>, n: nat): seq<Byte>
    requires n <= |Deframe(s)|
    decreases n
  {
    if n == 0 then s else Behind(s[FindPacket(s).size..], n - 1)
  }

  /** Framing is undone, and nothing behind the packet is touched. */
  lemma FrameRoundTrip(p: Packet, rest: seq<Byte>)
    ensures FindPacket(Frame(p) + rest) == Packet(p, |Frame(p)|)
  {
    var s := Frame(p) + rest;
    if |p| >= 160 {
      assert s[0] == 160 + |p| / 256 && s[1] == |p| % 256;
      assert s[2..|p| + 2] == p;
    } else {
      assert s[0] == |p| && s[1] == p[|p| - 1];
      assert s[2..|p| + 1] == p[..|p| - 1];
      assert p[..|p| - 1] + [p[|p| - 1]] == p;
    }
  }

  /** Deframing inverts framing, for every sequence of payloads. */
  lemma {:induction false} FrameAllRoundTrip(ps: seq<Packet>)
    ensures Deframe(FrameAll(ps)) == ps
    decreases |ps|
  {
    hide FindPacket, Frame;
    if |ps| > 0 {
      FrameRoundTrip(ps[0], FrameAll(ps[1..]));
      assert FrameAll(ps)[|Frame(ps[0])|..] == FrameAll(ps[1..]);
      FrameAllRoundTrip(ps[1..]);
    } else {
      assert FindPacket([]).Incomplete? by { NothingFound(); }
    }
  }

  lemma NothingFound()
    ensures FindPacket([]).Incomplete?
  {
  }

  lemma {:induction false} FrameAllAppend(ps: seq<Packet>, p: Packet)
    ensures FrameAll(ps + [p]) == FrameAll(ps) + Frame(p)
    decreases |ps|
  {
    hide Frame;
    if |ps| == 0 {
      assert ps + [p] == [p] && [p][1..] == [];
    } else {
      assert (ps + [p])[1..] == ps[1..] + [p];
      FrameAllAppend(ps[1..], p);
    }
  }

  /** A packet once found stays found when more input arrives, and so does a zero length. */
  lemma FoundStays(s: seq<Byte>, more: seq<Byte>)
    ensures !FindPacket(s).Incomplete? ==> FindPacket(s + more) == FindPacket(s)
  {
    if |s| >= 2 {
      var f := FindPacket(s);
      if f.Packet? {
        assert (s + more)[2..f.size] == s[2..f.size];
      }
    }
  }

  /** A length of zero, in either header, stops the reader for good. */
  lemma ZeroStops(s: seq<Byte>, more: seq<Byte>)
    requires |s| >= 2 && (s[0] == 0 || (s[0] == 160 && s[1] == 0))
    ensures FindPacket(s + more).ZeroLength? && Deframe(s + more) == []
  {
  }

  lemma {:induction false} DeframeGrows(s: seq<Byte>, more: seq<Byte>, n: nat)
    requires n <= |Deframe(s)|
    ensures Deframe(s) <= Deframe(s + more)
    ensures Behind(s + more, n) == Behind(s, n) + more
    decreases |s|
  {
    hide FindPacket;
    var f := FindPacket(s);
    FoundStays(s, more);
    if f.Packet? {
      assert (s + more)[f.size..] == s[f.size..] + more;
      DeframeGrows(s[f.size..], more, if n == 0 then 0 else n - 1);
    }
  }

  lemma {:induction false} DeframeBehind(s: seq<Byte>, n: nat)
    requires n <= |Deframe(s)|
    ensures Deframe(Behind(s, n)) == Deframe(s)[n..]
    decreases n
  {
    hide FindPacket;
    if n != 0 {
      DeframeBehind(s[FindPacket(s).size..], n - 1);
    }
  }

  lemma {:induction false} BehindShorter(s: seq<Byte>, n: nat)
    requires n <= |Deframe(s)|
    ensures |Behind(s, n)| <= |s|
    decreases n
  {
    hide FindPacket;
    if n != 0 {
      BehindShorter(s[FindPacket(s).size..], n - 1);
    }
  }

  lemma {:induction false} BehindBehind(s: seq<Byte>, m: nat, n: nat)
    requires m + n <= |Deframe(s)|
    ensures n <= |Deframe(Behind(s, m))| && Behind(Behind(s, m), n) == Behind(s, m + n)
    decreases m
  {
    hide FindPacket;
    DeframeBehind(s, m);
    if m != 0 {
      BehindBehind(s[FindPacket(s).size..], m - 1, n);
    }
  }

  // ---- the reader ----------------------------------------------------------------------------

  /** The receive buffer: how many of its bytes are consumed, and the bytes behind them. */
  datatype Buffer = Buffer(processed: nat, pending: seq<Byte>)

  /** net_player_recv: what is received goes to the end. */
  function Fed(b: Buffer, data: seq<Byte>): Buffer {
    b.(pending := b.pending + data)
  }

  /** The socket hands over no more than the free bytes at the end of a buffer of cap bytes. */
  predicate Receivable(cap: nat, b: Buffer, data: seq<Byte>) {
    b.processed + |b.pending| + |data| <= cap
  }

  /** How many packets one call dispatches. */
  function Portion(all: seq<Payload>): (n: nat)
    ensures n <= |all| && (n == 0 <==> |all| == 0)
  {
    if |all| <= MAX_PACKETS_PER_TICK then |all| else MAX_PACKETS_PER_TICK
  }

  /**
   * player_parse_incoming: the buffer afterwards, and the packets dispatched. The buffer starts over only when
   * everything in it is consumed.
   */
  function Parsed(b: Buffer): (Buffer, seq<Payload>) {
    var all := Deframe(b.pending);
    var rest := Behind(b.pending, Portion(all));
    BehindShorter(b.pending, Portion(all));
    (if rest == [] then Buffer(0, []) else Buffer(b.processed + |b.pending| - |rest|, rest), all[..Portion(all)])
  }

  lemma PortionIs(all: seq<Payload>, n: nat)
    ensures n < |all| && n < MAX_PACKETS_PER_TICK ==> n < Portion(all)
    ensures n <= Portion(all) ==> n <= MAX_PACKETS_PER_TICK
    ensures n <= Portion(all) && (n >= MAX_PACKETS_PER_TICK || n == |all|) ==> n == Portion(all)
  {
  }

  lemma BehindNone(s: seq<Byte>)
    ensures Behind(s, 0) == s
  {
  }

  /** Behind n packets the reader finds the next one, if there is one. */
  lemma NextBehind(s: seq<Byte>, n: nat)
    requires n <= |Deframe(s)|
    ensures var f := FindPacket(Behind(s, n));
            && (f.Packet? <==> n < |Deframe(s)|)
            && (f.Packet? ==> Deframe(s)[n] == f.payload && Behind(s, n + 1) == Behind(s, n)[f.size..])
    decreases n
  {
    hide FindPacket;
    if n != 0 {
      NextBehind(s[FindPacket(s).size..], n - 1);
    }
  }

  lemma SliceOfSlice(s: seq<Byte>, from: nat, to: nat, i: nat, j: nat)
    requires i <= j && from + j <= to <= |s|
    ensures s[from..to][i..j] == s[from + i..from + j]
  {
    forall k | 0 <= k < j - i ensures s[from..to][i..j][k] == s[from + i..from + j][k] {
      assert s[from..to][i + k] == s[from + i + k];
    }
  }

  class Inbox {
    const inbuf: array<Byte>
    var inbufLen: nat
    var inbufProcessed: nat

    ghost predicate Valid()
      reads this
    {
      inbufProcessed <= inbufLen <= inbuf.Length
    }

    /** The bytes received and not consumed. */
    ghost function Pending(): seq<Byte>
      requires Valid()
      reads this, inbuf
    {
      inbuf[inbufProcessed..inbufLen]
    }

    ghost function AsBuffer(): Buffer
      requires Valid()
      reads this, inbuf
    {
      Buffer(inbufProcessed, Pending())
    }

    /** net_player_recv: at most the free bytes at the end of the buffer are taken from the socket. */
    method Receive(data: seq<Byte>)
      requires Valid() && Receivable(inbuf.Length, AsBuffer(), data)
      modifies this`inbufLen, inbuf
      ensures Valid() && AsBuffer() == Fed(old(AsBuffer()), data)
    {
      for i := 0 to |data|
        invariant inbufLen == old(inbufLen) && inbufProcessed <= inbufLen
        invariant inbuf[inbufProcessed..inbufLen + i] == old(Pending()) + data[..i]
      {
        inbuf[inbufLen + i] := data[i];
      }
      inbufLen := inbufLen + |data|;
      assert data[..|data|] == data;
    }

    /** player_parse_incoming: the packets it dispatches, in order. */
    method ParseIncoming() returns (dispatched: seq<Payload>)
      requires Valid()
      modifies this
      ensures Valid() && (AsBuffer(), dispatched) == Parsed(old(AsBuffer()))
    {
      hide FindPacket, Deframe, Behind, Portion;
      dispatched := [];
      var counter := 0;
      ghost var before := Pending();
      PortionIs(Deframe(before), 0);
      BehindNone(before);
      while inbufProcessed < inbufLen
        invariant Valid() && inbufLen == old(inbufLen)
        invariant |dispatched| == counter <= Portion(Deframe(before))
        invariant dispatched == Deframe(before)[..counter]
        invariant Pending() == Behind(before, counter)
        decreases inbufLen - inbufProcessed
      {
        PortionIs(Deframe(before), counter);
        if counter >= MAX_PACKETS_PER_TICK {
          break;
        }
        var found := NextPacket();
        NextBehind(before, counter);
        if !found.Packet? {
          break;
        }
        SliceOfSlice(inbuf[..], inbufProcessed, inbufLen, found.size, |Pending()|);
        inbufProcessed := inbufProcessed + found.size;
        dispatched := dispatched + [found.payload];
        counter := counter + 1;
        PortionIs(Deframe(before), counter);
      }
      PortionIs(Deframe(before), counter);
      NextBehind(before, counter);
      if inbufProcessed >= inbufLen {
        assert Pending() == [];
        assert FindPacket([]).Incomplete? by { NothingFound(); }
        inbufProcessed := 0;
        inbufLen := 0;
      }
    }

    /** The head of the loop: the length header is read, and a whole packet copied out of the buffer. */
    method NextPacket() returns (found: Found)
      requires Valid()
      ensures found == FindPacket(Pending())
    {
      var available := inbufLen - inbufProcessed;
      if available < 2 {
        return Incomplete;
      }
      var start := inbufProcessed + 2;
      var len: int := inbuf[inbufProcessed];
      var len2: Byte := inbuf[inbufProcessed + 1];
      if len >= 160 {
        len := (len - 160) * 256 + len2;
      }
      if len == 0 {
        return ZeroLength;
      }
      var size := len + 1;
      var b: seq<Byte> := [];
      if len > 1 {
        if len < 160 {
          if available - 1 < len {
            return Incomplete;
          }
          b := inbuf[start..start + len - 1];
          SliceOfSlice(inbuf[..], inbufProcessed, inbufLen, 2, len + 1);
        } else {
          if available - 2 < len {
            return Incomplete;
          }
          b := inbuf[start..start + len];
          SliceOfSlice(inbuf[..], inbufProcessed, inbufLen, 2, len + 2);
          size := len + 2;
        }
      }
      if len < 160 {
        b := b + [len2];
      }
      found := Packet(b, size);
    }
  }

  // ---- the writer ----------------------------------------------------------------------------

  /** The send buffer: its bytes, and how many of them the socket has taken already. */
  datatype Queue = Queue(bytes: seq<Byte>, written: nat)

  ghost predicate ValidQueue(q: Queue) {
    q.written <= |q.bytes|
  }

  /** The bytes the socket has still to take. */
  function Unsent(q: Queue): seq<Byte>
    requires ValidQueue(q)
  {
    q.bytes[q.written..]
  }

  /** Bytes taken keep their room until everything is taken. */
  predicate HasRoom(cap: nat, q: Queue, len: nat) {
    |q.bytes| + FrameSize(len) <= cap
  }

  /** In 5000 bytes there is room up to the last of them, for one byte more than the payload, or from 160 on two. */
  lemma RoomIff(q: Queue, len: nat)
    ensures HasRoom(PLAYER_BUFSIZE, q, len) <==> |q.bytes| + len <= if len < 160 then 4999 else 4998
  {
  }

  /** net_player_send, when the socket takes n bytes. */
  function Drained(q: Queue, n: nat): (r: Queue)
    requires ValidQueue(q) && n <= |Unsent(q)|
    ensures ValidQueue(r)
  {
    if q.written + n >= |q.bytes| then Queue([], 0) else q.(written := q.written + n)
  }

  /** What is taken and what is left are what there was. */
  lemma DrainedRest(q: Queue, n: nat)
    requires ValidQueue(q) && n <= |Unsent(q)|
    ensures Unsent(q)[..n] + Unsent(Drained(q, n)) == Unsent(q)
  {
    SliceOfSlice(q.bytes, q.written, |q.bytes|, n, |Unsent(q)|);
  }

  class Outbox {
    const outbuf: array<Byte>
    var outbufLen: nat
    var outbufWritten: nat

    ghost predicate Valid()
      reads this
    {
      outbufWritten <= outbufLen <= outbuf.Length
    }

    ghost function AsQueue(): (q: Queue)
      requires Valid()
      reads this, outbuf
      ensures ValidQueue(q)
    {
      Queue(outbuf[..outbufLen], outbufWritten)
    }

    /** net_player_send: the bytes the socket takes, of which there may be fewer than there are. */
    method Send(accepted: nat) returns (taken: seq<Byte>)
      requires Valid() && accepted <= |Unsent(AsQueue())|
      modifies this`outbufLen, this`outbufWritten
      ensures Valid() && AsQueue() == Drained(old(AsQueue()), accepted)
      ensures taken == Unsent(old(AsQueue()))[..accepted]
    {
      taken := outbuf[outbufWritten..outbufWritten + accepted];
      SliceOfSlice(outbuf[..outbufLen], outbufWritten, outbufLen, 0, accepted);
      assert outbuf[..outbufLen][outbufWritten..outbufWritten + accepted] == taken;
      if accepted > 0 {
        outbufWritten := outbufWritten + accepted;
      }
      if outbufWritten >= outbufLen {
        outbufLen := 0;
        outbufWritten := 0;
      }
    }

    /** buf_putu8 on the queue. */
    method PutU8(off: nat, v: int) returns (ok: bool)
      modifies outbuf
      ensures ok <==> off < outbuf.Length
      ensures outbuf[..] == if ok then old(outbuf[..])[off := v % 256] else old(outbuf[..])
    {
      if outbuf.Length - off < 1 {
        return false;
      }
      outbuf[off] := v % 256;
      ok := true;
    }

    /** Two bytes behind the first off. */
    method PutPair(off: nat, a: int, b: int) returns (ok: bool)
      modifies outbuf
      ensures ok <==> off + 2 <= outbuf.Length
      ensures off <= outbuf.Length ==> outbuf[..off] == old(outbuf[..off])
      ensures ok ==> outbuf[..off + 2] == old(outbuf[..off]) + [a % 256, b % 256]
    {
      ok := PutU8(off, a);
      if ok {
        ok := PutU8(off + 1, b);
      }
    }

    /** The two bytes in front of the copied payload: a length, and its low byte or the payload's last byte. */
    method PutHeader(payload: Payload) returns (ok: bool)
      requires Valid() && |payload| >= 1
      modifies outbuf
      ensures ok <==> outbufLen + 2 <= outbuf.Length
      ensures AsQueue() == old(AsQueue())
      ensures ok && |payload| <= MAX_PAYLOAD ==> outbuf[..outbufLen + 2] == AsQueue().bytes + Frame(payload)[..2]
    {
      hide Frame;
      var len := |payload|;
      FrameParts(payload);
      if len >= 160 {
        ok := PutPair(outbufLen, 160 + len / 256, len);
      } else {
        ok := PutPair(outbufLen, len, payload[len - 1]);
      }
    }

    /** player_write_packet behind the opcode: all of the frame is queued, or none of it. */
    method Enqueue(payload: Payload) returns (ok: bool)
      requires Valid() && |payload| >= 1
      modifies this`outbufLen, outbuf
      ensures Valid() && outbufWritten == old(outbufWritten)
      ensures ok <==> HasRoom(outbuf.Length, old(AsQueue()), |payload|)
      ensures ok && |payload| <= MAX_PAYLOAD ==> AsQueue().bytes == old(AsQueue()).bytes + Frame(payload)
      ensures !ok ==> AsQueue() == old(AsQueue())
    {
      hide Frame;
      ok := PutHeader(payload);
      if !ok {
        return;
      }
      var off := outbufLen + 2;
      var len := if |payload| >= 160 then |payload| else |payload| - 1;
      assert outbuf[..off][..outbufLen] == AsQueue().bytes;
      if outbuf.Length - off < len {
        return false;
      }
      CopyIn(off, payload[..len]);
      FrameParts(payload);
      outbufLen := off + len;
    }

    /** memcpy into the queue. */
    method CopyIn(off: nat, bytes: seq<Byte>)
      requires off + |bytes| <= outbuf.Length
      modifies outbuf
      ensures outbuf[..off + |bytes|] == old(outbuf[..off]) + bytes
    {
      for i := 0 to |bytes|
        invariant outbuf[..off + i] == old(outbuf[..off]) + bytes[..i]
      {
        outbuf[off + i] := bytes[i];
      }
    }
  }

  lemma FrameParts(p: Payload)
    requires 1 <= |p|
    ensures |p| <= MAX_PAYLOAD ==>
              && Frame(p) == Frame(p)[..2] + p[..if |p| >= 160 then |p| else |p| - 1]
              && Frame(p)[..2] == if |p| >= 160 then [(160 + |p| / 256) % 256, |p| % 256]
                                  else [|p| % 256, p[|p| - 1] % 256]
  {
  }

  // ---- runs of the reader ----------------------------------------------------------------------

  /** The receive buffer, the bytes it was given and the packets dispatched so far. */
  datatype Reader = Reader(buffer: Buffer, received: seq<Byte>, dispatched: seq<Payload>)

  datatype InboxEvent = Recv(data: seq<Byte>) | Parse

  function Step(r: Reader, e: InboxEvent): Reader {
    match e
    case Recv(data) => r.(buffer := Fed(r.buffer, data), received := r.received + data)
    case Parse => r.(buffer := Parsed(r.buffer).0, dispatched := r.dispatched + Parsed(r.buffer).1)
  }

  function Steps(r: Reader, events: seq<InboxEvent>): Reader
    decreases |events|
  {
    if |events| == 0 then r else Steps(Step(r, events[0]), events[1..])
  }

  /** One call dispatches the packets there are, up to 32, and the bytes behind them stay where they are. */
  lemma ParsedUpTo32(b: Buffer)
    ensures var all := Deframe(b.pending);
            var p := Parsed(b);
            && p.1 == all[..if |all| < 32 then |all| else 32]
            && p.0.pending == Behind(b.pending, |p.1|)
            && (p.0.pending == [] ==> p.0.processed == 0)
            && (p.0.pending != [] ==> p.0.processed + |p.0.pending| == b.processed + |b.pending|)
  {
    hide Deframe, Behind;
    BehindShorter(b.pending, Portion(Deframe(b.pending)));
  }

  /** A frame in numbers: short packets send their last byte first, long ones a length in two bytes. */
  lemma FrameNumbers(p: Packet)
    requires |p| == 416
    ensures Frame([7, 8, 9]) == [3, 9, 7, 8] && Frame([7]) == [1, 7]
    ensures Frame(p)[0] == 161 && Frame(p)[1] == 160 && Frame(p)[2..] == p
  {
  }

  /** What is dispatched, and what is still to come, together are the packets of the whole input. */
  ghost predicate Faithful(r: Reader) {
    && |r.dispatched| <= |Deframe(r.received)|
    && r.dispatched == Deframe(r.received)[..|r.dispatched|]
    && r.buffer.pending == Behind(r.received, |r.dispatched|)
  }

  lemma StepFaithful(r: Reader, e: InboxEvent)
    requires Faithful(r)
    ensures Faithful(Step(r, e))
  {
    hide FindPacket, Deframe, Behind, Parsed;
    match e
    case Recv(data) =>
      DeframeGrows(r.received, data, |r.dispatched|);
    case Parse =>
      ParseFaithful(r.received, |r.dispatched|, r.buffer);
  }

  /** One call takes the packets that come next in the whole input. */
  lemma ParseFaithful(received: seq<Byte>, n: nat, b: Buffer)
    requires n <= |Deframe(received)| && b.pending == Behind(received, n)
    ensures var m := n + |Parsed(b).1|;
            && m <= |Deframe(received)|
            && Deframe(received)[..n] + Parsed(b).1 == Deframe(received)[..m]
            && Parsed(b).0.pending == Behind(received, m)
  {
    hide FindPacket, Deframe, Behind;
    DeframeBehind(received, n);
    BehindBehind(received, n, Portion(Deframe(b.pending)));
  }

  /**
   * However the stream is split into receives, and however calls of the parser are interleaved with them, the
   * packets dispatched are a prefix of the packets of the whole stream, and all of them once nothing is left.
   */
  lemma {:induction false} RunFaithful(r: Reader, events: seq<InboxEvent>)
    requires Faithful(r)
    ensures var t := Steps(r, events);
            && Faithful(t) && t.dispatched <= Deframe(t.received)
            && (Deframe(t.buffer.pending) == [] <==> t.dispatched == Deframe(t.received))
    decreases |events|
  {
    hide FindPacket, Deframe, Behind;
    if |events| == 0 {
      DeframeBehind(r.received, |r.dispatched|);
    } else {
      StepFaithful(r, events[0]);
      RunFaithful(Step(r, events[0]), events[1..]);
    }
  }

  // ---- packets that cannot arrive --------------------------------------------------------------

  /** The bytes received in a run. */
  function DataOf(events: seq<InboxEvent>): seq<Byte> {
    if |events| == 0 then []
    else DataOf(events[..|events| - 1]) + (match events[|events| - 1] case Recv(data) => data case Parse => [])
  }

  /** The reader after the first n events. */
  function ReaderAt(r: Reader, events: seq<InboxEvent>, n: nat): Reader
    requires n <= |events|
  {
    if n == 0 then r else Step(ReaderAt(r, events, n - 1), events[n - 1])
  }

  /** Every receive of the run finds room for its data. */
  ghost predicate AllFit(cap: nat, r: Reader, events: seq<InboxEvent>) {
    forall i :: 0 <= i < |events| && events[i].Recv? ==> Receivable(cap, ReaderAt(r, events, i).buffer, events[i].data)
  }

  /**
   * A packet of which a part is in the buffer, and whose frame does not fit behind the offset at which it starts,
   * is never dispatched, and nor is anything behind it.
   */
  lemma {:induction false} NeverArrives(cap: nat, p: Packet, rest: seq<Byte>, r: Reader, events: seq<InboxEvent>, n: nat)
    requires AllFit(cap, r, events) && n <= |events|
    requires 0 < |r.buffer.pending| && r.buffer.pending + DataOf(events[..n]) <= Frame(p) + rest
    requires r.buffer.processed + |r.buffer.pending| <= cap < r.buffer.processed + |Frame(p)|
    ensures var t := ReaderAt(r, events, n);
            && t.buffer == Buffer(r.buffer.processed, r.buffer.pending + DataOf(events[..n]))
            && t.buffer.processed + |t.buffer.pending| <= cap
            && t.dispatched == r.dispatched
    decreases n
  {
    hide Deframe, Frame, FindPacket, Behind;
    if n > 0 {
      var before := ReaderAt(r, events, n - 1).buffer;
      assert events[..n][..n - 1] == events[..n - 1];
      NeverArrives(cap, p, rest, r, events, n - 1);
      PartFindsNothing(p, |before.pending|);
      assert before.pending == Frame(p)[..|before.pending|];
      BehindNone(before.pending);
    }
  }

  lemma PartFindsNothing(p: Packet, k: nat)
    requires k < |Frame(p)|
    ensures Deframe(Frame(p)[..k]) == []
  {
    hide Frame;
    var part := Frame(p)[..k];
    var rest := Frame(p)[k..];
    assert part + rest == Frame(p) + [];
    FrameRoundTrip(p, []);
    FoundStays(part, rest);
  }

  /**
   * Any other packet is dispatched by the first call that finds its frame in the buffer, however its bytes came and
   * whatever is behind them; and if the frame fits, its missing bytes can be received.
   */
  lemma ArrivesWhenFits(cap: nat, p: Packet, rest: seq<Byte>, r: Reader, events: seq<InboxEvent>, n: nat)
    requires n <= |events| && (forall i :: 0 <= i < n && events[i].Parse? ==> |ReaderAt(r, events, i).buffer.pending| < |Frame(p)|)
    requires 0 < |r.buffer.pending| && r.buffer.pending + DataOf(events[..n]) <= Frame(p) + rest
    ensures var t := ReaderAt(r, events, n);
            && t.buffer == Buffer(r.buffer.processed, r.buffer.pending + DataOf(events[..n])) && t.dispatched == r.dispatched
            && (Frame(p) <= t.buffer.pending ==> r.dispatched + [p] <= Step(t, Parse).dispatched)
            && (r.buffer.processed + |Frame(p)| <= cap && t.buffer.pending <= Frame(p)
                ==> Receivable(cap, t.buffer, Frame(p)[|t.buffer.pending|..]))
  {
    hide Frame, Parsed, DataOf;
    AwaitsFrame(p, rest, r, events, n);
    var t := ReaderAt(r, events, n);
    if Frame(p) <= t.buffer.pending {
      ParseFinds(t.buffer, p);
    }
  }

  lemma ParseFinds(b: Buffer, p: Packet)
    requires Frame(p) <= b.pending
    ensures |Parsed(b).1| > 0 && Parsed(b).1[0] == p
  {
    hide Frame, FindPacket, Behind;
    var behind := b.pending[|Frame(p)|..];
    assert b.pending == Frame(p) + behind;
    FrameRoundTrip(p, behind);
  }

  lemma {:induction false} AwaitsFrame(p: Packet, rest: seq<Byte>, r: Reader, events: seq<InboxEvent>, n: nat)
    requires n <= |events| && (forall i :: 0 <= i < n && events[i].Parse? ==> |ReaderAt(r, events, i).buffer.pending| < |Frame(p)|)
    requires 0 < |r.buffer.pending| && r.buffer.pending + DataOf(events[..n]) <= Frame(p) + rest
    ensures var t := ReaderAt(r, events, n);
            t.buffer == Buffer(r.buffer.processed, r.buffer.pending + DataOf(events[..n])) && t.dispatched == r.dispatched
    decreases n
  {
    hide Deframe, Frame, FindPacket, Behind;
    if n > 0 {
      var before := ReaderAt(r, events, n - 1).buffer;
      assert events[..n][..n - 1] == events[..n - 1];
      AwaitsFrame(p, rest, r, events, n - 1);
      if events[n - 1].Parse? {
        assert before.pending == Frame(p)[..|before.pending|];
        PartFindsNothing(p, |before.pending|);
        BehindNone(before.pending);
      }
    }
  }

  /** In a buffer of the server's size: a packet of 2600 bytes that starts behind one of 2500 bytes never arrives. */
  lemma StuckBehind(first: Packet, p: Packet, rest: seq<Byte>, events: seq<InboxEvent>, n: nat)
    requires |first| == 2500 && |p| == 2600
    requires var start := Step(Step(Reader(Buffer(0, []), [], []), Recv(Frame(first) + Frame(p)[..1])), Parse);
             && AllFit(PLAYER_BUFSIZE, start, events) && n <= |events|
             && Frame(p)[..1] + DataOf(events[..n]) <= Frame(p) + rest
    ensures Receivable(PLAYER_BUFSIZE, Buffer(0, []), Frame(first) + Frame(p)[..1])
    ensures var start := Step(Step(Reader(Buffer(0, []), [], []), Recv(Frame(first) + Frame(p)[..1])), Parse);
            start.dispatched == [first] && ReaderAt(start, events, n).dispatched == [first]
  {
    hide Frame, Deframe, FindPacket, Behind;
    FirstOnly(first, p);
    var start := Step(Step(Reader(Buffer(0, []), [], []), Recv(Frame(first) + Frame(p)[..1])), Parse);
    assert [] + (Frame(first) + Frame(p)[..1]) == Frame(first) + Frame(p)[..1];
    NeverArrives(PLAYER_BUFSIZE, p, rest, start, events, n);
  }

  lemma FirstOnly(first: Packet, p: Packet)
    requires |Frame(p)| > 1
    ensures var s := Frame(first) + Frame(p)[..1];
            Deframe(s) == [first] && Behind(s, 1) == Frame(p)[..1]
  {
    hide Frame;
    var part := Frame(p)[..1];
    FrameRoundTrip(first, part);
    PartFindsNothing(p, 1);
    assert (Frame(first) + part)[|Frame(first)|..] == part;
  }
}
