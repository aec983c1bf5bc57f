/** Opcodes on the wire: player_write_packet masks them, a peer with the same generator unmasks them. */
module Session {
  import opened Bits
  import opened Framing
  import opened Isaac

  /** How a connection translates opcodes; with revision 203 an opcode mapped to 0 cannot be sent. */
  datatype Protocol = Protocol(rev203: bool, isaacReady: bool, opcodesOut: seq<Byte>)

  ghost predicate ValidProtocol(c: Protocol) {
    |c.opcodesOut| == 256
  }

  /** The key byte of a drawn word. */
  function Key(word: bv32): Byte {
    word as int % 256
  }

  /** The queue of a connection and its outgoing generator. */
  datatype Link = Link(queue: Queue, gen: Source)

  ghost predicate ValidSource(g: Source) {
    Shaped(g.state) && g.randcnt <= WORDS
  }

  ghost predicate ValidLink(l: Link) {
    ValidQueue(l.queue) && ValidSource(l.gen)
  }

  predicate Unmapped(c: Protocol, p: Packet)
    requires |c.opcodesOut| == 256
  {
    c.rev203 && c.opcodesOut[p[0]] == 0
  }

  /** The payload with the opcode of the connection's revision. */
  function Translated(c: Protocol, p: Packet): (t: Packet)
    requires |c.opcodesOut| == 256
    ensures |t| == |p|
  {
    if c.rev203 then p[0 := c.opcodesOut[p[0]]] else p
  }

  function Masked(p: Packet, key: Byte): (m: Packet)
    ensures |m| == |p|
  {
    p[0 := (p[0] + key) % 256]
  }

  function Unmasked(p: Payload, key: Byte): (m: Payload)
    requires |p| >= 1
    ensures |m| == |p|
  {
    p[0 := (p[0] - key) % 256]
  }

  datatype Outcome = Sent | NoOpcode | NoRoom

  /** player_write_packet, with a send buffer of cap bytes. */
  function Write(c: Protocol, l: Link, p: Packet, cap: nat): (r: (Outcome, Link))
    requires ValidProtocol(c) && ValidLink(l)
    ensures ValidLink(r.1)
  {
    if Unmapped(c, p) then (NoOpcode, l)
    else
      var t := Translated(c, p);
      var gen := if c.isaacReady then Draw(l.gen).1 else l.gen;
      var m := if c.isaacReady then Masked(t, Key(Draw(l.gen).0)) else t;
      if HasRoom(cap, l.queue, |p|) then (Sent, Link(l.queue.(bytes := l.queue.bytes + Frame(m)), gen))
      else (NoRoom, Link(l.queue, gen))
  }

  // ---- in place ----------------------------------------------------------------------------------

  class Connection {
    const outbox: Outbox
    const isaacOut: Generator
    const protocolRev: nat
    var isaacReady: bool
    const opcodesOut: array<Byte>

    ghost predicate Valid()
      reads this, outbox, isaacOut
    {
      && outbox.Valid() && isaacOut.Valid() && opcodesOut.Length == 256
      && opcodesOut != outbox.outbuf
      && outbox.outbuf as object !in {isaacOut.randrsl, isaacOut.mm}
      && opcodesOut as object !in {isaacOut.randrsl, isaacOut.mm}
    }

    /** The arrays of the connection; a payload is none of them. */
    ghost function Arrays(): set<object>
      reads this, outbox, isaacOut
    {
      {outbox.outbuf as object, opcodesOut as object, isaacOut.randrsl as object, isaacOut.mm as object}
    }

    constructor (outbox: Outbox, isaacOut: Generator, protocolRev: nat, opcodesOut: array<Byte>)
      ensures this.outbox == outbox && this.isaacOut == isaacOut && this.protocolRev == protocolRev
      ensures this.opcodesOut == opcodesOut && !isaacReady
    {
      this.outbox := outbox;
      this.isaacOut := isaacOut;
      this.protocolRev := protocolRev;
      this.opcodesOut := opcodesOut;
      isaacReady := false;
    }

    ghost function AsProtocol(): Protocol
      reads this, opcodesOut
    {
      Protocol(protocolRev == 203, isaacReady, opcodesOut[..])
    }

    ghost function AsLink(): Link
      requires Valid()
      reads this, outbox, outbox.outbuf, isaacOut, isaacOut.randrsl, isaacOut.mm
    {
      Link(outbox.AsQueue(), isaacOut.AsSource())
    }

    /** The first statements of player_write_packet: the opcode is mapped and masked in the payload itself. */
    method MaskOpcode(b: array<Byte>, len: nat) returns (ok: bool)
      requires Valid() && 1 <= len <= b.Length && len <= MAX_PAYLOAD && b !in Arrays()
      modifies b, isaacOut, isaacOut.randrsl, isaacOut.mm
      ensures Valid()
      ensures ok <==> !Unmapped(old(AsProtocol()), old(b[..len]))
      ensures ok ==> var t := Translated(old(AsProtocol()), old(b[..len]));
                     if isaacReady then
                       var d := Draw(old(isaacOut.AsSource()));
                       b[..len] == Masked(t, Key(d.0)) && isaacOut.AsSource() == d.1
                     else b[..len] == t && isaacOut.AsSource() == old(isaacOut.AsSource())
      ensures !ok ==> b[..] == old(b[..]) && isaacOut.AsSource() == old(isaacOut.AsSource())
    {
      hide Draw, Key;
      if protocolRev == 203 {
        var opcode := opcodesOut[b[0]];
        if opcode == 0 {
          return false;
        }
        b[0] := opcode;
      }
      ghost var t := b[..len];
      assert t == Translated(old(AsProtocol()), old(b[..len]));
      if isaacReady {
        var word := isaacOut.Next();
        assert b[..len] == t;
        b[0] := (b[0] + Key(word)) % 256;
        assert b[..len] == Masked(t, Key(word));
      }
      ok := true;
    }

    /** player_write_packet */
    method WritePacket(b: array<Byte>, len: nat) returns (ok: bool)
      requires Valid() && 1 <= len <= b.Length && len <= MAX_PAYLOAD && b !in Arrays()
      modifies b, isaacOut, isaacOut.randrsl, isaacOut.mm, outbox, outbox.outbuf
      ensures Valid()
      ensures var w := Write(old(AsProtocol()), old(AsLink()), old(b[..len]), outbox.outbuf.Length);
              AsLink() == w.1 && ok == w.0.Sent?
    {
      hide Draw, Key, Frame, Translated, Masked;
      ok := MaskOpcode(b, len);
      if !ok {
        return;
      }
      ok := outbox.Enqueue(b[..len]);
    }
  }

  // ---- the other direction ------------------------------------------------------------------------

  /** What becomes of the opcode byte of an incoming packet: revision 203 unmasks it and looks it up. */
  function Understood(rev203: bool, isaacReady: bool, opcodesIn: seq<Byte>, g: Source, code: Byte): (r: (Byte, Source))
    requires ValidSource(g) && |opcodesIn| == 256
    ensures ValidSource(r.1)
  {
    if !rev203 then (code, g)
    else if isaacReady then (opcodesIn[(code - Key(Draw(g).0)) % 256], Draw(g).1)
    else (opcodesIn[code], g)
  }

  /** Other revisions have their opcodes in clear. */
  lemma OtherRevisions(isaacReady: bool, opcodesIn: seq<Byte>, g: Source, code: Byte)
    requires ValidSource(g) && |opcodesIn| == 256
    ensures Understood(false, isaacReady, opcodesIn, g, code) == (code, g)
    ensures Understood(true, false, opcodesIn, g, code) == (opcodesIn[code], g)
  {
  }

  class Receiver {
    const isaacIn: Generator
    const protocolRev: nat
    const opcodesIn: array<Byte>
    var isaacReady: bool

    ghost predicate Valid()
      reads this, isaacIn
    {
      isaacIn.Valid() && opcodesIn.Length == 256 && opcodesIn as object !in {isaacIn.randrsl, isaacIn.mm}
    }

    constructor (isaacIn: Generator, protocolRev: nat, opcodesIn: array<Byte>)
      ensures this.isaacIn == isaacIn && this.protocolRev == protocolRev && this.opcodesIn == opcodesIn && !isaacReady
    {
      this.isaacIn := isaacIn;
      this.protocolRev := protocolRev;
      this.opcodesIn := opcodesIn;
      isaacReady := false;
    }

    /** The statements at the head of process_packet. */
    method ReadOpcode(data: Packet) returns (opcode: Byte)
      requires Valid()
      modifies isaacIn, isaacIn.randrsl, isaacIn.mm
      ensures Valid()
      ensures (opcode, isaacIn.AsSource())
           == Understood(protocolRev == 203, isaacReady, opcodesIn[..], old(isaacIn.AsSource()), data[0])
    {
      hide Draw, Key;
      opcode := data[0];
      if protocolRev == 203 {
        if isaacReady {
          var word := isaacIn.Next();
          opcode := (opcode - Key(word)) % 256;
        }
        opcode := opcodesIn[opcode];
      }
    }
  }

  /** The opcodes of a run of incoming packets. */
  function UnderstoodAll(opcodesIn: seq<Byte>, g: Source, codes: seq<Byte>): seq<Byte>
    requires ValidSource(g) && |opcodesIn| == 256
    decreases |codes|
  {
    if |codes| == 0 then []
    else
      var first := Understood(true, true, opcodesIn, g, codes[0]);
      [first.0] + UnderstoodAll(opcodesIn, first.1, codes[1..])
  }

  /** What a client sends that adds the keys of the same generator. */
  function SentBy(g: Source, codes: seq<Byte>): (r: seq<Byte>)
    requires ValidSource(g)
    ensures |r| == |codes|
    decreases |codes|
  {
    if |codes| == 0 then []
    else [(codes[0] + Key(Draw(g).0)) % 256] + SentBy(Draw(g).1, codes[1..])
  }

  /** The server understands every opcode of every run of packets of such a client. */
  lemma {:induction false} ClientUnderstood(opcodesIn: seq<Byte>, g: Source, codes: seq<Byte>)
    requires ValidSource(g) && |opcodesIn| == 256
    ensures var r := UnderstoodAll(opcodesIn, g, SentBy(g, codes));
            |r| == |codes| && forall i :: 0 <= i < |codes| ==> r[i] == opcodesIn[codes[i]]
    decreases |codes|
  {
    hide Draw, Key;
    if |codes| > 0 {
      var next := Draw(g).1;
      ClientUnderstood(opcodesIn, next, codes[1..]);
      assert SentBy(g, codes)[1..] == SentBy(next, codes[1..]);
      assert forall i :: 0 < i < |codes| ==> codes[i] == codes[1..][i - 1];
    }
  }

  // ---- runs ------------------------------------------------------------------------------------------

  /** A connection: its protocol, the size of its send buffer, and its outgoing generator at the start. */
  datatype Setup = Setup(protocol: Protocol, cap: nat, gen: Source)

  ghost predicate ValidSetup(u: Setup) {
    ValidProtocol(u.protocol) && ValidSource(u.gen)
  }

  /** A packet is written, or the socket takes up to n bytes. */
  datatype Action = Put(p: Packet) | Drain(n: nat)

  /** A packet queued, with its translated opcode, and how many writes had drawn a key in vain before it. */
  datatype Shipped = Shipped(packet: Packet, lost: nat)

  /** The connection, the bytes the socket has taken, the packets queued so far, and how many found no room. */
  datatype Trace = Trace(link: Link, taken: seq<Byte>, sent: seq<Shipped>, lost: nat)

  function Performed(u: Setup, t: Trace, a: Action): (r: Trace)
    requires ValidSetup(u) && ValidLink(t.link)
    ensures ValidLink(r.link) && t.lost <= r.lost
  {
    match a
    case Drain(n) =>
      var q := t.link.queue;
      var m := if n < |Unsent(q)| then n else |Unsent(q)|;
      t.(link := t.link.(queue := Drained(q, m)), taken := t.taken + Unsent(q)[..m])
    case Put(p) =>
      var w := Write(u.protocol, t.link, p, u.cap);
      match w.0
      case NoOpcode => t.(link := w.1)
      case NoRoom => t.(link := w.1, lost := t.lost + 1)
      case Sent => t.(link := w.1, sent := t.sent + [Shipped(Translated(u.protocol, p), t.lost)])
  }

  /** After the first n actions. */
  function TraceAt(u: Setup, acts: seq<Action>, n: nat): (t: Trace)
    requires ValidSetup(u) && n <= |acts|
    ensures ValidLink(t.link)
  {
    if n == 0 then Trace(Link(Queue([], 0), u.gen), [], [], 0) else Performed(u, TraceAt(u, acts, n - 1), acts[n - 1])
  }

  /** All bytes queued, whether or not the socket has taken them yet. */
  function Streamed(t: Trace): seq<Byte>
    requires ValidLink(t.link)
  {
    t.taken + Unsent(t.link.queue)
  }

  function KeyAt(g: Source, n: nat): Byte
    requires ValidSource(g)
  {
    Key(NthDraw(g, n))
  }

  /** The i-th queued packet as it goes over the wire: each write that found no room has used up a key. */
  function WireForm(u: Setup, sent: seq<Shipped>, i: nat): Packet
    requires ValidSetup(u) && i < |sent|
  {
    if u.protocol.isaacReady then Masked(sent[i].packet, KeyAt(u.gen, i + sent[i].lost)) else sent[i].packet
  }

  function WireForms(u: Setup, sent: seq<Shipped>): (ps: seq<Packet>)
    requires ValidSetup(u)
    ensures |ps| == |sent|
  {
    seq(|sent|, i requires 0 <= i < |sent| => WireForm(u, sent, i))
  }

  /** The peer: packet n of the stream is unmasked with the n-th draw of a generator of its own. */
  function Opened(u: Setup, p: Payload, n: nat): (t: Payload)
    requires ValidSetup(u) && |p| >= 1
    ensures |t| == |p|
  {
    if u.protocol.isaacReady then Unmasked(p, KeyAt(u.gen, n)) else p
  }

  /** The key is added to the opcode, in a byte, and nothing else of the packet changes. */
  lemma MaskMeaning(p: Packet, key: Byte)
    ensures var m := Masked(p, key);
            && m[1..] == p[1..]
            && m[0] == if p[0] + key < 256 then p[0] + key else p[0] + key - 256
  {
  }

  /** The key of a word is its low byte. */
  lemma KeyNumbers()
    ensures Key(0x1234_5678) == 0x78 && Key(0xffff_ffff) == 255 && Key(0xabcd_ef00) == 0
  {
  }

  /** Adding a key and subtracting another gives back the opcode exactly when the keys agree. */
  lemma KeysMustAgree(p: Packet, k: Byte, peer: Byte)
    ensures Unmasked(Masked(p, k), peer) == p <==> k == peer
  {
    var m := Masked(p, k);
    assert m[0] == (p[0] + k) % 256;
    var u := Unmasked(m, peer);
    assert u[0] == (m[0] - peer) % 256;
    if k == peer {
      assert u[0] == p[0];
      assert u == p;
    }
  }

  /** The stream is the frames of the packets queued, and every mapped write has drawn a key. */
  ghost predicate Carries(u: Setup, t: Trace)
    requires ValidSetup(u) && ValidLink(t.link)
  {
    && Streamed(t) == FrameAll(WireForms(u, t.sent))
    && t.link.gen == (if u.protocol.isaacReady then Drawn(u.gen, |t.sent| + t.lost) else u.gen)
  }

  lemma DrainCarries(u: Setup, t: Trace, n: nat)
    requires ValidSetup(u) && ValidLink(t.link) && Carries(u, t)
    ensures Carries(u, Performed(u, t, Drain(n)))
  {
    hide FrameAll, WireForms, Drawn, Unsent, Drained;
    var q := t.link.queue;
    var m := if n < |Unsent(q)| then n else |Unsent(q)|;
    DrainedRest(q, m);
    assert t.taken + Unsent(q)[..m] + Unsent(Drained(q, m)) == t.taken + (Unsent(q)[..m] + Unsent(Drained(q, m)));
  }

  lemma PutCarries(u: Setup, t: Trace, p: Packet)
    requires ValidSetup(u) && ValidLink(t.link) && Carries(u, t)
    ensures Carries(u, Performed(u, t, Put(p)))
  {
    hide Draw, Key, Frame, FrameAll, Translated, Masked, HasRoom;
    var r := Performed(u, t, Put(p));
    if Write(u.protocol, t.link, p, u.cap).0.Sent? {
      var m := WireForm(u, r.sent, |t.sent|);
      assert WireForms(u, r.sent) == WireForms(u, t.sent) + [m];
      FrameAllAppend(WireForms(u, t.sent), m);
      var q := t.link.queue;
      assert Unsent(q.(bytes := q.bytes + Frame(m))) == Unsent(q) + Frame(m);
    }
  }

  lemma {:induction false} RunCarries(u: Setup, acts: seq<Action>, n: nat)
    requires ValidSetup(u) && n <= |acts|
    ensures Carries(u, TraceAt(u, acts, n))
    decreases n
  {
    hide Carries, Performed;
    if n == 0 {
      NothingCarried(u);
    } else {
      RunCarries(u, acts, n - 1);
      match acts[n - 1]
      case Put(p) => PutCarries(u, TraceAt(u, acts, n - 1), p);
      case Drain(m) => DrainCarries(u, TraceAt(u, acts, n - 1), m);
    }
  }

  lemma NothingCarried(u: Setup)
    requires ValidSetup(u)
    ensures Carries(u, Trace(Link(Queue([], 0), u.gen), [], [], 0))
  {
  }

  /** Deframed, the stream is what went over the wire. */
  lemma StreamSplits(u: Setup, acts: seq<Action>, n: nat)
    requires ValidSetup(u) && n <= |acts|
    ensures Deframe(Streamed(TraceAt(u, acts, n))) == WireForms(u, TraceAt(u, acts, n).sent)
  {
    hide TraceAt, WireForms, Deframe, FrameAll;
    RunCarries(u, acts, n);
    FrameAllRoundTrip(WireForms(u, TraceAt(u, acts, n).sent));
  }

  lemma OpensIff(u: Setup, sent: seq<Shipped>, i: nat)
    requires ValidSetup(u) && i < |sent|
    ensures |WireForm(u, sent, i)| == |sent[i].packet|
    ensures Opened(u, WireForm(u, sent, i), i) == sent[i].packet
            <==> !u.protocol.isaacReady || KeyAt(u.gen, i + sent[i].lost) == KeyAt(u.gen, i)
  {
    hide KeyAt, Masked, Unmasked;
    KeysMustAgree(sent[i].packet, KeyAt(u.gen, i + sent[i].lost), KeyAt(u.gen, i));
  }

  /**
   * With equal generators the peer finds every queued packet in the stream, and opens packet i rightly if and only
   * if the key it was masked with, moved on by the writes lost before it, is key i.
   */
  lemma RecoveredIff(u: Setup, acts: seq<Action>, n: nat, i: nat)
    requires ValidSetup(u) && n <= |acts| && i < |TraceAt(u, acts, n).sent|
    ensures var t := TraceAt(u, acts, n);
            var received := Deframe(Streamed(t));
            && |received| == |t.sent| && |received[i]| == |t.sent[i].packet|
            && (Opened(u, received[i], i) == t.sent[i].packet
                <==> !u.protocol.isaacReady || KeyAt(u.gen, i + t.sent[i].lost) == KeyAt(u.gen, i))
  {
    hide KeyAt, Opened, TraceAt, WireForm, Deframe, Streamed;
    StreamSplits(u, acts, n);
    OpensIff(u, TraceAt(u, acts, n).sent, i);
  }

  // ---- nothing lost ---------------------------------------------------------------------------------

  /** Every write with a mapped opcode finds room. */
  ghost predicate FindsRoom(u: Setup, acts: seq<Action>, n: nat)
    requires ValidSetup(u) && n <= |acts|
  {
    forall i :: 0 <= i < n && acts[i].Put? && !Unmapped(u.protocol, acts[i].p) ==>
                  HasRoom(u.cap, TraceAt(u, acts, i).link.queue, |acts[i].p|)
  }

  /** What the writes with a mapped opcode among the first n actions are meant to tell the peer. */
  function Told(u: Setup, acts: seq<Action>, n: nat): seq<Packet>
    requires ValidSetup(u) && n <= |acts|
  {
    if n == 0 then []
    else
      var before := Told(u, acts, n - 1);
      if acts[n - 1].Put? && !Unmapped(u.protocol, acts[n - 1].p) then before + [Translated(u.protocol, acts[n - 1].p)]
      else before
  }

  /** A mapped write is queued if it finds room, and lost if not. */
  lemma PerformedMeaning(u: Setup, t: Trace, a: Action)
    requires ValidSetup(u) && ValidLink(t.link)
    ensures var r := Performed(u, t, a);
            if a.Put? && !Unmapped(u.protocol, a.p) then
              if HasRoom(u.cap, t.link.queue, |a.p|) then
                r.sent == t.sent + [Shipped(Translated(u.protocol, a.p), t.lost)] && r.lost == t.lost
              else r.sent == t.sent && r.lost == t.lost + 1
            else r.sent == t.sent && r.lost == t.lost
  {
    hide Draw, Key, Frame, Translated, Masked, HasRoom, Unmapped;
  }

  lemma {:induction false} NoneLostIff(u: Setup, acts: seq<Action>, n: nat)
    requires ValidSetup(u) && n <= |acts|
    ensures TraceAt(u, acts, n).lost == 0 <==> FindsRoom(u, acts, n)
    decreases n
  {
    hide Performed, Translated, HasRoom, Unmapped;
    if n > 0 {
      PerformedMeaning(u, TraceAt(u, acts, n - 1), acts[n - 1]);
      NoneLostIff(u, acts, n - 1);
    }
  }

  /** A packet comes after no more lost writes than there are in all. */
  lemma {:induction false} LostBefore(u: Setup, acts: seq<Action>, n: nat, i: nat)
    requires ValidSetup(u) && n <= |acts| && i < |TraceAt(u, acts, n).sent|
    ensures TraceAt(u, acts, n).sent[i].lost <= TraceAt(u, acts, n).lost
    decreases n
  {
    hide Performed, Translated, HasRoom, Unmapped;
    if n > 0 {
      PerformedMeaning(u, TraceAt(u, acts, n - 1), acts[n - 1]);
      if i < |TraceAt(u, acts, n - 1).sent| {
        LostBefore(u, acts, n - 1, i);
      }
    }
  }

  lemma {:induction false} AllShipped(u: Setup, acts: seq<Action>, n: nat)
    requires ValidSetup(u) && n <= |acts| && TraceAt(u, acts, n).lost == 0
    ensures var t := TraceAt(u, acts, n);
            |t.sent| == |Told(u, acts, n)| && forall i :: 0 <= i < |t.sent| ==> t.sent[i].packet == Told(u, acts, n)[i]
    decreases n
  {
    hide Performed, Translated, HasRoom, Unmapped;
    if n > 0 {
      PerformedMeaning(u, TraceAt(u, acts, n - 1), acts[n - 1]);
      AllShipped(u, acts, n - 1);
    }
  }

  /**
   * When every mapped write finds room, the peer recovers all of them, in order, opcode included; a packet with an
   * unmapped opcode is not sent and draws no key.
   */
  lemma SessionRecovers(u: Setup, acts: seq<Action>, n: nat)
    requires ValidSetup(u) && n <= |acts| && FindsRoom(u, acts, n)
    ensures var received := Deframe(Streamed(TraceAt(u, acts, n)));
            var told := Told(u, acts, n);
            && |received| == |told|
            && forall i :: 0 <= i < |told| ==> |received[i]| >= 1 && Opened(u, received[i], i) == told[i]
  {
    hide FindsRoom, Opened, TraceAt, KeyAt, Told, Streamed, Deframe, WireForm;
    var t := TraceAt(u, acts, n);
    NoneLostIff(u, acts, n);
    AllShipped(u, acts, n);
    StreamSplits(u, acts, n);
    forall i | 0 <= i < |t.sent|
      ensures |WireForm(u, t.sent, i)| >= 1 && Opened(u, WireForm(u, t.sent, i), i) == t.sent[i].packet
    {
      LostBefore(u, acts, n, i);
      OpensIff(u, t.sent, i);
    }
  }

  /** What has arrived so far are the first packets of the stream, and all of them when nothing is left to send. */
  lemma ArrivedSoFar(u: Setup, acts: seq<Action>, n: nat)
    requires ValidSetup(u) && n <= |acts|
    ensures var t := TraceAt(u, acts, n);
            && Deframe(t.taken) <= Deframe(Streamed(t))
            && (Unsent(t.link.queue) == [] ==> Deframe(t.taken) == Deframe(Streamed(t)))
  {
    hide TraceAt, Deframe;
    var t := TraceAt(u, acts, n);
    DeframeGrows(t.taken, Unsent(t.link.queue), 0);
    assert t.taken + [] == t.taken;
  }

  /**
   * In a send buffer of the server's size: behind a packet of 4900 bytes one of 200 bytes finds no room, and the
   * first packet after everything was sent is opened with the wrong key.
   */
  lemma LossInstance(c: Protocol, big: Packet, lost: Packet, p: Packet) returns (g: Source)
    requires ValidProtocol(c) && c.isaacReady && !c.rev203 && |big| == 4900 && |lost| == 200 && |p| < 160
    ensures Ready(g) && OpenedWrongly(Setup(c, PLAYER_BUFSIZE, g), [Put(big), Put(lost), Drain(4902), Put(p)], big, p)
  {
    hide OpenedWrongly, Key;
    g := OddOne();
    LossOpensWrongly(c, g, big, lost, p);
  }

  /** The second packet sent arrives, and is opened as something else. */
  ghost predicate OpenedWrongly(u: Setup, acts: seq<Action>, first: Packet, second: Packet)
    requires ValidSetup(u)
  {
    var t := TraceAt(u, acts, |acts|);
    && t.lost == 1 && t.sent == [Shipped(first, 0), Shipped(second, 1)]
    && |Deframe(Streamed(t))| == 2 && |Deframe(Streamed(t))[1]| >= 1
    && Opened(u, Deframe(Streamed(t))[1], 1) != second
  }

  lemma LossOpensWrongly(c: Protocol, g: Source, big: Packet, lost: Packet, p: Packet)
    requires ValidProtocol(c) && c.isaacReady && !c.rev203 && |big| == 4900 && |lost| == 200 && |p| < 160
    requires Ready(g) && Key(g.state.randrsl[254]) != Key(g.state.randrsl[253])
    ensures OpenedWrongly(Setup(c, PLAYER_BUFSIZE, g), [Put(big), Put(lost), Drain(4902), Put(p)], big, p)
  {
    hide Performed, Opened, NthDraw, Key;
    var u := Setup(c, PLAYER_BUFSIZE, g);
    var acts := [Put(big), Put(lost), Drain(4902), Put(p)];
    var t0 := TraceAt(u, acts, 0);
    var t1 := TraceAt(u, acts, 1);
    var t2 := TraceAt(u, acts, 2);
    var t3 := TraceAt(u, acts, 3);
    assert t1 == Performed(u, t0, Put(big)) && t2 == Performed(u, t1, Put(lost));
    assert t3 == Performed(u, t2, Drain(4902)) && TraceAt(u, acts, 4) == Performed(u, t3, Put(p));
    PerformedMeaning(u, t0, Put(big));
    QueueMeaning(u, t0, Put(big));
    PerformedMeaning(u, t1, Put(lost));
    QueueMeaning(u, t1, Put(lost));
    PerformedMeaning(u, t2, Drain(4902));
    QueueMeaning(u, t2, Drain(4902));
    PerformedMeaning(u, t3, Put(p));
    RecoveredIff(u, acts, 4, 1);
    ThirdKey(g);
  }

  /** How an action changes the room there is. */
  lemma QueueMeaning(u: Setup, t: Trace, a: Action)
    requires ValidSetup(u) && ValidLink(t.link)
    ensures var q := t.link.queue;
            var r := Performed(u, t, a).link.queue;
            match a
            case Put(p) =>
              r.written == q.written
              && |r.bytes| == |q.bytes|
                              + (if !Unmapped(u.protocol, p) && HasRoom(u.cap, q, |p|) then FrameSize(|p|) else 0)
            case Drain(n) => n >= |q.bytes| - q.written ==> r == Queue([], 0)
  {
    hide Draw, Key, Frame, Translated, Masked;
  }

  /** A generator that draws different keys for packets 1 and 2. */
  function OddOne(): (g: Source)
    ensures Ready(g) && Key(g.state.randrsl[254]) != Key(g.state.randrsl[253])
  {
    Source(State(seq(WORDS, i => if i == 254 then 1 else 0), seq(WORDS, _ => 0), 0, 0, 0), WORDS)
  }

  lemma ThirdKey(g: Source)
    requires Ready(g)
    ensures NthDraw(g, 1) == g.state.randrsl[254] && NthDraw(g, 2) == g.state.randrsl[253]
  {
    hide Shuffled;
    NthDrawMeaning(g, 1);
    NthDrawMeaning(g, 2);
    assert Later(g.state, 0) == g.state;
  }
}
