/** The receiving side of the TCP client: kernel/src/net/tcp.rs. */
module Tcp {
  import opened Common

  // ---- segments ----

  predicate Fin(flags: nat) { flags % 2 == 1 }

  predicate Syn(flags: nat) { flags / 2 % 2 == 1 }

  predicate Ack(flags: nat) { flags / 16 % 2 == 1 }

  const FLAG_FIN: nat := 1
  const FLAG_SYN: nat := 2
  const FLAG_ACK: nat := 16
  const FLAG_PSH_ACK: nat := 24

  /** What `handle` keeps of a segment that arrives. */
  datatype RecvSeg = RecvSeg(flags: nat, seqNo: nat, payload: Bytes)

  /** A segment on the wire, with the port it is addressed to. */
  datatype Packet = Packet(port: nat, seg: RecvSeg)

  /** A segment we send. */
  datatype Sent = Sent(seqNo: nat, ackNo: nat, flags: nat, payload: Bytes)

  /** Sequence numbers wrap at 2^32. */
  function Wrap(n: nat): nat { n % TWO_32 }

  // ---- the receiver as a function of what arrives ----

  datatype State = State(seqNo: nat, ackNo: nat, buffer: Bytes, closed: bool, sent: seq<Sent>)

  /** What arrives at each poll, in order; a silent wire once it is exhausted. */
  type Script = seq<seq<Packet>>

  /** The one-slot inbox after a batch of arrivals: the last one for our port wins. */
  function Deliver(inbox: Option<RecvSeg>, port: nat, batch: seq<Packet>): Option<RecvSeg> {
    if batch == [] then inbox
    else
      var last := batch[|batch| - 1];
      if port != 0 && last.port == port then Some(last.seg) else Deliver(inbox, port, batch[..|batch| - 1])
  }

  function Arrivals(script: Script): seq<Packet> { if script == [] then [] else script[0] }

  function Later(script: Script): Script { if script == [] then [] else script[1..] }

  /** What a segment taken from the inbox does. */
  function Accept(s: State, seg: RecvSeg): State {
    if seg.seqNo != s.ackNo then s
    else
      var a := if seg.payload == [] then s
               else
                 var next := Wrap(s.ackNo + |seg.payload|);
                 s.(buffer := s.buffer + seg.payload, ackNo := next,
                    sent := s.sent + [Sent(s.seqNo, next, FLAG_ACK, [])]);
      if Fin(seg.flags) then
        var next := Wrap(a.ackNo + 1);
        a.(ackNo := next, sent := a.sent + [Sent(a.seqNo, next, FLAG_FIN + FLAG_ACK, [])],
           seqNo := Wrap(a.seqNo + 1), closed := true)
      else a
  }

  /** Polls until the inbox is found empty or the peer's FIN is accepted. */
  function Drain(s: State, inbox: Option<RecvSeg>, port: nat, script: Script): (State, Script)
    decreases |script|, if inbox.Some? then 1 else 0
  {
    var taken := Deliver(inbox, port, Arrivals(script));
    if taken.None? then (s, Later(script))
    else
      var next := Accept(s, taken.value);
      if next.closed && !s.closed then (next, Later(script))
      else Drain(next, None, port, Later(script))
  }

  lemma DrainStep(s: State, inbox: Option<RecvSeg>, port: nat, script: Script)
    ensures Drain(s, inbox, port, script)
            == match Deliver(inbox, port, Arrivals(script))
               case None => (s, Later(script))
               case Some(seg) =>
                 if Accept(s, seg).closed && !s.closed then (Accept(s, seg), Later(script))
                 else Drain(Accept(s, seg), None, port, Later(script))
  {
  }

  /** A connection with the inbox and the network at its end. */
  datatype Link = Link(state: State, inbox: Option<RecvSeg>, script: Script)

  /** After up to `k` drains, none of them once the peer has closed. */
  function Drains(l: Link, port: nat, k: nat): Link {
    if k == 0 then l
    else
      var m := Drains(l, port, k - 1);
      if m.state.closed then m
      else
        var (next, rest) := Drain(m.state, m.inbox, port, m.script);
        Link(next, None, rest)
  }

  lemma {:induction false} DrainsStay(l: Link, port: nat, k: nat, m: nat)
    requires k <= m && Drains(l, port, k).state.closed
    ensures Drains(l, port, m) == Drains(l, port, k)
    decreases m
  {
    hide Drain;
    if k < m {
      DrainsStay(l, port, k, m - 1);
    }
  }

  /** The first segment that completes the handshake among those of `spins` polls, and the network after it. */
  function SynAck(port: nat, script: Script, spins: nat): Option<(RecvSeg, Script)> {
    if spins == 0 then None
    else
      var taken := Deliver(None, port, Arrivals(script));
      if taken.Some? && Syn(taken.value.flags) && Ack(taken.value.flags) then Some((taken.value, Later(script)))
      else SynAck(port, Later(script), spins - 1)
  }

  /** A poll that leaves a SYN-ACK for our port in the inbox: the last segment for it is one. */
  predicate BringsSynAck(port: nat, batch: seq<Packet>) {
    exists j :: 0 <= j < |batch| && batch[j].port == port && Syn(batch[j].seg.flags) && Ack(batch[j].seg.flags)
                && forall i :: j < i < |batch| ==> batch[i].port != port
  }

  /** A handshake is completed if and only if one of the polls does so. */
  lemma {:induction false} SynAckExactly(port: nat, script: Script, spins: nat)
    requires port != 0
    ensures SynAck(port, script, spins).Some?
            <==> exists i :: 0 <= i < spins && i < |script| && BringsSynAck(port, script[i])
    decreases spins
  {
    hide BringsSynAck, Deliver, Syn, Ack;
    if spins > 0 {
      if script == [] {
        NothingArrives(port, script);
        SynAckExactly(port, [], spins - 1);
      } else {
        PollSynAck(port, script[0]);
        SynAckExactly(port, script[1..], spins - 1);
        if i :| 0 <= i < spins && i < |script| && BringsSynAck(port, script[i]) {
          assert i > 0 ==> script[1..][i - 1] == script[i];
        }
        if i :| 0 <= i < spins - 1 && i < |script[1..]| && BringsSynAck(port, script[1..][i]) {
          assert script[i + 1] == script[1..][i];
        }
      }
    }
  }

  lemma {:induction false} PollSynAck(port: nat, batch: seq<Packet>)
    requires port != 0
    ensures var taken := Deliver(None, port, batch);
            BringsSynAck(port, batch) <==> taken.Some? && Syn(taken.value.flags) && Ack(taken.value.flags)
  {
    hide Syn, Ack;
    if batch != [] {
      var most, last := batch[..|batch| - 1], batch[|batch| - 1];
      PollSynAck(port, most);
      if last.port == port {
        if Syn(last.seg.flags) && Ack(last.seg.flags) {
          assert batch[|batch| - 1] == last;
        }
      } else {
        if j :| 0 <= j < |most| && most[j].port == port && Syn(most[j].seg.flags) && Ack(most[j].seg.flags)
                && forall i :: j < i < |most| ==> most[i].port != port {
          assert batch[j] == most[j];
        }
        if j :| 0 <= j < |batch| && batch[j].port == port && Syn(batch[j].seg.flags) && Ack(batch[j].seg.flags)
                && forall i :: j < i < |batch| ==> batch[i].port != port {
          assert most[j] == batch[j];
        }
      }
    }
  }

  // ---- the peer's stream ----

  /** The peer's sequence number of byte `at` of its stream. */
  function SeqOf(isn: nat, at: nat): nat { Wrap(isn + 1 + at) }

  /**
   A segment the peer may have sent, at whatever time: its SYN-ACK, an acknowledgement without data, or any stretch of
   its stream under the right number, with FIN only at the very end.
   */
  ghost predicate Genuine(seg: RecvSeg, stream: Bytes, isn: nat) {
    || (Syn(seg.flags) && Ack(seg.flags) && !Fin(seg.flags) && seg.seqNo == Wrap(isn) && seg.payload == [])
    || (!Syn(seg.flags) && !Fin(seg.flags) && seg.payload == [])
    || (!Syn(seg.flags) && exists at: nat :: IsStretch(seg, stream, isn, at))
  }

  predicate IsStretch(seg: RecvSeg, stream: Bytes, isn: nat, at: nat) {
    && at + |seg.payload| <= |stream| && seg.seqNo == SeqOf(isn, at)
    && seg.payload == stream[at..at + |seg.payload|]
    && (Fin(seg.flags) ==> at + |seg.payload| == |stream|)
  }

  /** Loss, duplication and reordering leave only genuine segments on the wire. */
  ghost predicate AllGenuine(script: Script, port: nat, stream: Bytes, isn: nat) {
    forall i, j :: 0 <= i < |script| && 0 <= j < |script[i]| && script[i][j].port == port ==>
      Genuine(script[i][j].seg, stream, isn)
  }

  ghost predicate InboxGenuine(inbox: Option<RecvSeg>, stream: Bytes, isn: nat) {
    inbox.Some? ==> Genuine(inbox.value, stream, isn)
  }

  predicate Acknowledges(o: Sent, isn: nat, count: nat) { o.ackNo == SeqOf(isn, count) }

  /**
   What was handed on and what is buffered are together a prefix of the stream; the acknowledgement number is its
   length; closed means all of it arrived; and nothing was ever acknowledged that had not arrived.
   */
  ghost predicate Faithful(s: State, returned: Bytes, stream: Bytes, isn: nat) {
    var got := returned + s.buffer;
    && got <= stream
    && s.ackNo == SeqOf(isn, |got| + if s.closed then 1 else 0)
    && (s.closed ==> got == stream)
    && (forall o :: o in s.sent && Ack(o.flags) ==>
      exists count: nat :: count <= |got| + (if s.closed then 1 else 0) && Acknowledges(o, isn, count))
  }

  /** Below 2^32, a sequence number tells where in the stream a segment belongs. */
  lemma OnePlace(isn: nat, a: nat, b: nat)
    requires a < TWO_32 && b < TWO_32 && SeqOf(isn, a) == SeqOf(isn, b)
    ensures a == b
  {
    var m := isn + 1;
    assert m + a == TWO_32 * ((m + a) / TWO_32) + (m + a) % TWO_32;
    assert m + b == TWO_32 * ((m + b) / TWO_32) + (m + b) % TWO_32;
    MulBetween((m + a) / TWO_32 - (m + b) / TWO_32, TWO_32, a - b);
  }

  lemma SeqAdd(isn: nat, a: nat, b: nat)
    ensures Wrap(SeqOf(isn, a) + b) == SeqOf(isn, a + b)
  {
    var m := isn + 1 + a;
    DivUnique(m + b, TWO_32, m / TWO_32 + (m % TWO_32 + b) / TWO_32, (m % TWO_32 + b) % TWO_32);
  }

  // ---- what every segment and every drain keeps ----

  /** The segment carries the next bytes of the stream, or none and no FIN. */
  lemma NextBytes(s: State, seg: RecvSeg, returned: Bytes, stream: Bytes, isn: nat)
    requires |stream| < TWO_32 && !s.closed && Faithful(s, returned, stream, isn) && Genuine(seg, stream, isn)
             && seg.seqNo == s.ackNo
    ensures var got := returned + s.buffer;
            && got + seg.payload <= stream && (Fin(seg.flags) ==> got + seg.payload == stream)
  {
    var got := returned + s.buffer;
    if seg.payload == [] && !Fin(seg.flags) {
      assert got + seg.payload == got;
    } else {
      var at: nat :| IsStretch(seg, stream, isn, at);
      OnePlace(isn, at, |got|);
      assert got == stream[..at];
      assert stream[..at] + stream[at..at + |seg.payload|] == stream[..at + |seg.payload|];
    }
  }

  lemma AcceptFaithful(s: State, seg: RecvSeg, returned: Bytes, stream: Bytes, isn: nat)
    requires |stream| < TWO_32 && !s.closed && Faithful(s, returned, stream, isn) && Genuine(seg, stream, isn)
    ensures Faithful(Accept(s, seg), returned, stream, isn)
  {
    if seg.seqNo == s.ackNo {
      hide Genuine;
      NextBytes(s, seg, returned, stream, isn);
      var got := returned + s.buffer;
      var next := Accept(s, seg);
      SeqAdd(isn, |got|, |seg.payload|);
      SeqAdd(isn, |got| + |seg.payload|, 1);
      assert returned + next.buffer == got + seg.payload;
      forall o | o in next.sent && Ack(o.flags)
        ensures exists count: nat ::
                  count <= |got + seg.payload| + (if next.closed then 1 else 0) && Acknowledges(o, isn, count)
      {
        if o in s.sent {
          var count: nat :| count <= |got| && Acknowledges(o, isn, count);
        } else if o.flags == FLAG_ACK {
          assert Acknowledges(o, isn, |got + seg.payload|);
        } else {
          assert Acknowledges(o, isn, |got + seg.payload| + 1);
        }
      }
    }
  }

  lemma {:induction false} DeliverGenuine(inbox: Option<RecvSeg>, port: nat, batch: seq<Packet>, stream: Bytes,
      isn: nat)
    requires InboxGenuine(inbox, stream, isn)
    requires forall j :: 0 <= j < |batch| && batch[j].port == port ==> Genuine(batch[j].seg, stream, isn)
    ensures InboxGenuine(Deliver(inbox, port, batch), stream, isn)
  {
    hide Genuine;
    if batch != [] {
      DeliverGenuine(inbox, port, batch[..|batch| - 1], stream, isn);
    }
  }

  lemma TakenGenuine(inbox: Option<RecvSeg>, port: nat, script: Script, stream: Bytes, isn: nat)
    requires InboxGenuine(inbox, stream, isn) && AllGenuine(script, port, stream, isn)
    ensures InboxGenuine(Deliver(inbox, port, Arrivals(script)), stream, isn)
            && AllGenuine(Later(script), port, stream, isn)
  {
    hide Genuine;
    DeliverGenuine(inbox, port, Arrivals(script), stream, isn);
  }

  /** Whatever the network does, a drain leaves the receiver with a prefix of the stream. */
  lemma {:induction false} DrainFaithful(s: State, inbox: Option<RecvSeg>, port: nat, script: Script, returned: Bytes,
      stream: Bytes, isn: nat)
    requires |stream| < TWO_32 && !s.closed && Faithful(s, returned, stream, isn)
    requires InboxGenuine(inbox, stream, isn) && AllGenuine(script, port, stream, isn)
    ensures var (next, rest) := Drain(s, inbox, port, script);
            && Faithful(next, returned, stream, isn) && AllGenuine(rest, port, stream, isn)
            && s.buffer <= next.buffer && |rest| <= |script|
    decreases |script|, if inbox.Some? then 1 else 0
  {
    hide Faithful, AllGenuine, Genuine, Accept;
    var taken := Deliver(inbox, port, Arrivals(script));
    TakenGenuine(inbox, port, script, stream, isn);
    if taken.Some? {
      AcceptFaithful(s, taken.value, returned, stream, isn);
      BufferGrows(s, taken.value);
      if !Accept(s, taken.value).closed {
        DrainFaithful(Accept(s, taken.value), None, port, Later(script), returned, stream, isn);
      }
    }
  }

  lemma BufferGrows(s: State, seg: RecvSeg)
    ensures s.buffer <= Accept(s, seg).buffer
  {
  }

  // ---- a network that loses and reorders nothing ----

  function Concat(chunks: seq<Bytes>): Bytes {
    if chunks == [] then [] else chunks[0] + Concat(chunks[1..])
  }

  /** One segment at a time: the chunks of the stream from byte `at` on, the last with FIN. */
  function InOrder(chunks: seq<Bytes>, isn: nat, at: nat, port: nat): Script {
    if chunks == [] then []
    else
      [[Packet(port, RecvSeg(if |chunks| == 1 then FLAG_FIN + FLAG_ACK else FLAG_ACK, SeqOf(isn, at), chunks[0]))]]
      + InOrder(chunks[1..], isn, at + |chunks[0]|, port)
  }

  /** Then a single drain receives the whole stream and sees it end. */
  lemma {:induction false} InOrderArrives(s: State, port: nat, chunks: seq<Bytes>, isn: nat, at: nat)
    requires chunks != [] && port != 0 && !s.closed && s.ackNo == SeqOf(isn, at)
    ensures var (next, rest) := Drain(s, None, port, InOrder(chunks, isn, at, port));
            next.closed && rest == [] && next.buffer == s.buffer + Concat(chunks)
    decreases |chunks|
  {
    var script := InOrder(chunks, isn, at, port);
    var batch := script[0];
    var seg := batch[0].seg;
    assert script[1..] == InOrder(chunks[1..], isn, at + |chunks[0]|, port);
    assert Deliver(None, port, batch) == Some(seg);
    SeqAdd(isn, at, |chunks[0]|);
    var next := Accept(s, seg);
    assert next.buffer == s.buffer + chunks[0];
    hide SeqOf, Deliver;
    if |chunks| > 1 {
      InOrderArrives(next, port, chunks[1..], isn, at + |chunks[0]|);
      assert s.buffer + chunks[0] + Concat(chunks[1..]) == s.buffer + (chunks[0] + Concat(chunks[1..]));
    } else {
      assert chunks[1..] == [];
      assert chunks[0] + [] == chunks[0];
    }
  }

  // ---- which networks get everything across ----

  /** The segments a drain finds in the inbox, poll by poll, up to the first poll that leaves it empty. */
  function Taken(inbox: Option<RecvSeg>, port: nat, script: Script): seq<RecvSeg>
    decreases |script|, if inbox.Some? then 1 else 0
  {
    var taken := Deliver(inbox, port, Arrivals(script));
    if taken.None? then [] else [taken.value] + Taken(None, port, Later(script))
  }

  /** What a list of segments does to an open connection. */
  function Feed(s: State, segs: seq<RecvSeg>): State
    decreases |segs|
  {
    if segs == [] || s.closed then s else Feed(Accept(s, segs[0]), segs[1..])
  }

  lemma {:induction false} DrainFeeds(s: State, inbox: Option<RecvSeg>, port: nat, script: Script)
    requires !s.closed
    ensures Drain(s, inbox, port, script).0 == Feed(s, Taken(inbox, port, script))
    decreases |script|, if inbox.Some? then 1 else 0
  {
    hide Accept, Deliver;
    var taken := Deliver(inbox, port, Arrivals(script));
    if taken.Some? {
      var next := Accept(s, taken.value);
      var segs := Taken(inbox, port, script);
      assert segs[0] == taken.value && segs[1..] == Taken(None, port, Later(script));
      NothingArrives(port, script);
      if !next.closed {
        DrainFeeds(next, None, port, Later(script));
      }
    }
  }

  /** Where in the stream chunk `k` starts. */
  function Offset(chunks: seq<Bytes>, k: nat): nat
    requires k <= |chunks|
  {
    if k == 0 then 0 else Offset(chunks, k - 1) + |chunks[k - 1]|
  }

  /** How the peer cuts its stream up: no empty chunk, except perhaps a last one for a bare FIN. */
  ghost predicate Cut(chunks: seq<Bytes>) {
    && chunks != [] && Offset(chunks, |chunks|) < TWO_32
    && forall k :: 0 <= k < |chunks| - 1 ==> chunks[k] != []
  }

  /** Chunk `k` on the wire, FIN on the last one. */
  predicate IsPiece(seg: RecvSeg, chunks: seq<Bytes>, isn: nat, k: nat) {
    && k < |chunks| && seg.seqNo == SeqOf(isn, Offset(chunks, k)) && seg.payload == chunks[k]
    && (Fin(seg.flags) <==> k == |chunks| - 1)
  }

  predicate Bare(seg: RecvSeg) { seg.payload == [] && !Fin(seg.flags) }

  /** Chunks in any order, any number of times, and segments without data. */
  ghost predicate FromPeer(segs: seq<RecvSeg>, chunks: seq<Bytes>, isn: nat) {
    forall j :: 0 <= j < |segs| ==> Bare(segs[j]) || exists k: nat :: IsPiece(segs[j], chunks, isn, k)
  }

  /** `at` are ascending positions in `segs` that hold chunk `k` and all those after it. */
  ghost predicate Ascending(at: seq<nat>, segs: seq<RecvSeg>, chunks: seq<Bytes>, isn: nat, k: nat) {
    && k + |at| == |chunks|
    && (forall i :: 0 <= i < |at| ==> at[i] < |segs| && IsPiece(segs[at[i]], chunks, isn, k + i))
    && (forall i, j :: 0 <= i < j < |at| ==> at[i] < at[j])
  }

  ghost predicate AllInOrder(segs: seq<RecvSeg>, chunks: seq<Bytes>, isn: nat, k: nat) {
    exists at: seq<nat> :: Ascending(at, segs, chunks, isn, k)
  }

  lemma {:induction false} OffsetsGrow(chunks: seq<Bytes>, j: nat, k: nat)
    requires Cut(chunks) && j < k <= |chunks|
    ensures Offset(chunks, j) <= Offset(chunks, k) && (k < |chunks| ==> Offset(chunks, j) < Offset(chunks, k))
    ensures Offset(chunks, k) < TWO_32
    decreases |chunks| - j, k
  {
    if j + 1 < k {
      OffsetsGrow(chunks, j, k - 1);
    }
    if k < |chunks| {
      OffsetsGrow(chunks, k, |chunks|);
    }
  }

  /** Only chunk `k` itself starts where chunk `k` does. */
  lemma OneChunk(seg: RecvSeg, chunks: seq<Bytes>, isn: nat, j: nat, k: nat)
    requires Cut(chunks) && IsPiece(seg, chunks, isn, j) && k < |chunks| && seg.seqNo == SeqOf(isn, Offset(chunks, k))
    ensures j == k
  {
    hide Offset, SeqOf;
    if j != k {
      OffsetsGrow(chunks, if j < k then j else k, if j < k then k else j);
      OffsetsGrow(chunks, j, |chunks|);
      OffsetsGrow(chunks, k, |chunks|);
      OnePlace(isn, Offset(chunks, j), Offset(chunks, k));
    }
  }

  /** A segment other than the chunk waited for changes nothing. */
  lemma OthersIgnored(s: State, seg: RecvSeg, chunks: seq<Bytes>, isn: nat, k: nat)
    requires Cut(chunks) && k < |chunks| && s.ackNo == SeqOf(isn, Offset(chunks, k))
    requires Bare(seg) || exists j: nat :: IsPiece(seg, chunks, isn, j)
    ensures IsPiece(seg, chunks, isn, k) || Accept(s, seg) == s
  {
    hide Offset, SeqOf, Cut;
    if seg.seqNo == s.ackNo && !Bare(seg) {
      var j: nat :| IsPiece(seg, chunks, isn, j);
      OneChunk(seg, chunks, isn, j, k);
    }
  }

  /** The chunk waited for moves the connection on to the next one, or closes it. */
  lemma PieceTaken(s: State, seg: RecvSeg, chunks: seq<Bytes>, isn: nat, k: nat)
    requires Cut(chunks) && IsPiece(seg, chunks, isn, k) && !s.closed && s.ackNo == SeqOf(isn, Offset(chunks, k))
    ensures var next := Accept(s, seg);
            && next.buffer == s.buffer + chunks[k] && (next.closed <==> k == |chunks| - 1)
            && (k < |chunks| - 1 ==> next.ackNo == SeqOf(isn, Offset(chunks, k + 1)))
  {
    SeqAdd(isn, Offset(chunks, k), |chunks[k]|);
    hide SeqOf;
  }

  /** Dropping a first segment that is not among the positions. */
  lemma Behind(at: seq<nat>, segs: seq<RecvSeg>, chunks: seq<Bytes>, isn: nat, k: nat)
    requires segs != [] && Ascending(at, segs, chunks, isn, k) && (at == [] || at[0] > 0)
    ensures AllInOrder(segs[1..], chunks, isn, k)
  {
    hide IsPiece;
    var shifted: seq<nat> := seq(|at|, i requires 0 <= i < |at| => at[i] - 1);
    assert Ascending(shifted, segs[1..], chunks, isn, k);
  }

  /** Or putting one in front. */
  lemma Ahead(segs: seq<RecvSeg>, chunks: seq<Bytes>, isn: nat, k: nat)
    requires segs != [] && AllInOrder(segs[1..], chunks, isn, k)
    ensures AllInOrder(segs, chunks, isn, k)
    ensures exists at: seq<nat> :: Ascending(at, segs, chunks, isn, k) && (forall i :: 0 <= i < |at| ==> at[i] > 0)
  {
    hide IsPiece;
    var at :| Ascending(at, segs[1..], chunks, isn, k);
    var up: seq<nat> := seq(|at|, i requires 0 <= i < |at| => at[i] + 1);
    assert Ascending(up, segs, chunks, isn, k);
  }

  lemma Starting(segs: seq<RecvSeg>, chunks: seq<Bytes>, isn: nat, k: nat)
    requires segs != [] && IsPiece(segs[0], chunks, isn, k) && AllInOrder(segs[1..], chunks, isn, k + 1)
    ensures AllInOrder(segs, chunks, isn, k)
  {
    hide IsPiece;
    Ahead(segs, chunks, isn, k + 1);
    var up: seq<nat> :| Ascending(up, segs, chunks, isn, k + 1) && (forall i :: 0 <= i < |up| ==> up[i] > 0);
    var at := [0] + up;
    forall i | 0 <= i < |at| ensures at[i] < |segs| && IsPiece(segs[at[i]], chunks, isn, k + i) {
      if i > 0 {
        assert at[i] == up[i - 1] && IsPiece(segs[up[i - 1]], chunks, isn, k + 1 + (i - 1));
      }
    }
    assert Ascending(at, segs, chunks, isn, k);
  }

  lemma Started(segs: seq<RecvSeg>, chunks: seq<Bytes>, isn: nat, k: nat)
    requires segs != [] && IsPiece(segs[0], chunks, isn, k) && AllInOrder(segs, chunks, isn, k)
    ensures AllInOrder(segs[1..], chunks, isn, k + 1)
  {
    hide IsPiece;
    var at :| Ascending(at, segs, chunks, isn, k);
    assert k < |chunks| by { if k >= |chunks| { NoPiece(segs[0], chunks, isn, k); } }
    assert Ascending(at[1..], segs, chunks, isn, k + 1) by {
      forall i | 0 <= i < |at| - 1 ensures IsPiece(segs[at[1..][i]], chunks, isn, k + 1 + i) {
        assert IsPiece(segs[at[i + 1]], chunks, isn, k + (i + 1));
      }
    }
    assert |at| > 1 ==> at[0] < at[1];
    Behind(at[1..], segs, chunks, isn, k + 1);
  }

  lemma NoPiece(seg: RecvSeg, chunks: seq<Bytes>, isn: nat, k: nat)
    requires k >= |chunks|
    ensures !IsPiece(seg, chunks, isn, k)
  {
  }

  lemma Skipped(segs: seq<RecvSeg>, chunks: seq<Bytes>, isn: nat, k: nat)
    requires segs != [] && k < |chunks| && !IsPiece(segs[0], chunks, isn, k) && AllInOrder(segs, chunks, isn, k)
    ensures AllInOrder(segs[1..], chunks, isn, k)
  {
    hide IsPiece;
    var at :| Ascending(at, segs, chunks, isn, k);
    assert IsPiece(segs[at[0]], chunks, isn, k + 0);
    Behind(at, segs, chunks, isn, k);
  }

  /**
   Without a reorder buffer, a connection waiting for chunk `k` gets to the end if and only if the chunks from there on
   come by in order, whatever else comes between; it then holds all of them.
   */
  lemma {:induction false} FeedCompletes(s: State, segs: seq<RecvSeg>, chunks: seq<Bytes>, isn: nat, k: nat)
    requires Cut(chunks) && FromPeer(segs, chunks, isn)
    requires !s.closed && k < |chunks| && s.ackNo == SeqOf(isn, Offset(chunks, k))
    ensures Feed(s, segs).closed <==> AllInOrder(segs, chunks, isn, k)
    ensures Feed(s, segs).closed ==> Feed(s, segs).buffer == s.buffer + Concat(chunks[k..])
    decreases |segs|
  {
    hide Accept, IsPiece, SeqOf, Offset, AllInOrder, Cut;
    if segs == [] {
      if AllInOrder(segs, chunks, isn, k) { SomethingNeeded(segs, chunks, isn, k); }
    } else {
      var next := Accept(s, segs[0]);
      StillFromPeer(segs, chunks, isn);
      OthersIgnored(s, segs[0], chunks, isn, k);
      if IsPiece(segs[0], chunks, isn, k) {
        PieceTaken(s, segs[0], chunks, isn, k);
        assert chunks[k..][1..] == chunks[k + 1..];
        assert Concat(chunks[k..]) == chunks[k] + Concat(chunks[k + 1..]);
        if k == |chunks| - 1 {
          NoneLeft(segs[1..], chunks, isn);
        } else {
          FeedCompletes(next, segs[1..], chunks, isn, k + 1);
          assert s.buffer + chunks[k] + Concat(chunks[k + 1..]) == s.buffer + (chunks[k] + Concat(chunks[k + 1..]));
        }
        if AllInOrder(segs[1..], chunks, isn, k + 1) { Starting(segs, chunks, isn, k); }
        if AllInOrder(segs, chunks, isn, k) { Started(segs, chunks, isn, k); }
      } else {
        FeedCompletes(s, segs[1..], chunks, isn, k);
        if AllInOrder(segs[1..], chunks, isn, k) { Ahead(segs, chunks, isn, k); }
        if AllInOrder(segs, chunks, isn, k) { Skipped(segs, chunks, isn, k); }
      }
    }
  }

  lemma StillFromPeer(segs: seq<RecvSeg>, chunks: seq<Bytes>, isn: nat)
    requires segs != [] && FromPeer(segs, chunks, isn)
    ensures FromPeer(segs[1..], chunks, isn)
    ensures Bare(segs[0]) || exists k: nat :: IsPiece(segs[0], chunks, isn, k)
  {
    hide IsPiece;
  }

  lemma SomethingNeeded(segs: seq<RecvSeg>, chunks: seq<Bytes>, isn: nat, k: nat)
    requires k < |chunks| && AllInOrder(segs, chunks, isn, k)
    ensures segs != []
  {
    var at :| Ascending(at, segs, chunks, isn, k);
    assert at[0] < |segs|;
  }

  lemma NoneLeft(segs: seq<RecvSeg>, chunks: seq<Bytes>, isn: nat)
    ensures AllInOrder(segs, chunks, isn, |chunks|)
  {
    assert Ascending([], segs, chunks, isn, |chunks|);
  }

  /**
   For any network under a peer that cuts its stream one way: a drain sees the stream's end if and only if the segments
   left in the inbox by the polls, the last of each, contain all chunks still missing, in order.
   */
  lemma DrainCompletes(s: State, inbox: Option<RecvSeg>, port: nat, script: Script, chunks: seq<Bytes>, isn: nat,
      k: nat)
    requires Cut(chunks) && FromPeer(Taken(inbox, port, script), chunks, isn)
    requires !s.closed && k < |chunks| && s.ackNo == SeqOf(isn, Offset(chunks, k))
    ensures var next := Drain(s, inbox, port, script).0;
            && (next.closed <==> AllInOrder(Taken(inbox, port, script), chunks, isn, k))
            && (next.closed ==> next.buffer == s.buffer + Concat(chunks[k..]))
  {
    hide *;
    DrainFeeds(s, inbox, port, script);
    FeedCompletes(s, Taken(inbox, port, script), chunks, isn, k);
  }

  // ---- segments as bytes ----

  /** `n` bytes, most significant first, as in `to_be_bytes`. */
  function Be(v: nat, n: nat): (b: Bytes)
    ensures |b| == n
  {
    if n == 0 then [] else Be(v / 256, n - 1) + [v % 256]
  }

  function FromBe(b: Bytes): nat { if b == [] then 0 else 256 * FromBe(b[..|b| - 1]) + b[|b| - 1] }

  lemma {:induction false} FromBeBe(v: nat, n: nat)
    requires v < Pow2(8 * n)
    ensures FromBe(Be(v, n)) == v
  {
    if n > 0 {
      Pow2Add(8, 8 * (n - 1));
      Pow2Of8();
      hide Pow2;
      FromBeBe(v / 256, n - 1);
      assert Be(v, n)[..n - 1] == Be(v / 256, n - 1);
    }
  }

  /** `build_segment`; the checksum is a parameter. */
  function BuildSegment(srcPort: nat, dstPort: nat, seqNo: nat, ackNo: nat, flags: byte, window: nat, checksum: nat,
      payload: Bytes): Bytes {
    Be(srcPort, 2) + Be(dstPort, 2) + Be(seqNo, 4) + Be(ackNo, 4) + [5 * 16, flags] + Be(window, 2) + Be(checksum, 2)
      + [0, 0] + payload
  }

  /** What `handle` reads of a segment; None if it is too short for a header. */
  function ParseSegment(data: Bytes): Option<Packet> {
    if |data| < 20 then None
    else
      var dataOffset := data[12] / 16 * 4;
      Some(Packet(FromBe(data[2..4]),
                  RecvSeg(data[13], FromBe(data[4..8]), if dataOffset <= |data| then data[dataOffset..] else [])))
  }

  /** What one side builds, the other side's `handle` reads. */
  lemma ParseBuilt(srcPort: nat, dstPort: nat, seqNo: nat, ackNo: nat, flags: byte, window: nat, checksum: nat,
      payload: Bytes)
    requires dstPort < 0x1_0000 && seqNo < TWO_32
    ensures ParseSegment(BuildSegment(srcPort, dstPort, seqNo, ackNo, flags, window, checksum, payload))
            == Some(Packet(dstPort, RecvSeg(flags, seqNo, payload)))
  {
    hide Be, FromBe, Pow2;
    Pow2Of24();
    Pow2Of64();
    FromBeBe(dstPort, 2);
    FromBeBe(seqNo, 4);
    var data := BuildSegment(srcPort, dstPort, seqNo, ackNo, flags, window, checksum, payload);
    assert data[2..4] == Be(dstPort, 2);
    assert data[4..8] == Be(seqNo, 4);
    assert data[20..] == payload;
  }

  /** Any header of section 3.1 of RFC 9293, options included. */
  function WireSegment(srcPort: nat, dstPort: nat, seqNo: nat, ackNo: nat, reserved: nat, flags: byte, rest: Bytes,
      options: Bytes, payload: Bytes): Bytes
    requires reserved < 16 && |rest| == 6 && |options| % 4 == 0 && |options| <= 40
  {
    Be(srcPort, 2) + Be(dstPort, 2) + Be(seqNo, 4) + Be(ackNo, 4) + [(20 + |options|) / 4 * 16 + reserved, flags]
      + rest + options + payload
  }

  /** `handle` finds the payload behind any options, and none if the header is said to end behind the segment. */
  lemma ParseWire(srcPort: nat, dstPort: nat, seqNo: nat, ackNo: nat, reserved: nat, flags: byte, rest: Bytes,
      options: Bytes, payload: Bytes)
    requires reserved < 16 && |rest| == 6 && |options| % 4 == 0 && |options| <= 40
    requires dstPort < 0x1_0000 && seqNo < TWO_32
    ensures ParseSegment(WireSegment(srcPort, dstPort, seqNo, ackNo, reserved, flags, rest, options, payload))
            == Some(Packet(dstPort, RecvSeg(flags, seqNo, payload)))
  {
    hide Be, FromBe, Pow2;
    Pow2Of24();
    Pow2Of64();
    FromBeBe(dstPort, 2);
    FromBeBe(seqNo, 4);
    var data := WireSegment(srcPort, dstPort, seqNo, ackNo, reserved, flags, rest, options, payload);
    assert data[2..4] == Be(dstPort, 2);
    assert data[4..8] == Be(seqNo, 4);
    assert data[12] / 16 * 4 == 20 + |options|;
    assert data[20 + |options|..] == payload;
  }

  lemma ParseShort(data: Bytes)
    ensures ParseSegment(data).None? <==> |data| < 20
    ensures |data| >= 20 && data[12] / 16 * 4 > |data| ==> ParseSegment(data).value.seg.payload == []
  {
  }

  /** The control bits of section 3.1, from the lowest. */
  lemma ControlBits(fin: nat, syn: nat, rst: nat, psh: nat, ack: nat, higher: nat)
    requires fin < 2 && syn < 2 && rst < 2 && psh < 2 && ack < 2
    ensures var flags := fin + 2 * (syn + 2 * (rst + 2 * (psh + 2 * (ack + 2 * higher))));
            (Fin(flags) <==> fin == 1) && (Syn(flags) <==> syn == 1) && (Ack(flags) <==> ack == 1)
    ensures FLAG_FIN == 1 && FLAG_SYN == 2 && FLAG_PSH_ACK == 8 + 16 && FLAG_ACK == 16
  {
    var fromAck := ack + 2 * higher;
    var fromSyn := syn + 2 * (rst + 2 * (psh + 2 * fromAck));
    Halve(fin, fromSyn);
    DivUnique(fin + 2 * fromSyn, 16, fromAck, fin + 2 * (syn + 2 * (rst + 2 * psh)));
  }

  lemma Halve(low: nat, rest: nat)
    requires low < 2
    ensures (low + 2 * rest) / 2 == rest && (low + 2 * rest) % 2 == low
  {
  }

  // ---- the connection ----

  /** The network as the client sees it: a script of arrivals, the one-slot inbox, and whether sending works. */
  class Network {
    var script: Script
    var inbox: Option<RecvSeg>
    var listenPort: nat
    var up: bool
    /** All segments that were to be sent. */
    ghost var wire: seq<Sent>

    constructor (script: Script, up: bool)
      ensures this.script == script && inbox == None && listenPort == 0 && this.up == up && wire == []
    {
      this.script, inbox, listenPort, this.up, wire := script, None, 0, up, [];
    }

    method Handle(packet: Packet)
      modifies this`inbox
      ensures inbox == if listenPort != 0 && packet.port == listenPort then Some(packet.seg) else old(inbox)
    {
      if packet.port == 0 || packet.port != listenPort {
        return;
      }
      inbox := Some(packet.seg);
    }

    method PollOnce()
      modifies this`script, this`inbox
      ensures inbox == Deliver(old(inbox), listenPort, Arrivals(old(script))) && script == Later(old(script))
    {
      var batch := Arrivals(script);
      script := Later(script);
      for i := 0 to |batch|
        invariant inbox == Deliver(old(inbox), listenPort, batch[..i]) && script == Later(old(script))
      {
        assert batch[..i + 1][..i] == batch[..i];
        Handle(batch[i]);
      }
      assert batch[..|batch|] == batch;
    }

    method Send(segment: Sent) returns (ok: bool)
      modifies this`wire
      ensures ok == up && wire == old(wire) + [segment]
    {
      ok := up;
      wire := wire + [segment];
    }
  }

  class TcpStream {
    const net: Network
    const localPort: nat
    var seqNo: nat
    var ackNo: nat
    var recvBuffer: Bytes
    var peerClosed: bool

    /** What the caller has been given, what was handed to the network, and what the peer is sending. */
    ghost var returned: Bytes
    ghost var sent: seq<Sent>
    ghost const stream: Bytes
    ghost const isn: nat

    ghost function Now(): State
      reads this
    {
      State(seqNo, ackNo, recvBuffer, peerClosed, sent)
    }

    ghost predicate Valid()
      reads this, net
    {
      && |stream| < TWO_32 && localPort != 0 && net.listenPort == localPort
      && Faithful(Now(), returned, stream, isn)
      && InboxGenuine(net.inbox, stream, isn) && AllGenuine(net.script, localPort, stream, isn)
    }

    constructor (net: Network, localPort: nat, seqNo: nat, ackNo: nat, ghost sent: seq<Sent>, ghost stream: Bytes,
        ghost isn: nat)
      ensures this.net == net && this.localPort == localPort && this.stream == stream && this.isn == isn
      ensures Now() == State(seqNo, ackNo, [], false, sent) && returned == []
    {
      this.net, this.localPort, this.seqNo, this.ackNo := net, localPort, seqNo, ackNo;
      recvBuffer, peerClosed, returned, this.sent := [], false, [], sent;
      this.stream, this.isn := stream, isn;
    }

    /** Hands a segment to the network. */
    method Transmit(segment: Sent) returns (ok: bool)
      modifies this`sent, net`wire
      ensures sent == old(sent) + [segment] && net.wire == old(net.wire) + [segment] && ok == net.up
    {
      ok := net.Send(segment);
      sent := sent + [segment];
    }

    method Send(data: Bytes) returns (ok: bool)
      requires Valid()
      modifies this`seqNo, this`sent, net`wire
      ensures Valid() && ok == net.up && net.wire == old(net.wire) + [Sent(old(seqNo), ackNo, FLAG_PSH_ACK, data)]
      ensures Now() == old(Now()).(seqNo := if ok then Wrap(old(seqNo) + |data|) else old(seqNo),
                                   sent := old(sent) + [Sent(old(seqNo), ackNo, FLAG_PSH_ACK, data)])
    {
      Acknowledged(Now(), returned, stream, isn, Sent(seqNo, ackNo, FLAG_PSH_ACK, data), seqNo);
      Acknowledged(Now(), returned, stream, isn, Sent(seqNo, ackNo, FLAG_PSH_ACK, data), Wrap(seqNo + |data|));
      hide Faithful, Genuine, AllGenuine;
      ok := Transmit(Sent(seqNo, ackNo, FLAG_PSH_ACK, data));
      if !ok {
        return;
      }
      seqNo := Wrap(seqNo + |data|);
    }

    /** Takes whatever has arrived, segment by segment, until nothing is there or the peer's FIN is accepted. */
    method DrainAvailable()
      requires Valid() && !peerClosed
      modifies this`seqNo, this`ackNo, this`recvBuffer, this`peerClosed, this`sent, net`script, net`inbox, net`wire
      ensures Valid()
      ensures (Now(), net.script) == Drain(old(Now()), old(net.inbox), localPort, old(net.script)) && net.inbox == None
    {
      hide Faithful, Genuine, AllGenuine, Deliver, Accept, Later, Arrivals, Drain;
      DrainFaithful(Now(), net.inbox, localPort, net.script, returned, stream, isn);
      while true
        invariant net.listenPort == localPort && !peerClosed
        invariant Drain(Now(), net.inbox, localPort, net.script) == old(Drain(Now(), net.inbox, localPort, net.script))
        decreases |net.script|, if net.inbox.Some? then 1 else 0
      {
        DrainStep(Now(), net.inbox, localPort, net.script);
        NothingArrives(localPort, net.script);
        net.PollOnce();
        if net.inbox.None? {
          return;
        }
        var seg := net.inbox.value;
        net.inbox := None;
        TakeSegment(seg);
        if peerClosed {
          return;
        }
      }
    }

    /** Keeps and acknowledges a segment that continues the stream; any other is dropped. */
    method TakeSegment(seg: RecvSeg)
      requires !peerClosed
      modifies this`seqNo, this`ackNo, this`recvBuffer, this`peerClosed, this`sent, net`wire
      ensures Now() == Accept(old(Now()), seg)
    {
      hide Fin, Wrap;
      if seg.seqNo != ackNo {
        return;
      }
      if seg.payload != [] {
        recvBuffer := recvBuffer + seg.payload;
        ackNo := Wrap(ackNo + |seg.payload|);
        var _ := Transmit(Sent(seqNo, ackNo, FLAG_ACK, []));
      }
      if Fin(seg.flags) {
        ackNo := Wrap(ackNo + 1);
        var _ := Transmit(Sent(seqNo, ackNo, FLAG_FIN + FLAG_ACK, []));
        seqNo := Wrap(seqNo + 1);
        peerClosed := true;
      }
    }

    ghost function Here(): Link
      reads this, net
    {
      Link(Now(), net.inbox, net.script)
    }

    /**
     The next `n` bytes of the stream, as soon as one of the drains before the last has brought them in. None only if
     the peer's stream ends short of them, or the polls are used up.
     */
    method ReadExact(n: nat, spins: nat) returns (r: Option<Bytes>)
      requires Valid()
      modifies this, net`script, net`inbox, net`wire
      ensures Valid()
      ensures r.Some? <==> exists k: nat :: k < spins && |Drains(old(Here()), localPort, k).state.buffer| >= n
      ensures r.Some? ==> exists k: nat ::
                && k < spins && FirstWith(old(Here()), localPort, n, k)
                && var l := Drains(old(Here()), localPort, k);
                   r.value == l.state.buffer[..n] && Here() == l.(state := l.state.(buffer := l.state.buffer[n..]))
      ensures r.Some? ==> |r.value| == n && returned == old(returned) + r.value && returned <= stream
      ensures r.None? ==> returned == old(returned) && Here() == Drains(old(Here()), localPort, spins)
      ensures r.None? && peerClosed && spins > 0 ==> |stream| < |returned| + n || |recvBuffer| >= n
      ensures spins > 0 && old(|recvBuffer|) >= n ==>
                r == Some(old(recvBuffer)[..n]) && recvBuffer == old(recvBuffer)[n..] && net.script == old(net.script)
    {
      hide Genuine, AllGenuine, Drain, InboxGenuine;
      ghost var start := Here();
      for i := 0 to spins
        invariant Valid() && returned == old(returned) && Here() == Drains(start, localPort, i)
        invariant forall j: nat :: j < i ==> |Drains(start, localPort, j).state.buffer| < n
      {
        if |recvBuffer| >= n {
          var rest := recvBuffer[n..];
          r := Some(recvBuffer[..n]);
          Consumed(Now(), returned, stream, isn, n);
          assert FirstWith(start, localPort, n, i);
          recvBuffer, returned := rest, returned + recvBuffer[..n];
          return;
        }
        if peerClosed {
          forall j: nat | i <= j <= spins ensures Drains(start, localPort, j) == Here() {
            DrainsStay(start, localPort, i, j);
          }
          return None;
        }
        DrainAvailable();
      }
      return None;
    }

    /** Everything up to the end of the stream, if it is reached before the drains are used up. */
    method ReadToEnd(spins: nat) returns (out: Bytes)
      requires Valid()
      modifies this, net`script, net`inbox, net`wire
      ensures Valid() && recvBuffer == [] && returned == old(returned) + out && returned <= stream
      ensures peerClosed ==> returned == stream
      ensures var l := Drains(old(Here()), localPort, spins);
              out == l.state.buffer && Here() == l.(state := l.state.(buffer := []))
    {
      hide Genuine, AllGenuine, Drain, InboxGenuine;
      ghost var start := Here();
      for i := 0 to spins
        invariant Valid() && returned == old(returned) && Here() == Drains(start, localPort, i)
      {
        if peerClosed {
          DrainsStay(start, localPort, i, spins);
          break;
        }
        DrainAvailable();
      }
      assert Here() == Drains(start, localPort, spins);
      out := recvBuffer;
      Consumed(Now(), returned, stream, isn, |recvBuffer|);
      assert recvBuffer[..|recvBuffer|] == recvBuffer && recvBuffer[|recvBuffer|..] == [];
      recvBuffer, returned := [], returned + recvBuffer;
    }
  }

  /** The `k`-th drain is the first to leave `n` bytes in the buffer. */
  predicate FirstWith(l: Link, port: nat, n: nat, k: nat) {
    && |Drains(l, port, k).state.buffer| >= n
    && forall j: nat :: j < k ==> |Drains(l, port, j).state.buffer| < n
  }

  /** A data segment acknowledges no more than has arrived. */
  lemma Acknowledged(s: State, returned: Bytes, stream: Bytes, isn: nat, o: Sent, seqNo: nat)
    requires Faithful(s, returned, stream, isn) && o.ackNo == s.ackNo
    ensures Faithful(s.(sent := s.sent + [o], seqNo := seqNo), returned, stream, isn)
  {
    assert Acknowledges(o, isn, |returned + s.buffer| + if s.closed then 1 else 0);
  }

  /** Handing buffered bytes to the caller. */
  lemma Consumed(s: State, returned: Bytes, stream: Bytes, isn: nat, n: nat)
    requires Faithful(s, returned, stream, isn) && n <= |s.buffer|
    ensures Faithful(s.(buffer := s.buffer[n..]), returned + s.buffer[..n], stream, isn)
    ensures returned + s.buffer[..n] <= stream
  {
    assert returned + s.buffer[..n] + s.buffer[n..] == returned + s.buffer;
  }

  lemma NothingArrives(port: nat, script: Script)
    ensures Deliver(None, port, Arrivals([])) == None
    ensures script == [] ==> Later(script) == []
    ensures script != [] ==> |Later(script)| < |script|
  {
  }

  /** Opens a connection: waits for the SYN-ACK, and starts from the sequence number after it. */
  method Connect(net: Network, localPort: nat, initialSeq: nat, spins: nat, ghost stream: Bytes, ghost isn: nat)
    returns (r: Option<TcpStream>)
    requires localPort != 0 && |stream| < TWO_32 && AllGenuine(net.script, localPort, stream, isn)
    modifies net
    ensures net.up == old(net.up) && net.listenPort == localPort
    ensures r.Some? <==> old(net.up) && SynAck(localPort, old(net.script), spins).Some?
    ensures net.wire == old(net.wire) + [Sent(Wrap(initialSeq), 0, FLAG_SYN, [])]
                        + if r.Some? then [Sent(r.value.seqNo, r.value.ackNo, FLAG_ACK, [])] else []
    ensures r.Some? ==>
              var (seg, rest) := SynAck(localPort, old(net.script), spins).value;
              r.value.ackNo == Wrap(seg.seqNo + 1) && r.value.Here().script == rest && r.value.Here().inbox == None
    ensures r.Some? ==>
              && fresh(r.value) && r.value.net == net && r.value.stream == stream && r.value.isn == isn
              && r.value.Valid() && r.value.returned == [] && r.value.recvBuffer == [] && !r.value.peerClosed
              && r.value.seqNo == Wrap(Wrap(initialSeq) + 1)
  {
    hide AllGenuine;
    net.listenPort := localPort;
    net.inbox := None;
    var sending := net.Send(Sent(Wrap(initialSeq), 0, FLAG_SYN, []));
    if !sending {
      return None;
    }
    for i := 0 to spins
      invariant net.listenPort == localPort && net.up && old(net.up) && net.inbox == None
      invariant AllGenuine(net.script, localPort, stream, isn)
      invariant SynAck(localPort, net.script, spins - i) == SynAck(localPort, old(net.script), spins)
      invariant net.wire == old(net.wire) + [Sent(Wrap(initialSeq), 0, FLAG_SYN, [])]
    {
      TakenGenuine(net.inbox, localPort, net.script, stream, isn);
      net.PollOnce();
      if net.inbox.Some? {
        var seg := net.inbox.value;
        net.inbox := None;
        if Syn(seg.flags) && Ack(seg.flags) {
          var seqNo, ackNo := Wrap(Wrap(initialSeq) + 1), Wrap(seg.seqNo + 1);
          var ackSeg := Sent(seqNo, ackNo, FLAG_ACK, []);
          var _ := net.Send(ackSeg);
          Opening(isn, seqNo, ackNo, ackSeg, stream);
          var s := new TcpStream(net, localPort, seqNo, ackNo, [ackSeg], stream, isn);
          return Some(s);
        }
      }
    }
    return None;
  }

  lemma Opening(isn: nat, seqNo: nat, ackNo: nat, ackSeg: Sent, stream: Bytes)
    requires ackNo == Wrap(Wrap(isn) + 1) && ackSeg.ackNo == ackNo
    ensures Faithful(State(seqNo, ackNo, [], false, [ackSeg]), [], stream, isn)
  {
    DivUnique(isn + 1, TWO_32, isn / TWO_32 + (isn % TWO_32 + 1) / TWO_32, (isn % TWO_32 + 1) % TWO_32);
    assert Acknowledges(ackSeg, isn, 0);
  }
}
