/** The encrypted relay: the gateway's streaming loop, the AEAD envelope and the receiver's loop. */
module Relay {
  import opened Bytes
  import opened Crypto
  import opened Framing
  import opened Metrics
  import opened MetricsLog
  import opened Sockets

  const GATEWAY_BUFFER: nat := 1024
  const RECEIVER_BUFFER: nat := 2048
  const ENVELOPE_EXTRA: nat := GCM_IV_LEN + GCM_TAG_LEN

  // ---- The envelope ----

  /** IV, ciphertext, tag. */
  function Envelope(c: Primitives, key: Bytes, iv: Bytes, m: Bytes): Bytes {
    var (ct, tag) := c.seal(key, iv, m);
    iv + ct + tag
  }

  function OpenEnvelope(c: Primitives, key: Bytes, e: Bytes): Option<Bytes> {
    if |e| < ENVELOPE_EXTRA then None
    else c.unseal(key, e[..GCM_IV_LEN], e[GCM_IV_LEN..|e| - GCM_TAG_LEN], e[|e| - GCM_TAG_LEN..])
  }

  lemma EnvelopeOpens(c: Primitives, key: Bytes, iv: Bytes, m: Bytes)
    requires Lawful(c) && |iv| == GCM_IV_LEN
    ensures |Envelope(c, key, iv, m)| == |m| + ENVELOPE_EXTRA
    ensures OpenEnvelope(c, key, Envelope(c, key, iv, m)) == Some(m)
    ensures var e, n := Envelope(c, key, iv, m), 12 + |m|;
      e[..12] == iv && e[12..n] == c.seal(key, iv, m).0 && e[n..] == c.seal(key, iv, m).1
  {
    var (ct, tag) := c.seal(key, iv, m);
    var e := Envelope(c, key, iv, m);
    assert |ct| == |m| && |tag| == GCM_TAG_LEN;
    assert e[..GCM_IV_LEN] == iv;
    assert e[GCM_IV_LEN..|e| - GCM_TAG_LEN] == ct;
    assert e[|e| - GCM_TAG_LEN..] == tag;
  }

  /**
   * encrypt_data_gcm. `iv` is what RAND_bytes produced, None if it failed; `works` says whether every
   * call into OpenSSL succeeds; no key is an error.
   */
  method EncryptGcm(c: Primitives, key: Option<Bytes>, plaintext: Bytes, iv: Option<Bytes>, works: bool, output: array<byte>)
    returns (rc: int, outputLen: nat)
    requires Lawful(c)
    requires iv.Some? ==> |iv.value| == GCM_IV_LEN
    requires |plaintext| + ENVELOPE_EXTRA <= output.Length
    modifies output
    ensures rc == 0 || rc == -1
    ensures rc == 0 <==> key.Some? && iv.Some? && works
    ensures rc == 0 ==> outputLen == |plaintext| + ENVELOPE_EXTRA
    ensures rc == 0 ==> output[..outputLen] == Envelope(c, key.value, iv.value, plaintext)
  {
    if key.None? {
      return -1, 0;
    }
    if iv.None? {
      return -1, 0;
    }
    if !works {
      return -1, 0;
    }
    CopyInto(output, 0, iv.value);
    var (ct, tag) := c.seal(key.value, iv.value, plaintext);
    assert |ct| == |plaintext| && |tag| == GCM_TAG_LEN;
    CopyInto(output, GCM_IV_LEN, ct);
    outputLen := |ct|;
    var tagStart := GCM_IV_LEN + outputLen;
    assert output[..tagStart] == output[..GCM_IV_LEN] + output[GCM_IV_LEN..tagStart];
    CopyInto(output, tagStart, tag);
    outputLen := outputLen + ENVELOPE_EXTRA;
    assert output[..outputLen] == output[..tagStart] + output[tagStart..outputLen];
    rc := 0;
  }

  /** decrypt_data_gcm, with the byte that terminates the plaintext; `works` as above. */
  method DecryptGcm(c: Primitives, key: Option<Bytes>, input: Bytes, works: bool, plaintext: array<byte>)
    returns (rc: int, plainLen: nat)
    requires Lawful(c)
    requires |input| >= ENVELOPE_EXTRA ==> |input| - ENVELOPE_EXTRA < plaintext.Length
    modifies plaintext
    ensures rc == 0 || rc == -1
    ensures rc == 0 <==> key.Some? && works && OpenEnvelope(c, key.value, input).Some?
    ensures rc == 0 ==> plainLen == |OpenEnvelope(c, key.value, input).value| < plaintext.Length
    ensures rc == 0 ==> plaintext[..plainLen] == OpenEnvelope(c, key.value, input).value && plaintext[plainLen] == 0
  {
    if key.None? {
      return -1, 0;
    }
    if |input| < ENVELOPE_EXTRA {
      return -1, 0;
    }
    if !works {
      return -1, 0;
    }
    var n := |input|;
    var recovered := c.unseal(key.value, input[..GCM_IV_LEN], input[GCM_IV_LEN..n - GCM_TAG_LEN], input[n - GCM_TAG_LEN..]);
    if recovered.None? {
      return -1, 0;
    }
    CopyInto(plaintext, 0, recovered.value);
    plainLen := |recovered.value|;
    plaintext[plainLen] := 0;
    rc := 0;
  }

  // ---- The gateway's side ----

  function Flatten(ms: seq<Bytes>): Bytes {
    if ms == [] then [] else Flatten(ms[..|ms| - 1]) + ms[|ms| - 1]
  }

  /** The envelopes of a flow, one fresh IV each. */
  function Envelopes(c: Primitives, key: Bytes, ivs: seq<Bytes>, ms: seq<Bytes>): (r: seq<Bytes>)
    requires |ivs| == |ms|
    ensures |r| == |ms|
  {
    seq(|ms|, k requires 0 <= k < |ms| => Envelope(c, key, ivs[k], ms[k]))
  }

  /** The bytes of a flow on the wire: whole frames, then part of one if a write failed. */
  datatype Flow = Flow(msgs: seq<Bytes>, ivs: seq<Bytes>, part: Bytes)

  ghost predicate ValidFlow(f: Flow) {
    && |f.ivs| == |f.msgs|
    && (forall k :: 0 <= k < |f.msgs| ==> |f.ivs[k]| == GCM_IV_LEN && 1 <= |f.msgs[k]| < GATEWAY_BUFFER)
  }

  function Wire(c: Primitives, key: Bytes, f: Flow): Bytes
    requires |f.ivs| == |f.msgs|
  {
    Frames(Envelopes(c, key, f.ivs, f.msgs)) + f.part
  }

  /** `part` is a proper, possibly empty piece of one further frame that fits the receiver. */
  ghost predicate PartOfOneFrame(part: Bytes) {
    exists e: Bytes :: |e| < GATEWAY_BUFFER + ENVELOPE_EXTRA && |part| < |Prefixed(e)| && part <= Prefixed(e)
  }

  /** What the loop has counted so far: the first `total` input bytes, framed as `wire`. */
  ghost predicate Counted(c: Primitives, key: Bytes, f: Flow, input: Bytes, total: nat, wire: Bytes) {
    && ValidFlow(f) && f.part == []
    && total <= |input| && Flatten(f.msgs) == input[..total]
    && wire == Frames(Envelopes(c, key, f.ivs, f.msgs))
  }

  function CountMessage(f: Flow, iv: Bytes, m: Bytes): Flow {
    Flow(f.msgs + [m], f.ivs + [iv], f.part)
  }

  lemma CountOneMore(c: Primitives, key: Bytes, f: Flow, input: Bytes, total: nat, wire: Bytes, iv: Bytes, m: Bytes)
    requires Counted(c, key, f, input, total, wire)
    requires |iv| == GCM_IV_LEN && 1 <= |m| < GATEWAY_BUFFER
    requires total + |m| <= |input| && m == input[total..total + |m|]
    ensures Counted(c, key, CountMessage(f, iv, m), input, total + |m|, wire + Prefixed(Envelope(c, key, iv, m)))
  {
    var es, e := Envelopes(c, key, f.ivs, f.msgs), Envelope(c, key, iv, m);
    assert Envelopes(c, key, f.ivs + [iv], f.msgs + [m]) == es + [e];
    FramesConcat(es, [e]);
    assert Frames([e]) == Prefixed(e) + Frames([]) == Prefixed(e);
    assert (f.msgs + [m])[..|f.msgs|] == f.msgs;
    assert input[..total] + m == input[..total + |m|];
  }

  /**
   * What a flow has sent when it ends: the messages are together the first `total` bytes of the
   * client's stream, all of it if it ended cleanly; the stream to the receiver has grown by their
   * envelopes, framed, and unless it ended cleanly by part of one more frame.
   */
  ghost predicate FlowSent(c: Primitives, key: Bytes, f: Flow, input: Bytes, total: nat, clean: bool, before: Bytes, after: Bytes) {
    && ValidFlow(f) && PartOfOneFrame(f.part)
    && total <= |input| && Flatten(f.msgs) == input[..total]
    && after == before + Wire(c, key, f)
    && (clean ==> f.part == [] && total == |input|)
  }

  lemma EndedCleanly(c: Primitives, key: Bytes, f: Flow, input: Bytes, total: nat, wire: Bytes, before: Bytes)
    requires Counted(c, key, f, input, total, wire) && total == |input|
    ensures FlowSent(c, key, f, input, total, true, before, before + wire)
  {
    EmptyPart();
    assert Wire(c, key, f) == wire;
  }

  lemma EndedBroken(c: Primitives, key: Bytes, f: Flow, f': Flow, input: Bytes, total: nat,
                    wire: Bytes, wire': Bytes, before: Bytes)
    requires Counted(c, key, f, input, total, wire) && BrokenOff(c, key, f, f', wire')
    ensures FlowSent(c, key, f', input, total, false, before, before + wire')
  {
  }

  /** RAND_bytes: any 12 bytes, or a failure. */
  method RandomIv() returns (iv: Option<Bytes>)
    ensures iv.Some? ==> |iv.value| == GCM_IV_LEN
  {
    var works: bool := *;
    if works {
      var zeros: Bytes := seq(GCM_IV_LEN, _ => 0);
      assert |zeros| == GCM_IV_LEN;
      var bytes: Bytes :| |bytes| == GCM_IV_LEN;
      return Some(bytes);
    }
    return None;
  }

  /** Seal the message, then frame it. */
  method SendMessage(c: Primitives, key: Bytes, m: Bytes, sctp: Socket)
    returns (ok: bool, ghost iv: Bytes, ghost part: Bytes)
    requires Lawful(c) && |m| < GATEWAY_BUFFER
    modifies sctp`room, sctp`sent
    ensures ok ==> |iv| == GCM_IV_LEN && sctp.sent == old(sctp.sent) + Prefixed(Envelope(c, key, iv, m))
    ensures !ok ==> sctp.sent == old(sctp.sent) + part && PartOfOneFrame(part)
  {
    iv, part := [], [];
    var encrypted := new byte[GATEWAY_BUFFER + ENVELOPE_EXTRA](_ => 0);
    var random := RandomIv();
    var works: bool := *;
    var rc, encLen := EncryptGcm(c, Some(key), m, random, works, encrypted);
    if rc != 0 {
      EmptyPart();
      return false, iv, part;
    }
    iv := random.value;
    var e := encrypted[..encLen];
    rc := FrameWrite(sctp, e);
    if rc != 0 {
      part := Prefixed(e)[..|sctp.sent| - |old(sctp.sent)|];
      assert part <= Prefixed(e);
    }
    return rc == 0, iv, part;
  }

  // ---- What the loop records ----

  /** The send outcomes of a flow: a success for each message counted, then a failure unless clean. */
  function Outcomes(count: nat, clean: bool): (r: seq<int>) {
    seq(count, _ => 1) + if clean then [] else [0]
  }

  /** The records of other sessions between the loop's own, up to the n-th. */
  function Between(others: nat -> seq<Record>, n: nat): seq<Record> {
    if n == 0 then [] else Between(others, n - 1) + others(n - 1)
  }

  /** The loop's own records of whole turns: a success, then the packet received after it. */
  function Turns(packets: seq<Packet>): seq<Record> {
    if packets == [] then []
    else
      var n := |packets| - 1;
      Turns(packets[..n]) + [Outcome(1)] + [Arrival(packets[n])]
  }

  /** The records after some whole turns; `got` bytes have been received by then. */
  ghost predicate Recorded(trace: seq<Entry>, others: nat -> seq<Record>, packets: seq<Packet>, first: nat, got: nat) {
    && Mine(trace) == Turns(packets) && Theirs(trace) == Between(others, 2 * |packets|)
    && first + TotalBytes(packets) == got
  }

  /** The records after one more send. */
  ghost predicate SentToo(trace: seq<Entry>, others: nat -> seq<Record>, packets: seq<Packet>, ok: bool, first: nat, got: nat) {
    && Mine(trace) == Turns(packets) + [Outcome(if ok then 1 else 0)]
    && Theirs(trace) == Between(others, 2 * |packets| + 2)
    && first + TotalBytes(packets) == got
  }

  lemma SendRecorded(trace: seq<Entry>, others: nat -> seq<Record>, packets: seq<Packet>, first: nat, got: nat, ok: bool)
    requires Recorded(trace, others, packets, first, got)
    ensures var n := 2 * |packets|;
      var t := trace + Stretch(others(n), Outcome(if ok then 1 else 0)) + ByOthers(others(n + 1));
      SentToo(t, others, packets, ok, first, got)
      && Records(t) == Records(trace) + others(n) + [Outcome(if ok then 1 else 0)] + others(n + 1)
  {
    var n, r := 2 * |packets|, Outcome(if ok then 1 else 0);
    AfterStretch(trace, others(n), r);
    AfterOthers(trace + Stretch(others(n), r), others(n + 1));
    assert Between(others, n + 2) == Between(others, n) + others(n) + others(n + 1);
  }

  lemma PacketRecorded(trace: seq<Entry>, others: nat -> seq<Record>, packets: seq<Packet>, first: nat, got: nat, p: Packet)
    requires SentToo(trace, others, packets, true, first, got) && p.size >= 0
    ensures var t := trace + Stretch([], Arrival(p));
      Recorded(t, others, packets + [p], first, got + p.size) && Records(t) == Records(trace) + [Arrival(p)]
  {
    AfterStretch(trace, [], Arrival(p));
    assert Theirs(trace) + [] == Theirs(trace) && Records(trace) + [] == Records(trace);
    assert (packets + [p])[..|packets|] == packets;
  }

  lemma {:induction false} OwnOutcomes(packets: seq<Packet>)
    ensures SendOutcomes(Turns(packets)) == seq(|packets|, _ => 1)
  {
    if packets == [] {
    } else {
      var n := |packets| - 1;
      var front := Turns(packets[..n]);
      OwnOutcomes(packets[..n]);
      OutcomesConcat(front + [Outcome(1)], [Arrival(packets[n])]);
      OutcomesConcat(front, [Outcome(1)]);
    }
  }

  lemma {:induction false} OwnArrivals(packets: seq<Packet>)
    ensures Arrivals(Turns(packets)) == packets
  {
    if packets == [] {
    } else {
      var n := |packets| - 1;
      var front := Turns(packets[..n]);
      OwnArrivals(packets[..n]);
      OutcomesConcat(front + [Outcome(1)], [Arrival(packets[n])]);
      OutcomesConcat(front, [Outcome(1)]);
    }
  }

  /** What a flow leaves by itself: its outcomes, and its packets after the first. */
  lemma OwnRecords(own: seq<Record>, packets: seq<Packet>, clean: bool)
    requires own == Turns(packets) + [Outcome(if clean then 1 else 0)]
    ensures SendOutcomes(own) == Outcomes(if clean then |packets| + 1 else |packets|, clean) && Arrivals(own) == packets
  {
    OwnOutcomes(packets);
    OwnArrivals(packets);
    OutcomesConcat(Turns(packets), [Outcome(if clean then 1 else 0)]);
    assert seq(|packets|, _ => 1) + [1] == seq(|packets| + 1, _ => 1);
  }

  // ---- The streaming loop ----

  /**
   * The streaming loop of handle_client. `first` bytes of the client's stream are already in the
   * buffer. On return the flow records what was counted as sent, and `clean` says that the loop
   * ended because the client had no more to send. Other sessions record in the shared metrics before
   * and after each send; `trace` tells their records from this loop's own, which are a success and
   * the next packet by turns, and at the end the outcome of the last send.
   */
  method StreamLoop(c: Primitives, key: Bytes, tcp: Socket, sctp: Socket, buffer: array<byte>, first: nat,
                    shared: SharedMetrics, others: nat -> seq<Record>)
    returns (msgCount: nat, totalBytes: nat, clean: bool, ghost flow: Flow, ghost trace: seq<Entry>, ghost packets: seq<Packet>)
    requires Lawful(c) && tcp != sctp && shared.Valid() && {tcp, sctp, buffer} !! shared.Footprint()
    requires buffer.Length == GATEWAY_BUFFER && 1 <= first < GATEWAY_BUFFER
    requires tcp.received == buffer[..first]
    modifies tcp`incoming, tcp`received, sctp`room, sctp`sent, buffer, shared.Footprint()
    ensures FlowSent(c, key, flow, old(tcp.received + tcp.incoming), totalBytes, clean, old(sctp.sent), sctp.sent)
    ensures msgCount == |flow.msgs|
    ensures shared.Valid() && shared.log == old(shared.log) + Records(trace)
    ensures msgCount == if clean then |packets| + 1 else |packets|
    ensures SentToo(trace, others, packets, clean, first, |tcp.received|)
  {
    msgCount, totalBytes, clean := 0, 0, false;
    ghost var input := tcp.received + tcp.incoming;
    ghost var start, wire: Bytes := sctp.sent, [];
    ghost var log := shared.log;
    var bytes := first;
    flow, trace, packets := Flow([], [], []), [], [];
    assert Counted(c, key, flow, input, 0, []) && log + Records([]) == log;
    while true
      invariant 1 <= bytes < GATEWAY_BUFFER
      invariant Counted(c, key, flow, input, totalBytes, wire) && msgCount == |flow.msgs| == |packets|
      invariant tcp.received + tcp.incoming == input && |tcp.received| == totalBytes + bytes
      invariant buffer[..bytes] == input[totalBytes..totalBytes + bytes]
      invariant sctp.sent == start + wire
      invariant shared.Valid() && shared.log == log + Records(trace)
      invariant Recorded(trace, others, packets, first, |tcp.received|)
      decreases |tcp.incoming|
    {
      var sent, r;
      sent, r, flow, wire, trace, packets := StreamTurn(c, key, tcp, sctp, buffer, bytes, msgCount, shared, others,
        input, flow, totalBytes, start, wire, log, trace, packets, first);
      if !sent {
        return;
      }
      msgCount := msgCount + 1;
      totalBytes := totalBytes + bytes;
      if r <= 0 {
        clean := true;
        return;
      }
      bytes := r;
    }
  }

  /** One turn of the loop: send and record, receive and record. */
  method StreamTurn(c: Primitives, key: Bytes, tcp: Socket, sctp: Socket, buffer: array<byte>, bytes: nat, count: nat,
                    shared: SharedMetrics, others: nat -> seq<Record>,
                    ghost input: Bytes, ghost flow: Flow, ghost total: nat, ghost start: Bytes, ghost wire: Bytes,
                    ghost log: seq<Record>, ghost trace: seq<Entry>, ghost packets: seq<Packet>, ghost first: nat)
    returns (sent: bool, r: int, ghost flow': Flow, ghost wire': Bytes, ghost trace': seq<Entry>, ghost packets': seq<Packet>)
    requires Lawful(c) && tcp != sctp && shared.Valid() && {tcp, sctp, buffer} !! shared.Footprint()
    requires buffer.Length == GATEWAY_BUFFER && 1 <= bytes < GATEWAY_BUFFER
    requires Counted(c, key, flow, input, total, wire) && sctp.sent == start + wire && count == |packets|
    requires tcp.received + tcp.incoming == input && |tcp.received| == total + bytes
    requires buffer[..bytes] == input[total..total + bytes]
    requires shared.log == log + Records(trace) && Recorded(trace, others, packets, first, |tcp.received|)
    modifies tcp`incoming, tcp`received, sctp`room, sctp`sent, buffer, shared.Footprint()
    ensures shared.Valid() && shared.log == log + Records(trace')
    ensures |flow'.msgs| == if sent then |flow.msgs| + 1 else |flow.msgs|
    ensures tcp.received + tcp.incoming == input
    ensures if sent && r > 0 then
        && Counted(c, key, flow', input, total + bytes, wire') && sctp.sent == start + wire' && r < GATEWAY_BUFFER
        && |tcp.received| == total + bytes + r && |tcp.incoming| < |old(tcp.incoming)|
        && buffer[..r] == input[total + bytes..total + bytes + r]
        && |packets'| == count + 1 && Recorded(trace', others, packets', first, |tcp.received|)
      else
        && FlowSent(c, key, flow', input, if sent then total + bytes else total, sent, start, sctp.sent)
        && packets' == packets && SentToo(trace', others, packets, sent, first, |tcp.received|)
  {
    r, packets' := -1, packets;
    sent, flow', wire', trace' := SendHalf(c, key, sctp, buffer[..bytes], shared, others(2 * count), others(2 * count + 1), others,
      input, flow, total, start, wire, log, trace, packets, first, |tcp.received|);
    if !sent {
      return;
    }
    r, trace', packets' := ReceiveHalf(c, key, tcp, buffer, shared, others, input, flow', total + bytes, start, wire',
      log, trace', packets, first);
  }

  /** Send the message and record the outcome. */
  method SendHalf(c: Primitives, key: Bytes, sctp: Socket, m: Bytes, shared: SharedMetrics,
                  before: seq<Record>, after: seq<Record>, ghost others: nat -> seq<Record>,
                  ghost input: Bytes, ghost flow: Flow, ghost total: nat, ghost start: Bytes, ghost wire: Bytes,
                  ghost log: seq<Record>, ghost trace: seq<Entry>, ghost packets: seq<Packet>, ghost first: nat, ghost got: nat)
    returns (sent: bool, ghost flow': Flow, ghost wire': Bytes, ghost trace': seq<Entry>)
    requires Lawful(c) && shared.Valid() && sctp !in shared.Footprint()
    requires Counted(c, key, flow, input, total, wire) && sctp.sent == start + wire
    requires 1 <= |m| < GATEWAY_BUFFER && total + |m| <= |input| && m == input[total..total + |m|]
    requires shared.log == log + Records(trace) && Recorded(trace, others, packets, first, got)
    requires before == others(2 * |packets|) && after == others(2 * |packets| + 1)
    modifies sctp`room, sctp`sent, shared.Footprint()
    ensures shared.Valid() && shared.log == log + Records(trace')
    ensures |flow'.msgs| == if sent then |flow.msgs| + 1 else |flow.msgs|
    ensures sent ==> Counted(c, key, flow', input, total + |m|, wire') && sctp.sent == start + wire'
    ensures !sent ==> FlowSent(c, key, flow', input, total, false, start, sctp.sent)
    ensures SentToo(trace', others, packets, sent, first, got)
  {
    sent, flow', wire' := SendTurn(c, key, sctp, m, shared, before, after, input, flow, total, start, wire);
    trace' := NoteSend(log, trace, others, packets, first, got, sent);
    if !sent {
      EndedBroken(c, key, flow, flow', input, total, wire, wire', start);
    }
  }

  /** Receive the next piece, if there is one, and record it. */
  method ReceiveHalf(c: Primitives, key: Bytes, tcp: Socket, buffer: array<byte>, shared: SharedMetrics,
                     ghost others: nat -> seq<Record>, ghost input: Bytes, ghost flow: Flow, ghost total: nat,
                     ghost start: Bytes, ghost wire: Bytes,
                     ghost log: seq<Record>, ghost trace: seq<Entry>, ghost packets: seq<Packet>, ghost first: nat)
    returns (r: int, ghost trace': seq<Entry>, ghost packets': seq<Packet>)
    requires shared.Valid() && {tcp, buffer} !! shared.Footprint() && buffer.Length == GATEWAY_BUFFER
    requires Counted(c, key, flow, input, total, wire)
    requires tcp.received + tcp.incoming == input && |tcp.received| == total
    requires shared.log == log + Records(trace) && SentToo(trace, others, packets, true, first, total)
    modifies tcp`incoming, tcp`received, buffer, shared.Footprint()
    ensures shared.Valid() && shared.log == log + Records(trace')
    ensures tcp.received + tcp.incoming == input
    ensures if r > 0 then
        && r < GATEWAY_BUFFER && |tcp.received| == total + r && |tcp.incoming| < |old(tcp.incoming)|
        && buffer[..r] == input[total..total + r]
        && |packets'| == |packets| + 1 && Recorded(trace', others, packets', first, |tcp.received|)
      else
        && FlowSent(c, key, flow, input, total, true, start, start + wire)
        && packets' == packets && SentToo(trace', others, packets, true, first, |tcp.received|)
  {
    trace', packets' := trace, packets;
    ghost var p;
    r, p := ReceiveTurn(tcp, buffer, shared, input);
    if r > 0 {
      trace' := NotePacket(log, trace, others, packets, first, total, p);
      packets' := packets + [p];
    } else {
      EndedCleanly(c, key, flow, input, total, wire, start);
    }
  }

  lemma NoteSend(log: seq<Record>, trace: seq<Entry>, others: nat -> seq<Record>, packets: seq<Packet>,
                 first: nat, got: nat, ok: bool)
    returns (trace': seq<Entry>)
    requires Recorded(trace, others, packets, first, got)
    ensures SentToo(trace', others, packets, ok, first, got)
    ensures var n := 2 * |packets|;
      log + Records(trace') == log + Records(trace) + others(n) + [Outcome(if ok then 1 else 0)] + others(n + 1)
  {
    var n, r := 2 * |packets|, Outcome(if ok then 1 else 0);
    SendRecorded(trace, others, packets, first, got, ok);
    trace' := trace + Stretch(others(n), r) + ByOthers(others(n + 1));
    Regroup(log, Records(trace), others(n), [r], others(n + 1));
  }

  lemma NotePacket(log: seq<Record>, trace: seq<Entry>, others: nat -> seq<Record>, packets: seq<Packet>,
                   first: nat, got: nat, p: Packet)
    returns (trace': seq<Entry>)
    requires SentToo(trace, others, packets, true, first, got) && p.size >= 0
    ensures Recorded(trace', others, packets + [p], first, got + p.size)
    ensures log + Records(trace') == log + Records(trace) + [Arrival(p)]
  {
    PacketRecorded(trace, others, packets, first, got, p);
    trace' := trace + Stretch([], Arrival(p));
  }

  /** Send the buffer's message, count it and record the outcome; others record before and after. */
  method SendTurn(c: Primitives, key: Bytes, sctp: Socket, m: Bytes, shared: SharedMetrics, before: seq<Record>, after: seq<Record>,
                  ghost input: Bytes, ghost flow: Flow, ghost total: nat, ghost start: Bytes, ghost wire: Bytes)
    returns (sent: bool, ghost flow': Flow, ghost wire': Bytes)
    requires Lawful(c) && shared.Valid() && sctp !in shared.Footprint()
    requires Counted(c, key, flow, input, total, wire) && sctp.sent == start + wire
    requires 1 <= |m| < GATEWAY_BUFFER && total + |m| <= |input| && m == input[total..total + |m|]
    modifies sctp`room, sctp`sent, shared.Footprint()
    ensures sctp.sent == start + wire'
    ensures sent ==> Counted(c, key, flow', input, total + |m|, wire') && |flow'.msgs| == |flow.msgs| + 1
    ensures !sent ==> BrokenOff(c, key, flow, flow', wire')
    ensures shared.Valid()
    ensures shared.log == old(shared.log) + before + [Outcome(if sent then 1 else 0)] + after
  {
    shared.Yield(before);
    sent, flow', wire' := SendAndCount(c, key, sctp, m, input, flow, total, start, wire);
    if sent {
      shared.RecordOutcome(1);
    } else {
      shared.RecordOutcome(0);
    }
    shared.Yield(after);
  }

  lemma Regroup(a: seq<Record>, b: seq<Record>, d: seq<Record>, e: seq<Record>, f: seq<Record>)
    ensures a + b + d + e + f == a + (b + d + e + f)
  {
  }

  method SendAndCount(c: Primitives, key: Bytes, sctp: Socket, m: Bytes,
                      ghost input: Bytes, ghost flow: Flow, ghost total: nat, ghost start: Bytes, ghost wire: Bytes)
    returns (sent: bool, ghost flow': Flow, ghost wire': Bytes)
    requires Lawful(c) && Counted(c, key, flow, input, total, wire) && sctp.sent == start + wire
    requires 1 <= |m| < GATEWAY_BUFFER && total + |m| <= |input| && m == input[total..total + |m|]
    modifies sctp`room, sctp`sent
    ensures sctp.sent == start + wire'
    ensures sent ==> Counted(c, key, flow', input, total + |m|, wire') && |flow'.msgs| == |flow.msgs| + 1
    ensures !sent ==> BrokenOff(c, key, flow, flow', wire')
  {
    ghost var iv, part;
    sent, iv, part := SendMessage(c, key, m, sctp);
    if !sent {
      flow' := BreakOff(c, key, flow, input, total, wire, part);
      wire' := wire + part;
      Associate(start, wire, part);
      return;
    }
    Associate(start, wire, Prefixed(Envelope(c, key, iv, m)));
    CountOneMore(c, key, flow, input, total, wire, iv, m);
    flow', wire' := CountMessage(flow, iv, m), wire + Prefixed(Envelope(c, key, iv, m));
  }

  /** Receive the next piece of the client's stream and record it, if there is one. */
  method ReceiveTurn(tcp: Socket, buffer: array<byte>, shared: SharedMetrics, ghost input: Bytes)
    returns (r: int, ghost p: Packet)
    requires buffer.Length == GATEWAY_BUFFER
    requires tcp.received + tcp.incoming == input
    requires shared.Valid() && {tcp, buffer} !! shared.Footprint()
    modifies tcp`incoming, tcp`received, buffer, shared.Footprint()
    ensures r < GATEWAY_BUFFER && tcp.received + tcp.incoming == input && shared.Valid()
    ensures r > 0 ==> |tcp.received| == |old(tcp.received)| + r && |tcp.incoming| < |old(tcp.incoming)|
    ensures r > 0 ==> buffer[..r] == input[|old(tcp.received)|..|old(tcp.received)| + r]
    ensures r > 0 ==> p.size == r && shared.log == old(shared.log) + [Arrival(p)]
    ensures r <= 0 ==> tcp.incoming == [] && tcp.received == old(tcp.received) && shared.log == old(shared.log)
  {
    r := ReadMore(tcp, buffer, input);
    var now: real := *;
    p := Packet(now, r);
    if r > 0 {
      shared.RecordArrival(Packet(now, r));
    }
  }

  // ---- What a flow leaves in the loss window ----

  lemma {:induction false} NoFailures(n: nat)
    ensures Failures(seq(n, _ => 1)) == 0
  {
    if n == 0 {
    } else {
      NoFailures(n - 1);
      assert seq(n, _ => 1)[..n - 1] == seq(n - 1, _ => 1);
    }
  }

  /** The failures in any last part of a flow's own outcomes. */
  lemma FailuresAtEnd(front: seq<int>, tail: seq<int>, count: nat, clean: bool)
    requires front + tail == Outcomes(count, clean)
    ensures Failures(tail) == if clean || tail == [] then 0 else 1
  {
    var all := Outcomes(count, clean);
    assert tail == all[|front|..];
    if clean || tail == [] {
      assert tail == seq(|tail|, _ => 1);
      NoFailures(|tail|);
    } else {
      assert tail[..|tail| - 1] == seq(|tail| - 1, _ => 1);
      NoFailures(|tail| - 1);
    }
  }

  /**
   * The loss percentage after a flow, when its records and those of other sessions in the meantime
   * fill the window: `tail` is the part of the trace with the last hundred outcomes. It is the number
   * of the others' failures there, and one more if this flow broke off and that is still in the window.
   */
  lemma LossAfterFlow(before: seq<Record>, front: seq<Entry>, tail: seq<Entry>, packets: seq<Packet>, clean: bool)
    requires Mine(front + tail) == Turns(packets) + [Outcome(if clean then 1 else 0)]
    requires |SendOutcomes(Records(tail))| == LOSS_WINDOW
    ensures LossPct(SendOutcomes(before + Records(front + tail))) ==
      (Failures(SendOutcomes(Theirs(tail))) + if clean || SendOutcomes(Mine(tail)) == [] then 0 else 1) as real
  {
    var w := SendOutcomes(Records(tail));
    assert before + Records(front + tail) == before + Records(front) + Records(tail);
    OutcomesConcat(before + Records(front), Records(tail));
    assert Last(SendOutcomes(before + Records(front + tail)), LOSS_WINDOW) == w;
    FailuresOfBoth(tail);
    ByConcat(true, front, tail);
    OutcomesConcat(Mine(front), Mine(tail));
    OwnRecords(Mine(front + tail), packets, clean);
    FailuresAtEnd(SendOutcomes(Mine(front)), SendOutcomes(Mine(tail)), if clean then |packets| + 1 else |packets|, clean);
  }

  /** With no other session about: a clean flow of a hundred messages leaves no loss, a broken one 1%. */
  lemma LossAfterLoneFlow(before: seq<Record>, trace: seq<Entry>, packets: seq<Packet>, clean: bool)
    requires Mine(trace) == Turns(packets) + [Outcome(if clean then 1 else 0)] && Theirs(trace) == []
    requires |packets| >= LOSS_WINDOW - 1
    ensures LossPct(SendOutcomes(before + Records(trace))) == if clean then 0.0 else 1.0
  {
    NoOthers(trace);
    OwnRecords(Mine(trace), packets, clean);
    OutcomesConcat(before, Records(trace));
    var own := SendOutcomes(Mine(trace));
    var n := |own| - LOSS_WINDOW;
    assert Last(SendOutcomes(before) + own, LOSS_WINDOW) == own[n..];
    FailuresAtEnd(own[..n], own[n..], if clean then |packets| + 1 else |packets|, clean);
  }

  lemma Associate(a: Bytes, b: Bytes, d: Bytes)
    ensures a + b + d == a + (b + d)
  {
  }

  ghost predicate BrokenOff(c: Primitives, key: Bytes, f: Flow, f': Flow, wire: Bytes) {
    && ValidFlow(f') && PartOfOneFrame(f'.part) && Wire(c, key, f') == wire
    && f'.msgs == f.msgs
  }

  /** The last message was not counted; `part` of its frame got out. */
  lemma BreakOff(c: Primitives, key: Bytes, f: Flow, input: Bytes, total: nat, wire: Bytes, part: Bytes)
    returns (f': Flow)
    requires Counted(c, key, f, input, total, wire) && PartOfOneFrame(part)
    ensures BrokenOff(c, key, f, f', wire + part)
  {
    f' := f.(part := part);
  }

  lemma EmptyPart()
    ensures PartOfOneFrame([])
  {
    var e: Bytes := [];
    assert [] <= Prefixed(e);
  }

  /** recv into the reused buffer, leaving room for the terminating zero. */
  method ReadMore(tcp: Socket, buffer: array<byte>, ghost input: Bytes) returns (r: int)
    requires buffer.Length == GATEWAY_BUFFER
    requires tcp.received + tcp.incoming == input
    modifies tcp`incoming, tcp`received, buffer
    ensures r < GATEWAY_BUFFER && tcp.received + tcp.incoming == input
    ensures r > 0 ==> |tcp.received| == |old(tcp.received)| + r && |tcp.incoming| < |old(tcp.incoming)|
    ensures r > 0 ==> buffer[..r] == input[|old(tcp.received)|..|old(tcp.received)| + r]
    ensures r <= 0 ==> tcp.incoming == [] && tcp.received == old(tcp.received)
  {
    r := tcp.Read(buffer, 0, GATEWAY_BUFFER - 1);
    if r > 0 {
      assert buffer[..r] == old(tcp.incoming)[..r];
      buffer[r] := 0;
    }
  }

  // ---- The receiver's side ----

  /** The plaintexts of the envelopes that open, in order; a call into OpenSSL fails on those in `failing`. */
  function OpenAll(c: Primitives, key: Bytes, es: seq<Bytes>, failing: set<nat>): seq<Bytes> {
    if es == [] then []
    else
      var n := |es| - 1;
      var front := OpenAll(c, key, es[..n], failing);
      var m := OpenEnvelope(c, key, es[n]);
      if n in failing || m.None? then front else front + [m.value]
  }

  /** Every plaintext the receiver recovers from a stream that delivers exactly s. */
  function Delivered(c: Primitives, key: Bytes, s: Bytes, failing: set<nat>): seq<Bytes> {
    OpenAll(c, key, ReadAll(s, RECEIVER_BUFFER), failing)
  }

  /** One turn of the receive loop: a frame, and the plaintext of its envelope if it opens. */
  method ReceiveOne(c: Primitives, key: Bytes, fd: Socket, buffer: array<byte>, works: bool)
    returns (rc: int, message: Option<Bytes>)
    requires Lawful(c) && buffer.Length == RECEIVER_BUFFER
    modifies fd`incoming, fd`received, buffer
    ensures rc == 0 || rc == -1
    ensures match ReadFrame(old(fd.incoming), RECEIVER_BUFFER)
      case None => rc == -1
      case Some(f) => rc == 0 && fd.incoming == f.rest && message == if works then OpenEnvelope(c, key, f.payload) else None
  {
    message := None;
    var flen;
    rc, flen := FrameRead(fd, buffer, RECEIVER_BUFFER);
    if rc != 0 {
      return;
    }
    var plaintext := new byte[RECEIVER_BUFFER](_ => 0);
    var ok, plainLen := DecryptGcm(c, Some(key), buffer[..flen], works, plaintext);
    if ok == 0 {
      message := Some(plaintext[..plainLen]);
    }
  }

  lemma OneMoreFrame(c: Primitives, key: Bytes, read: seq<Bytes>, e: Bytes, failing: set<nat>)
    ensures OpenAll(c, key, read + [e], failing) == OpenAll(c, key, read, failing) +
      (if |read| in failing || OpenEnvelope(c, key, e).None? then [] else [OpenEnvelope(c, key, e).value])
  {
    assert (read + [e])[..|read|] == read;
  }

  /** One frame further along a stream, or its end. */
  lemma ReadOn(read: seq<Bytes>, s: Bytes)
    ensures var all := read + ReadAll(s, RECEIVER_BUFFER);
      match ReadFrame(s, RECEIVER_BUFFER)
      case None => all == read
      case Some(f) => all == read + [f.payload] + ReadAll(f.rest, RECEIVER_BUFFER)
  {
  }

  /** The receive loop of main: both stack buffers are RECEIVER_BUFFER bytes. */
  method ReceiveLoop(c: Primitives, key: Bytes, fd: Socket, failing: set<nat>) returns (count: nat, messages: seq<Bytes>)
    requires Lawful(c)
    modifies fd`incoming, fd`received
    ensures messages == Delivered(c, key, old(fd.incoming), failing) && count == |messages|
  {
    count, messages := 0, [];
    ghost var all, read: seq<Bytes> := ReadAll(fd.incoming, RECEIVER_BUFFER), [];
    var frame := 0;
    var buffer := new byte[RECEIVER_BUFFER](_ => 0);
    while true
      invariant fresh(buffer) && buffer.Length == RECEIVER_BUFFER
      invariant all == read + ReadAll(fd.incoming, RECEIVER_BUFFER) && frame == |read|
      invariant messages == OpenAll(c, key, read, failing) && count == |messages|
      decreases |fd.incoming|
    {
      ghost var s := fd.incoming;
      var rc, message := ReceiveOne(c, key, fd, buffer, frame !in failing);
      ReadOn(read, s);
      if rc != 0 {
        break;
      }
      ghost var e := ReadFrame(s, RECEIVER_BUFFER).value.payload;
      OneMoreFrame(c, key, read, e, failing);
      read := read + [e];
      if message.Some? {
        count := count + 1;
        messages := messages + [message.value];
      }
      frame := frame + 1;
    }
  }

  // ---- End to end ----

  /** The messages whose envelopes no failure keeps from being opened. */
  function Surviving(ms: seq<Bytes>, failing: set<nat>): seq<Bytes> {
    if ms == [] then []
    else
      var n := |ms| - 1;
      Surviving(ms[..n], failing) + if n in failing then [] else [ms[n]]
  }

  lemma {:induction false} AllSurvive(ms: seq<Bytes>)
    ensures Surviving(ms, {}) == ms
  {
    if ms == [] {
    } else {
      AllSurvive(ms[..|ms| - 1]);
    }
  }

  lemma {:induction false} OpenAllOfEnvelopes(c: Primitives, key: Bytes, ivs: seq<Bytes>, ms: seq<Bytes>, failing: set<nat>)
    requires Lawful(c) && |ivs| == |ms|
    requires forall k :: 0 <= k < |ivs| ==> |ivs[k]| == GCM_IV_LEN
    ensures OpenAll(c, key, Envelopes(c, key, ivs, ms), failing) == Surviving(ms, failing)
  {
    if ms == [] {
    } else {
      var n, es := |ms| - 1, Envelopes(c, key, ivs, ms);
      EnvelopeOpens(c, key, ivs[n], ms[n]);
      assert es[..n] == Envelopes(c, key, ivs[..n], ms[..n]);
      OpenAllOfEnvelopes(c, key, ivs[..n], ms[..n], failing);
    }
  }

  /** The frames of a valid flow, with or without the piece of one more, are within the receiver's cap. */
  lemma WireIsFramed(c: Primitives, key: Bytes, f: Flow) returns (es: seq<Bytes>)
    requires Lawful(c) && ValidFlow(f) && PartOfOneFrame(f.part)
    ensures |es| == |f.msgs| + 1 && es[..|f.msgs|] == Envelopes(c, key, f.ivs, f.msgs)
    ensures Wire(c, key, f) <= Frames(es) && |Wire(c, key, f)| < |Frames(es)|
    ensures forall e :: e in es ==> Framable(e, RECEIVER_BUFFER)
  {
    var e: Bytes :| |e| < GATEWAY_BUFFER + ENVELOPE_EXTRA && |f.part| < |Prefixed(e)| && f.part <= Prefixed(e);
    var whole := Envelopes(c, key, f.ivs, f.msgs);
    es := whole + [e];
    FramesConcat(whole, [e]);
    assert Frames([e]) == Prefixed(e) + Frames([]) == Prefixed(e);
    forall k | 0 <= k < |whole| ensures Framable(whole[k], RECEIVER_BUFFER) {
      EnvelopeOpens(c, key, f.ivs[k], f.msgs[k]);
    }
  }

  /** Every message and every envelope fits the buffers of both programs, in bytes. */
  lemma EnvelopesFitBuffers(c: Primitives, key: Bytes, f: Flow, k: nat)
    requires Lawful(c) && ValidFlow(f) && k < |f.msgs|
    ensures 1 <= |f.msgs[k]| <= 1023 && |Envelopes(c, key, f.ivs, f.msgs)[k]| == |f.msgs[k]| + 28 <= 1051
    ensures GATEWAY_BUFFER == 1024 && RECEIVER_BUFFER == 2048
  {
    EnvelopeOpens(c, key, f.ivs[k], f.msgs[k]);
  }

  lemma {:induction false} WholeFramesBound(ms: seq<Bytes>, n: nat)
    requires ms != [] && n < |Frames(ms)|
    ensures WholeFrames(ms, n) < |ms|
  {
    assert |ms| == 1 ==> Frames(ms[1..]) == [];
    if n < 4 + |ms[0]| {
    } else {
      WholeFramesBound(ms[1..], n - 4 - |ms[0]|);
    }
  }

  /**
   * End to end. However the stream is chunked and wherever it is cut, the receiver delivers in order
   * the first messages of those the gateway counted: exactly the ones whose frames arrived whole, less
   * those on which its own OpenSSL fails.
   */
  lemma RelayDelivers(c: Primitives, key: Bytes, f: Flow, n: nat, failing: set<nat>)
    requires Lawful(c) && ValidFlow(f) && PartOfOneFrame(f.part) && n <= |Wire(c, key, f)|
    ensures var k := WholeFrames(Envelopes(c, key, f.ivs, f.msgs), n);
      k <= |f.msgs| && Delivered(c, key, Wire(c, key, f)[..n], failing) == Surviving(f.msgs[..k], failing)
  {
    var es := WireIsFramed(c, key, f);
    var whole := Envelopes(c, key, f.ivs, f.msgs);
    assert es == whole + [es[|f.msgs|]];
    WholeFramesOfMore(whole, es[|f.msgs|], n);
    CutStream(es, n, RECEIVER_BUFFER);
    assert Wire(c, key, f)[..n] == Frames(es)[..n];
    var k := WholeFrames(whole, n);
    assert es[..k] == whole[..k];
    OpenAllOfFirst(c, key, f.ivs, f.msgs, k, failing);
  }

  lemma OpenAllOfFirst(c: Primitives, key: Bytes, ivs: seq<Bytes>, ms: seq<Bytes>, k: nat, failing: set<nat>)
    requires Lawful(c) && |ivs| == |ms| && k <= |ms|
    requires forall j :: 0 <= j < |ivs| ==> |ivs[j]| == GCM_IV_LEN
    ensures OpenAll(c, key, Envelopes(c, key, ivs, ms)[..k], failing) == Surviving(ms[..k], failing)
  {
    assert Envelopes(c, key, ivs, ms)[..k] == Envelopes(c, key, ivs[..k], ms[..k]);
    OpenAllOfEnvelopes(c, key, ivs[..k], ms[..k], failing);
  }

  lemma {:induction false} WholeFramesOfMore(ms: seq<Bytes>, m: Bytes, n: nat)
    requires n < |Frames(ms + [m])|
    ensures WholeFrames(ms + [m], n) == WholeFrames(ms, n)
  {
    if ms == [] {
      assert ms + [m] == [m];
      WholeFramesBound([m], n);
    } else {
      assert (ms + [m])[1..] == ms[1..] + [m];
      if n >= 4 + |ms[0]| {
        WholeFramesOfMore(ms[1..], m, n - 4 - |ms[0]|);
      }
    }
  }

  /** When the whole wire arrives and every envelope can be opened, every counted message is delivered. */
  lemma RelayDeliversAll(c: Primitives, key: Bytes, f: Flow)
    requires Lawful(c) && ValidFlow(f) && PartOfOneFrame(f.part)
    ensures Delivered(c, key, Wire(c, key, f), {}) == f.msgs
  {
    var w, es := Wire(c, key, f), Envelopes(c, key, f.ivs, f.msgs);
    RelayDelivers(c, key, f, |w|, {});
    AllSurvive(f.msgs);
    assert w[..|w|] == w;
    WholeFramesMonotone(es, |Frames(es)|, |w|);
    AllWhole(es);
    assert f.msgs[..|f.msgs|] == f.msgs;
  }

  lemma {:induction false} WholeFramesMonotone(ms: seq<Bytes>, a: nat, b: nat)
    requires a <= b
    ensures WholeFrames(ms, a) <= WholeFrames(ms, b)
  {
    if ms == [] || a < 4 + |ms[0]| {
    } else {
      WholeFramesMonotone(ms[1..], a - 4 - |ms[0]|, b - 4 - |ms[0]|);
    }
  }
}
