/** The receive side: reassembling packets from a byte stream that arrives in arbitrary pieces. */
module Framing {
  import opened Sequences
  import opened Bytes
  import opened Buffers

  const MAX_BODY: nat := MAX_BUFFER_SIZE - REAL_BUFFER_OFFSET

  function BodyLength(packet: seq<byte>): nat
    requires REAL_BUFFER_OFFSET <= |packet|
  {
    FromLE(packet[1..5])
  }

  // ---------- Reference: parse the whole stream at once ----------

  datatype Parsed = Parsed(packets: seq<seq<byte>>, rest: seq<byte>, rejected: bool)

  /** Packets up to the first header whose length is too large; the rest is an incomplete packet or that header. */
  function ParseStream(s: seq<byte>): Parsed {
    if |s| < REAL_BUFFER_OFFSET then Parsed([], s, false)
    else
      var n := BodyLength(s);
      if n > MAX_BODY then Parsed([], s, true)
      else if |s| < REAL_BUFFER_OFFSET + n then Parsed([], s, false)
      else
        var tail := ParseStream(s[REAL_BUFFER_OFFSET + n..]);
        tail.(packets := [s[..REAL_BUFFER_OFFSET + n]] + tail.packets)
  }

  // ---------- The state machine ----------

  datatype Await = Header | Body | Nothing

  /** What the session waits for, the bytes of the packet under construction, and the packets handed on. */
  datatype ReadState = ReadState(await: Await, partial: seq<byte>, delivered: seq<seq<byte>>)

  const START := ReadState(Header, [], [])

  ghost predicate ReadInv(st: ReadState) {
    match st.await
    case Header => |st.partial| < REAL_BUFFER_OFFSET
    case Body =>
      && REAL_BUFFER_OFFSET <= |st.partial| < REAL_BUFFER_OFFSET + BodyLength(st.partial)
      && BodyLength(st.partial) <= MAX_BODY
    case Nothing => true
  }

  /** The size of the next read. */
  function Wanted(st: ReadState): (n: nat)
    requires ReadInv(st)
  {
    match st.await
    case Header => REAL_BUFFER_OFFSET - |st.partial|
    case Body => REAL_BUFFER_OFFSET + BodyLength(st.partial) - |st.partial|
    case Nothing => 0
  }

  /** A completed read of any part of what was asked for. */
  function Receive(st: ReadState, chunk: seq<byte>): (r: ReadState)
    requires ReadInv(st) && |chunk| <= Wanted(st)
  {
    var p := st.partial + chunk;
    match st.await
    case Header =>
      if |p| < REAL_BUFFER_OFFSET then st.(partial := p)
      else if BodyLength(p) > MAX_BODY then st.(await := Nothing, partial := p)
      else if BodyLength(p) == 0 then ReadState(Header, [], st.delivered + [p])
      else st.(await := Body, partial := p)
    case Body =>
      if |p| < REAL_BUFFER_OFFSET + BodyLength(p) then st.(partial := p)
      else ReadState(Header, [], st.delivered + [p])
    case Nothing => st
  }

  lemma HeaderReceived(st: ReadState, chunk: seq<byte>)
    requires ReadInv(st) && st.await == Header && |chunk| <= Wanted(st)
    ensures var p, r := st.partial + chunk, Receive(st, chunk);
      && |p| <= REAL_BUFFER_OFFSET
      && (|p| < REAL_BUFFER_OFFSET ==> r == st.(partial := p))
      && (|p| == REAL_BUFFER_OFFSET ==>
            r == if BodyLength(p) > MAX_BODY then st.(await := Nothing, partial := p)
                 else if BodyLength(p) == 0 then ReadState(Header, [], st.delivered + [p])
                 else st.(await := Body, partial := p))
  {
  }

  lemma BodyReceived(st: ReadState, chunk: seq<byte>)
    requires ReadInv(st) && st.await == Body && |chunk| <= Wanted(st)
    ensures var p, r := st.partial + chunk, Receive(st, chunk);
      && BodyLength(p) == BodyLength(st.partial) <= MAX_BODY
      && REAL_BUFFER_OFFSET <= |p| <= REAL_BUFFER_OFFSET + BodyLength(p)
      && r == if |p| < REAL_BUFFER_OFFSET + BodyLength(p) then st.(partial := p)
              else ReadState(Header, [], st.delivered + [p])
  {
    hide FromLE;
    assert (st.partial + chunk)[1..5] == st.partial[1..5];
  }

  lemma ReceiveKeepsInv(st: ReadState, chunk: seq<byte>)
    requires ReadInv(st) && |chunk| <= Wanted(st)
    ensures ReadInv(Receive(st, chunk))
  {
    var p := st.partial + chunk;
    if st.await == Body {
      assert p[1..5] == st.partial[1..5];
    }
  }

  /** Every read asks for exactly what is missing of the header or of the body, and ends inside the buffer. */
  lemma ReadsInBounds(st: ReadState)
    requires ReadInv(st) && st.await != Nothing
    ensures 0 < Wanted(st) && |st.partial| + Wanted(st) <= 4000
    ensures |st.partial| + Wanted(st) == 6 + if st.await == Header then 0 else Four(st.partial, 1)
  {
    hide FromLE;
    if st.await == Body {
      Value4(st.partial[1..5]);
    }
  }

  /** A complete header is rejected exactly when the packet that it announces is longer than 4000 bytes. */
  lemma HeaderRejected(st: ReadState, chunk: seq<byte>)
    requires ReadInv(st) && st.await == Header && |chunk| == Wanted(st)
    ensures Receive(st, chunk).await == Nothing <==> 6 + Four(st.partial + chunk, 1) > 4000
  {
    hide FromLE;
    Value4((st.partial + chunk)[1..5]);
  }

  /** The chunks are results of consecutive reads, none larger than asked for, none after the connection is given up. */
  ghost predicate Arrives(st: ReadState, chunks: seq<seq<byte>>)
    requires ReadInv(st)
    decreases chunks
  {
    chunks == [] ||
    (st.await != Nothing && |chunks[0]| <= Wanted(st) &&
     (ReceiveKeepsInv(st, chunks[0]); Arrives(Receive(st, chunks[0]), chunks[1..])))
  }

  function ReceiveAll(st: ReadState, chunks: seq<seq<byte>>): ReadState
    requires ReadInv(st) && Arrives(st, chunks)
    decreases chunks
  {
    if chunks == [] then st
    else
      ReceiveKeepsInv(st, chunks[0]);
      ReceiveAll(Receive(st, chunks[0]), chunks[1..])
  }

  // ---------- Fragmentation does not matter ----------

  ghost predicate WellFormed(packet: seq<byte>) {
    && REAL_BUFFER_OFFSET <= |packet|
    && BodyLength(packet) <= MAX_BODY
    && |packet| == REAL_BUFFER_OFFSET + BodyLength(packet)
  }

  lemma ParseOne(p: seq<byte>, t: seq<byte>)
    requires WellFormed(p)
    ensures var r := ParseStream(t); ParseStream(p + t) == r.(packets := [p] + r.packets)
  {
    var s := p + t;
    assert s[1..5] == p[1..5] && s[..|p|] == p && s[|p|..] == t;
  }

  lemma {:induction false} ParseWellFormed(packets: seq<seq<byte>>, rest: seq<byte>)
    requires forall p :: p in packets ==> WellFormed(p)
    ensures var r := ParseStream(rest);
      ParseStream(Flatten(packets) + rest) == r.(packets := packets + r.packets)
  {
    var r := ParseStream(rest);
    hide ParseStream, WellFormed;
    if packets == [] {
      assert Flatten(packets) + rest == rest && packets + r.packets == r.packets;
    } else {
      var p, t := packets[0], Flatten(packets[1..]) + rest;
      ParseWellFormed(packets[1..], rest);
      assert Flatten(packets) + rest == p + t;
      ParseOne(p, t);
      assert packets + r.packets == [p] + (packets[1..] + r.packets);
    }
  }

  /** What has been consumed so far, and what the reference parser says about it. */
  ghost predicate Tracks(st: ReadState, consumed: seq<byte>) {
    && ReadInv(st)
    && (forall p :: p in st.delivered ==> WellFormed(p))
    && consumed == Flatten(st.delivered) + st.partial
    && (st.await == Nothing ==> |st.partial| == REAL_BUFFER_OFFSET && BodyLength(st.partial) > MAX_BODY)
  }

  lemma TracksParse(st: ReadState, consumed: seq<byte>)
    requires Tracks(st, consumed)
    ensures ParseStream(consumed) == Parsed(st.delivered, st.partial, st.await == Nothing)
  {
    ParseWellFormed(st.delivered, st.partial);
    assert ParseStream(st.partial) == Parsed([], st.partial, st.await == Nothing);
    assert st.delivered + [] == st.delivered;
  }

  /** A read either adds to the packet under construction or completes it. */
  lemma ReceiveCases(st: ReadState, chunk: seq<byte>)
    requires ReadInv(st) && st.await != Nothing && |chunk| <= Wanted(st)
    ensures var r, p := Receive(st, chunk), st.partial + chunk;
      && ((r.delivered == st.delivered && r.partial == p) ||
          (r.delivered == st.delivered + [p] && r.partial == [] && WellFormed(p)))
      && (r.await == Nothing ==> |r.partial| == REAL_BUFFER_OFFSET && BodyLength(r.partial) > MAX_BODY)
  {
    hide FromLE;
    var p := st.partial + chunk;
    if st.await == Body {
      assert p[1..5] == st.partial[1..5];
    }
  }

  lemma ReceiveTracks(st: ReadState, consumed: seq<byte>, chunk: seq<byte>)
    requires Tracks(st, consumed) && st.await != Nothing && |chunk| <= Wanted(st)
    ensures Tracks(Receive(st, chunk), consumed + chunk)
  {
    hide Receive, ReadInv, Wanted, WellFormed, Flatten, BodyLength;
    var p := st.partial + chunk;
    ReceiveKeepsInv(st, chunk);
    ReceiveCases(st, chunk);
    ConcatAssociates(Flatten(st.delivered), st.partial, chunk);
    FlattenAppend(st.delivered, [p]);
    FlattenOne(p);
    ConcatAssociates(Flatten(st.delivered), p, []);
    assert p + [] == p;
  }

  lemma FlattenOne(p: seq<byte>)
    ensures Flatten([p]) == p
  {
  }

  lemma {:induction false} ReceiveAllTracks(st: ReadState, consumed: seq<byte>, chunks: seq<seq<byte>>)
    requires Tracks(st, consumed) && Arrives(st, chunks)
    ensures Tracks(ReceiveAll(st, chunks), consumed + Flatten(chunks))
    decreases chunks
  {
    if chunks == [] {
      assert consumed + Flatten(chunks) == consumed;
    } else {
      ReceiveTracks(st, consumed, chunks[0]);
      ReceiveAllTracks(Receive(st, chunks[0]), consumed + chunks[0], chunks[1..]);
      assert consumed + Flatten(chunks) == consumed + chunks[0] + Flatten(chunks[1..]);
    }
  }

  /** However the stream is cut into reads: the packets, the leftover and the rejection are those of the reference. */
  lemma FragmentationIndependence(chunks: seq<seq<byte>>)
    requires Arrives(START, chunks)
    ensures var st := ReceiveAll(START, chunks);
      ParseStream(Flatten(chunks)) == Parsed(st.delivered, st.partial, st.await == Nothing)
  {
    assert Tracks(START, []);
    ReceiveAllTracks(START, [], chunks);
    assert [] + Flatten(chunks) == Flatten(chunks);
    TracksParse(ReceiveAll(START, chunks), Flatten(chunks));
  }
}
