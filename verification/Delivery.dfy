/** From typed fields on one side to typed fields on the other, across any partial writes and any partial reads. */
module Delivery {
  import opened Bytes
  import opened Fields
  import opened Buffers
  import opened Framing
  import S = Sending

  /** A packet before it is masked; `key` is the random mask byte drawn for it. */
  datatype Message = Message(op: byte, key: byte, fields: seq<Field>) {

    /** With its header, it is no longer than the array. */
    predicate Fits() {
      6 + |EncodeAll(fields)| <= 4000
    }

    /** Every string of it can be read back. */
    ghost predicate AllReadable() {
      forall f :: f in fields ==> Readable(f)
    }

    function OnWire(): seq<byte> {
      Package(op, key, Masked(EncodeAll(fields), key))
    }
  }

  /** A received packet after unmasking with the key byte it carries. */
  function Unmasked(packet: seq<byte>): seq<byte>
    requires REAL_BUFFER_OFFSET <= |packet|
  {
    packet[..REAL_BUFFER_OFFSET] + Masked(packet[REAL_BUFFER_OFFSET..], packet[5])
  }

  /** What a peer finds on the wire: opcode, length, key byte, and a body that adds up with the fields' bytes. */
  lemma OnWireBytes(m: Message)
    requires m.Fits()
    ensures var w, body := m.OnWire(), EncodeAll(m.fields);
      && |w| == 6 + |body| && w[0] == m.op && Four(w, 1) == |body| && w[5] == m.key
      && forall i :: 0 <= i < |body| ==> w[6 + i] + body[i] == 255 + m.key
  {
    hide EncodeAll, LE, FromLE, Masked;
    var w, body := m.OnWire(), EncodeAll(m.fields);
    var masked := Masked(body, m.key);
    MaskSum(body, m.key);
    Powers();
    LERoundTrip(|body|, 4);
    Value4(LE(|body|, 4));
    assert w[1..5] == LE(|body|, 4) && w[6..] == masked;
    assert forall i :: 0 <= i < |body| ==> w[6 + i] == w[6..][i];
    assert forall i :: 0 <= i < 4 ==> w[1 + i] == w[1..5][i];
  }

  lemma OnWireWellFormed(m: Message)
    requires m.Fits()
    ensures WellFormed(m.OnWire())
  {
    hide EncodeAll, LE, FromLE;
    var p, n := m.OnWire(), |EncodeAll(m.fields)|;
    assert p[1..5] == LE(n, 4);
    Powers();
    LERoundTrip(n, 4);
  }

  /**
   The packet is the message as its receiver sees it: the opcode is there, and the fields read back, with nothing left
   over, exactly when every string of them is readable.
   */
  ghost predicate Delivers(packet: seq<byte>, m: Message)
    requires REAL_BUFFER_OFFSET <= |packet|
  {
    var (fields, end) := ReadFields(KindsOf(m.fields), Cursor(Unmasked(packet), REAL_BUFFER_OFFSET));
    && packet == m.OnWire()
    && Unmasked(packet)[0] == m.op
    && (fields == m.fields <==> m.AllReadable())
    && (m.AllReadable() ==> end == Cursor(Unmasked(packet), |packet|))
  }

  lemma ReadsBack(m: Message)
    requires m.Fits()
    ensures Delivers(m.OnWire(), m)
  {
    hide EncodeAll, ReadFields, KindsOf, Readable;
    var packet, body := m.OnWire(), EncodeAll(m.fields);
    var header := packet[..REAL_BUFFER_OFFSET];
    MaskTwice(body, m.key);
    assert packet[REAL_BUFFER_OFFSET..] == Masked(body, m.key);
    assert Unmasked(packet) == header + body + [];
    FieldsRoundTrip(header, m.fields, []);
  }

  function Wires(ms: seq<Message>): seq<seq<byte>> {
    seq(|ms|, i requires 0 <= i < |ms| => ms[i].OnWire())
  }

  /** An incomplete packet that has its header already says how long it will be. */
  lemma SameHeader(partial: seq<byte>, w: seq<byte>, t: seq<byte>)
    requires REAL_BUFFER_OFFSET <= |partial| < |w| && partial <= w + t
    ensures BodyLength(partial) == BodyLength(w)
  {
    assert forall i :: 0 <= i < |partial| ==> partial[i] == (w + t)[i] == w[i];
    assert partial[1..5] == w[1..5];
  }

  /** An incomplete packet parses as the rest. */
  lemma ShortParses(consumed: seq<byte>, w: seq<byte>, t: seq<byte>)
    requires WellFormed(w) && |consumed| < |w| && consumed <= w + t
    ensures ParseStream(consumed) == Parsed([], consumed, false)
  {
    hide FromLE;
    if |consumed| >= REAL_BUFFER_OFFSET {
      SameHeader(consumed, w, t);
    }
  }

  lemma {:induction false} PrefixParses(ws: seq<seq<byte>>, consumed: seq<byte>)
    requires forall w :: w in ws ==> WellFormed(w)
    requires consumed <= Flatten(ws)
    ensures var r := ParseStream(consumed);
      && r.packets <= ws && !r.rejected
      && (consumed == Flatten(ws) ==> r.packets == ws && r.rest == [])
  {
    hide ParseStream, WellFormed;
    if ws == [] {
      NothingParses();
    } else {
      var w := ws[0];
      assert WellFormed(w) && Flatten(ws) == w + Flatten(ws[1..]);
      NotEmpty(w);
      if |consumed| >= |w| {
        var rest := consumed[|w|..];
        assert consumed == w + rest;
        PrefixParses(ws[1..], rest);
        ParseOne(w, rest);
        assert ws == [w] + ws[1..];
        assert consumed == Flatten(ws) ==> rest == Flatten(ws[1..]);
      } else {
        ShortParses(consumed, w, Flatten(ws[1..]));
      }
    }
  }

  lemma NothingParses()
    ensures ParseStream([]) == Parsed([], [], false)
  {
  }

  lemma NotEmpty(w: seq<byte>)
    requires WellFormed(w)
    ensures w != []
  {
  }

  lemma {:induction false} FlattenWires(ps: seq<S.OutPacket>, ws: seq<seq<byte>>)
    requires |ps| == |ws| && forall i :: 0 <= i < |ps| ==> ps[i].bytes == ws[i]
    ensures S.BytesOf(ps) == Flatten(ws)
  {
    if ps != [] {
      FlattenWires(ps[1..], ws[1..]);
    }
  }

  /** Complete packets in front of what was consumed are among the parsed ones. */
  lemma ParsesAtLeast(ws: seq<seq<byte>>, n: nat, consumed: seq<byte>)
    requires n <= |ws| && (forall w :: w in ws ==> WellFormed(w)) && Flatten(ws[..n]) <= consumed
    ensures |ParseStream(consumed).packets| >= n
  {
    hide ParseStream, WellFormed, Flatten;
    var rest := consumed[|Flatten(ws[..n])|..];
    assert consumed == Flatten(ws[..n]) + rest;
    ParseWellFormed(ws[..n], rest);
  }

  /**
   One side has pushed `ms`, in any interleaving of senders, handlers and partial writes, and may have closed; the other
   has read some prefix of what is on the wire, in any pieces. Then the packets handed on are the first ones of `ms`, and
   each reads back as its own fields exactly when these are readable. Once everything on the wire is read they are at
   least the completed ones, and all of `ms` if nothing was left to send either.
   */
  lemma EndToEnd(ms: seq<Message>, run: seq<S.Event>, chunks: seq<seq<byte>>)
    requires forall m :: m in ms ==> m.Fits()
    requires S.Exec(S.IDLE, run).Some?
    requires var pushed := S.Exec(S.IDLE, run).value.pushed;
      |pushed| == |ms| && forall i :: 0 <= i < |ms| ==> pushed[i].bytes == ms[i].OnWire()
    requires Arrives(START, chunks) && Flatten(chunks) <= S.Exec(S.IDLE, run).value.wire
    ensures var st, got := S.Exec(S.IDLE, run).value, ReceiveAll(START, chunks);
      && got.await != Nothing
      && |got.delivered| <= |ms|
      && (forall i :: 0 <= i < |got.delivered| ==>
            REAL_BUFFER_OFFSET <= |got.delivered[i]| && Delivers(got.delivered[i], ms[i]))
      && (Flatten(chunks) == st.wire ==> |st.done| <= |got.delivered|)
      && (!st.closed && S.Quiet(st) && Flatten(chunks) == st.wire ==> |got.delivered| == |ms| && got.partial == [])
  {
    var st, got, ws := S.Exec(S.IDLE, run).value, ReceiveAll(START, chunks), Wires(ms);
    hide S.Exec, ReceiveAll, Arrives, ParseStream, WellFormed, Delivers, S.Quiet, S.BytesOf, Flatten,
      Message.OnWire, Message.Fits;
    S.WireAlwaysPrefix(run);
    S.QuietMeansSent(run);
    WiresWellFormed(ms);
    FlattenWires(st.pushed, ws);
    FlattenWires(st.done, ws[..|st.done|]);
    FragmentationIndependence(chunks);
    PrefixParses(ws, Flatten(chunks));
    if Flatten(chunks) == st.wire {
      ParsesAtLeast(ws, |st.done|, st.wire);
    }
    forall i | 0 <= i < |got.delivered|
      ensures REAL_BUFFER_OFFSET <= |got.delivered[i]| && Delivers(got.delivered[i], ms[i])
    {
      assert got.delivered[i] == ms[i].OnWire();
      ReadsBack(ms[i]);
    }
  }

  lemma WiresWellFormed(ms: seq<Message>)
    requires forall m :: m in ms ==> m.Fits()
    ensures forall w :: w in Wires(ms) ==> WellFormed(w)
  {
    hide WellFormed, Message.OnWire, Message.Fits;
    forall w | w in Wires(ms)
      ensures WellFormed(w)
    {
      var i :| 0 <= i < |ms| && Wires(ms)[i] == w;
      OnWireWellFormed(ms[i]);
    }
  }
}
