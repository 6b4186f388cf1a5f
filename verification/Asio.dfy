/** The session handlers themselves, over packet objects, proved to follow the two state machines. */
module Asio {
  import opened Bytes
  import opened Wrappers
  import opened Fields
  import opened Buffers
  import opened Framing
  import opened Sending
  import D = Delivery

  class Packet {
    const buffer: Buffer
    var islastpacket: bool

    ghost predicate Valid()
      reads this, buffer
    {
      buffer.Valid()
    }

    ghost function Snapshot(): OutPacket
      requires Valid()
      reads this, buffer, buffer.bufferinternal
    {
      OutPacket(buffer.Bytes(), islastpacket)
    }

    constructor ()
      ensures Valid() && fresh(buffer) && fresh(buffer.bufferinternal) && !islastpacket
    {
      buffer := new Buffer();
      islastpacket := false;
    }
  }

  ghost predicate StandsFor(p: Packet, out: OutPacket, repr: set<object>)
    reads repr
  {
    p in repr && p.buffer in repr && p.buffer.bufferinternal in repr && p.Valid() && p.Snapshot() == out
  }

  ghost predicate AllStandFor(ps: seq<Packet>, outs: seq<OutPacket>, repr: set<object>)
    reads repr
  {
    |ps| == |outs| && forall i :: 0 <= i < |ps| ==> StandsFor(ps[i], outs[i], repr)
  }

  // ---------- Sending ----------

  /**
   The part of a session that sends. `strand` holds the handlers posted on the strand, `writing` says that an
   asynchronous write is outstanding. `view` is the state of the sending machine that the fields stand for, and `repr`
   holds every object of every packet handed over.
   */
  class Sender {
    var writepacketlist: seq<Packet>
    var writepacket: Packet?
    var writeoffset: nat
    var strand: multiset<Task>
    var writing: bool
    ghost var view: WriteState
    ghost var repr: set<object>

    ghost predicate Valid()
      reads this, repr
    {
      && this !in repr
      && strand == view.tasks && writing == view.busy
      && AllStandFor(writepacketlist, view.queue, repr)
      && (writepacket == null <==> view.current.None?)
      && (writepacket != null ==> StandsFor(writepacket, view.current.value, repr) && view.offset == writeoffset)
    }

    constructor ()
      ensures Valid() && view == IDLE && repr == {}
    {
      writepacketlist, writepacket, writeoffset := [], null, 0;
      strand, writing := multiset{}, false;
      view, repr := IDLE, {};
    }

    /** The first half of SendPacket: mask the packet and queue it. */
    method PushPacket(packet: Packet, key: byte)
      requires Valid() && packet.Valid() && packet.buffer.Open()
      requires {packet, packet.buffer, packet.buffer.bufferinternal} !! repr + {this}
      requires Enabled(view, Push(packet.Snapshot()))
      modifies this, packet.buffer.bufferinternal
      ensures Valid() && view == Next(old(view), Push(packet.Snapshot()))
      ensures packet.buffer.Opcode() == old(packet.buffer.Opcode()) && packet.buffer.Tag() == key
      ensures packet.buffer.Body() == Masked(old(packet.buffer.Body()), key)
      ensures old(packet.buffer.InSync()) ==> packet.buffer.InSync()
      ensures repr == old(repr) + {packet, packet.buffer, packet.buffer.bufferinternal}
    {
      hide Buffer.Body, Buffer.InSync, Buffer.Opcode, Buffer.Tag;
      packet.buffer.Encrypt(key);
      writepacketlist := writepacketlist + [packet];
      view := Next(view, Push(packet.Snapshot()));
      repr := repr + {packet, packet.buffer, packet.buffer.bufferinternal};
    }

    /** The second half of SendPacket: ask the strand to start writing. */
    method PostWrite()
      requires Valid() && Enabled(view, Post)
      modifies this
      ensures Valid() && view == Next(old(view), Post) && repr == old(repr)
    {
      strand := strand + multiset{StartWrite};
      view := Next(view, Post);
    }

    /** The next packet, if there is one, becomes the packet in progress. */
    method PopFront() returns (popped: bool)
      requires Valid() && writepacket == null
      modifies this
      ensures popped <==> old(view.queue) != []
      ensures Valid() && repr == old(repr)
      ensures view == if popped
        then old(view).(current := Some(old(view).queue[0]), queue := old(view).queue[1..], offset := 0)
        else old(view)
    {
      popped := writepacketlist != [];
      if popped {
        writepacket, writepacketlist := writepacketlist[0], writepacketlist[1..];
        writeoffset := 0;
        view := view.(current := Some(view.queue[0]), queue := view.queue[1..], offset := 0);
      }
    }

    /** The strand runs a posted DoWrite. */
    method DoWrite(start: bool)
      requires Valid() && Enabled(view, Run(if start then StartWrite else ResumeWrite))
      modifies this
      ensures Valid() && view == Next(old(view), Run(if start then StartWrite else ResumeWrite)) && repr == old(repr)
    {
      hide Next, Enabled, Valid;
      RunIsDoWrite(view, start);
      TakeTask(if start then StartWrite else ResumeWrite);
      CurrentAgrees();
      if start && writepacket != null {
        return;
      }
      var ready := writepacket != null;
      if !ready {
        ready := PopFront();
      }
      if ready {
        AsyncWrite();
      }
    }

    /** The strand hands over a posted handler. */
    method TakeTask(task: Task)
      requires Valid() && task in view.tasks
      modifies `strand, `view
      ensures Valid() && view == old(view).(tasks := old(view).tasks - multiset{task})
    {
      hide AllStandFor, StandsFor;
      strand := strand - multiset{task};
      view := view.(tasks := view.tasks - multiset{task});
    }

    method AsyncWrite()
      requires Valid()
      modifies `writing, `view
      ensures Valid() && view == old(view).(busy := true)
    {
      hide AllStandFor, StandsFor;
      writing := true;
      view := view.(busy := true);
    }

    lemma CurrentAgrees()
      requires Valid()
      ensures writepacket == null <==> view.current.None?
      ensures writepacket != null ==>
        && view.offset == writeoffset && writepacket.buffer.used == |view.current.value.bytes|
        && writepacket.islastpacket == view.current.value.last
    {
    }

    /** The completion handler of a write that took `size` bytes. */
    method OnWritten(size: nat)
      requires Valid() && Enabled(view, Written(size))
      modifies this
      ensures Valid() && view == Next(old(view), Written(size)) && repr == old(repr)
    {
      hide AllStandFor, Next, StandsFor;
      CurrentAgrees();
      WrittenIsCompleted(view, size);
      writing := false;
      view := Completed(view, size);
      writeoffset := writeoffset + size;
      if writepacket == null {
        return;
      }
      if writeoffset == writepacket.buffer.used {
        var islast := writepacket.islastpacket;
        writepacket := null;
        strand := strand + multiset{if islast then Disconnect else StartWrite};
      } else {
        strand := strand + multiset{ResumeWrite};
      }
    }

    /** The completion handler of a write that failed. */
    method OnWriteError()
      requires Valid() && Enabled(view, WriteError)
      modifies this
      ensures Valid() && view == Next(old(view), WriteError) && repr == old(repr)
    {
      writing := false;
      view := Next(view, WriteError);
      strand := strand + multiset{Disconnect};
    }

    method DoDisconnect()
      requires Valid() && Enabled(view, Run(Disconnect))
      modifies this
      ensures Valid() && view == Next(old(view), Run(Disconnect)) && repr == old(repr)
    {
      strand := strand - multiset{Disconnect};
      view := Next(view, Run(Disconnect));
      while writepacketlist != []
        modifies this`writepacketlist
      {
        writepacketlist := writepacketlist[1..];
      }
      writepacket := null;
    }

    /** SendFormatedPacket up to its post: the fields in order, then the package masked and queued. */
    method PushFormated(op: byte, fields: seq<Field>, last: bool, key: byte)
      requires Valid() && !view.closed && 6 + |EncodeAll(fields)| <= 4000
      modifies this
      ensures Valid()
      ensures view == Next(old(view), Push(OutPacket(D.Message(op, key, fields).OnWire(), last)))
      ensures old(repr) <= repr && fresh(repr - old(repr))
    {
      hide EncodeAll;
      var packet := BuildPacket(op, fields);
      packet.islastpacket := last;
      PushPacket(packet, key);
      packet.buffer.InSyncIsPackage();
    }
  }

  /** A new package with the fields in order. */
  method BuildPacket(op: byte, fields: seq<Field>) returns (packet: Packet)
    requires 6 + |EncodeAll(fields)| <= 4000
    ensures fresh(packet) && fresh(packet.buffer) && fresh(packet.buffer.bufferinternal) && packet.Valid()
    ensures packet.buffer.InSync() && packet.buffer.Opcode() == op && packet.buffer.Body() == EncodeAll(fields)
  {
    packet := new Packet();
    packet.buffer.CreatePackage(op);
    packet.buffer.AddFields(fields);
  }

  // ---------- Receiving ----------

  /** What the read side is doing: a handler is posted, a read is outstanding, or the session is being given up. */
  datatype ReadTask = Posted(body: bool, start: bool) | Reading(body: bool) | Stopped

  ghost predicate Hold(ps: seq<Packet>, contents: seq<seq<byte>>, repr: set<object>)
    reads repr
  {
    |ps| == |contents| && forall i :: 0 <= i < |ps| ==> StandsFor(ps[i], OutPacket(contents[i], false), repr)
  }

  lemma HoldOneMore(ps: seq<Packet>, contents: seq<seq<byte>>, repr: set<object>, p: Packet, bytes: seq<byte>,
                    more: set<object>)
    requires Hold(ps, contents, repr) && repr <= more && StandsFor(p, OutPacket(bytes, false), more)
    ensures Hold(ps + [p], contents + [bytes], more)
  {
  }

  /** The part of a session that receives, with the packets it has put on the receive queue. */
  class Receiver {
    const readpacket: Buffer
    var readoffset: nat
    var task: ReadTask
    var readpacketlist: seq<Packet>
    ghost var view: ReadState
    ghost var repr: set<object>

    /** The objects are apart, and the queue holds the packets delivered so far. */
    ghost predicate Base()
      reads this, readpacket, repr
    {
      && this !in repr && readpacket !in repr && readpacket.bufferinternal !in repr
      && readpacket.Valid()
      && Hold(readpacketlist, view.delivered, repr)
    }

    ghost predicate Valid()
      reads this, readpacket, readpacket.bufferinternal, repr
    {
      && Base()
      && ReadInv(view)
      && match task
        case Stopped => view.await == Nothing
        case Posted(body, start) => At(body, if start then 0 else readoffset)
        case Reading(body) => At(body, readoffset)
    }

    /** The buffer holds the bytes received so far of the header or the body. */
    ghost predicate At(body: bool, offset: nat)
      requires readpacket.Valid()
      reads this, readpacket, readpacket.bufferinternal
    {
      var n := (if body then REAL_BUFFER_OFFSET else 0) + offset;
      && view.await == (if body then Body else Header)
      && n <= MAX_BUFFER_SIZE && view.partial == readpacket.bufferinternal[..n]
      && (body ==> readpacket.used == REAL_BUFFER_OFFSET)
    }

    constructor ()
      ensures Valid() && view == START && task == Posted(false, true) && readpacketlist == []
    {
      readpacket := new Buffer();
      readoffset, task, readpacketlist := 0, Posted(false, true), [];
      view, repr := START, {};
    }

    method DoReadHeader(start: bool)
      requires Valid() && task == Posted(false, start)
      modifies this
      ensures Valid() && view == old(view) && task == Reading(false)
    {
      if start {
        readoffset := 0;
      }
      task := Reading(false);
    }

    method DoReadBody(start: bool)
      requires Valid() && task == Posted(true, start)
      modifies this
      ensures Valid() && view == old(view) && task == Reading(true)
    {
      if start {
        readoffset := 0;
      }
      task := Reading(true);
    }

    /** A copy of the finished packet goes on the queue, and the next header is asked for. */
    method Deliver()
      requires Base()
      modifies this
      ensures Valid() && view == ReadState(Header, [], old(view.delivered) + [readpacket.Bytes()])
      ensures task == Posted(false, true)
      ensures fresh(repr - old(repr))
    {
      hide Hold;
      var packet := new Packet();
      packet.buffer.Copy(readpacket);
      HoldOneMore(readpacketlist, view.delivered, repr, packet, readpacket.Bytes(),
                  repr + {packet, packet.buffer, packet.buffer.bufferinternal});
      readpacketlist := readpacketlist + [packet];
      view := ReadState(Header, [], view.delivered + [readpacket.Bytes()]);
      repr := repr + {packet, packet.buffer, packet.buffer.bufferinternal};
      task := Posted(false, true);
    }

    /** What the read itself does: the bytes are stored behind the first `start`. */
    method Store(start: nat, chunk: seq<byte>)
      requires readpacket.Valid() && start + |chunk| <= MAX_BUFFER_SIZE
      modifies readpacket.bufferinternal
      ensures readpacket.bufferinternal[..start + |chunk|] == old(readpacket.bufferinternal[..start]) + chunk
    {
      readpacket.CopyIn(start, chunk);
      assert readpacket.bufferinternal[..start + |chunk|]
          == readpacket.bufferinternal[..start] + readpacket.bufferinternal[start..start + |chunk|];
    }

    /** The completion handler of a header read: `chunk` was stored behind what was there. */
    method OnHeaderRead(chunk: seq<byte>)
      requires Valid() && task == Reading(false) && |chunk| <= Wanted(view)
      modifies this, readpacket, readpacket.bufferinternal
      ensures Valid() && view == Receive(old(view), chunk)
      ensures fresh(repr - old(repr))
      ensures var p := old(view).partial + chunk;
        task == Stopped <==> |p| == 6 && 6 + Four(p, 1) > readpacket.bufferinternal.Length
    {
      hide Hold, Receive, FromLE, Four;
      ghost var p := view.partial + chunk;
      ReceiveKeepsInv(view, chunk);
      HeaderReceived(view, chunk);
      if |p| == 6 {
        HeaderRejected(view, chunk);
      }
      Store(readoffset, chunk);
      readoffset := readoffset + |chunk|;
      if readoffset != REAL_BUFFER_OFFSET {
        task := Posted(false, false);
        view := view.(partial := p);
      } else {
        var length := FromLE(readpacket.bufferinternal[1..5]);
        assert readpacket.bufferinternal[1..5] == p[1..5];
        if length <= MAX_BODY {
          readpacket.used := REAL_BUFFER_OFFSET;
          if length == 0 {
            Deliver();
          } else {
            task := Posted(true, true);
            view := view.(await := Body, partial := p);
          }
        } else {
          task := Stopped;
          view := view.(await := Nothing, partial := p);
        }
      }
    }

    /** The completion handler of a body read. */
    method OnBodyRead(chunk: seq<byte>)
      requires Valid() && task == Reading(true) && |chunk| <= Wanted(view)
      modifies this, readpacket, readpacket.bufferinternal
      ensures Valid() && view == Receive(old(view), chunk)
      ensures fresh(repr - old(repr))
    {
      hide Hold, Receive, FromLE;
      ghost var p := view.partial + chunk;
      ReceiveKeepsInv(view, chunk);
      BodyReceived(view, chunk);
      Store(REAL_BUFFER_OFFSET + readoffset, chunk);
      readoffset := readoffset + |chunk|;
      var length := FromLE(readpacket.bufferinternal[1..5]);
      assert readpacket.bufferinternal[1..5] == p[1..5];
      if readoffset != length {
        task := Posted(true, false);
        view := view.(partial := p);
      } else {
        readpacket.used := readpacket.used + length;
        Deliver();
      }
    }

    /** Either completion handler when the read failed: the session is given up. */
    method OnReadError()
      requires Valid() && task.Reading?
      modifies this
      ensures Valid() && view == old(view).(await := Nothing) && task == Stopped && repr == old(repr)
    {
      task := Stopped;
      view := view.(await := Nothing);
    }
  }

  /** What a processing thread does to a packet before handing it to the engine. */
  method DecryptPacket(packet: Packet)
    requires packet.Valid() && packet.buffer.Open()
    modifies packet.buffer.bufferinternal
    ensures packet.buffer.Bytes() == D.Unmasked(old(packet.buffer.Bytes()))
  {
    var b := packet.buffer;
    ghost var bytes := b.Bytes();
    assert b.Body() == bytes[REAL_BUFFER_OFFSET..] && b.Tag() == bytes[5];
    b.Decrypt();
    assert b.Bytes()[REAL_BUFFER_OFFSET..] == b.Body();
    assert b.Bytes() == b.Bytes()[..REAL_BUFFER_OFFSET] + b.Body();
  }
}
