// A local socket of minadbd with its remote peer (minadbd/sockets.c:130-465) and the packets
// that drive it (minadbd/adb.c:321-370).  The event loop is a set of interests: an event
// arrives only while the socket wants it.
module AdbSocket {
  import opened Bytes

  const MAX_PAYLOAD: nat := 4096

  datatype Message =
    | Okay(local: nat, remote: nat)
    | Wrte(local: nat, remote: nat, data: seq<byte>)
    | Clse(local: nat, remote: nat)

  // The packets that were sent.
  class Transport {
    var sent: seq<Message>

    constructor ()
      ensures sent == []
    {
      sent := [];
    }

    method Send(m: Message)
      modifies this
      ensures sent == old(sent) + [m]
    {
      sent := sent + [m];
    }
  }

  datatype IoResult = Count(n: nat) | Again | Interrupted | Failed

  // How a series of calls on a descriptor ended: nothing stood in its way, the descriptor
  // could take or give no more for now, or it failed or came to an end.
  datatype Ending = Through | Blocked | Broken

  // How the calls between two records of what calls returned ended.  An interruption is an
  // end only where it is not tried again, in the first write of a packet (sockets.c:153).
  function End(was: seq<IoResult>, now: seq<IoResult>): (e: Ending)
  {
    if |now| <= |was| then Through
    else match now[|now| - 1]
      case Count(n) => if n > 0 then Through else Broken
      case Again => Blocked
      case _ => Broken
  }

  // A non-blocking descriptor: what has been written to it and read from it.
  class Fd {
    var written: seq<byte>
    var consumed: seq<byte>
    var interrupts: nat // still to come
    ghost var puts: seq<IoResult> // what the calls returned
    ghost var gets: seq<IoResult>

    constructor (interrupts: nat)
      ensures written == [] && consumed == []
    {
      written, consumed, this.interrupts, puts, gets := [], [], interrupts, [], [];
    }

    // adb_write: zero is an end of file.
    method Write(data: seq<byte>) returns (r: IoResult)
      modifies this`written, this`interrupts, this`puts
      ensures puts == old(puts) + [r]
      ensures r.Count? ==> r.n <= |data| && written == old(written) + data[..r.n]
      ensures !r.Count? ==> written == old(written)
      ensures interrupts == old(interrupts) - if r.Interrupted? then 1 else 0
    {
      r := *;
      if r.Interrupted? && interrupts == 0 {
        r := Again;
      }
      match r {
        case Count(n) =>
          r := Count(if n <= |data| then n else |data|);
          written := written + data[..r.n];
        case Interrupted => interrupts := interrupts - 1;
        case _ =>
      }
      puts := puts + [r];
    }

    // adb_read: at most avail bytes.
    method Read(avail: nat) returns (r: IoResult, data: seq<byte>)
      modifies this`consumed, this`interrupts, this`gets
      ensures gets == old(gets) + [r]
      ensures r.Count? ==> |data| == r.n <= avail && consumed == old(consumed) + data
      ensures !r.Count? ==> consumed == old(consumed)
      ensures interrupts == old(interrupts) - if r.Interrupted? then 1 else 0
    {
      r, data := *, *;
      if r.Interrupted? && interrupts == 0 {
        r := Again;
      }
      match r {
        case Count(n) =>
          data := data[..if |data| <= avail then |data| else avail];
          r := Count(|data|);
          consumed := consumed + data;
        case Interrupted => interrupts := interrupts - 1;
        case _ =>
      }
      gets := gets + [r];
    }
  }

  // What happened on the sending side: the far side was ready for data, or data was sent.
  datatype Turn = Ready | Sent(data: seq<byte>)

  // The far side has asked for data that has not been sent yet.
  predicate Asked(log: seq<Turn>)
  {
    log != [] && log[|log| - 1].Ready?
  }

  // Data was sent only when it had been asked for.
  predicate Paced(log: seq<Turn>)
    decreases |log|
  {
    log == [] || (Paced(log[..|log| - 1]) && (log[|log| - 1].Sent? ==> Asked(log[..|log| - 1])))
  }

  lemma PacedMore(log: seq<Turn>, t: Turn)
    requires Paced(log) && (t.Sent? ==> Asked(log))
    ensures Paced(log + [t])
  {
    assert (log + [t])[..|log|] == log;
  }

  // Between two sends the far side was ready again.
  lemma {:induction false} PacedApart(log: seq<Turn>, i: nat, j: nat)
    requires Paced(log) && i < j < |log| && log[i].Sent? && log[j].Sent?
    ensures exists k :: i < k < j && log[k].Ready?
    decreases |log|
  {
    var front := log[..|log| - 1];
    if j < |log| - 1 {
      PacedApart(front, i, j);
      var k :| i < k < j && front[k].Ready?;
      assert log[k].Ready?;
    } else {
      assert front[j - 1] == log[j - 1];
    }
  }

  function DataOf(log: seq<Turn>): (d: seq<byte>)
    decreases |log|
  {
    if log == [] then []
    else DataOf(log[..|log| - 1]) + match log[|log| - 1] case Ready => [] case Sent(data) => data
  }

  lemma DataMore(log: seq<Turn>, t: Turn)
    ensures DataOf(log + [t]) == DataOf(log) + match t case Ready => [] case Sent(data) => data
  {
    assert (log + [t])[..|log|] == log;
  }

  // What is left of the first packet takes its place.
  lemma OnePacket(w: seq<byte>, q: seq<seq<byte>>, w': seq<byte>, rest: seq<byte>)
    requires q != [] && w' + rest == w + q[0]
    ensures w' + Concat([rest] + q[1..]) == w + Concat(q) && ([rest] + q[1..])[1..] == q[1..]
    ensures rest == [] ==> w' + Concat(q[1..]) == w + Concat(q)
  {
    Associative(w, q[0], Concat(q[1..]));
    Associative(w', rest, Concat(q[1..]));
    assert ([rest] + q[1..])[1..] == q[1..];
    assert w' + [] == w';
  }

  class LocalSocket {
    const id: nat
    const fd: Fd
    const transport: Transport
    var peer: Option<nat> // the remote socket's id
    var queue: seq<seq<byte>> // what is left of the packets to be written
    var closing: bool
    var destroyed: bool
    var wantRead: bool
    var wantWrite: bool
    ghost var received: seq<byte> // the payloads of the WRTE packets
    ghost var log: seq<Turn>
    ghost var acked: nat // how much of it had been received when the last OKAY was sent

    // A socket that is still there.
    ghost predicate Live()
      reads this, fd
    {
      && !destroyed && fd.written + Concat(queue) == received
      && (wantWrite <==> queue != []) && acked <= |fd.written|
      && Paced(log) && (wantRead ==> Asked(log))
      && (if closing then peer.None? && !wantRead && queue != [] else peer.Some? && DataOf(log) == fd.consumed)
    }

    ghost predicate Valid()
      reads this, fd
    {
      !destroyed ==> Live()
    }

    // A descriptor of its own, and nothing done yet: the OPEN case of handle_packet
    // (adb.c:321-335).  The far side is told, and is ready for data.
    constructor Open(id: nat, remote: nat, interrupts: nat, transport: Transport)
      modifies transport
      ensures Live() && fresh(fd) && this.id == id && this.transport == transport && peer == Some(remote)
      ensures received == [] && wantRead && !closing
      ensures transport.sent == old(transport.sent) + [Okay(id, remote)]
    {
      this.id, this.transport, this.peer := id, transport, Some(remote);
      fd := new Fd(interrupts);
      queue, closing, destroyed, wantRead, wantWrite := [], false, false, true, false;
      received, log, acked := [], [Ready], 0;
      new;
      transport.Send(Okay(id, remote));
      assert [Ready][..0] == [];
    }

    // local_socket_ready (sockets.c:183-189).
    method BecomeReady()
      requires Live() && !closing
      modifies this`wantRead, this`log
      ensures Live() && wantRead && log == old(log) + [Ready]
    {
      wantRead := true;
      PacedMore(log, Ready);
      DataMore(log, Ready);
      log := log + [Ready];
    }

    // local_socket_close_locked (sockets.c:220-254), with remote_socket_close for the peer,
    // which has been told to forget this socket.
    method Close()
      requires !destroyed && (peer.Some? ==> !closing)
      modifies this`peer, this`closing, this`destroyed, this`wantRead, transport
      ensures peer.None? && queue == old(queue)
      ensures destroyed == (old(closing) || queue == []) && closing == (old(closing) || !destroyed)
      ensures (!destroyed ==> closing && !wantRead) && (wantRead ==> old(wantRead))
      ensures transport.sent == old(transport.sent) + if old(peer).Some? then [Clse(0, old(peer).value)] else []
      ensures old(Live()) ==> Valid()
    {
      if peer.Some? {
        transport.Send(Clse(0, peer.value));
        peer := None;
      }
      if closing || queue == [] {
        destroyed := true;
        return;
      }
      closing := true;
      wantRead := false;
    }

    // The writing loop of local_socket_enqueue (sockets.c:144-161).
    method WriteNow(p: seq<byte>) returns (rest: seq<byte>, failed: bool)
      modifies fd`written, fd`interrupts, fd`puts
      ensures fd.written + rest == old(fd.written) + p && |fd.written| >= |old(fd.written)|
      ensures old(fd.puts) <= fd.puts
      ensures match End(old(fd.puts), fd.puts)
              case Through => rest == [] && !failed
              case Blocked => rest != [] && !failed
              case Broken => failed
    {
      rest, failed := p, false;
      while |rest| > 0
        invariant fd.written + rest == old(fd.written) + p && |fd.written| >= |old(fd.written)|
        invariant old(fd.puts) <= fd.puts && End(old(fd.puts), fd.puts) == Through
        decreases |rest|
      {
        ghost var w, q := fd.written, rest;
        var r := fd.Write(rest);
        if r.Count? && r.n > 0 {
          rest := rest[r.n..];
          assert q == q[..r.n] + rest;
          assert fd.written + rest == w + q;
        } else {
          assert r.Count? ==> q[..0] == [];
          failed := !r.Again?;
          return;
        }
      }
    }

    // local_socket_enqueue (sockets.c:130-181): 0 when more data is welcome, 1 when not.
    method Enqueue(p: seq<byte>) returns (r: int)
      requires Live() && !closing
      modifies this, fd`written, fd`interrupts, fd`puts, transport
      ensures Valid() && (r == 0 || r == 1) && received == old(received) + p
      ensures r == 0 ==> !destroyed && queue == [] && fd.written == received && transport.sent == old(transport.sent)
      ensures r == 1 ==> destroyed || queue != []
      ensures wantRead ==> old(wantRead)
      ensures log == old(log) && acked == old(acked)
      ensures if destroyed then
                peer.None? && queue == old(queue) && transport.sent == old(transport.sent) + [Clse(0, old(peer).value)]
              else
                peer == old(peer) && !closing && transport.sent == old(transport.sent) && wantRead == old(wantRead)
      ensures old(queue) != [] ==> fd.puts == old(fd.puts) && fd.written == old(fd.written) && !destroyed
                                   && queue == old(queue) + [p]
      ensures old(queue) == [] ==> Begun(old(Now()), p, Now(), [])
                                   && (r == 0 <==> End(old(fd.puts), fd.puts) == Through)
    {
      var rest := p;
      if queue == [] {
        ghost var w := fd.written;
        assert w + Concat([]) == w;
        var failed;
        rest, failed := WriteNow(p);
        received := received + p;
        if failed {
          Close();
          return 1;
        }
        if rest == [] {
          assert fd.written + rest == fd.written;
          assert fd.written + Concat(queue) == fd.written;
          return 0;
        }
        assert Concat([rest]) == rest;
      } else {
        ConcatMore(queue, rest);
        Associative(fd.written, Concat(queue), rest);
        received := received + p;
      }
      queue := queue + [rest];
      wantWrite := true;
      assert [] + [rest] == [rest];
      return 1;
    }

    // Write one packet (sockets.c:269-286): what is left of it, and whether to give up.
    method WritePacket(p: seq<byte>) returns (rest: seq<byte>, blocked: bool, failed: bool)
      modifies fd`written, fd`interrupts, fd`puts
      ensures fd.written + rest == old(fd.written) + p && |fd.written| >= |old(fd.written)|
      ensures old(fd.puts) <= fd.puts
      ensures match End(old(fd.puts), fd.puts)
              case Through => rest == [] && !blocked && !failed
              case Blocked => rest != [] && blocked && !failed
              case Broken => rest != [] && !blocked && failed
    {
      rest, blocked, failed := p, false, false;
      while |rest| > 0
        invariant fd.written + rest == old(fd.written) + p && |fd.written| >= |old(fd.written)|
        invariant old(fd.puts) <= fd.puts && (rest == [] ==> End(old(fd.puts), fd.puts) == Through)
        decreases |rest|, fd.interrupts
      {
        ghost var w, q := fd.written, rest;
        var r := fd.Write(rest);
        if r.Count? && r.n > 0 {
          rest := rest[r.n..];
          assert q == q[..r.n] + rest;
          assert fd.written + rest == w + q;
        } else if r.Again? {
          blocked := true;
          return;
        } else if !r.Interrupted? {
          assert r.Count? ==> q[..0] == [];
          failed := true;
          return;
        }
      }
    }

    // Write the queue (sockets.c:268-293): true when it has become empty.
    method Drain() returns (drained: bool)
      requires Live() && queue != []
      modifies this, fd`written, fd`interrupts, fd`puts, transport
      ensures log == old(log) && acked == old(acked) && (!drained ==> Valid())
      ensures Drained(old(Now()), Now()) && (drained <==> End(old(fd.puts), fd.puts) == Through)
      ensures drained ==> Now() == old(Now()).(queue := [], written := received, puts := fd.puts)
    {
      while queue != []
        invariant old(fd.puts) <= fd.puts && End(old(fd.puts), fd.puts) == Through
        invariant !destroyed && fd.written + Concat(queue) == received && received == old(received) && log == old(log)
        invariant peer == old(peer) && closing == old(closing) && wantRead == old(wantRead) && wantWrite
        invariant transport.sent == old(transport.sent) && acked == old(acked) && |fd.written| >= |old(fd.written)|
        decreases |queue|
      {
        ghost var w, q := fd.written, queue;
        var rest, blocked, failed := WritePacket(queue[0]);
        OnePacket(w, q, fd.written, rest);
        queue := [rest] + queue[1..];
        if blocked {
          return false;
        }
        if failed {
          Close();
          return false;
        }
        queue := queue[1..];
      }
      assert fd.written + [] == fd.written;
      drained := true;
    }

    // A writable event (sockets.c:265-310): false when the handler is to return.
    method OnWritable() returns (goOn: bool)
      requires Live() && wantWrite
      modifies this, fd`written, fd`interrupts, fd`puts, transport
      ensures Valid() && received == old(received) && log == old(log)
      ensures goOn ==> !destroyed && queue == [] && !closing && fd.written == received && wantRead == old(wantRead)
                       && peer == old(peer) && peer.Some? && acked == |received|
                       && transport.sent == old(transport.sent) + [Okay(id, peer.value)]
      ensures AfterWritable(old(Now()), Now())
    {
      var drained := Drain();
      if !drained {
        return false;
      }
      assert fd.written + Concat(queue) == fd.written;
      if closing {
        Close();
        return false;
      }
      wantWrite := false;
      acked := |received|;
      transport.Send(Okay(id, peer.value));
      return true;
    }

    // Read up to a packet's worth (sockets.c:314-336).
    method ReadSome() returns (p: seq<byte>, isEof: bool)
      modifies fd`consumed, fd`interrupts, fd`gets
      ensures |p| <= MAX_PAYLOAD && fd.consumed == old(fd.consumed) + p && old(fd.gets) <= fd.gets
      ensures match End(old(fd.gets), fd.gets)
              case Through => |p| == MAX_PAYLOAD && !isEof
              case Blocked => |p| < MAX_PAYLOAD && !isEof
              case Broken => |p| < MAX_PAYLOAD && isEof
    {
      p, isEof := [], false;
      assert fd.consumed + [] == fd.consumed;
      while |p| < MAX_PAYLOAD
        invariant |p| <= MAX_PAYLOAD && fd.consumed == old(fd.consumed) + p && !isEof
        invariant old(fd.gets) <= fd.gets && (|p| == MAX_PAYLOAD ==> End(old(fd.gets), fd.gets) == Through)
        decreases MAX_PAYLOAD - |p|, fd.interrupts
      {
        var r, data := fd.Read(MAX_PAYLOAD - |p|);
        if r.Count? && r.n > 0 {
          Associative(old(fd.consumed), p, data);
          p := p + data;
        } else if r.Again? {
          break;
        } else if !r.Interrupted? {
          assert r.Count? ==> fd.consumed + data == fd.consumed;
          isEof := true;
          break;
        }
      }
    }

    // A readable event (sockets.c:313-372): what was read goes out in one WRTE packet, and
    // reading stops until the far side is ready again.
    method OnReadable() returns (ghost data: seq<byte>)
      requires Live() && wantRead
      modifies this, fd`consumed, fd`interrupts, fd`gets, transport
      ensures Valid() && received == old(received) && fd.written == old(fd.written) && queue == old(queue)
      ensures |data| <= MAX_PAYLOAD && fd.consumed == old(fd.consumed) + data
      ensures log == (if data == [] then old(log) else old(log) + [Sent(data)]) && (data != [] ==> !wantRead)
      ensures transport.sent == old(transport.sent)
                                + ((if data == [] then [] else [Wrte(id, old(peer).value, data)])
                                   + (if peer.None? then [Clse(0, old(peer).value)] else []))
      ensures peer == old(peer) || peer.None?
      ensures AfterReadable(old(Now()), Now())
    {
      ghost var c, sent, far := fd.consumed, transport.sent, peer.value;
      var p, isEof := ReadSome();
      data := p;
      assert p == [] ==> c + p == c;
      if p != [] && peer.Some? {
        SendData(p, c);
      }
      ghost var out := if p == [] then [] else [Wrte(id, far, p)];
      assert transport.sent == sent + out;
      if isEof {
        Close();
        Associative(sent, out, [Clse(0, far)]);
      } else {
        assert out + [] == out;
      }
    }

    // remote_socket_enqueue (sockets.c:424-434): the data goes out, and no more is read until
    // the far side asks.
    method SendData(p: seq<byte>, ghost c: seq<byte>)
      requires !destroyed && !closing && peer.Some? && wantRead && p != []
      requires fd.written + Concat(queue) == received && (wantWrite <==> queue != []) && acked <= |fd.written|
      requires Paced(log) && Asked(log) && DataOf(log) == c && fd.consumed == c + p
      modifies this`wantRead, this`log, transport
      ensures Live() && !wantRead && log == old(log) + [Sent(p)]
      ensures transport.sent == old(transport.sent) + [Wrte(id, peer.value, p)]
    {
      transport.Send(Wrte(id, peer.value, p));
      PacedMore(log, Sent(p));
      DataMore(log, Sent(p));
      log := log + [Sent(p)];
      wantRead := false;
    }

    // The packets a connected far side sends about this socket (adb.c:337-370).  A socket
    // that is closing is not found any more.
    method OnOkay()
      requires Valid()
      modifies this`wantRead, this`log
      ensures Valid() && log == old(log) + if destroyed || closing then [] else [Ready]
      ensures wantRead == (old(wantRead) || !(destroyed || closing))
    {
      if !destroyed && !closing {
        // A socket that is found has its peer, so none is made (adb.c:340-343).
        assert peer.Some?;
        BecomeReady();
      }
    }

    method OnClose()
      requires Valid()
      modifies this`peer, this`closing, this`destroyed, this`wantRead, transport
      ensures Valid() && (wantRead ==> old(wantRead))
      ensures old(!destroyed && !closing) ==>
                && (destroyed <==> queue == []) && (destroyed || closing) && peer.None? && old(peer).Some?
                && transport.sent == old(transport.sent) + [Clse(0, old(peer).value)] && (closing ==> !wantRead)
      ensures old(destroyed || closing) ==> Now() == old(Now())
    {
      if !destroyed && !closing {
        Close();
      }
    }

    // Data is acknowledged at once exactly if all of it was written.
    method OnWrite(remote: nat, data: seq<byte>)
      requires Valid()
      modifies this, fd`written, fd`interrupts, fd`puts, transport
      ensures Valid() && log == old(log) && (wantRead ==> old(wantRead))
      ensures received == old(received) + if old(destroyed || closing) then [] else data
      ensures old(destroyed || closing) ==> Now() == old(Now())
      ensures old(!destroyed && !closing) ==> AfterWrte(old(Now()), remote, data, Now())
      ensures old(!destroyed && !closing) && !destroyed ==>
                transport.sent == old(transport.sent) + (if queue == [] then [Okay(id, remote)] else [])
                && peer == old(peer) && !closing && (queue == [] ==> fd.written == received && acked == |received|)
      ensures old(!destroyed && !closing) && destroyed ==>
                old(peer).Some? && peer.None? && transport.sent == old(transport.sent) + [Clse(0, old(peer).value)]
                && queue == old(queue)
    {
      if !destroyed && !closing {
        var r := Enqueue(data);
        if r == 0 {
          acked := |received|;
          transport.Send(Okay(id, remote));
        }
      } else {
        assert received + [] == received;
      }
    }

    // What a run is judged by.
    ghost function Now(): Snap
      reads this, fd, transport
    {
      Snap(id, peer, wantRead && !destroyed, closing, destroyed, queue, received, fd.written, fd.consumed,
           transport.sent, fd.puts, fd.gets)
    }
  }

  datatype Event = Writable | Readable | FromPeer(m: Message)

  datatype Snap = Snap(id: nat, peer: Option<nat>, reading: bool, closing: bool, destroyed: bool,
                       queue: seq<seq<byte>>, received: seq<byte>, written: seq<byte>, consumed: seq<byte>,
                       sent: seq<Message>, puts: seq<IoResult>, gets: seq<IoResult>)
  {
    predicate Open() {
      !closing && !destroyed
    }

    // What the far side is told when the socket is closed.
    function Farewell(): (ms: seq<Message>)
    {
      if peer.Some? then [Clse(0, peer.value)] else []
    }
  }

  // The socket was closed: it lingers while packets are queued, unless it lingered already.
  predicate Ended(a: Snap, b: Snap)
  {
    b.peer.None? && !b.reading && b.destroyed == (a.closing || b.queue == []) && (!b.destroyed ==> b.closing)
  }

  // The queue was written until it was empty or the descriptor refused.
  predicate Drained(a: Snap, b: Snap)
  {
    && b.id == a.id && b.received == a.received && b.consumed == a.consumed && b.gets == a.gets
    && a.puts <= b.puts && b.written + Concat(b.queue) == a.received && |b.written| >= |a.written|
    && match End(a.puts, b.puts)
       case Through => b.queue == []
       case Blocked => b.queue != [] && b == a.(queue := b.queue, written := b.written, puts := b.puts)
       case Broken => b.queue != [] && Ended(a, b) && b.sent == a.sent + a.Farewell()
  }

  // What a writable event does to a socket with packets queued.  When all are written, one
  // that was closing is gone, and otherwise the far side is asked for more.
  predicate AfterWritable(a: Snap, b: Snap)
  {
    && Drained(a, b)
    && (End(a.puts, b.puts) == Through ==>
          if a.closing then b.destroyed && b.peer.None? && !b.reading && b.sent == a.sent
          else a.peer.Some? && b == a.(queue := [], written := a.received, puts := b.puts,
                                       sent := a.sent + [Okay(a.id, a.peer.value)]))
  }

  // What a readable event does to a socket that wants to read: it reads until the descriptor
  // has no more, comes to an end or has filled a packet.  What was read goes out in one
  // packet, and the socket stops reading; at the end it is closed.
  predicate AfterReadable(a: Snap, b: Snap)
  {
    && a.consumed <= b.consumed && a.gets <= b.gets && a.peer.Some?
    && var data, end := b.consumed[|a.consumed|..], End(a.gets, b.gets);
       var out := if data == [] then [] else [Wrte(a.id, a.peer.value, data)];
       && |data| <= 4096 && (end == Through <==> |data| == 4096)
       && if end == Broken then
            && Ended(a, b) && b.sent == a.sent + (out + a.Farewell())
            && b == a.(peer := None, reading := false, closing := b.closing, destroyed := b.destroyed,
                       consumed := b.consumed, sent := b.sent, gets := b.gets)
          else
            b == a.(reading := data == [], consumed := b.consumed, sent := a.sent + out, gets := b.gets)
  }

  // A packet of data that nothing is queued before is written at once as far as it goes;
  // what is sent if it goes through is reply.
  predicate Begun(a: Snap, data: seq<byte>, b: Snap, reply: seq<Message>)
  {
    && b.id == a.id && b.consumed == a.consumed && b.gets == a.gets && a.puts <= b.puts
    && b.received == a.received + data
    && match End(a.puts, b.puts)
       case Through =>
         b == a.(received := b.received, written := a.written + data, puts := b.puts, sent := a.sent + reply)
       case Blocked =>
         && |b.queue| == 1 && b.queue[0] != [] && b.written + b.queue[0] == a.written + data
         && b == a.(queue := b.queue, received := b.received, written := b.written, puts := b.puts)
       case Broken => b.destroyed && b.peer.None? && !b.reading && b.queue == [] && b.sent == a.sent + a.Farewell()
  }

  // What a WRTE packet does to an open socket: behind others it is queued, and it is
  // acknowledged to its sender if all of it was written at once.
  predicate AfterWrte(a: Snap, from: nat, data: seq<byte>, b: Snap)
  {
    if a.queue != [] then b == a.(queue := a.queue + [data], received := a.received + data)
    else Begun(a, data, b, [Okay(a.id, from)])
  }

  // What a packet does.  One for another socket, or for one that is closing, does nothing
  // (find_local_socket, sockets.c:60-74).
  predicate AfterPacket(a: Snap, m: Message, b: Snap)
  {
    if !a.Open() || m.remote != a.id then b == a
    else match m
      case Okay(_, _) => b == a.(reading := true)
      case Wrte(from, _, data) => AfterWrte(a, from, data, b)
      case Clse(_, _) =>
        && Ended(a, b) && a.peer.Some?
        && b == a.(peer := None, reading := false, closing := b.closing, destroyed := b.destroyed,
                   sent := a.sent + [Clse(0, a.peer.value)])
  }

  // What an event does.
  predicate After(a: Snap, e: Event, b: Snap)
  {
    match e
    case Writable => if a.destroyed || a.queue == [] then b == a else AfterWritable(a, b)
    case Readable => if a.reading then AfterReadable(a, b) else b == a
    case FromPeer(m) => AfterPacket(a, m, b)
  }

  // The states between events.
  ghost predicate Trail(trail: seq<Snap>, events: seq<Event>)
  {
    |trail| == |events| + 1 && forall i :: 0 <= i < |events| ==> After(trail[i], events[i], trail[i + 1])
  }

  // What the states of a socket have in common.
  predicate Sound(a: Snap)
  {
    && (!a.destroyed ==> a.written + Concat(a.queue) == a.received)
    && (!a.destroyed ==> if a.closing then a.peer.None? && a.queue != [] else a.peer.Some?)
    && (a.reading ==> a.Open())
  }

  // The packets for socket id that an event brings.
  function For(e: Event, id: nat): (ms: seq<Message>)
  {
    if e.FromPeer? && e.m.remote == id then [e.m] else []
  }

  // Those among the events.
  function Incoming(es: seq<Event>, id: nat): (ms: seq<Message>)
  {
    if es == [] then [] else Incoming(es[..|es| - 1], id) + For(es[|es| - 1], id)
  }

  function One(b: bool): (n: nat) {
    if b then 1 else 0
  }

  function Wrtes(ms: seq<Message>): (n: nat)
  {
    if ms == [] then 0 else Wrtes(ms[..|ms| - 1]) + One(ms[|ms| - 1].Wrte?)
  }

  function Okays(ms: seq<Message>): (n: nat)
  {
    if ms == [] then 0 else Okays(ms[..|ms| - 1]) + One(ms[|ms| - 1].Okay?)
  }

  function Clses(ms: seq<Message>): (n: nat)
  {
    if ms == [] then 0 else Clses(ms[..|ms| - 1]) + One(ms[|ms| - 1].Clse?)
  }

  // The payloads of the WRTE packets, one after the other.
  function Payloads(ms: seq<Message>): (d: seq<byte>)
  {
    if ms == [] then [] else Payloads(ms[..|ms| - 1]) + if ms[|ms| - 1].Wrte? then ms[|ms| - 1].data else []
  }

  lemma {:induction false} BothCounted(a: seq<Message>, b: seq<Message>)
    ensures Wrtes(a + b) == Wrtes(a) + Wrtes(b) && Okays(a + b) == Okays(a) + Okays(b)
            && Clses(a + b) == Clses(a) + Clses(b)
    ensures Payloads(a + b) == Payloads(a) + Payloads(b)
    decreases |b|
  {
    if b == [] {
      assert a + b == a;
    } else {
      var c := b[..|b| - 1];
      BothCounted(a, c);
      assert (a + b)[..|a + b| - 1] == a + c;
      Associative(Payloads(a), Payloads(c), if b[|b| - 1].Wrte? then b[|b| - 1].data else []);
    }
  }

  lemma OneCounted(m: Message)
    ensures Wrtes([m]) == One(m.Wrte?) && Okays([m]) == One(m.Okay?) && Clses([m]) == One(m.Clse?)
    ensures Payloads([m]) == if m.Wrte? then m.data else []
  {
    assert [m][..0] == [];
  }

  // From a to b the socket took in the packets ins and sent out.
  ghost predicate Accounted(a: Snap, ins: seq<Message>, b: Snap, out: seq<Message>)
  {
    && b.sent == a.sent + out
    && Wrtes(out) + One(b.reading) <= Okays(ins) + One(a.reading)
    && Okays(out) + One(b.queue != [] && !b.destroyed) <= Wrtes(ins) + One(a.queue != [] && !a.destroyed)
    && Clses(out) + One(b.peer.Some?) == One(a.peer.Some?)
    && b.consumed == a.consumed + Payloads(out)
    && (b.Open() ==> a.Open())
    && TakenIn(a, ins, b)
  }

  // A socket that stays open takes in every payload, one that is closed takes in none, and
  // one that closes on the way takes in the first.
  ghost predicate TakenIn(a: Snap, ins: seq<Message>, b: Snap)
  {
    && (b.Open() ==> b.received == a.received + Payloads(ins))
    && (!a.Open() ==> b.received == a.received)
    && exists k :: 0 <= k <= |ins| && b.received == a.received + Payloads(ins[..k])
  }

  lemma AccountedNothing(a: Snap)
    ensures Accounted(a, [], a, [])
  {
    assert a.received + [] == a.received && a.consumed + [] == a.consumed && a.sent + [] == a.sent;
    assert Payloads([][..0]) == [];
  }

  lemma AccountedTwice(a: Snap, i: seq<Message>, b: Snap, o: seq<Message>, j: seq<Message>, c: Snap, p: seq<Message>)
    requires Accounted(a, i, b, o) && Accounted(b, j, c, p)
    ensures Accounted(a, i + j, c, o + p)
  {
    BothCounted(i, j);
    BothCounted(o, p);
    Associative(a.sent, o, p);
    Associative(a.consumed, Payloads(o), Payloads(p));
    TakenTwice(a, i, b, j, c);
  }

  lemma TakenTwice(a: Snap, i: seq<Message>, b: Snap, j: seq<Message>, c: Snap)
    requires TakenIn(a, i, b) && TakenIn(b, j, c) && (b.Open() ==> a.Open()) && (c.Open() ==> b.Open())
    ensures TakenIn(a, i + j, c)
  {
    BothCounted(i, j);
    Associative(a.received, Payloads(i), Payloads(j));
    if c.Open() {
      assert (i + j)[..|i + j|] == i + j && j[..|j|] == j;
    } else if b.Open() {
      var k :| 0 <= k <= |j| && c.received == b.received + Payloads(j[..k]);
      BothCounted(i, j[..k]);
      Associative(a.received, Payloads(i), Payloads(j[..k]));
      assert (i + j)[..|i| + k] == i + j[..k];
    } else {
      var k :| 0 <= k <= |i| && b.received == a.received + Payloads(i[..k]);
      assert (i + j)[..k] == i[..k];
    }
  }

  lemma TakenNone(a: Snap, ins: seq<Message>, b: Snap)
    requires b.received == a.received && (b.Open() ==> Payloads(ins) == [])
    ensures TakenIn(a, ins, b)
  {
    assert ins[..0] == [] && a.received + [] == a.received;
  }

  lemma TakenAll(a: Snap, ins: seq<Message>, b: Snap)
    requires a.Open() && b.received == a.received + Payloads(ins)
    ensures TakenIn(a, ins, b)
  {
    assert ins[..|ins|] == ins;
  }

  // Each event is accounted for.
  lemma WritableAccounted(a: Snap, b: Snap) returns (out: seq<Message>)
    requires Sound(a) && !a.destroyed && a.queue != [] && AfterWritable(a, b)
    ensures Sound(b) && Accounted(a, [], b, out)
  {
    out := b.sent[|a.sent|..];
    if out != [] {
      OneCounted(out[0]);
      assert out == [out[0]];
    }
    TakenNone(a, [], b);
    assert b.written + [] == b.written;
    assert a.consumed + [] == a.consumed && a.received + [] == a.received;
  }

  lemma SentCounted(id: nat, far: nat, data: seq<byte>, first: seq<Message>, last: seq<Message>, out: seq<Message>)
    requires first == if data == [] then [] else [Wrte(id, far, data)]
    requires last == [] || last == [Clse(0, far)]
    requires out == first + last
    ensures Wrtes(out) == |first| && Okays(out) == 0 && Clses(out) == |last| && Payloads(out) == data
  {
    BothCounted(first, last);
    OneCounted(Wrte(id, far, data));
    OneCounted(Clse(0, far));
    assert data + [] == data;
  }

  lemma ReadableAccounted(a: Snap, b: Snap) returns (out: seq<Message>)
    requires Sound(a) && a.reading && AfterReadable(a, b)
    ensures Sound(b) && Accounted(a, [], b, out)
  {
    var data := b.consumed[|a.consumed|..];
    var first := if data == [] then [] else [Wrte(a.id, a.peer.value, data)];
    var last := if End(a.gets, b.gets) == Broken then a.Farewell() else [];
    out := first + last;
    SentCounted(a.id, a.peer.value, data, first, last, out);
    assert first + [] == first && a.received + [] == a.received;
    TakenNone(a, [], b);
  }

  lemma PacketSound(a: Snap, m: Message, b: Snap)
    requires Sound(a) && a.Open() && m.remote == a.id && AfterPacket(a, m, b)
    ensures Sound(b)
  {
    if m.Wrte? {
      ConcatMore(a.queue, m.data);
      Associative(a.written, Concat(a.queue), m.data);
      assert a.queue == [] ==> a.written + Concat(a.queue) == a.written && b.written + [] == b.written;
      if |b.queue| == 1 {
        assert b.queue == [b.queue[0]];
        ConcatOne(b.queue[0]);
      }
    }
  }

  lemma PacketAccounted(a: Snap, m: Message, b: Snap) returns (out: seq<Message>)
    requires Sound(a) && a.Open() && m.remote == a.id && AfterPacket(a, m, b)
    ensures Sound(b) && Accounted(a, [m], b, out)
  {
    out := b.sent[|a.sent|..];
    PacketSound(a, m, b);
    OneCounted(m);
    if out != [] {
      OneCounted(out[0]);
      assert out == [out[0]];
    }
    assert a.consumed + [] == a.consumed && a.received + [] == a.received;
    TakenAll(a, [m], b);
  }

  lemma AfterAccounted(a: Snap, e: Event, b: Snap) returns (out: seq<Message>)
    requires Sound(a) && After(a, e, b)
    ensures Sound(b) && b.id == a.id && Accounted(a, For(e, a.id), b, out)
  {
    if b == a {
      AccountedNothing(a);
      OneCounted(if e.FromPeer? then e.m else Okay(0, 0));
      TakenNone(a, For(e, a.id), a);
      return [];
    }
    match e {
      case Writable => out := WritableAccounted(a, b);
      case Readable => out := ReadableAccounted(a, b);
      case FromPeer(m) => out := PacketAccounted(a, m, b);
    }
  }

  // Events, one after the other, do what is counted here in packets: WRTE packets are sent
  // only as the far side asks for them with OKAY packets, OKAY packets only for WRTE packets
  // it has sent, and one CLSE at most; the payloads sent are the bytes read, and the payloads
  // received, in order, are the bytes written and those still queued.
  lemma {:induction false} TrailAccounted(trail: seq<Snap>, events: seq<Event>) returns (out: seq<Message>)
    requires Trail(trail, events) && Sound(trail[0])
    ensures var a, b := trail[0], trail[|events|];
            Sound(b) && b.id == a.id && Accounted(a, Incoming(events, a.id), b, out)
    decreases |events|
  {
    if events == [] {
      AccountedNothing(trail[0]);
      return [];
    }
    var n := |events| - 1;
    var front, es := trail[..n + 1], events[..n];
    assert Trail(front, es);
    out := TrailAccounted(front, es);
    var more := AfterAccounted(trail[n], events[n], trail[n + 1]);
    AccountedTwice(trail[0], Incoming(es, trail[0].id), trail[n], out, For(events[n], trail[0].id), trail[n + 1], more);
    out := out + more;
  }

  // One event.
  method HandleEvent(s: LocalSocket, e: Event)
    requires s.Valid()
    modifies s, s.fd, s.transport
    ensures s.Valid() && After(old(s.Now()), e, s.Now())
  {
    if s.destroyed {
      return;
    }
    match e {
      case Writable =>
        if s.wantWrite {
          var _ := s.OnWritable();
        }
      case Readable =>
        if s.wantRead {
          ghost var _ := s.OnReadable();
        }
      case FromPeer(m) => HandlePacket(s, m);
    }
  }

  // Packets about this socket (adb.c:337-370).
  method HandlePacket(s: LocalSocket, m: Message)
    requires s.Live()
    modifies s, s.fd`written, s.fd`interrupts, s.fd`puts, s.transport
    ensures s.Valid() && AfterPacket(old(s.Now()), m, s.Now())
  {
    if m.remote != s.id {
      return;
    }
    match m {
      case Okay(_, _) => s.OnOkay();
      case Wrte(from, _, data) => s.OnWrite(from, data);
      case Clse(_, _) => s.OnClose();
    }
  }

  // Over any sequence of events each does what it should, which accounts for the packets.
  method Run(s: LocalSocket, events: seq<Event>) returns (ghost trail: seq<Snap>, ghost out: seq<Message>)
    requires s.Live()
    modifies s, s.fd, s.transport
    ensures Trail(trail, events) && trail[0] == old(s.Now()) && trail[|events|] == s.Now()
    ensures Accounted(old(s.Now()), Incoming(events, s.id), s.Now(), out)
    ensures !s.destroyed ==> s.fd.written + Concat(s.queue) == s.received && s.acked <= |s.fd.written| && Paced(s.log)
    ensures !s.destroyed && !s.closing ==> DataOf(s.log) == s.fd.consumed
  {
    trail := [s.Now()];
    var i := 0;
    while i < |events|
      invariant 0 <= i <= |events| && s.Valid() && Trail(trail, events[..i])
      invariant trail[0] == old(s.Now()) && trail[i] == s.Now()
    {
      HandleEvent(s, events[i]);
      TrailMore(trail, events[..i], events[i], s.Now());
      assert events[..i + 1] == events[..i] + [events[i]];
      trail := trail + [s.Now()];
      i := i + 1;
    }
    assert events[..i] == events;
    out := TrailAccounted(trail, events);
  }

  lemma TrailMore(trail: seq<Snap>, events: seq<Event>, e: Event, b: Snap)
    requires Trail(trail, events) && After(trail[|events|], e, b)
    ensures Trail(trail + [b], events + [e])
  {
    var t, es := trail + [b], events + [e];
    forall i | 0 <= i < |es|
      ensures After(t[i], es[i], t[i + 1])
    {
      assert i < |events| ==> After(trail[i], events[i], trail[i + 1]);
    }
  }
}
