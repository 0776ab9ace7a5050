/** One client connection: which events it waits for, when it tells the loop, and what happens to the
    bytes it is asked to send. */
module TcpConnection {
  import opened Wire
  import opened Framing
  import opened Buffer
  import opened PollTable
  import opened SelectTable
  import opened Lives
  import opened EventLoop
  import opened Requests

  predicate Calls(log: seq<Activation>, fd: int, write: bool) {
    exists a <- log :: a.fd == fd && a.write == write
  }

  /** For some report of the kernel, one turn of the loop may call the read or write callback. */
  ghost predicate MayBeCalled(t: Table, fd: int, write: bool)
    requires Inv(t)
  {
    exists ready: Readiness, log: seq<Activation> :: Sound(Polled(t, ready), log) && Calls(log, fd, write)
  }

  predicate Wants(e: Interest, write: bool) {
    if write then e.write else e.read
  }

  lemma CallsNeedInterest(t: Table, fd: nat, write: bool, ready: Readiness, log: seq<Activation>)
    requires Inv(t) && Sound(Polled(t, ready), log) && Calls(log, fd, write)
    ensures Wants(InterestOf(t, fd), write)
  {
    var k :| 0 <= k < |log| && log[k].fd == fd && log[k].write == write;
    var i := log[k].slot;
    PolledExact(t, ready, i, write);
    FirstUnique(t, fd, i);
  }

  lemma InterestMayBeCalled(t: Table, fd: nat, write: bool)
    requires Inv(t) && Wants(InterestOf(t, fd), write)
    ensures MayBeCalled(t, fd, write)
  {
    var all: Readiness := _ => Interest(true, true);
    var i := FirstWith(t.slots, fd);
    var log := [Activation(i, fd, write)];
    PolledExact(t, all, i, write);
    assert Sound(Polled(t, all), log);
    assert log[0] in log && Calls(log, fd, write);
  }

  /** A turn of the loop calls back only for events that the table waits for, and can for all of these. */
  lemma CalledIff(t: Table, fd: nat, write: bool)
    requires Inv(t)
    ensures MayBeCalled(t, fd, write) <==> Wants(InterestOf(t, fd), write)
  {
    if MayBeCalled(t, fd, write) {
      var ready: Readiness, log: seq<Activation> :| Sound(Polled(t, ready), log) && Calls(log, fd, write);
      CallsNeedInterest(t, fd, write, ready, log);
    }
    if Wants(InterestOf(t, fd), write) {
      InterestMayBeCalled(t, fd, write);
    }
  }

  /** Tasks about other descriptors change nothing about that. */
  lemma OthersDoNotHelp(t: Table, task: Task, fd: nat, write: bool)
    requires Inv(t) && 0 <= task.fd && task.fd != fd
    ensures Inv(Apply(t, task)) && (MayBeCalled(Apply(t, task), fd, write) <==> MayBeCalled(t, fd, write))
  {
    ApplyKeepsInv(t, task);
    OthersUntouched(t, task, fd);
    CalledIff(t, fd, write);
    CalledIff(Apply(t, task), fd, write);
  }

  /** The modify task that a write callback issues after the last byte has taken effect when the callback
      returns: from then on the connection is read, and not written. */
  lemma SwitchTakesEffect(m: Moment, m': Moment, fd: nat)
    requires Inv(m.table) && SmallFds(m.table) && fd < MAX_FDS && m.queue == []
    requires InTable(m.table, fd) && Ran(m, m', [ModifyTask(fd, READ_ONLY)])
    ensures Inv(m'.table) && InterestOf(m'.table, fd) == READ_ONLY
    ensures MayBeCalled(m'.table, fd, false) && !MayBeCalled(m'.table, fd, true)
  {
    var task := ModifyTask(fd, READ_ONLY);
    assert Since(m, m') == [task];
    assert ApplyAll(m.table, [task]) == ApplyAll(Apply(m.table, task), [task][1..]);
    ApplyKeepsInv(m.table, task);
    OwnInterest(m.table, task);
    CalledIff(m'.table, fd, false);
    CalledIff(m'.table, fd, true);
  }

  class TcpConnection {
    const fd: nat
    var events: Interest
    const readBuf: Buffer
    const writeBuf: Buffer
    /** Everything the socket has accepted so far, and every frame handed to the connection. */
    ghost var accepted: Bytes
    ghost var frames: seq<Payload>
    /** The tasks given to the loop, each with the interest its channel had; and whether the connection
        has been destroyed. */
    ghost var issued: seq<Step>
    ghost var gone: bool

    /** Exactly one interest bit is set and the loop has been told of it; what the socket accepted and what
        still waits is the stream of the frames, in order. */
    ghost predicate Valid()
      reads this, readBuf, readBuf.data, writeBuf, writeBuf.data
    {
      && (events == READ_ONLY || events == WRITE_ONLY)
      && IsLife(Absent, issued) && (forall step <- issued :: step.fd == fd)
      && (!gone ==> PhaseAfter(Absent, issued) == if events == WRITE_ONLY then Writing else Reading)
      && readBuf != writeBuf && readBuf.data != writeBuf.data
      && readBuf.Valid() && writeBuf.Valid()
      && accepted + writeBuf.Contents() == Stream(frames)
    }

    /** A connection starts by waiting to write its first package, the public key. */
    constructor (fd: nat, key: Payload)
      ensures Valid() && this.fd == fd && events == WRITE_ONLY
      ensures frames == [key] && accepted == [] && issued == [Add(fd, WRITE_ONLY)] && !gone
      ensures fresh(readBuf) && fresh(writeBuf) && fresh(readBuf.data) && fresh(writeBuf.data)
    {
      this.fd := fd;
      events := WRITE_ONLY;
      readBuf := new Buffer(10240);
      writeBuf := new Buffer(10240);
      accepted, frames := [], [key];
      issued, gone := [Add(fd, WRITE_ONLY)], false;
      new;
      assert issued[1..] == [];
      var result := writeBuf.AppendPackage(key);
      NoPrefix(Frame(key));
      assert Stream([key]) == Frame(key) + Stream([key][1..]);
    }

    /** What waits goes to the socket, as far as this accepts it. */
    method SendSome(sendResult: int) returns (count: int)
      requires Valid() && -1 <= sendResult <= writeBuf.ReadableSize()
      modifies this`accepted, writeBuf`readPos, writeBuf`consumed
      ensures Valid() && old(accepted) <= accepted
      ensures |accepted| - |old(accepted)| == (if sendResult > 0 then sendResult else 0)
              == old(writeBuf.ReadableSize()) - writeBuf.ReadableSize()
      ensures count > 0 <==> sendResult > 0
    {
      ghost var sent;
      count, sent := writeBuf.SendData(sendResult);
      Regroup(accepted, sent, writeBuf.Contents());
      accepted := accepted + sent;
    }

    /** The write callback. The bits change only when the last byte has gone, and then the loop is told. */
    method ProcessWrite(sendResult: int) returns (task: Option<Step>)
      requires Valid() && !gone && -1 <= sendResult <= writeBuf.ReadableSize()
      modifies this, writeBuf`readPos, writeBuf`consumed
      ensures Valid() && frames == old(frames) && gone == old(gone)
      ensures old(accepted) <= accepted
      ensures |accepted| == |old(accepted)| + if sendResult > 0 then sendResult else 0
      ensures if sendResult > 0 && writeBuf.ReadableSize() == 0
              then events == READ_ONLY && task == Some(Modify(fd, READ_ONLY)) && accepted == Stream(frames)
              else events == old(events) && task == None
      ensures issued == old(issued) + if task.Some? then [task.value] else []
    {
      task := None;
      var count := SendSome(sendResult);
      if count > 0 {
        if writeBuf.ReadableSize() == 0 {
          events := events.(write := false);
          events := events.(read := true);
          task := Some(Modify(fd, events));
          Told(Modify(fd, events));
          issued := issued + [Modify(fd, events)];
          NoPrefix(accepted);
        }
      }
    }

    /** Bytes wait, and no turn of a loop with this table writes them. */
    ghost predicate Stranded(t: Table)
      requires Inv(t)
      reads this, writeBuf
    {
      writeBuf.ReadableSize() > 0 && !MayBeCalled(t, fd, true)
    }

    /** With a table that holds the connection's interest, what is left of a reply is stranded exactly when
        the interest is in reading. */
    lemma StrandedIff(t: Table)
      requires Valid() && Inv(t) && InterestOf(t, fd) == events
      ensures Stranded(t) <==> events == READ_ONLY && writeBuf.ReadableSize() > 0
    {
      CalledIff(t, fd, true);
    }

    /** A reply is appended and sent at once, without asking for a write event: once the interest is in
        reading, bytes that the socket does not take wait until the next reply. `t` is the loop's table. */
    method AddWriteTask(data: Payload, sendResult: int, ghost t: Table)
      requires Valid() && !gone && -1 <= sendResult <= writeBuf.ReadableSize() + 4 + |data|
      modifies this`accepted, this`frames, writeBuf, writeBuf.data
      ensures Valid() && (writeBuf.data == old(writeBuf.data) || fresh(writeBuf.data))
      ensures frames == old(frames) + [data] && old(accepted) <= accepted
      ensures |accepted| == |old(accepted)| + if sendResult > 0 then sendResult else 0
      ensures writeBuf.ReadableSize() == 0 <==> sendResult == old(writeBuf.ReadableSize()) + 4 + |data|
      ensures Inv(t) && InterestOf(t, fd) == events ==>
                (Stranded(t) <==> events == READ_ONLY && sendResult < old(writeBuf.ReadableSize()) + 4 + |data|)
    {
      var result := writeBuf.AppendPackage(data);
      Regroup(accepted, old(writeBuf.Contents()), Frame(data));
      StreamSnoc(frames, data);
      frames := frames + [data];
      var count := SendSome(sendResult);
      if Inv(t) && InterestOf(t, fd) == events {
        StrandedIff(t);
      }
    }

    /** The read callback with the two reads of the request handler: a failed or empty read asks for
        deletion; any other is followed by taking one frame, whether or not a whole one is there. */
    method ProcessRead(arrived: Option<Bytes>) returns (delete: bool, request: Option<Payload>)
      requires Valid()
      requires arrived.Some? ==> |arrived.value| <= readBuf.WritableSize() + SPILL
      modifies readBuf, readBuf.data
      ensures readBuf.data == old(readBuf.data) || fresh(readBuf.data)
      ensures delete <==> arrived.None? || arrived.value == []
      ensures delete ==> Valid() && request == None && readBuf.Contents() == old(readBuf.Contents())
      ensures !delete ==>
                var b := old(readBuf.Contents()) + arrived.value;
                && (request.Some? && Valid() <==> HoldsFrame(b))
                && (HoldsFrame(b) ==> request == Some(FirstPayload(b)) && readBuf.Contents() == AfterFrame(b))
    {
      request := None;
      var count := readBuf.SocketRead(arrived);
      delete := !(count > 0);
      if !delete {
        ghost var b := readBuf.Contents();
        request := readBuf.TakeFrame();
        if HoldsFrame(b) {
          FrameReads(request.value, readBuf.Contents());
        }
      } else {
        NoPrefix(old(readBuf.Contents()));
      }
    }

    /** Read events one after the other while `incoming` arrives: each brings at most `limits[k]` bytes and
        what fits. It ends with a read that brings nothing, or, not `ok`, with a take that finds no whole
        frame. `chunks` are the reads. */
    method ReadRequests(incoming: Bytes, limits: seq<nat>)
      returns (requests: seq<Payload>, ok: bool, ghost chunks: seq<Bytes>)
      requires Valid()
      modifies readBuf, readBuf.data
      ensures readBuf.data == old(readBuf.data) || fresh(readBuf.data)
      ensures Concat(chunks) <= incoming && |chunks| <= |limits|
      ensures if ok then Valid() && OnePerRead(old(readBuf.Contents()), chunks) == Some((requests, readBuf.Contents()))
              else OnePerRead(old(readBuf.Contents()), chunks) == None
      ensures ok && |chunks| < |limits| ==> Concat(chunks) == incoming || limits[|chunks|] == 0
    {
      requests, ok, chunks := [], true, [];
      var waiting := incoming;
      for k := 0 to |limits|
        invariant Valid() && (readBuf.data == old(readBuf.data) || fresh(readBuf.data))
        invariant |chunks| == k && Concat(chunks) + waiting == incoming
        invariant OnePerRead(old(readBuf.Contents()), chunks) == Some((requests, readBuf.Contents()))
      {
        var n := Min(Min(limits[k], |waiting|), readBuf.WritableSize() + SPILL);
        var buffered := readBuf.Contents() + waiting[..n];
        var delete, request := ProcessRead(Some(waiting[..n]));
        if delete {
          return;
        }
        ghost var chunks' := chunks + [waiting[..n]];
        assert chunks'[..k] == chunks;
        assert waiting == waiting[..n] + waiting[n..];
        Regroup(Concat(chunks), waiting[..n], waiting[n..]);
        chunks, waiting := chunks', waiting[n..];
        if !HoldsFrame(buffered) {
          ok := false;
          return;
        }
        requests := requests + [request.value];
      }
    }

    /** What a delete task comes to: the channel is freed only when nothing is left to read or to send. */
    method Destroy() returns (freed: bool)
      requires Valid() && !gone
      modifies this`issued, this`gone
      ensures Valid() && gone && issued == old(issued) + [Delete(fd, events, freed)]
      ensures freed <==> readBuf.Contents() == [] && accepted == Stream(frames)
    {
      freed := readBuf.ReadableSize() == 0 && writeBuf.ReadableSize() == 0;
      if writeBuf.Contents() == [] {
        NoPrefix(accepted);
      }
      assert |accepted + writeBuf.Contents()| == |accepted| + |writeBuf.Contents()|;
      Told(Delete(fd, events, freed));
      issued := issued + [Delete(fd, events, freed)];
      gone := true;
    }

    lemma Told(step: Step)
      requires IsLife(Absent, issued) && Fits(PhaseAfter(Absent, issued), step)
      ensures IsLife(Absent, issued + [step])
    {
      assert [step][1..] == [];
      LifeGoesOn(Absent, issued, [step]);
    }

    /** A connection's tasks are, on their own, a life of its descriptor; and once it has freed its channel,
        the next connection on the descriptor adds another. */
    lemma HistoryIsLife(next: seq<Step>)
      requires Valid() && (next != [] ==> PhaseAfter(Absent, issued) == Absent) && IsLife(Absent, next)
      ensures Project(issued, fd) == issued && IsLife(Absent, issued + next)
    {
      ProjectAll(issued, fd);
      LifeGoesOn(Absent, issued, next);
    }
  }
}
