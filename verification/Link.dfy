/** A sender's buffer, the bytes on the wire and a receiver's buffer: messages arrive whole, once and
    in order, however the bytes are cut up on the way. */
module Link {
  import opened Wire
  import opened Framing
  import opened Buffer

  /** The taken frames are a prefix of the sent ones, and the rest is still in transit. */
  lemma {:induction false} TakenIsPrefix(sent: seq<Payload>, taken: seq<Payload>, transit: Bytes)
    requires Stream(sent) == Stream(taken) + transit
    ensures taken <= sent && transit == Stream(sent[|taken|..])
  {
    if taken == [] {
      NoPrefix(transit);
    } else {
      assert Stream(taken) == Frame(taken[0]) + Stream(taken[1..]);
      Regroup(Frame(taken[0]), Stream(taken[1..]), transit);
      StreamLength(taken);
      FrontIsNext(taken[0], sent, Stream(taken[1..]), transit);
      TakenIsPrefix(sent[1..], taken[1..], transit);
    }
  }

  class Link {
    const writer: Buffer
    const reader: Buffer
    var wire: Bytes
    ghost var sent: seq<Payload>
    ghost var taken: seq<Payload>

    ghost predicate Valid()
      reads this, writer, writer.data, reader, reader.data
    {
      && writer != reader && writer.data != reader.data
      && writer.Valid() && reader.Valid()
      && Stream(sent) == Stream(taken) + (reader.Contents() + wire + writer.Contents())
    }

    constructor (size: nat)
      ensures Valid() && fresh(writer) && fresh(reader) && fresh(writer.data) && fresh(reader.data)
      ensures sent == taken == []
    {
      writer := new Buffer(size);
      reader := new Buffer(size);
      wire, sent, taken := [], [], [];
    }

    method Push(p: Payload)
      requires Valid()
      modifies this`sent, writer, writer.data
      ensures Valid() && (writer.data == old(writer.data) || fresh(writer.data))
      ensures sent == old(sent) + [p] && writer.Contents() == old(writer.Contents()) + Frame(p)
    {
      var result := writer.AppendPackage(p);
      StreamSnoc(sent, p);
      Regroup(Stream(taken), reader.Contents() + wire + old(writer.Contents()), Frame(p));
      Regroup(reader.Contents() + wire, old(writer.Contents()), Frame(p));
      sent := sent + [p];
    }

    /** The socket accepts any number of bytes, or fails. */
    method Flush(accepted: int)
      requires Valid() && -1 <= accepted <= writer.ReadableSize()
      modifies this`wire, writer`readPos, writer`consumed
      ensures Valid()
      ensures var moved := if accepted < 0 then 0 else accepted;
              && wire == old(wire) + old(writer.Contents())[..moved]
              && writer.Contents() == old(writer.Contents())[moved..]
    {
      ghost var before := writer.Contents();
      var front := writer.data[writer.readPos..writer.writePos];
      var count, sentBytes := writer.SendData(accepted);
      if count > 0 {
        assert front[..count] == sentBytes;
        wire := wire + front[..count];
        Regroup(old(wire), sentBytes, writer.Contents());
        Regroup(reader.Contents(), old(wire) + sentBytes, writer.Contents());
        Regroup(reader.Contents(), old(wire), before);
      }
    }

    /** A read event delivers any number of bytes that fit the free space and the spill area. */
    method Deliver(n: nat)
      requires Valid() && n <= |wire| && n <= reader.WritableSize() + SPILL
      modifies this`wire, reader, reader.data
      ensures Valid() && (reader.data == old(reader.data) || fresh(reader.data))
      ensures wire == old(wire)[n..] && reader.Contents() == old(reader.Contents()) + old(wire)[..n]
    {
      var result := reader.SocketRead(Some(wire[..n]));
      wire := wire[n..];
      assert old(wire) == old(wire)[..n] + wire;
      Regroup(old(reader.Contents()), old(wire)[..n], wire);
    }

    /** Whenever a whole frame is buffered, taking it gives the next message in order. */
    method Receive() returns (p: Payload)
      requires Valid() && HoldsFrame(reader.Contents())
      modifies this`taken, reader`readPos, reader`consumed
      ensures Valid() && taken == old(taken) + [p]
      ensures |old(taken)| < |sent| && p == sent[|old(taken)|]
      ensures old(reader.Contents()) == Frame(p) + reader.Contents()
    {
      ghost var before := reader.Contents();
      TakenIsPrefix(sent, taken, before + wire + writer.Contents());
      var payload := reader.TakeFrame();
      p := payload.value;
      ghost var later := sent[|taken|..];
      assert later != [] by {
        assert |Frame(p)| >= 4;
      }
      Regroup(Frame(p) + reader.Contents(), wire, writer.Contents());
      FrontIsNext(p, later, reader.Contents(), wire + writer.Contents());
      StreamSnoc(taken, p);
      Regroup(reader.Contents(), wire, writer.Contents());
      Regroup(Frame(p), reader.Contents(), wire + writer.Contents());
      Regroup(Stream(taken), Frame(p), reader.Contents() + (wire + writer.Contents()));
      taken := taken + [p];
    }

    /** Once nothing is in transit, every message has been taken. */
    lemma DrainedMeansDelivered()
      requires Valid()
      requires reader.Contents() == [] && wire == [] && writer.Contents() == []
      ensures taken == sent
    {
      NoPrefix(Stream(taken));
      NoPrefix(Stream(sent));
      TakenIsPrefix(sent, taken, []);
      StreamLength(sent[|taken|..]);
    }
  }
}
