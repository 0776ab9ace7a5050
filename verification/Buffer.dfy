/** The growing, compacting byte buffer. The ghost history says that it is a queue of bytes. */
module Buffer {
  import opened Wire
  import opened Framing

  /** Size of the spill area of a socket read. */
  const SPILL: nat := 40960

  function Max(a: nat, b: nat): nat {
    if a < b then b else a
  }

  class Buffer {
    var data: array<Byte>
    var readPos: nat
    var writePos: nat

    ghost var appended: Bytes
    ghost var consumed: Bytes
    ghost var peak: nat
    ghost const initial: nat

    /** What went in is what came out followed by what lies between the two positions. */
    ghost predicate Core()
      reads this, data
    {
      && readPos <= writePos <= data.Length
      && appended == consumed + data[readPos..writePos]
    }

    /** The capacity is at most the initial one or twice the largest content ever held. */
    ghost predicate Valid()
      reads this, data
    {
      && Core()
      && writePos - readPos <= peak
      && data.Length <= Max(initial, 2 * peak)
    }

    function Contents(): Bytes
      requires readPos <= writePos <= data.Length
      reads this, data
    {
      data[readPos..writePos]
    }

    function ReadableSize(): int
      reads this
    {
      writePos - readPos
    }

    function WritableSize(): int
      reads this
    {
      data.Length - writePos
    }

    constructor (size: nat)
      ensures Valid() && fresh(data) && data.Length == initial == size
      ensures Contents() == appended == consumed == [] && peak == 0
    {
      data := new Byte[size](_ => 0);
      readPos, writePos := 0, 0;
      appended, consumed, peak, initial := [], [], 0, size;
    }

    /** The overlapping copy to the front, byte by byte in ascending order. */
    method Compact()
      requires Core()
      modifies this`readPos, this`writePos, data
      ensures Core() && Contents() == old(Contents())
      ensures readPos == 0 && writePos == old(writePos - readPos)
    {
      var from, readable := readPos, writePos - readPos;
      ghost var before := data[..];
      for i := 0 to readable
        modifies data
        invariant data[..i] == before[from..from + i]
        invariant data[from + i..] == before[from + i..]
      {
        assert data[from + i] == data[from + i..][0];
        data[i] := data[from + i];
        assert data[from + (i + 1)..] == before[from + i..][1..];
      }
      readPos := 0;
      writePos := readable;
    }

    /** A larger block with the old bytes in front and zeros behind. */
    method Grow(size: nat)
      requires Core()
      modifies this`data
      ensures Core() && Contents() == old(Contents())
      ensures fresh(data) && data.Length == old(data.Length) + size
    {
      var temp := new Byte[data.Length + size](_ => 0);
      for i := 0 to data.Length
        modifies temp
        invariant forall j :: 0 <= j < i ==> temp[j] == data[j]
      {
        temp[i] := data[i];
      }
      ghost var kept, copied := data[readPos..writePos], temp[readPos..writePos];
      assert forall j :: 0 <= j < |kept| ==> copied[j] == temp[readPos + j] == data[readPos + j] == kept[j];
      assert copied == kept;
      data := temp;
    }

    method ExtendRoom(size: nat)
      requires Core()
      modifies this`readPos, this`writePos, this`data, data
      ensures Core() && Contents() == old(Contents())
      ensures WritableSize() >= size
      ensures data == old(data) || fresh(data)
      ensures data.Length == old(data.Length)
              || (old(data.Length) < |old(Contents())| + size && data.Length == old(data.Length) + size)
    {
      if data.Length - writePos >= size {
        return;
      } else if readPos + (data.Length - writePos) >= size {
        Compact();
      } else {
        Grow(size);
      }
    }

    /** The copy behind the content, into space that is there. */
    method CopyIn(s: Bytes)
      requires Core() && |s| <= WritableSize()
      modifies this`writePos, this`appended, this`peak, data
      ensures Core()
      ensures Contents() == old(Contents()) + s && appended == old(appended) + s
      ensures writePos == old(writePos) + |s|
      ensures peak == Max(old(peak), |Contents()|)
    {
      ghost var kept := Contents();
      for i := 0 to |s|
        modifies data
        invariant data[readPos..writePos] == kept
        invariant data[writePos..writePos + i] == s[..i]
      {
        data[writePos + i] := s[i];
      }
      assert data[readPos..writePos + |s|] == data[readPos..writePos] + data[writePos..writePos + |s|];
      Regroup(consumed, kept, s);
      writePos := writePos + |s|;
      appended := appended + s;
      peak := Max(peak, writePos - readPos);
    }

    /** Empty strings are refused with -1. */
    method AppendString(s: Bytes) returns (result: int)
      requires Valid()
      modifies this, data
      ensures Valid() && (data == old(data) || fresh(data))
      ensures Contents() == old(Contents()) + s
      ensures appended == old(appended) + s && consumed == old(consumed)
      ensures peak == Max(old(peak), |Contents()|)
      ensures result == if s == [] then -1 else 0
    {
      if |s| == 0 {
        return -1;
      }
      ExtendRoom(|s|);
      CopyIn(s);
      result := 0;
    }

    /** The length in network order, written as a four-byte string. */
    method AppendHead(length: nat) returns (result: int)
      requires Valid() && length < MAX_FRAME
      modifies this, data
      ensures Valid() && (data == old(data) || fresh(data))
      ensures Contents() == old(Contents()) + Head(length)
      ensures appended == old(appended) + Head(length) && consumed == old(consumed)
      ensures peak == Max(old(peak), |Contents()|)
      ensures result == 0
    {
      var ret := AppendString(Head(length));
      result := 0;
    }

    method AppendPackage(p: Payload) returns (result: int)
      requires Valid()
      modifies this, data
      ensures Valid() && (data == old(data) || fresh(data))
      ensures Contents() == old(Contents()) + Frame(p)
      ensures appended == old(appended) + Frame(p) && consumed == old(consumed)
      ensures peak == Max(old(peak), |Contents()|)
      ensures result == 0
    {
      var ret := AppendHead(|p|);
      ret := AppendString(p);
      Regroup(old(Contents()), Head(|p|), p);
      Regroup(old(appended), Head(|p|), p);
      result := 0;
    }

    /** `arrived` is what `readv` delivers into the free space and the spill area, or None when it
        fails. */
    method SocketRead(arrived: Option<Bytes>) returns (result: int)
      requires Valid()
      requires arrived.Some? ==> |arrived.value| <= WritableSize() + SPILL
      modifies this, data
      ensures Valid() && (data == old(data) || fresh(data))
      ensures Contents() == old(Contents()) + (if arrived.Some? then arrived.value else [])
      ensures appended == old(appended) + (if arrived.Some? then arrived.value else [])
      ensures consumed == old(consumed)
      ensures peak == Max(old(peak), |Contents()|)
      ensures result == if arrived.Some? then |arrived.value| else -1
    {
      if arrived.None? {
        return -1;
      }
      var bytes := arrived.value;
      result := |bytes|;
      var writable := data.Length - writePos;
      if |bytes| <= writable {
        CopyIn(bytes);
      } else {
        CopyIn(bytes[..writable]);
        var ret := AppendString(bytes[writable..]);
        assert bytes == bytes[..writable] + bytes[writable..];
        Regroup(old(Contents()), bytes[..writable], bytes[writable..]);
        Regroup(old(appended), bytes[..writable], bytes[writable..]);
      }
    }

    /** `accepted` is what `send` returns: -1, or a number of bytes taken from the front. */
    method SendData(accepted: int) returns (count: int, ghost sent: Bytes)
      requires Valid() && -1 <= accepted <= ReadableSize()
      modifies this`readPos, this`consumed
      ensures Valid() && sent + Contents() == old(Contents()) && consumed == old(consumed) + sent
      ensures count == if old(ReadableSize()) > 0 then accepted else 0
      ensures |sent| == if count > 0 then count else 0
    {
      sent := [];
      if writePos - readPos > 0 {
        count := accepted;
        if count > 0 {
          sent := data[readPos..readPos + count];
          assert data[readPos..writePos] == sent + data[readPos + count..writePos];
          readPos := readPos + count;
          consumed := consumed + sent;
        }
        return;
      }
      count := 0;
    }

    /** `data(length)`: the bytes at the front, which are consumed. Nothing checks that there are that many;
        the content stays well-formed exactly when there were. */
    method Take(length: nat) returns (msg: Bytes)
      requires readPos + length <= data.Length
      modifies this`readPos, this`consumed
      ensures readPos == old(readPos) + length && msg == data[old(readPos)..readPos]
      ensures old(Valid()) ==> (Valid() <==> length <= old(ReadableSize()))
      ensures old(Valid()) && length <= old(ReadableSize()) ==>
                old(Contents()) == msg + Contents() && consumed == old(consumed) + msg
    {
      msg := data[readPos..readPos + length];
      if readPos + length <= writePos <= data.Length {
        assert data[readPos..writePos] == msg + data[readPos + length..writePos];
        Regroup(consumed, msg, data[readPos + length..writePos]);
      }
      readPos := readPos + length;
      consumed := consumed + msg;
    }

    /** The head and payload reads at the start of `parse_request`. They give a payload and leave a
        well-formed buffer exactly when a whole frame was there; None stands for a read that leaves the
        block, or a length with the sign bit set. */
    method TakeFrame() returns (payload: Option<Payload>)
      requires Valid()
      modifies this`readPos, this`consumed
      ensures payload.Some? && Valid() <==> HoldsFrame(old(Contents()))
      ensures HoldsFrame(old(Contents())) ==>
                && payload == Some(FirstPayload(old(Contents())))
                && old(Contents()) == Frame(payload.value) + Contents()
                && consumed == old(consumed) + Frame(payload.value)
    {
      ghost var before, position := Contents(), readPos;
      if readPos + 4 > data.Length {
        return None;
      }
      var head := Take(4);
      assert |before| >= 4 ==> head == before[..4];
      var length := HeadValue(head);
      if length >= MAX_FRAME || readPos + length > data.Length {
        return None;
      }
      var msg := Take(length);
      assert readPos == position + 4 + length;
      if HoldsFrame(before) {
        CutFrame(head, msg, Contents());
        Regroup(old(consumed), head, msg);
        HeadBytes(head);
      }
      payload := Some(msg);
    }

    /** One use. A take is done only if its bytes are there. */
    method Do(use: Use) returns (done: bool)
      requires Valid()
      modifies this, data
      ensures Valid() && (data == old(data) || fresh(data))
      ensures if done then Makes(use, old(Contents()), Contents()) else Contents() == old(Contents())
      ensures done <==> (use.TakeOff? ==> use.length <= old(ReadableSize()))
      ensures peak == Max(old(peak), |Contents()|)
    {
      done := true;
      ghost var before := Contents();
      match use
      case Package(p) =>
        var result := AppendPackage(p);
      case Read(waiting) =>
        var arrived := waiting;
        if waiting.Some? && |waiting.value| > WritableSize() + SPILL {
          arrived := Some(waiting.value[..WritableSize() + SPILL]);
        }
        var result := SocketRead(arrived);
        assert waiting.Some? ==> arrived.value == waiting.value[..|arrived.value|];
      case Send(room) =>
        var count, sent := SendData(if room < 0 then -1 else Min(room, ReadableSize()));
        assert before == sent + Contents();
      case TakeOff(length) =>
        done := length <= ReadableSize();
        if done {
          var msg := Take(length);
          assert before == msg + Contents();
        }
    }
  }

  // ----- a whole run -----

  /** A use of the buffer. `Read` is a read event with these bytes waiting in the socket, of which the
      free space and the spill area take what they can; `Send` finds room for `room` bytes, or fails. */
  datatype Use =
    | Package(p: Payload)
    | Read(waiting: Option<Bytes>)
    | Send(room: int)
    | TakeOff(length: nat)

  /** What a use may make of the content. */
  ghost predicate Makes(use: Use, before: Bytes, after: Bytes) {
    match use
    case Package(p) => after == before + Frame(p)
    case Read(None) => after == before
    case Read(Some(w)) => exists n | n <= |w| && (n == |w| || n >= SPILL) :: after == before + w[..n]
    case Send(room) => after == before[if room < 0 then 0 else Min(room, |before|)..]
    case TakeOff(length) => length <= |before| && after == before[length..]
  }

  function Min(a: nat, b: nat): nat {
    if a < b then a else b
  }

  function Largest(contents: seq<Bytes>): nat {
    if contents == [] then 0 else Max(Largest(contents[..|contents| - 1]), |contents[|contents| - 1]|)
  }

  /** A buffer's life from its construction, up to a take that does not find its bytes. Its block never
      outgrows both the initial size and twice the largest content it has held. */
  method Live(size: nat, uses: seq<Use>) returns (b: Buffer, ghost contents: seq<Bytes>)
    ensures b.Valid() && 1 <= |contents| <= |uses| + 1 && contents[0] == []
    ensures contents[|contents| - 1] == b.Contents()
    ensures forall k :: 0 <= k < |contents| - 1 ==> Makes(uses[k], contents[k], contents[k + 1])
    ensures |contents| <= |uses| ==>
              uses[|contents| - 1].TakeOff? && uses[|contents| - 1].length > |b.Contents()|
    ensures b.data.Length <= Max(size, 2 * Largest(contents))
  {
    b := new Buffer(size);
    contents := [[]];
    for k := 0 to |uses|
      invariant fresh(b) && fresh(b.data) && b.Valid() && b.initial == size
      invariant |contents| == k + 1 && contents[0] == [] && contents[k] == b.Contents()
      invariant forall i :: 0 <= i < k ==> Makes(uses[i], contents[i], contents[i + 1])
      invariant b.peak <= Largest(contents)
    {
      var done := b.Do(uses[k]);
      if !done {
        return;
      }
      ghost var contents' := contents + [b.Contents()];
      assert contents'[..k + 1] == contents;
      contents := contents';
    }
  }
}
