/** The generated message class and the codec that the server uses, both updated in place. */
module Codec {
  import opened Wire
  import opened InformationModel

  /** What ByteSizeLong adds for a text and for a code. */
  function TextSize(s: Bytes): nat
    requires |s| <= MAX_SIZE
  {
    if s == [] then 0 else 1 + (|s| + VarintSize(|s|))
  }

  function CodeSize(c: Code): nat {
    if c == 0 then 0 else 1 + if c < 0 then 10 else VarintSize(c as int)
  }

  lemma TextSizeExact(number: nat, s: Bytes)
    requires 1 <= number <= 5 && |s| <= MAX_SIZE
    ensures TextSize(s) == |WriteText(number, s)|
  {
    VarintLength(|s|);
    VarintLength(8 * number + 2);
  }

  lemma CodeSizeExact(number: nat, c: Code)
    requires 6 <= number <= 7
    ensures CodeSize(c) == |WriteCode(number, c)|
  {
    CodeLength(c);
    VarintLength(8 * number);
  }

  /** The sum of the parts is the length of the serialised message. */
  lemma ByteSizeExact(m: Info)
    requires WellFormed(m)
    ensures TextSize(m.userName) + TextSize(m.roomName) + TextSize(m.data1) + TextSize(m.data2)
            + TextSize(m.data3) + CodeSize(m.reqcode) + CodeSize(m.rescode) + FieldsSize(m.unknown)
            == |Write(m)|
  {
    FieldsLength(m.unknown, RECURSION_LIMIT);
    TextSizeExact(1, m.userName);
    TextSizeExact(2, m.roomName);
    TextSizeExact(3, m.data1);
    TextSizeExact(4, m.data2);
    TextSizeExact(5, m.data3);
    CodeSizeExact(6, m.reqcode);
    CodeSizeExact(7, m.rescode);
  }

  class Information {
    var userName: Bytes
    var roomName: Bytes
    var data1: Bytes
    var data2: Bytes
    var data3: Bytes
    var reqcode: Code
    var rescode: Code
    var unknown: seq<Field>
    const utf8: Bytes -> bool

    constructor (utf8: Bytes -> bool)
      ensures View() == DEFAULT_INFO && this.utf8 == utf8
    {
      userName, roomName, data1, data2, data3 := [], [], [], [], [];
      reqcode, rescode, unknown := 0, 0, [];
      this.utf8 := utf8;
    }

    function View(): Info
      reads this
    {
      Info(userName, roomName, data1, data2, data3, reqcode, rescode, unknown)
    }

    method Clear()
      modifies this
      ensures View() == DEFAULT_INFO
    {
      userName, roomName, data1, data2, data3 := [], [], [], [], [];
      reqcode, rescode := 0, 0;
      unknown := [];
    }

    method SetTextField(number: nat, s: Bytes)
      requires 1 <= number <= 5
      modifies this
      ensures View() == old(View()).SetText(number, s)
    {
      match number
      case 1 => userName := s;
      case 2 => roomName := s;
      case 3 => data1 := s;
      case 4 => data2 := s;
      case _ => data3 := s;
    }

    /** The parse loop. It merges into the current contents. When it fails it leaves the fields read so
        far, an invalid text included. */
    method InternalParse(b: Bytes) returns (ok: bool)
      requires WellFormed(View())
      modifies this
      ensures match Parse(old(View()), b, utf8)
              case Some(m) => ok && View() == m
              case None => !ok && LeftBy(old(View()), b)
      ensures WellFormed(View())
    {
      var ptr := b;
      while ptr != []
        invariant Parse(old(View()), b, utf8) == Parse(View(), ptr, utf8)
        invariant Stop(old(View()), b, utf8) == Stop(View(), ptr, utf8)
        invariant WellFormed(View())
        decreases |ptr|
      {
        ghost var before, at := View(), ptr;
        if Step(before, at, utf8).Some? {
          StepWellFormed(before, at, utf8);
        }
        var tagRead := ReadTag(ptr);
        if tagRead.None? {
          return false;
        }
        var (tag, rest) := tagRead.value;
        if IsTextTag(tag) {
          var text := ReadDelimited(rest);
          if text.None? {
            return false;
          }
          SetTextField(tag / 8, text.value.0);
          if !utf8(text.value.0) {
            return false;
          }
          ptr := text.value.1;
        } else if IsCodeTag(tag) {
          var val := ReadWide(rest);
          if val.None? {
            return false;
          }
          if tag / 8 == 6 {
            reqcode := VarintToCode(val.value.0);
          } else {
            rescode := VarintToCode(val.value.0);
          }
          ptr := val.value.1;
        } else if tag == 0 || tag % 8 == 4 {
          return false;
        } else {
          var field := ParseField(tag, rest, RECURSION_LIMIT);
          if field.None? {
            return false;
          }
          unknown := unknown + [field.value.0];
          ptr := field.value.1;
        }
        assert Step(before, at, utf8) == Some((View(), ptr));
      }
      ok := true;
    }

    /** The object after a failed parse of `b` into `m`. Of a text that is cut short the field may hold
        anything, and of an unknown field that is, something may have been added. */
    predicate LeftBy(m: Info, b: Bytes)
      reads this
    {
      var held := Held(m, b, utf8);
      if CutShort(m, b, utf8) then
        var number := CutNumber(m, b, utf8);
        View().SetText(number, []) == held.SetText(number, [])
      else
        View().(unknown := held.unknown) == held && held.unknown <= View().unknown
    }

    method ParseFromString(b: Bytes) returns (ok: bool)
      modifies this
      ensures match Parse(DEFAULT_INFO, b, utf8)
              case Some(m) => ok && View() == m
              case None => !ok && LeftBy(DEFAULT_INFO, b)
      ensures WellFormed(View())
    {
      Clear();
      ok := InternalParse(b);
    }

    static method AppendText(target: Bytes, number: nat, s: Bytes) returns (r: Bytes)
      ensures r == target + WriteText(number, s)
    {
      r := target;
      if s != [] {
        r := r + (Tag(number, 2) + Delimited(s));
      }
    }

    static method AppendCode(target: Bytes, number: nat, c: Code) returns (r: Bytes)
      ensures r == target + WriteCode(number, c)
    {
      r := target;
      if c != 0 {
        r := r + (Tag(number, 0) + Varint(CodeToVarint(c)));
      }
    }

    /** Fields in number order, defaults left out, unknown fields last. */
    method InternalSerialize(start: Bytes) returns (target: Bytes)
      ensures target == start + Write(View())
    {
      var t0 := AppendText(start, 1, userName);
      var t1 := AppendText(t0, 2, roomName);
      var t2 := AppendText(t1, 3, data1);
      var t3 := AppendText(t2, 4, data2);
      var t4 := AppendText(t3, 5, data3);
      var t5 := AppendCode(t4, 6, reqcode);
      var t6 := AppendCode(t5, 7, rescode);
      target := t6 + WriteFields(unknown);

      ghost var w6 := WriteFields(unknown);
      ghost var w5 := WriteCode(7, rescode) + w6;
      ghost var w4 := WriteCode(6, reqcode) + w5;
      ghost var w3 := WriteText(5, data3) + w4;
      ghost var w2 := WriteText(4, data2) + w3;
      ghost var w1 := WriteText(3, data1) + w2;
      ghost var w0 := WriteText(2, roomName) + w1;
      Regroup(t5, WriteCode(7, rescode), w6);
      Regroup(t4, WriteCode(6, reqcode), w5);
      Regroup(t3, WriteText(5, data3), w4);
      Regroup(t2, WriteText(4, data2), w3);
      Regroup(t1, WriteText(3, data1), w2);
      Regroup(t0, WriteText(2, roomName), w1);
      Regroup(start, WriteText(1, userName), w0);
    }

    static method AddTextSize(total: nat, s: Bytes) returns (r: nat)
      requires |s| <= MAX_SIZE
      ensures r == total + TextSize(s)
    {
      r := total;
      if s != [] {
        r := r + 1 + (|s| + VarintSize(|s|));
      }
    }

    static method AddCodeSize(total: nat, c: Code) returns (r: nat)
      ensures r == total + CodeSize(c)
    {
      r := total;
      if c != 0 {
        r := r + 1 + if c < 0 then 10 else VarintSize(c as int);
      }
    }

    method ByteSizeLong() returns (total: nat)
      requires WellFormed(View())
      ensures total == |Write(View())|
    {
      total := AddTextSize(0, userName);
      total := AddTextSize(total, roomName);
      total := AddTextSize(total, data1);
      total := AddTextSize(total, data2);
      total := AddTextSize(total, data3);
      total := AddCodeSize(total, reqcode);
      total := AddCodeSize(total, rescode);
      total := total + FieldsSize(unknown);
      ByteSizeExact(View());
    }

    static method LaterText(to: Bytes, from: Bytes) returns (r: Bytes)
      ensures r == MergeText(to, from)
    {
      r := to;
      if from != [] {
        r := from;
      }
    }

    static method LaterCode(to: Code, from: Code) returns (r: Code)
      ensures r == MergeCode(to, from)
    {
      r := to;
      if from != 0 {
        r := from;
      }
    }

    method MergeFrom(from: Information)
      requires from != this
      modifies this
      ensures View() == Merge(old(View()), from.View())
    {
      userName := LaterText(userName, from.userName);
      roomName := LaterText(roomName, from.roomName);
      data1 := LaterText(data1, from.data1);
      data2 := LaterText(data2, from.data2);
      data3 := LaterText(data3, from.data3);
      reqcode := LaterCode(reqcode, from.reqcode);
      rescode := LaterCode(rescode, from.rescode);
      unknown := unknown + from.unknown;
    }

    /** Also right when an object is copied onto itself. */
    method CopyFrom(from: Information)
      modifies this
      ensures View() == old(from.View())
    {
      if from == this {
        return;
      }
      Clear();
      MergeFrom(from);
      MergeDefault(from.View());
    }
  }

  // ----- the codec -----

  datatype Message = Message(
    userName: Bytes, roomName: Bytes, data1: Bytes, data2: Bytes, data3: Bytes,
    reqcode: Code, rescode: Code)

  /** The object after all seven setters; its unknown fields stay. */
  function Loaded(o: Info, m: Message): Info {
    Info(m.userName, m.roomName, m.data1, m.data2, m.data3, m.reqcode, m.rescode, o.unknown)
  }

  function MessageOf(o: Info): Message {
    Message(o.userName, o.roomName, o.data1, o.data2, o.data3, o.reqcode, o.rescode)
  }

  predicate Sendable(m: Message) {
    && |m.userName| <= MAX_SIZE && |m.roomName| <= MAX_SIZE && |m.data1| <= MAX_SIZE
    && |m.data2| <= MAX_SIZE && |m.data3| <= MAX_SIZE
  }

  /** What `decode_msg` gives, which does not ask whether the parse succeeded. */
  function Decodes(b: Bytes, utf8: Bytes -> bool): Message {
    MessageOf(Held(DEFAULT_INFO, b, utf8))
  }

  /** Whatever unknown fields the reused object still holds, the peer gets the message that was loaded up to
      its first invalid text, for every code; so all of it exactly when nothing comes behind that. The
      unknown fields come along. */
  lemma EchoIsHarmless(o: Info, m: Message, utf8: Bytes -> bool)
    requires WellFormed(o) && Sendable(m)
    ensures var b, a := Write(Loaded(o, m)), Loaded(DEFAULT_INFO, m);
            && !CutShort(DEFAULT_INFO, b, utf8)
            && Decodes(b, utf8) == MessageOf(UpTo(a, FirstInvalid(a, utf8)))
            && (Decodes(b, utf8) == m <==> NothingBehind(a, utf8))
            && (Parse(DEFAULT_INFO, b, utf8).Some? <==> TextsOk(a, utf8))
            && (TextsOk(a, utf8) ==> Parse(DEFAULT_INFO, b, utf8).value.unknown == o.unknown)
  {
    var a := Loaded(DEFAULT_INFO, m);
    HeldWritten(Loaded(o, m), utf8);
    UpToIff(a, utf8);
    RoundTrip(Loaded(o, m), utf8);
    assert UpTo(Loaded(o, m), FirstInvalid(a, utf8)) == UpTo(a, FirstInvalid(a, utf8));
  }

  /** For instance: an invalid user name hides the room name that comes behind it. */
  lemma InvalidTextHidesRest(utf8: Bytes -> bool)
    requires !utf8([255])
    ensures var m := Message([255], [65], [], [], [], 0, 0);
            Decodes(Write(Loaded(DEFAULT_INFO, m)), utf8) == m.(roomName := [])
  {
    EchoIsHarmless(DEFAULT_INFO, Message([255], [65], [], [], [], 0, 0), utf8);
  }

  /** Each setter loads the field of its own name. */
  lemma LoadedFields(s: Bytes, c: Code, utf8: Bytes -> bool)
    requires 0 < |s| < 128 && 0 < c < 128 && utf8(s)
    ensures Decodes(ShortText(10, s), utf8) == Message(s, [], [], [], [], 0, 0)
    ensures Decodes(ShortText(18, s), utf8) == Message([], s, [], [], [], 0, 0)
    ensures Decodes(ShortText(26, s), utf8) == Message([], [], s, [], [], 0, 0)
    ensures Decodes(ShortText(34, s), utf8) == Message([], [], [], s, [], 0, 0)
    ensures Decodes(ShortText(42, s), utf8) == Message([], [], [], [], s, 0, 0)
    ensures Decodes([48, c as int], utf8) == Message([], [], [], [], [], c, 0)
    ensures Decodes([56, c as int], utf8) == Message([], [], [], [], [], 0, c)
  {
    FieldNumbers(s, c);
    EchoIsHarmless(DEFAULT_INFO, Message(s, [], [], [], [], 0, 0), utf8);
    EchoIsHarmless(DEFAULT_INFO, Message([], s, [], [], [], 0, 0), utf8);
    EchoIsHarmless(DEFAULT_INFO, Message([], [], s, [], [], 0, 0), utf8);
    EchoIsHarmless(DEFAULT_INFO, Message([], [], [], s, [], 0, 0), utf8);
    EchoIsHarmless(DEFAULT_INFO, Message([], [], [], [], s, 0, 0), utf8);
    EchoIsHarmless(DEFAULT_INFO, Message([], [], [], [], [], c, 0), utf8);
    EchoIsHarmless(DEFAULT_INFO, Message([], [], [], [], [], 0, c), utf8);
  }

  class Codec {
    var msg: Bytes
    const obj: Information

    constructor FromBytes(b: Bytes, utf8: Bytes -> bool)
      ensures msg == b && fresh(obj) && obj.View() == DEFAULT_INFO && obj.utf8 == utf8
    {
      msg := [];
      obj := new Information(utf8);
      new;
      ReloadBytes(b);
    }

    constructor FromMessage(m: Message, utf8: Bytes -> bool)
      ensures fresh(obj) && obj.View() == Loaded(DEFAULT_INFO, m) && obj.utf8 == utf8
    {
      msg := [];
      obj := new Information(utf8);
      new;
      ReloadMessage(m);
    }

    method ReloadBytes(b: Bytes)
      modifies this
      ensures msg == b
    {
      msg := b;
    }

    method ReloadMessage(m: Message)
      modifies obj
      ensures obj.View() == Loaded(old(obj.View()), m)
    {
      obj.userName := m.userName;
      obj.roomName := m.roomName;
      obj.data1 := m.data1;
      obj.data2 := m.data2;
      obj.data3 := m.data3;
      obj.reqcode := m.reqcode;
      obj.rescode := m.rescode;
    }

    method EncodeMsg() returns (b: Bytes)
      modifies this
      ensures b == msg == Write(obj.View())
    {
      msg := obj.InternalSerialize([]);
      NoPrefix(Write(obj.View()));
      b := msg;
    }

    /** The result of the parse is not looked at: after a failure the fields read so far are used. */
    method DecodeMsg() returns (m: Message)
      modifies obj
      ensures WellFormed(obj.View()) && m == MessageOf(obj.View())
      ensures match Parse(DEFAULT_INFO, msg, obj.utf8)
              case Some(a) => obj.View() == a
              case None => obj.LeftBy(DEFAULT_INFO, msg)
      ensures CutShort(DEFAULT_INFO, msg, obj.utf8) || m == Decodes(msg, obj.utf8)
    {
      if Parse(DEFAULT_INFO, msg, obj.utf8).Some? {
        ParseHolds(DEFAULT_INFO, msg, obj.utf8);
      }
      var ok := obj.ParseFromString(msg);
      m := MessageOf(obj.View());
    }
  }

  /** The codec's part in serving a request: decode whatever bytes came in, then reuse the same object
      for the answer. The peer reads the answer up to its first invalid text, even after a request that did
      not parse. */
  method Answer(request: Bytes, answer: Message, utf8: Bytes -> bool) returns (asked: Message, reply: Bytes)
    requires Sendable(answer)
    ensures CutShort(DEFAULT_INFO, request, utf8) || asked == Decodes(request, utf8)
    ensures var a := Loaded(DEFAULT_INFO, answer);
            && !CutShort(DEFAULT_INFO, reply, utf8)
            && Decodes(reply, utf8) == MessageOf(UpTo(a, FirstInvalid(a, utf8)))
            && (Decodes(reply, utf8) == answer <==> NothingBehind(a, utf8))
            && (Parse(DEFAULT_INFO, request, utf8).Some? && Parse(DEFAULT_INFO, reply, utf8).Some? ==>
                  Parse(DEFAULT_INFO, reply, utf8).value.unknown == Parse(DEFAULT_INFO, request, utf8).value.unknown)
  {
    var codec := new Codec.FromBytes(request, utf8);
    asked := codec.DecodeMsg();
    EchoIsHarmless(codec.obj.View(), answer, utf8);
    codec.ReloadMessage(answer);
    reply := codec.EncodeMsg();
  }
}
