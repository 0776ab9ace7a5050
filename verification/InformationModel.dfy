/** The `Information` message as a value: serialiser, parser and merge, and how they fit together.
    `utf8` is any validity check for text fields. */
module InformationModel {
  import opened Wire

  datatype Info = Info(
    userName: Bytes, roomName: Bytes, data1: Bytes, data2: Bytes, data3: Bytes,
    reqcode: Code, rescode: Code, unknown: seq<Field>)
  {
    function SetText(number: nat, s: Bytes): Info {
      match number
      case 1 => this.(userName := s)
      case 2 => this.(roomName := s)
      case 3 => this.(data1 := s)
      case 4 => this.(data2 := s)
      case 5 => this.(data3 := s)
      case _ => this
    }

    /** As SetText, but a default does not overwrite. */
    function PutText(number: nat, s: Bytes): Info {
      if s == [] then this else SetText(number, s)
    }

    function SetCode(number: nat, c: Code): Info {
      match number
      case 6 => this.(reqcode := c)
      case 7 => this.(rescode := c)
      case _ => this
    }

    function AddUnknown(fields: seq<Field>): Info {
      this.(unknown := unknown + fields)
    }
  }

  const DEFAULT_INFO: Info := Info([], [], [], [], [], 0, 0, [])

  // ----- serialising -----

  function WriteText(number: nat, s: Bytes): Bytes {
    if s == [] then [] else Tag(number, 2) + Delimited(s)
  }

  function WriteCode(number: nat, c: Code): Bytes {
    if c == 0 then [] else Tag(number, 0) + Varint(CodeToVarint(c))
  }

  function Write(m: Info): Bytes {
    WriteText(1, m.userName) + (WriteText(2, m.roomName) + (WriteText(3, m.data1) +
    (WriteText(4, m.data2) + (WriteText(5, m.data3) +
    (WriteCode(6, m.reqcode) + (WriteCode(7, m.rescode) + WriteFields(m.unknown)))))))
  }

  // ----- parsing -----

  predicate IsTextTag(tag: nat) {
    tag == 10 || tag == 18 || tag == 26 || tag == 34 || tag == 42
  }

  predicate IsCodeTag(tag: nat) {
    tag == 48 || tag == 56
  }

  /** One round of the parse loop: the message with one more field, and the bytes left. */
  function Step(m: Info, b: Bytes, utf8: Bytes -> bool): (r: Option<(Info, Bytes)>)
    ensures r.Some? ==> |r.value.1| < |b|
  {
    match ReadTag(b)
    case None => None
    case Some((tag, rest)) =>
      if IsTextTag(tag) then
        (match ReadDelimited(rest)
         case None => None
         case Some((s, rest')) => if utf8(s) then Some((m.SetText(tag / 8, s), rest')) else None)
      else if IsCodeTag(tag) then
        (match ReadWide(rest)
         case None => None
         case Some((v, rest')) => Some((m.SetCode(tag / 8, VarintToCode(v)), rest')))
      else if tag == 0 || tag % 8 == 4 then
        None
      else
        (match ParseField(tag, rest, RECURSION_LIMIT)
         case None => None
         case Some((f, rest')) => Some((m.AddUnknown([f]), rest')))
  }

  /** Merges every field of `b` into `m`; None is a failed parse. */
  function Parse(m: Info, b: Bytes, utf8: Bytes -> bool): Option<Info>
    decreases |b|
  {
    if b == [] then Some(m)
    else
      match Step(m, b, utf8)
      case None => None
      case Some((m', rest)) => Parse(m', rest, utf8)
  }

  /** Where a parse comes to its end or to a step that fails: the message so far and the bytes there. */
  function Stop(m: Info, b: Bytes, utf8: Bytes -> bool): (Info, Bytes)
    decreases |b|
  {
    if b == [] then (m, b)
    else
      match Step(m, b, utf8)
      case None => (m, b)
      case Some((m', rest)) => Stop(m', rest, utf8)
  }

  /** A text field at the front whose size or content is not all there. */
  predicate TextCutShort(b: Bytes) {
    match ReadTag(b)
    case None => false
    case Some((tag, rest)) => IsTextTag(tag) && ReadDelimited(rest).None?
  }

  /** What a failing step leaves: a whole text is stored before it is found to be invalid. */
  function Leaves(m: Info, b: Bytes): Info {
    match ReadTag(b)
    case None => m
    case Some((tag, rest)) =>
      if IsTextTag(tag) && ReadDelimited(rest).Some?
      then m.SetText(tag / 8, ReadDelimited(rest).value.0)
      else m
  }

  /** What the parse loop leaves in the object, whether or not it succeeds. */
  function Held(m: Info, b: Bytes, utf8: Bytes -> bool): Info {
    var (m', at) := Stop(m, b, utf8);
    Leaves(m', at)
  }

  /** The loop ends inside a text. */
  predicate CutShort(m: Info, b: Bytes, utf8: Bytes -> bool) {
    TextCutShort(Stop(m, b, utf8).1)
  }

  /** The number of the text that the loop ends inside. */
  function CutNumber(m: Info, b: Bytes, utf8: Bytes -> bool): nat
    requires CutShort(m, b, utf8)
  {
    ReadTag(Stop(m, b, utf8).1).value.0 / 8
  }

  // ----- merging -----

  function MergeText(to: Bytes, from: Bytes): Bytes {
    if from == [] then to else from
  }

  function MergeCode(to: Code, from: Code): Code {
    if from == 0 then to else from
  }

  /** The later message wins field by field, except where it has the default; unknown fields add up. */
  function Merge(to: Info, from: Info): Info {
    Info(MergeText(to.userName, from.userName), MergeText(to.roomName, from.roomName),
         MergeText(to.data1, from.data1), MergeText(to.data2, from.data2), MergeText(to.data3, from.data3),
         MergeCode(to.reqcode, from.reqcode), MergeCode(to.rescode, from.rescode),
         to.unknown + from.unknown)
  }

  // ----- what can be represented -----

  /** A field the parse loop passes on as unknown: any number, but not a known one with its own type. */
  predicate Unknown(f: Field) {
    && FieldOk(f, RECURSION_LIMIT)
    && !IsTextTag(8 * f.number + WireType(f)) && !IsCodeTag(8 * f.number + WireType(f))
  }

  predicate WellFormed(m: Info) {
    && |m.userName| <= MAX_SIZE && |m.roomName| <= MAX_SIZE && |m.data1| <= MAX_SIZE
    && |m.data2| <= MAX_SIZE && |m.data3| <= MAX_SIZE
    && forall f <- m.unknown :: Unknown(f)
  }

  predicate TextOk(s: Bytes, utf8: Bytes -> bool) {
    s == [] || utf8(s)
  }

  predicate TextsOk(m: Info, utf8: Bytes -> bool) {
    && TextOk(m.userName, utf8) && TextOk(m.roomName, utf8) && TextOk(m.data1, utf8)
    && TextOk(m.data2, utf8) && TextOk(m.data3, utf8)
  }

  /** A short text as it is on the wire. */
  function ShortText(tag: Byte, s: Bytes): Bytes
    requires |s| < 128
  {
    [tag, |s|] + s
  }

  /** The schema: which field has which number and wire type. */
  lemma FieldNumbers(s: Bytes, c: Code)
    requires 0 < |s| < 128 && 0 < c < 128
    ensures Write(DEFAULT_INFO.(userName := s)) == ShortText(10, s)
    ensures Write(DEFAULT_INFO.(roomName := s)) == ShortText(18, s)
    ensures Write(DEFAULT_INFO.(data1 := s)) == ShortText(26, s)
    ensures Write(DEFAULT_INFO.(data2 := s)) == ShortText(34, s)
    ensures Write(DEFAULT_INFO.(data3 := s)) == ShortText(42, s)
    ensures Write(DEFAULT_INFO.(reqcode := c)) == [48, c as int]
    ensures Write(DEFAULT_INFO.(rescode := c)) == [56, c as int]
  {
  }

  // ----- parsing what was serialised -----

  lemma TextStep(m: Info, number: nat, s: Bytes, b: Bytes, payload: Bytes, rest: Bytes, utf8: Bytes -> bool)
    requires 1 <= number <= 5
    requires ReadTag(b) == Some((8 * number + 2, payload)) && ReadDelimited(payload) == Some((s, rest))
    ensures Step(m, b, utf8) == if utf8(s) then Some((m.SetText(number, s), rest)) else None
    ensures b != []
  {
    TagParts(number, 2);
  }

  lemma ParseText(m: Info, number: nat, s: Bytes, rest: Bytes, utf8: Bytes -> bool)
    requires 1 <= number <= 5 && |s| <= MAX_SIZE
    ensures Parse(m, WriteText(number, s) + rest, utf8)
            == if TextOk(s, utf8) then Parse(m.PutText(number, s), rest, utf8) else None
  {
    if s == [] {
      NoPrefix(rest);
    } else {
      Regroup(Tag(number, 2), Delimited(s), rest);
      TagRead(number, 2, Delimited(s) + rest);
      DelimitedRead(s, rest);
      TextStep(m, number, s, WriteText(number, s) + rest, Delimited(s) + rest, rest, utf8);
    }
  }

  lemma CodeStep(m: Info, number: nat, c: Code, b: Bytes, payload: Bytes, rest: Bytes, utf8: Bytes -> bool)
    requires 6 <= number <= 7
    requires ReadTag(b) == Some((8 * number, payload)) && ReadWide(payload) == Some((CodeToVarint(c), rest))
    ensures Step(m, b, utf8) == Some((m.SetCode(number, c), rest))
    ensures b != []
  {
    CodeRoundTrip(c);
  }

  lemma ParseCode(m: Info, number: nat, c: Code, rest: Bytes, utf8: Bytes -> bool)
    requires 6 <= number <= 7
    ensures Parse(m, WriteCode(number, c) + rest, utf8)
            == Parse(if c == 0 then m else m.SetCode(number, c), rest, utf8)
  {
    if c == 0 {
      NoPrefix(rest);
    } else {
      var v := CodeToVarint(c);
      Regroup(Tag(number, 0), Varint(v), rest);
      TagRead(number, 0, Varint(v) + rest);
      CodeRoundTrip(c);
      WideRead(v, rest);
      CodeStep(m, number, c, WriteCode(number, c) + rest, Varint(v) + rest, rest, utf8);
    }
  }

  lemma UnknownStep(m: Info, f: Field, b: Bytes, payload: Bytes, rest: Bytes, utf8: Bytes -> bool)
    requires Unknown(f)
    requires ReadTag(b) == Some((8 * f.number + WireType(f), payload))
    requires ParseField(8 * f.number + WireType(f), payload, RECURSION_LIMIT) == Some((f, rest))
    ensures Step(m, b, utf8) == Some((m.AddUnknown([f]), rest))
    ensures b != []
  {
    TagParts(f.number, WireType(f));
  }

  lemma ParseOneUnknown(m: Info, f: Field, rest: Bytes, utf8: Bytes -> bool)
    requires Unknown(f)
    ensures Parse(m, WriteField(f) + rest, utf8) == Parse(m.AddUnknown([f]), rest, utf8)
  {
    Regroup(Tag(f.number, WireType(f)), Payload(f), rest);
    TagRead(f.number, WireType(f), Payload(f) + rest);
    FieldRoundTrip(f, RECURSION_LIMIT, rest);
    UnknownStep(m, f, WriteField(f) + rest, Payload(f) + rest, rest, utf8);
  }

  lemma AddUnknownTwice(m: Info, f: Field, fields: seq<Field>)
    requires fields != [] && f == fields[0]
    ensures m.AddUnknown([f]).AddUnknown(fields[1..]) == m.AddUnknown(fields)
  {
    assert m.unknown + [f] + fields[1..] == m.unknown + fields;
  }

  lemma {:induction false} ParseUnknowns(m: Info, fields: seq<Field>, rest: Bytes, utf8: Bytes -> bool)
    requires forall f <- fields :: Unknown(f)
    ensures Parse(m, WriteFields(fields) + rest, utf8) == Parse(m.AddUnknown(fields), rest, utf8)
    decreases |fields|
  {
    if fields == [] {
      NoPrefix(rest);
      assert m.AddUnknown([]) == m;
    } else {
      var f, others := fields[0], fields[1..];
      Regroup(WriteField(f), WriteFields(others), rest);
      ParseOneUnknown(m, f, WriteFields(others) + rest, utf8);
      ParseUnknowns(m.AddUnknown([f]), others, rest, utf8);
      AddUnknownTwice(m, f, fields);
    }
  }

  function MergeTexts(to: Info, from: Info): Info {
    var m1 := to.PutText(1, from.userName);
    var m2 := m1.PutText(2, from.roomName);
    var m3 := m2.PutText(3, from.data1);
    var m4 := m3.PutText(4, from.data2);
    m4.PutText(5, from.data3)
  }

  lemma ParseTexts(m: Info, a: Info, rest: Bytes, utf8: Bytes -> bool)
    requires WellFormed(a)
    ensures Parse(m, WriteText(1, a.userName) + (WriteText(2, a.roomName) + (WriteText(3, a.data1) +
                     (WriteText(4, a.data2) + (WriteText(5, a.data3) + rest)))), utf8)
            == if TextsOk(a, utf8) then Parse(MergeTexts(m, a), rest, utf8) else None
  {
    var b5 := WriteText(5, a.data3) + rest;
    var b4 := WriteText(4, a.data2) + b5;
    var b3 := WriteText(3, a.data1) + b4;
    var b2 := WriteText(2, a.roomName) + b3;
    var m1 := m.PutText(1, a.userName);
    var m2 := m1.PutText(2, a.roomName);
    var m3 := m2.PutText(3, a.data1);
    var m4 := m3.PutText(4, a.data2);
    ParseText(m, 1, a.userName, b2, utf8);
    ParseText(m1, 2, a.roomName, b3, utf8);
    ParseText(m2, 3, a.data1, b4, utf8);
    ParseText(m3, 4, a.data2, b5, utf8);
    ParseText(m4, 5, a.data3, rest, utf8);
  }

  lemma MergeInSteps(m: Info, a: Info)
    ensures MergeTexts(m, a)
              .(reqcode := MergeCode(m.reqcode, a.reqcode), rescode := MergeCode(m.rescode, a.rescode),
                unknown := m.unknown + a.unknown)
            == Merge(m, a)
  {
  }

  lemma ParseCodes(m: Info, a: Info, rest: Bytes, utf8: Bytes -> bool)
    requires WellFormed(a)
    ensures Parse(m, WriteCode(6, a.reqcode) + (WriteCode(7, a.rescode) + (WriteFields(a.unknown) + rest)), utf8)
            == Parse(m.(reqcode := MergeCode(m.reqcode, a.reqcode), rescode := MergeCode(m.rescode, a.rescode),
                        unknown := m.unknown + a.unknown), rest, utf8)
  {
    var b7 := WriteFields(a.unknown) + rest;
    var m6 := m.(reqcode := MergeCode(m.reqcode, a.reqcode));
    var m7 := m6.(rescode := MergeCode(m.rescode, a.rescode));
    ParseCode(m, 6, a.reqcode, WriteCode(7, a.rescode) + b7, utf8);
    ParseCode(m6, 7, a.rescode, b7, utf8);
    ParseUnknowns(m7, a.unknown, rest, utf8);
  }

  lemma WriteSplit(a: Info, rest: Bytes)
    ensures Write(a) + rest
            == WriteText(1, a.userName) + (WriteText(2, a.roomName) + (WriteText(3, a.data1) +
               (WriteText(4, a.data2) + (WriteText(5, a.data3) +
               (WriteCode(6, a.reqcode) + (WriteCode(7, a.rescode) + (WriteFields(a.unknown) + rest)))))))
  {
    var w7 := WriteCode(7, a.rescode) + WriteFields(a.unknown);
    var w6 := WriteCode(6, a.reqcode) + w7;
    var w5 := WriteText(5, a.data3) + w6;
    var w4 := WriteText(4, a.data2) + w5;
    var w3 := WriteText(3, a.data1) + w4;
    var w2 := WriteText(2, a.roomName) + w3;
    Regroup(WriteText(1, a.userName), w2, rest);
    Regroup(WriteText(2, a.roomName), w3, rest);
    Regroup(WriteText(3, a.data1), w4, rest);
    Regroup(WriteText(4, a.data2), w5, rest);
    Regroup(WriteText(5, a.data3), w6, rest);
    Regroup(WriteCode(6, a.reqcode), w7, rest);
    Regroup(WriteCode(7, a.rescode), WriteFields(a.unknown), rest);
  }

  /** A serialised message in front of other bytes is merged, or the parse fails on invalid text. */
  lemma ParseWritten(m: Info, a: Info, rest: Bytes, utf8: Bytes -> bool)
    requires WellFormed(a)
    ensures Parse(m, Write(a) + rest, utf8)
            == if TextsOk(a, utf8) then Parse(Merge(m, a), rest, utf8) else None
  {
    var tail := WriteCode(6, a.reqcode) + (WriteCode(7, a.rescode) + (WriteFields(a.unknown) + rest));
    WriteSplit(a, rest);
    ParseTexts(m, a, tail, utf8);
    ParseCodes(MergeTexts(m, a), a, rest, utf8);
    MergeInSteps(m, a);
  }

  lemma MergeDefault(a: Info)
    ensures Merge(DEFAULT_INFO, a) == a && Merge(a, DEFAULT_INFO) == a
  {
  }

  /** Parsing a serialised message gives the message back exactly when its nonempty texts are valid. */
  lemma RoundTrip(a: Info, utf8: Bytes -> bool)
    requires WellFormed(a)
    ensures Parse(DEFAULT_INFO, Write(a), utf8) == if TextsOk(a, utf8) then Some(a) else None
  {
    ParseWritten(DEFAULT_INFO, a, [], utf8);
    MergeDefault(a);
    NoPrefix(Write(a));
  }

  // ----- concatenation is merging -----

  lemma StepAppend(m: Info, b: Bytes, more: Bytes, utf8: Bytes -> bool)
    requires Step(m, b, utf8).Some?
    ensures Step(m, b + more, utf8) == Some((Step(m, b, utf8).value.0, Step(m, b, utf8).value.1 + more))
  {
    ReadTagAppend(b, more);
    var (tag, rest) := ReadTag(b).value;
    if IsTextTag(tag) {
      ReadDelimitedAppend(rest, more);
    } else if IsCodeTag(tag) {
      ReadWideAppend(rest, more);
    } else {
      ParseFieldAppend(tag, rest, RECURSION_LIMIT, more);
    }
  }

  /** Parsing goes on where it stopped when more bytes arrive after a complete message. */
  lemma {:induction false} ParseAppend(m: Info, b: Bytes, more: Bytes, utf8: Bytes -> bool)
    requires Parse(m, b, utf8).Some?
    ensures Parse(m, b + more, utf8) == Parse(Parse(m, b, utf8).value, more, utf8)
    decreases |b|
  {
    if b == [] {
      NoPrefix(more);
    } else {
      StepAppend(m, b, more, utf8);
      var (m', rest) := Step(m, b, utf8).value;
      ParseAppend(m', rest, more, utf8);
    }
  }

  /** Any accepted bytes, canonical or not, followed by a serialised message parse to their merge. */
  lemma ConcatenationMerges(b: Bytes, a: Info, utf8: Bytes -> bool)
    requires Parse(DEFAULT_INFO, b, utf8).Some? && WellFormed(a)
    ensures Parse(DEFAULT_INFO, b + Write(a), utf8)
            == if TextsOk(a, utf8) then Some(Merge(Parse(DEFAULT_INFO, b, utf8).value, a)) else None
  {
    ParseAppend(DEFAULT_INFO, b, Write(a), utf8);
    ParseWritten(Parse(DEFAULT_INFO, b, utf8).value, a, [], utf8);
    NoPrefix(Write(a));
  }

  lemma TwoMessagesMerge(a1: Info, a2: Info, utf8: Bytes -> bool)
    requires WellFormed(a1) && WellFormed(a2) && TextsOk(a1, utf8)
    ensures Parse(DEFAULT_INFO, Write(a1) + Write(a2), utf8)
            == if TextsOk(a2, utf8) then Some(Merge(a1, a2)) else None
  {
    RoundTrip(a1, utf8);
    ConcatenationMerges(Write(a1), a2, utf8);
  }

  /** For bytes not serialised by this code: an explicit empty text on the wire overwrites, while a merge
      would skip it. */
  lemma ExplicitDefaultOverwrites(utf8: Bytes -> bool)
    requires utf8([]) && utf8([65])
    ensures var a := DEFAULT_INFO.(userName := [65]);
            && Parse(DEFAULT_INFO, [10, 0], utf8) == Some(DEFAULT_INFO)
            && Parse(DEFAULT_INFO, Write(a) + [10, 0], utf8) == Some(DEFAULT_INFO)
            && Merge(a, DEFAULT_INFO) == a != DEFAULT_INFO
  {
    var a := DEFAULT_INFO.(userName := [65]);
    RoundTrip(a, utf8);
    ParseAppend(DEFAULT_INFO, Write(a), [10, 0], utf8);
    forall m: Info
      ensures Parse(m, [10, 0], utf8) == Parse(m.(userName := []), [], utf8)
    {
      EmptyText(m, utf8);
    }
  }

  lemma EmptyText(m: Info, utf8: Bytes -> bool)
    requires utf8([])
    ensures Parse(m, [10, 0], utf8) == Parse(m.(userName := []), [], utf8)
  {
    var b: Bytes := [10, 0];
    var rest: Bytes := [0];
    assert b[1..] == rest;
    assert ReadVarint(b, 5) == Some((10, rest));
    assert ReadTag(b) == Some((10, rest));
    assert rest[1..] == [];
    assert ReadVarint(rest, 5) == Some((0, []));
    assert ReadDelimited(rest) == Some(([], []));
    assert Step(m, b, utf8) == Some((m.SetText(1, []), []));
  }

  // ----- what a reader that ignores failure sees -----

  lemma {:induction false} ParseHolds(m: Info, b: Bytes, utf8: Bytes -> bool)
    requires Parse(m, b, utf8).Some?
    ensures Held(m, b, utf8) == Parse(m, b, utf8).value && !CutShort(m, b, utf8)
    decreases |b|
  {
    if b != [] {
      var (m', rest) := Step(m, b, utf8).value;
      ParseHolds(m', rest, utf8);
    }
  }

  /** A valid text is read over; an invalid one is stored and ends the loop. */
  lemma HeldText(m: Info, number: nat, s: Bytes, rest: Bytes, utf8: Bytes -> bool)
    requires 1 <= number <= 5 && |s| <= MAX_SIZE
    ensures Held(m, WriteText(number, s) + rest, utf8)
            == if TextOk(s, utf8) then Held(m.PutText(number, s), rest, utf8) else m.SetText(number, s)
    ensures CutShort(m, WriteText(number, s) + rest, utf8)
            <==> TextOk(s, utf8) && CutShort(m.PutText(number, s), rest, utf8)
  {
    if s == [] {
      NoPrefix(rest);
    } else {
      Regroup(Tag(number, 2), Delimited(s), rest);
      TagRead(number, 2, Delimited(s) + rest);
      DelimitedRead(s, rest);
      TagParts(number, 2);
      TextStep(m, number, s, WriteText(number, s) + rest, Delimited(s) + rest, rest, utf8);
    }
  }

  /** The number of the first nonempty invalid text, or 8. */
  function FirstInvalid(a: Info, utf8: Bytes -> bool): nat {
    if !TextOk(a.userName, utf8) then 1
    else if !TextOk(a.roomName, utf8) then 2
    else if !TextOk(a.data1, utf8) then 3
    else if !TextOk(a.data2, utf8) then 4
    else if !TextOk(a.data3, utf8) then 5
    else 8
  }

  /** The known fields up to a number, defaults behind it. */
  function UpTo(a: Info, number: nat): Info {
    Info(if number >= 1 then a.userName else [], if number >= 2 then a.roomName else [],
         if number >= 3 then a.data1 else [], if number >= 4 then a.data2 else [],
         if number >= 5 then a.data3 else [], if number >= 6 then a.reqcode else 0,
         if number >= 7 then a.rescode else 0, [])
  }

  /** Reading a serialised message gives its known fields up to and with the first invalid text. */
  lemma HeldWritten(a: Info, utf8: Bytes -> bool)
    requires WellFormed(a)
    ensures !CutShort(DEFAULT_INFO, Write(a), utf8)
    ensures Held(DEFAULT_INFO, Write(a), utf8).(unknown := []) == UpTo(a, FirstInvalid(a, utf8))
  {
    var b6 := WriteCode(6, a.reqcode) + (WriteCode(7, a.rescode) + (WriteFields(a.unknown) + []));
    var b5 := WriteText(5, a.data3) + b6;
    var b4 := WriteText(4, a.data2) + b5;
    var b3 := WriteText(3, a.data1) + b4;
    var b2 := WriteText(2, a.roomName) + b3;
    WriteSplit(a, []);
    NoPrefix(Write(a));
    var m1 := DEFAULT_INFO.PutText(1, a.userName);
    var m2 := m1.PutText(2, a.roomName);
    var m3 := m2.PutText(3, a.data1);
    var m4 := m3.PutText(4, a.data2);
    HeldText(DEFAULT_INFO, 1, a.userName, b2, utf8);
    HeldText(m1, 2, a.roomName, b3, utf8);
    HeldText(m2, 3, a.data1, b4, utf8);
    HeldText(m3, 4, a.data2, b5, utf8);
    HeldText(m4, 5, a.data3, b6, utf8);
    if TextsOk(a, utf8) {
      RoundTrip(a, utf8);
      ParseHolds(DEFAULT_INFO, Write(a), utf8);
    }
  }

  /** No nonempty invalid text has a known field other than its default behind it. */
  predicate NothingBehind(a: Info, utf8: Bytes -> bool) {
    forall number | FirstInvalid(a, utf8) < number <= 7 :: HasDefault(a, number)
  }

  lemma UpToIff(a: Info, utf8: Bytes -> bool)
    ensures UpTo(a, FirstInvalid(a, utf8)) == a.(unknown := []) <==> NothingBehind(a, utf8)
  {
    var n := FirstInvalid(a, utf8);
    if NothingBehind(a, utf8) {
      assert n < 2 ==> HasDefault(a, 2);
      assert n < 3 ==> HasDefault(a, 3);
      assert n < 4 ==> HasDefault(a, 4);
      assert n < 5 ==> HasDefault(a, 5);
      assert n < 6 ==> HasDefault(a, 6) && HasDefault(a, 7);
    } else {
      var number :| n < number <= 7 && !HasDefault(a, number);
    }
  }

  // ----- when parsing is merging -----

  /** The known fields that a parse of the bytes writes, by number. */
  function Touched(b: Bytes, utf8: Bytes -> bool): set<nat>
    decreases |b|
  {
    if b == [] then {}
    else
      match Step(DEFAULT_INFO, b, utf8)
      case None => {}
      case Some((_, rest)) => TouchedBy(b) + Touched(rest, utf8)
  }

  /** The known field that the first tag of the bytes names, if any. */
  function TouchedBy(b: Bytes): set<nat> {
    match ReadTag(b)
    case None => {}
    case Some((tag, _)) => if IsTextTag(tag) || IsCodeTag(tag) then {tag / 8} else {}
  }

  predicate HasDefault(m: Info, number: nat) {
    match number
    case 1 => m.userName == []
    case 2 => m.roomName == []
    case 3 => m.data1 == []
    case 4 => m.data2 == []
    case 5 => m.data3 == []
    case 6 => m.reqcode == 0
    case 7 => m.rescode == 0
    case _ => true
  }

  /** `p` in the touched fields, `m` in the others; unknown fields of both. */
  function Overlay(m: Info, p: Info, touched: set<nat>): Info {
    Info(if 1 in touched then p.userName else m.userName, if 2 in touched then p.roomName else m.roomName,
         if 3 in touched then p.data1 else m.data1, if 4 in touched then p.data2 else m.data2,
         if 5 in touched then p.data3 else m.data3, if 6 in touched then p.reqcode else m.reqcode,
         if 7 in touched then p.rescode else m.rescode, m.unknown + p.unknown)
  }

  /** A step succeeds and consumes the same whatever the message, and changes it the same way. */
  lemma StepOverlay(m: Info, b: Bytes, utf8: Bytes -> bool)
    ensures Step(m, b, utf8).Some? <==> Step(DEFAULT_INFO, b, utf8).Some?
    ensures Step(m, b, utf8).Some? ==>
              var (d, rest) := Step(DEFAULT_INFO, b, utf8).value;
              Step(m, b, utf8) == Some((Overlay(m, d, TouchedBy(b)), rest))
  {
    if Step(m, b, utf8).Some? {
      var (tag, _) := ReadTag(b).value;
      assert m.unknown + [] == m.unknown;
      assert forall f: Field :: [] + [f] == [f];
    }
  }

  lemma OverlayTwice(m: Info, d: Info, q: Info, first: set<nat>, later: set<nat>)
    ensures Overlay(Overlay(m, d, first), q, later) == Overlay(m, Overlay(d, q, later), first + later)
  {
  }

  /** A parse into `m` is the parse from defaults laid over `m` in the touched fields. */
  lemma {:induction false} ParseOverlays(m: Info, b: Bytes, utf8: Bytes -> bool)
    ensures Parse(m, b, utf8)
            == match Parse(DEFAULT_INFO, b, utf8)
               case None => None
               case Some(p) => Some(Overlay(m, p, Touched(b, utf8)))
    decreases |b|
  {
    if b == [] {
      assert Overlay(m, DEFAULT_INFO, {}) == m;
    } else if Step(m, b, utf8).Some? {
      StepOverlay(m, b, utf8);
      var (d, rest) := Step(DEFAULT_INFO, b, utf8).value;
      ParseOverlays(d, rest, utf8);
      ParseOverlays(Overlay(m, d, TouchedBy(b)), rest, utf8);
      if Parse(DEFAULT_INFO, rest, utf8).Some? {
        var q := Parse(DEFAULT_INFO, rest, utf8).value;
        OverlayTwice(m, d, q, TouchedBy(b), Touched(rest, utf8));
      }
    } else {
      StepOverlay(m, b, utf8);
    }
  }

  lemma OverlayIsMergeIff(m: Info, p: Info, touched: set<nat>)
    requires p == Overlay(DEFAULT_INFO, p, touched)
    ensures Overlay(m, p, touched) == Merge(m, p)
            <==> forall f <- touched :: HasDefault(p, f) ==> HasDefault(m, f)
  {
    if forall f <- touched :: HasDefault(p, f) ==> HasDefault(m, f) {
      assert Overlay(m, p, touched).unknown == Merge(m, p).unknown;
    } else {
      var f :| f in touched && HasDefault(p, f) && !HasDefault(m, f);
      assert 1 <= f <= 7;
    }
  }

  /** For any accepted bytes: parsing them into a message is merging what they say exactly when every
      field they write either ends with a value or had none in the message. */
  lemma ParseIsMergeIff(m: Info, b: Bytes, utf8: Bytes -> bool)
    requires Parse(DEFAULT_INFO, b, utf8).Some?
    ensures var p := Parse(DEFAULT_INFO, b, utf8).value;
            Parse(m, b, utf8) == Some(Merge(m, p))
            <==> forall f <- Touched(b, utf8) :: HasDefault(p, f) ==> HasDefault(m, f)
  {
    ParseOverlays(m, b, utf8);
    ParseOverlays(DEFAULT_INFO, b, utf8);
    var p := Parse(DEFAULT_INFO, b, utf8).value;
    assert Overlay(DEFAULT_INFO, p, Touched(b, utf8)).unknown == p.unknown;
    OverlayIsMergeIff(m, p, Touched(b, utf8));
  }

  /** The same for two accepted byte strings in a row. */
  lemma ConcatenationMergesIff(b1: Bytes, b2: Bytes, utf8: Bytes -> bool)
    requires Parse(DEFAULT_INFO, b1, utf8).Some? && Parse(DEFAULT_INFO, b2, utf8).Some?
    ensures var p1 := Parse(DEFAULT_INFO, b1, utf8).value;
            var p2 := Parse(DEFAULT_INFO, b2, utf8).value;
            Parse(DEFAULT_INFO, b1 + b2, utf8) == Some(Merge(p1, p2))
            <==> forall f <- Touched(b2, utf8) :: HasDefault(p2, f) ==> HasDefault(p1, f)
  {
    ParseAppend(DEFAULT_INFO, b1, b2, utf8);
    ParseIsMergeIff(Parse(DEFAULT_INFO, b1, utf8).value, b2, utf8);
  }

  // ----- parsing gives well-formed messages -----

  lemma StepWellFormed(m: Info, b: Bytes, utf8: Bytes -> bool)
    requires WellFormed(m) && Step(m, b, utf8).Some?
    ensures WellFormed(Step(m, b, utf8).value.0)
  {
    var (tag, rest) := ReadTag(b).value;
    if !IsTextTag(tag) && !IsCodeTag(tag) {
      ParsedFieldOk(tag, rest, RECURSION_LIMIT);
      var f := ParseField(tag, rest, RECURSION_LIMIT).value.0;
      assert 8 * f.number + WireType(f) == tag;
      assert Unknown(f);
    }
  }

  lemma SetTextOk(m: Info, number: nat, s: Bytes, utf8: Bytes -> bool)
    requires TextsOk(m, utf8) && utf8(s)
    ensures TextsOk(m.SetText(number, s), utf8)
  {
  }

  lemma StepTextsOk(m: Info, b: Bytes, utf8: Bytes -> bool)
    requires TextsOk(m, utf8) && Step(m, b, utf8).Some?
    ensures TextsOk(Step(m, b, utf8).value.0, utf8)
  {
    var (tag, rest) := ReadTag(b).value;
    if IsTextTag(tag) {
      var s := ReadDelimited(rest).value.0;
      SetTextOk(m, tag / 8, s, utf8);
      assert Step(m, b, utf8).value.0 == m.SetText(tag / 8, s);
    }
  }

  lemma {:induction false} ParseWellFormed(m: Info, b: Bytes, utf8: Bytes -> bool)
    requires WellFormed(m) && TextsOk(m, utf8) && Parse(m, b, utf8).Some?
    ensures WellFormed(Parse(m, b, utf8).value) && TextsOk(Parse(m, b, utf8).value, utf8)
    decreases |b|
  {
    if b != [] {
      StepWellFormed(m, b, utf8);
      StepTextsOk(m, b, utf8);
      var (m', rest) := Step(m, b, utf8).value;
      ParseWellFormed(m', rest, utf8);
    }
  }

  /** Serialising a parsed message normalises the bytes without changing what they mean. */
  lemma Normalise(b: Bytes, utf8: Bytes -> bool)
    requires Parse(DEFAULT_INFO, b, utf8).Some?
    ensures var a := Parse(DEFAULT_INFO, b, utf8).value;
            Parse(DEFAULT_INFO, Write(a), utf8) == Some(a)
  {
    ParseWellFormed(DEFAULT_INFO, b, utf8);
    RoundTrip(Parse(DEFAULT_INFO, b, utf8).value, utf8);
  }
}
