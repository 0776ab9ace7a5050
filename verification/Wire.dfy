/** The protobuf wire primitives: base-128 varints, tags, sizes, and fields the schema does not know,
    groups included. */
module Wire {
  type Byte = x: int | 0 <= x < 256
  type Bytes = seq<Byte>

  datatype Option<+T> = None | Some(value: T)

  const TWO_32: nat := 0x1_0000_0000
  const TWO_64: nat := 0x1_0000_0000_0000_0000

  /** `ReadSize` refuses sizes above INT_MAX minus the 16 slop bytes of the parse buffer. */
  const MAX_SIZE: nat := 0x7fff_ffff - 16

  /** Nesting allowed by the parse context for groups. */
  const RECURSION_LIMIT: nat := 100

  lemma Regroup(a: Bytes, b: Bytes, c: Bytes)
    ensures (a + b) + c == a + (b + c)
  {
  }

  lemma NoPrefix(b: Bytes)
    ensures [] + b == b && b + [] == b
  {
  }

  // ----- varints -----

  function Varint(v: nat): Bytes {
    if v < 128 then [v] else [128 + v % 128] + Varint(v / 128)
  }

  /** Reads at most `max` bytes; the value is not yet reduced to its width. */
  function ReadVarint(b: Bytes, max: nat): (r: Option<(nat, Bytes)>)
    ensures r.Some? ==> |r.value.1| < |b|
  {
    if b == [] || max == 0 then None
    else if b[0] < 128 then Some((b[0], b[1..]))
    else
      match ReadVarint(b[1..], max - 1)
      case None => None
      case Some((v, rest)) => Some((b[0] - 128 + 128 * v, rest))
  }

  function Pow128(n: nat): nat {
    if n == 0 then 1 else 128 * Pow128(n - 1)
  }

  lemma {:induction false} VarintRead(v: nat, max: nat, rest: Bytes)
    requires max > 0 && v < Pow128(max)
    ensures ReadVarint(Varint(v) + rest, max) == Some((v, rest))
  {
    var b := Varint(v) + rest;
    if v < 128 {
      assert b[1..] == rest;
    } else {
      assert b[1..] == Varint(v / 128) + rest;
      VarintRead(v / 128, max - 1, rest);
    }
  }

  /** Base 128 with the low digits first; every byte but the last has its top bit set. */
  function LittleEndian128(b: Bytes): nat {
    if b == [] then 0 else b[0] % 128 + 128 * LittleEndian128(b[1..])
  }

  lemma {:induction false} VarintBytes(v: nat)
    ensures var b := Varint(v);
            && b != [] && LittleEndian128(b) == v
            && (forall i :: 0 <= i < |b| ==> (b[i] >= 128 <==> i < |b| - 1))
            && (|b| > 1 ==> b[|b| - 1] != 0)
  {
    var b := Varint(v);
    if v >= 128 {
      VarintBytes(v / 128);
      assert b[1..] == Varint(v / 128);
      assert forall i :: 0 < i < |b| ==> b[i] == b[1..][i - 1];
    } else {
      assert b[1..] == [];
    }
  }

  lemma Widths()
    ensures Pow128(5) == 0x8_0000_0000 && Pow128(10) == 0x40_0000_0000_0000_0000
  {
    assert Pow128(2) == 0x4000;
    assert Pow128(4) == 0x1000_0000;
    assert Pow128(6) == 0x400_0000_0000;
    assert Pow128(8) == 0x100_0000_0000_0000;
  }

  lemma VarintRead32(v: nat, rest: Bytes)
    requires v < TWO_32
    ensures ReadVarint(Varint(v) + rest, 5) == Some((v, rest))
  {
    Widths();
    VarintRead(v, 5, rest);
  }

  lemma VarintRead64(v: nat, rest: Bytes)
    requires v < TWO_64
    ensures ReadVarint(Varint(v) + rest, 10) == Some((v, rest))
  {
    Widths();
    VarintRead(v, 10, rest);
  }

  /** What was read stays read when more bytes follow. */
  lemma {:induction false} ReadVarintAppend(b: Bytes, max: nat, more: Bytes)
    requires ReadVarint(b, max).Some?
    ensures ReadVarint(b + more, max) == Some((ReadVarint(b, max).value.0, ReadVarint(b, max).value.1 + more))
  {
    assert (b + more)[1..] == b[1..] + more;
    if b[0] >= 128 {
      ReadVarintAppend(b[1..], max - 1, more);
    }
  }

  // ----- the sizes that ByteSizeLong adds up -----

  /** Bytes of a varint, by comparison with the powers of 128. */
  function VarintSize(v: nat): nat {
    if v < 0x80 then 1
    else if v < 0x4000 then 2
    else if v < 0x20_0000 then 3
    else if v < 0x1000_0000 then 4
    else 5
  }

  lemma VarintLength(v: nat)
    requires v < TWO_32
    ensures |Varint(v)| == VarintSize(v)
  {
    assert v >= 0x80 ==> |Varint(v)| == 1 + |Varint(v / 128)|;
    assert v >= 0x4000 ==> |Varint(v / 128)| == 1 + |Varint(v / 128 / 128)|;
    assert v >= 0x20_0000 ==> |Varint(v / 128 / 128)| == 1 + |Varint(v / 128 / 128 / 128)|;
    assert v >= 0x1000_0000 ==> |Varint(v / 128 / 128 / 128)| == 1 + |Varint(v / 128 / 128 / 128 / 128)|;
  }

  lemma {:induction false} VarintLengthRange(v: nat, n: nat)
    requires n > 0 && Pow128(n) <= v < Pow128(n + 1)
    ensures |Varint(v)| == n + 1
  {
    if n > 1 {
      VarintLengthRange(v / 128, n - 1);
    }
  }

  // ----- enum codes -----

  newtype Code = x: int | -0x8000_0000 <= x < 0x8000_0000

  /** An enum is written as its sign-extended 64-bit value ... */
  function CodeToVarint(c: Code): nat {
    if c >= 0 then c as int else c as int + TWO_64
  }

  /** ... and read by truncating to 32 bits. */
  function VarintToCode(v: nat): Code {
    var low := v % TWO_32;
    (if low < 0x8000_0000 then low else low - TWO_32) as Code
  }

  lemma CodeRoundTrip(c: Code)
    ensures CodeToVarint(c) < TWO_64 && VarintToCode(CodeToVarint(c)) == c
  {
    var v := CodeToVarint(c);
    if c < 0 {
      assert v == (c as int + TWO_32) + (TWO_32 - 1) * TWO_32;
      assert v % TWO_32 == c as int + TWO_32;
    }
  }

  /** A negative code always takes ten bytes. */
  lemma CodeLength(c: Code)
    ensures |Varint(CodeToVarint(c))| == if c < 0 then 10 else VarintSize(c as int)
  {
    if c < 0 {
      Widths();
      VarintLengthRange(CodeToVarint(c), 9);
    } else {
      VarintLength(c as int);
    }
  }

  // ----- tags and length-delimited payloads -----

  function Tag(number: nat, wireType: nat): Bytes {
    Varint(8 * number + wireType)
  }

  function ReadTag(b: Bytes): (r: Option<(nat, Bytes)>)
    ensures r.Some? ==> r.value.0 < TWO_32 && |r.value.1| < |b|
  {
    match ReadVarint(b, 5)
    case None => None
    case Some((v, rest)) => Some((v % TWO_32, rest))
  }

  function Delimited(s: Bytes): Bytes {
    Varint(|s|) + s
  }

  function ReadDelimited(b: Bytes): (r: Option<(Bytes, Bytes)>)
    ensures r.Some? ==> |r.value.0| <= MAX_SIZE && |r.value.1| < |b|
  {
    match ReadVarint(b, 5)
    case None => None
    case Some((n, rest)) =>
      if n <= MAX_SIZE && n <= |rest| then Some((rest[..n], rest[n..])) else None
  }

  function ReadFixed(b: Bytes, n: nat): (r: Option<(Bytes, Bytes)>)
    ensures r.Some? ==> |r.value.0| == n && |r.value.1| <= |b|
  {
    if n <= |b| then Some((b[..n], b[n..])) else None
  }

  function ReadWide(b: Bytes): (r: Option<(nat, Bytes)>)
    ensures r.Some? ==> r.value.0 < TWO_64 && |r.value.1| < |b|
  {
    match ReadVarint(b, 10)
    case None => None
    case Some((v, rest)) => Some((v % TWO_64, rest))
  }

  lemma TagOf(b: Bytes, tag: nat, rest: Bytes)
    requires tag < TWO_32 && ReadVarint(b, 5) == Some((tag, rest))
    ensures ReadTag(b) == Some((tag, rest))
  {
  }

  lemma TagRead(number: nat, wireType: nat, rest: Bytes)
    requires number < 0x2000_0000 && wireType < 8
    ensures ReadTag(Tag(number, wireType) + rest) == Some((8 * number + wireType, rest))
  {
    VarintRead32(8 * number + wireType, rest);
    TagOf(Tag(number, wireType) + rest, 8 * number + wireType, rest);
  }

  lemma DelimitedRead(s: Bytes, rest: Bytes)
    requires |s| <= MAX_SIZE
    ensures ReadDelimited(Delimited(s) + rest) == Some((s, rest))
  {
    VarintRead32(|s|, s + rest);
    Regroup(Varint(|s|), s, rest);
  }

  lemma WideOf(b: Bytes, v: nat, rest: Bytes)
    requires v < TWO_64 && ReadVarint(b, 10) == Some((v, rest))
    ensures ReadWide(b) == Some((v, rest))
  {
  }

  lemma WideRead(v: nat, rest: Bytes)
    requires v < TWO_64
    ensures ReadWide(Varint(v) + rest) == Some((v, rest))
  {
    VarintRead64(v, rest);
    WideOf(Varint(v) + rest, v, rest);
  }

  lemma ReadTagAppend(b: Bytes, more: Bytes)
    requires ReadTag(b).Some?
    ensures ReadTag(b + more) == Some((ReadTag(b).value.0, ReadTag(b).value.1 + more))
  {
    ReadVarintAppend(b, 5, more);
  }

  lemma ReadWideAppend(b: Bytes, more: Bytes)
    requires ReadWide(b).Some?
    ensures ReadWide(b + more) == Some((ReadWide(b).value.0, ReadWide(b).value.1 + more))
  {
    ReadVarintAppend(b, 10, more);
  }

  lemma ReadDelimitedAppend(b: Bytes, more: Bytes)
    requires ReadDelimited(b).Some?
    ensures ReadDelimited(b + more) == Some((ReadDelimited(b).value.0, ReadDelimited(b).value.1 + more))
  {
    ReadVarintAppend(b, 5, more);
    var (n, rest) := ReadVarint(b, 5).value;
    assert (rest + more)[..n] == rest[..n];
    assert (rest + more)[n..] == rest[n..] + more;
  }

  lemma ReadFixedAppend(b: Bytes, n: nat, more: Bytes)
    requires ReadFixed(b, n).Some?
    ensures ReadFixed(b + more, n) == Some((ReadFixed(b, n).value.0, ReadFixed(b, n).value.1 + more))
  {
    assert (b + more)[..n] == b[..n];
    assert (b + more)[n..] == b[n..] + more;
  }

  // ----- unknown fields -----

  datatype Field =
    | VarintField(number: nat, v: nat)
    | Fixed64(number: nat, bits: Bytes)
    | LengthField(number: nat, bytes: Bytes)
    | Group(number: nat, fields: seq<Field>)
    | Fixed32(number: nat, bits: Bytes)

  function WireType(f: Field): nat {
    match f
    case VarintField(_, _) => 0
    case Fixed64(_, _) => 1
    case LengthField(_, _) => 2
    case Group(_, _) => 3
    case Fixed32(_, _) => 5
  }

  function Payload(f: Field): Bytes
    decreases f, 0
  {
    match f
    case VarintField(_, v) => Varint(v)
    case Fixed64(_, bits) => bits
    case LengthField(_, bytes) => Delimited(bytes)
    case Group(number, fields) => WriteFields(fields) + Tag(number, 4)
    case Fixed32(_, bits) => bits
  }

  function WriteField(f: Field): Bytes
    decreases f, 1
  {
    Tag(f.number, WireType(f)) + Payload(f)
  }

  function WriteFields(fields: seq<Field>): Bytes
    decreases fields, 0
  {
    if fields == [] then [] else WriteField(fields[0]) + WriteFields(fields[1..])
  }

  /** What the parser can store: legal numbers, values and sizes, and bounded nesting. */
  predicate FieldOk(f: Field, depth: nat) {
    && 0 < f.number < 0x2000_0000
    && match f
       case VarintField(_, v) => v < TWO_64
       case Fixed64(_, bits) => |bits| == 8
       case LengthField(_, bytes) => |bytes| <= MAX_SIZE
       case Group(_, fields) => depth > 0 && forall g <- fields :: FieldOk(g, depth - 1)
       case Fixed32(_, bits) => |bits| == 4
  }

  predicate FieldsOk(fields: seq<Field>, depth: nat) {
    forall f <- fields :: FieldOk(f, depth)
  }

  /** The field whose tag has just been read. */
  function ParseField(tag: nat, b: Bytes, depth: nat): (r: Option<(Field, Bytes)>)
    requires tag < TWO_32
    ensures r.Some? ==> |r.value.1| <= |b|
    decreases |b|, 1
  {
    var number := tag / 8;
    if number == 0 then None
    else
      match tag % 8
      case 0 =>
        (match ReadWide(b)
         case None => None
         case Some((v, rest)) => Some((VarintField(number, v), rest)))
      case 1 =>
        (match ReadFixed(b, 8)
         case None => None
         case Some((bits, rest)) => Some((Fixed64(number, bits), rest)))
      case 2 =>
        (match ReadDelimited(b)
         case None => None
         case Some((bytes, rest)) => Some((LengthField(number, bytes), rest)))
      case 3 =>
        if depth == 0 then None
        else
          (match ParseGroup(b, depth - 1)
           case None => None
           case Some((fields, end, rest)) =>
             if end == tag + 1 then Some((Group(number, fields), rest)) else None)
      case 5 =>
        (match ReadFixed(b, 4)
         case None => None
         case Some((bits, rest)) => Some((Fixed32(number, bits), rest)))
      case _ => None
  }

  /** Fields up to the tag that ends the group, which is returned with them. */
  function ParseGroup(b: Bytes, depth: nat): (r: Option<(seq<Field>, nat, Bytes)>)
    ensures r.Some? ==> |r.value.2| <= |b|
    decreases |b|, 0
  {
    match ReadTag(b)
    case None => None
    case Some((tag, rest)) =>
      if tag == 0 || tag % 8 == 4 then Some(([], tag, rest))
      else
        match ParseField(tag, rest, depth)
        case None => None
        case Some((f, rest')) =>
          match ParseGroup(rest', depth)
          case None => None
          case Some((fields, end, rest'')) => Some(([f] + fields, end, rest''))
  }

  lemma TagParts(number: nat, wireType: nat)
    requires wireType < 8
    ensures (8 * number + wireType) / 8 == number && (8 * number + wireType) % 8 == wireType
  {
  }

  lemma LeafRoundTrip(f: Field, depth: nat, rest: Bytes)
    requires FieldOk(f, depth) && !f.Group?
    ensures ParseField(8 * f.number + WireType(f), Payload(f) + rest, depth) == Some((f, rest))
  {
    TagParts(f.number, WireType(f));
    var b := Payload(f) + rest;
    match f
    case VarintField(_, v) => WideRead(v, rest);
    case Fixed64(_, bits) => assert b[..8] == bits && b[8..] == rest;
    case LengthField(_, bytes) => DelimitedRead(bytes, rest);
    case Fixed32(_, bits) => assert b[..4] == bits && b[4..] == rest;
  }

  lemma GroupField(number: nat, fields: seq<Field>, b: Bytes, rest: Bytes, depth: nat)
    requires 0 < number < 0x2000_0000 && depth > 0
    requires ParseGroup(b, depth - 1) == Some((fields, 8 * number + 4, rest))
    ensures ParseField(8 * number + 3, b, depth) == Some((Group(number, fields), rest))
  {
    TagParts(number, 3);
  }

  lemma {:induction false} FieldRoundTrip(f: Field, depth: nat, rest: Bytes)
    requires FieldOk(f, depth)
    ensures ParseField(8 * f.number + WireType(f), Payload(f) + rest, depth) == Some((f, rest))
    decreases f, 1
  {
    match f
    case Group(number, fields) =>
      var b := WriteFields(fields) + (Tag(number, 4) + rest);
      GroupRoundTrip(number, fields, depth - 1, rest);
      GroupField(number, fields, b, rest, depth);
      assert Payload(f) + rest == b;
    case _ =>
      LeafRoundTrip(f, depth, rest);
  }

  /** One step of the group parser, on a tag that does not end the group. */
  lemma GroupStep(b: Bytes, tag: nat, f: Field, rest: Bytes, after: Bytes, depth: nat)
    requires ReadTag(b) == Some((tag, rest)) && tag / 8 != 0 && tag % 8 != 4
    requires ParseField(tag, rest, depth) == Some((f, after))
    ensures ParseGroup(b, depth)
            == match ParseGroup(after, depth)
               case None => None
               case Some((fields, end, last)) => Some(([f] + fields, end, last))
  {
  }

  lemma GroupEnd(number: nat, depth: nat, rest: Bytes)
    requires 0 < number < 0x2000_0000
    ensures ParseGroup(Tag(number, 4) + rest, depth) == Some(([], 8 * number + 4, rest))
  {
    TagRead(number, 4, rest);
    TagParts(number, 4);
  }

  lemma {:induction false} GroupRoundTrip(number: nat, fields: seq<Field>, depth: nat, rest: Bytes)
    requires 0 < number < 0x2000_0000 && FieldsOk(fields, depth)
    ensures ParseGroup(WriteFields(fields) + (Tag(number, 4) + rest), depth)
            == Some((fields, 8 * number + 4, rest))
    decreases fields, 0
  {
    var tail := Tag(number, 4) + rest;
    if fields == [] {
      assert WriteFields(fields) + tail == tail;
      GroupEnd(number, depth, rest);
    } else {
      var f := fields[0];
      assert FieldOk(f, depth);
      var after := WriteFields(fields[1..]) + tail;
      var b := WriteFields(fields) + tail;
      assert b == Tag(f.number, WireType(f)) + (Payload(f) + after);
      TagRead(f.number, WireType(f), Payload(f) + after);
      TagParts(f.number, WireType(f));
      FieldRoundTrip(f, depth, after);
      GroupStep(b, 8 * f.number + WireType(f), f, Payload(f) + after, after, depth);
      GroupRoundTrip(number, fields[1..], depth, rest);
      assert [f] + fields[1..] == fields;
    }
  }

  /** The wire types by number: what each takes from the bytes behind its tag. */
  lemma TakenByWireType(number: nat, b: Bytes, depth: nat)
    requires 0 < number < 0x2000_0000
    ensures ParseField(8 * number + 1, b, depth)
            == if |b| >= 8 then Some((Fixed64(number, b[..8]), b[8..])) else None
    ensures ParseField(8 * number + 5, b, depth)
            == if |b| >= 4 then Some((Fixed32(number, b[..4]), b[4..])) else None
    ensures ParseField(8 * number + 4, b, depth) == None && ParseField(8 * number + 6, b, depth) == None
            && ParseField(8 * number + 7, b, depth) == None
    ensures forall v: nat :: v < 128 && b == [v] ==>
                               ParseField(8 * number, b, depth) == Some((VarintField(number, v), []))
    ensures b != [] && b[0] < 128 && |b| == b[0] + 1 ==>
              ParseField(8 * number + 2, b, depth) == Some((LengthField(number, b[1..]), []))
  {
    TagParts(number, 0);
    TagParts(number, 1);
    TagParts(number, 2);
    TagParts(number, 4);
    TagParts(number, 5);
    TagParts(number, 6);
    TagParts(number, 7);
    if b != [] && b[0] < 128 && |b| == b[0] + 1 {
      assert ReadVarint(b, 5) == Some((b[0], b[1..]));
      assert b[1..][..b[0]] == b[1..] && b[1..][b[0]..] == [];
    }
  }

  /** The parser stores only what it can write back and read again. */
  lemma {:induction false} ParsedFieldOk(tag: nat, b: Bytes, depth: nat)
    requires tag < TWO_32 && ParseField(tag, b, depth).Some?
    ensures var f := ParseField(tag, b, depth).value.0;
            FieldOk(f, depth) && f.number == tag / 8 && WireType(f) == tag % 8
    decreases |b|, 1
  {
    if tag % 8 == 3 {
      ParsedGroupOk(b, depth - 1);
    }
  }

  lemma {:induction false} ParsedGroupOk(b: Bytes, depth: nat)
    requires ParseGroup(b, depth).Some?
    ensures FieldsOk(ParseGroup(b, depth).value.0, depth)
    decreases |b|, 0
  {
    var (tag, rest) := ReadTag(b).value;
    if tag != 0 && tag % 8 != 4 {
      ParsedFieldOk(tag, rest, depth);
      ParsedGroupOk(ParseField(tag, rest, depth).value.1, depth);
    }
  }

  lemma {:induction false} ParseFieldAppend(tag: nat, b: Bytes, depth: nat, more: Bytes)
    requires tag < TWO_32 && ParseField(tag, b, depth).Some?
    ensures ParseField(tag, b + more, depth)
            == Some((ParseField(tag, b, depth).value.0, ParseField(tag, b, depth).value.1 + more))
    decreases |b|, 1
  {
    match tag % 8
    case 0 => ReadWideAppend(b, more);
    case 1 => ReadFixedAppend(b, 8, more);
    case 2 => ReadDelimitedAppend(b, more);
    case 3 => ParseGroupAppend(b, depth - 1, more);
    case 5 => ReadFixedAppend(b, 4, more);
    case _ =>
  }

  lemma {:induction false} ParseGroupAppend(b: Bytes, depth: nat, more: Bytes)
    requires ParseGroup(b, depth).Some?
    ensures var (fields, end, rest) := ParseGroup(b, depth).value;
            ParseGroup(b + more, depth) == Some((fields, end, rest + more))
    decreases |b|, 0
  {
    ReadTagAppend(b, more);
    var (tag, rest) := ReadTag(b).value;
    if tag != 0 && tag % 8 != 4 {
      ParseFieldAppend(tag, rest, depth, more);
      ParseGroupAppend(ParseField(tag, rest, depth).value.1, depth, more);
    }
  }

  // ----- the size of unknown fields -----

  /** Bytes of a 64-bit varint, by comparison. */
  function WideSize(v: nat): nat {
    if v < 0x1000_0000 then VarintSize(v)
    else if v < 0x8_0000_0000 then 5
    else if v < 0x400_0000_0000 then 6
    else if v < 0x2_0000_0000_0000 then 7
    else if v < 0x100_0000_0000_0000 then 8
    else if v < 0x8000_0000_0000_0000 then 9
    else 10
  }

  lemma WideLength(v: nat)
    requires v < TWO_64
    ensures |Varint(v)| == WideSize(v)
  {
    Widths();
    assert Pow128(4) == 0x1000_0000 && Pow128(6) == 0x400_0000_0000 && Pow128(7) == 0x2_0000_0000_0000
           && Pow128(8) == 0x100_0000_0000_0000 && Pow128(9) == 0x8000_0000_0000_0000;
    if v < 0x1000_0000 {
      VarintLength(v);
    } else {
      VarintLengthRange(v, WideSize(v) - 1);
    }
  }

  function TagSize(number: nat, wireType: nat): nat {
    VarintSize(8 * number + wireType)
  }

  function FieldSize(f: Field): nat
    decreases f, 1
  {
    match f
    case VarintField(number, v) => TagSize(number, 0) + WideSize(v)
    case Fixed64(number, _) => TagSize(number, 1) + 8
    case LengthField(number, bytes) => TagSize(number, 2) + VarintSize(|bytes|) + |bytes|
    case Group(number, fields) => TagSize(number, 3) + FieldsSize(fields) + TagSize(number, 4)
    case Fixed32(number, _) => TagSize(number, 5) + 4
  }

  function FieldsSize(fields: seq<Field>): nat
    decreases fields, 0
  {
    if fields == [] then 0 else FieldSize(fields[0]) + FieldsSize(fields[1..])
  }

  lemma TagLength(number: nat, wireType: nat)
    requires number < 0x2000_0000 && wireType < 8
    ensures |Tag(number, wireType)| == TagSize(number, wireType)
  {
    VarintLength(8 * number + wireType);
  }

  lemma {:induction false} FieldLength(f: Field, depth: nat)
    requires FieldOk(f, depth)
    ensures |WriteField(f)| == FieldSize(f)
    decreases f, 1
  {
    TagLength(f.number, WireType(f));
    match f
    case VarintField(_, v) => WideLength(v);
    case LengthField(_, bytes) => VarintLength(|bytes|);
    case Group(number, fields) =>
      FieldsLength(fields, depth - 1);
      TagLength(number, 4);
    case _ =>
  }

  /** The sizes by wire type, groups with both tags included, add up to what is written. */
  lemma {:induction false} FieldsLength(fields: seq<Field>, depth: nat)
    requires FieldsOk(fields, depth)
    ensures |WriteFields(fields)| == FieldsSize(fields)
    decreases fields, 0
  {
    if fields != [] {
      assert FieldOk(fields[0], depth);
      FieldLength(fields[0], depth);
      FieldsLength(fields[1..], depth);
    }
  }
}
