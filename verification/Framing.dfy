/** Length-prefixed framing: a four-byte head in network order, then the payload. */
module Framing {
  import opened Wire

  const MAX_FRAME: nat := 0x8000_0000

  function Head(n: nat): Bytes
    requires n < MAX_FRAME
  {
    var n1 := n / 256;
    var n2 := n1 / 256;
    [n2 / 256, n2 % 256, n1 % 256, n % 256]
  }

  function HeadValue(h: Bytes): nat
    requires |h| == 4
  {
    256 * (256 * (256 * (h[0] as int) + h[1]) + h[2]) + h[3]
  }

  lemma HeadRoundTrip(n: nat)
    requires n < MAX_FRAME
    ensures HeadValue(Head(n)) == n
  {
  }

  /** The number that bytes in network order stand for. */
  function BigEndian(b: Bytes): nat {
    if b == [] then 0 else 256 * BigEndian(b[..|b| - 1]) + b[|b| - 1]
  }

  /** The head is the length in network order, four bytes long. */
  lemma HeadIsBigEndian(n: nat)
    requires n < MAX_FRAME
    ensures |Head(n)| == 4 && BigEndian(Head(n)) == n
  {
    var h := Head(n);
    assert h[..4] == h && h[..4][..3] == h[..3] && h[..3][..2] == h[..2] && h[..2][..1] == h[..1];
    assert BigEndian(h[..1]) == h[0];
    assert BigEndian(h[..2]) == 256 * BigEndian(h[..1]) + h[1];
    assert BigEndian(h[..3]) == 256 * BigEndian(h[..2]) + h[2];
    assert BigEndian(h) == 256 * BigEndian(h[..3]) + h[3];
  }

  lemma ByteParts(q: int, r: Byte)
    ensures (256 * q + r) / 256 == q && (256 * q + r) % 256 == r
  {
  }

  lemma HeadBytes(h: Bytes)
    requires |h| == 4 && HeadValue(h) < MAX_FRAME
    ensures Head(HeadValue(h)) == h
  {
    var n2 := 256 * (h[0] as int) + h[1];
    var n1 := 256 * n2 + h[2];
    ByteParts(h[0], h[1]);
    ByteParts(n2, h[2]);
    ByteParts(n1, h[3]);
  }

  type Payload = p: Bytes | |p| < MAX_FRAME

  function Frame(p: Payload): Bytes {
    Head(|p|) + p
  }

  function Stream(ps: seq<Payload>): Bytes {
    if ps == [] then [] else Frame(ps[0]) + Stream(ps[1..])
  }

  /** Every frame has a head, so only the empty stream has no bytes. */
  lemma StreamLength(ps: seq<Payload>)
    ensures ps != [] ==> |Stream(ps)| >= 4
  {
  }

  /** A whole frame lies at the front. */
  predicate HoldsFrame(b: Bytes) {
    |b| >= 4 && HeadValue(b[..4]) < MAX_FRAME && |b| >= 4 + HeadValue(b[..4])
  }

  function FirstPayload(b: Bytes): Payload
    requires HoldsFrame(b)
  {
    b[4..4 + HeadValue(b[..4])]
  }

  /** Cutting a head and then as much as it announces off the front is taking the first frame. */
  lemma CutFrame(head: Bytes, payload: Payload, rest: Bytes)
    requires |head| == 4 && HeadValue(head) == |payload|
    ensures var b := head + (payload + rest);
            HoldsFrame(b) && FirstPayload(b) == payload && b == Frame(payload) + rest
  {
    var b := head + (payload + rest);
    HeadBytes(head);
    assert b[..4] == head;
    assert b[4..4 + |payload|] == payload;
    Regroup(head, payload, rest);
  }

  lemma FrameReads(p: Payload, rest: Bytes)
    ensures HoldsFrame(Frame(p) + rest) && FirstPayload(Frame(p) + rest) == p
    ensures (Frame(p) + rest)[4 + |p|..] == rest
  {
    var b := Frame(p) + rest;
    HeadRoundTrip(|p|);
    assert b[..4] == Head(|p|);
  }

  lemma {:induction false} StreamAppend(ps: seq<Payload>, qs: seq<Payload>)
    ensures Stream(ps + qs) == Stream(ps) + Stream(qs)
  {
    if ps == [] {
      assert ps + qs == qs;
    } else {
      assert (ps + qs)[1..] == ps[1..] + qs;
      StreamAppend(ps[1..], qs);
      Regroup(Frame(ps[0]), Stream(ps[1..]), Stream(qs));
    }
  }

  lemma StreamSnoc(ps: seq<Payload>, p: Payload)
    ensures Stream(ps + [p]) == Stream(ps) + Frame(p)
  {
    StreamAppend(ps, [p]);
    NoPrefix(Frame(p));
    assert Stream([p]) == Frame(p) + Stream([]);
  }

  /** A frame at the front of a stream's tail is the stream's next payload. */
  lemma FrontIsNext(p: Payload, ps: seq<Payload>, rest: Bytes, more: Bytes)
    requires ps != [] && Frame(p) + rest + more == Stream(ps)
    ensures p == ps[0] && rest + more == Stream(ps[1..])
  {
    FrameReads(p, rest + more);
    FrameReads(ps[0], Stream(ps[1..]));
    Regroup(Frame(p), rest, more);
  }
}
