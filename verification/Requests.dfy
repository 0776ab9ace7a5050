/** Requests as the server takes them: exactly one frame after each read that brought bytes. When this finds
    a whole frame every time depends on how the client's bytes were cut up; the condition is exact. */
module Requests {
  import opened Wire
  import opened Framing
  import opened Link

  function Concat(parts: seq<Bytes>): Bytes {
    if parts == [] then [] else Concat(parts[..|parts| - 1]) + parts[|parts| - 1]
  }

  /** The payloads taken and the bytes left, when `content` was buffered before the reads; None when some
      take does not find a whole frame. */
  function OnePerRead(content: Bytes, chunks: seq<Bytes>): Option<(seq<Payload>, Bytes)> {
    if chunks == [] then Some(([], content))
    else
      match OnePerRead(content, chunks[..|chunks| - 1])
      case None => None
      case Some((payloads, left)) =>
        var b := left + chunks[|chunks| - 1];
        if HoldsFrame(b) then Some((payloads + [FirstPayload(b)], AfterFrame(b))) else None
  }

  function AfterFrame(b: Bytes): Bytes
    requires HoldsFrame(b)
  {
    b[4 + |FirstPayload(b)|..]
  }

  lemma SplitFrame(b: Bytes)
    requires HoldsFrame(b)
    ensures b == Frame(FirstPayload(b)) + AfterFrame(b)
  {
    CutFrame(b[..4], FirstPayload(b), AfterFrame(b));
    assert b == b[..4] + (FirstPayload(b) + AfterFrame(b));
  }

  /** The front part of a stream holds a frame exactly when it reaches to the end of the first one. */
  lemma HoldsFirst(b: Bytes, more: Bytes, ps: seq<Payload>)
    requires b + more == Stream(ps)
    ensures HoldsFrame(b) <==> ps != [] && |Frame(ps[0])| <= |b|
    ensures HoldsFrame(b) ==> FirstPayload(b) == ps[0]
  {
    if ps != [] && |Frame(ps[0])| <= |b| {
      var rest := b[|Frame(ps[0])|..];
      assert Stream(ps)[..|Frame(ps[0])|] == Frame(ps[0]) && (b + more)[..|Frame(ps[0])|] == b[..|Frame(ps[0])|];
      assert b == Frame(ps[0]) + rest;
      FrameReads(ps[0], rest);
    } else if HoldsFrame(b) {
      SplitFrame(b);
      FrontIsNext(FirstPayload(b), ps, AfterFrame(b), more);
      assert false;
    }
  }

  /** The first `k` frames lie within the bytes that the first `k` reads have brought. */
  predicate InTime(content: Bytes, chunks: seq<Bytes>, sent: seq<Payload>, k: nat)
    requires k <= |chunks|
  {
    k <= |sent| && |Stream(sent[..k])| <= |content| + |Concat(chunks[..k])|
  }

  lemma TakesNext(content: Bytes, chunks: seq<Bytes>, sent: seq<Payload>, more: Bytes, taken: seq<Payload>, left: Bytes)
    requires chunks != [] && |taken| == |chunks| - 1
    requires content + Concat(chunks) + more == Stream(sent)
    requires Stream(taken) + left == content + Concat(chunks[..|chunks| - 1])
    ensures var b := left + chunks[|chunks| - 1];
            && taken <= sent && Stream(taken) + b == content + Concat(chunks)
            && (HoldsFrame(b) <==> InTime(content, chunks, sent, |chunks|))
            && (HoldsFrame(b) ==> taken + [FirstPayload(b)] == sent[..|chunks|]
                                  && Stream(taken + [FirstPayload(b)]) + AfterFrame(b) == content + Concat(chunks))
  {
    var n, r := |chunks|, chunks[|chunks| - 1];
    var b := left + r;
    Regroup(content, Concat(chunks[..n - 1]), r);
    Regroup(Stream(taken), left, r);
    Regroup(Stream(taken), b, more);
    TakenIsPrefix(sent, taken, b + more);
    HoldsFirst(b, more, sent[n - 1..]);
    assert chunks[..n] == chunks;
    if n <= |sent| {
      assert sent[..n] == taken + [sent[n - 1]];
      StreamSnoc(taken, sent[n - 1]);
    }
    if HoldsFrame(b) {
      SplitFrame(b);
      Regroup(Stream(taken), Frame(FirstPayload(b)), AfterFrame(b));
    }
  }

  predicate AllInTime(content: Bytes, chunks: seq<Bytes>, sent: seq<Payload>) {
    forall k | 0 < k <= |chunks| :: InTime(content, chunks, sent, k)
  }

  lemma AllInTimeStep(content: Bytes, chunks: seq<Bytes>, sent: seq<Payload>)
    requires chunks != []
    ensures AllInTime(content, chunks, sent)
            <==> AllInTime(content, chunks[..|chunks| - 1], sent) && InTime(content, chunks, sent, |chunks|)
  {
    var before := chunks[..|chunks| - 1];
    forall k | 0 < k < |chunks|
      ensures InTime(content, before, sent, k) <==> InTime(content, chunks, sent, k)
    {
      assert before[..k] == chunks[..k];
    }
  }

  /** Every take finds a whole frame exactly when each first `k` frames lie within the bytes of the first `k`
      reads. Then the requests taken are the first ones sent, one a read, and all further bytes wait. */
  lemma {:induction false} OneFramePerRead(content: Bytes, chunks: seq<Bytes>, sent: seq<Payload>, more: Bytes)
    requires content + Concat(chunks) + more == Stream(sent)
    ensures OnePerRead(content, chunks).Some? <==> AllInTime(content, chunks, sent)
    ensures OnePerRead(content, chunks).Some? ==>
              var (taken, left) := OnePerRead(content, chunks).value;
              |chunks| <= |sent| && taken == sent[..|chunks|] && Stream(taken) + left == content + Concat(chunks)
    decreases |chunks|
  {
    if chunks == [] {
      NoPrefix(content);
      NoPrefix(Stream([]) + content);
    } else {
      var before, last := chunks[..|chunks| - 1], chunks[|chunks| - 1];
      Regroup(content, Concat(before), last);
      Regroup(content + Concat(before), last, more);
      OneFramePerRead(content, before, sent, last + more);
      AllInTimeStep(content, chunks, sent);
      if OnePerRead(content, before).Some? {
        var (taken, left) := OnePerRead(content, before).value;
        TakesNext(content, chunks, sent, more, taken, left);
      }
    }
  }

  /** A frame cut in two by the network is taken too early; of two frames in one read the second waits,
      whole, until more bytes come. */
  lemma CutAndCoalesced(p: Payload, q: Payload, n: nat)
    requires 0 < n < |Frame(p)|
    ensures OnePerRead([], [Frame(p)[..n]]) == None
    ensures OnePerRead([], [Frame(p) + Frame(q)]) == Some(([p], Frame(q)))
  {
    TwoFrames(p, q);
    var part := Frame(p)[..n];
    assert part + (Frame(p)[n..] + Frame(q)) == Stream([p, q]);
    HoldsFirst(part, Frame(p)[n..] + Frame(q), [p, q]);
    NoPrefix(part);
    var both := Frame(p) + Frame(q);
    FrameReads(p, Frame(q));
    NoPrefix(both);
    var none: seq<Bytes> := [];
    var took: seq<Payload> := [];
    assert [part][..0] == none && [both][..0] == none;
    assert OnePerRead([], [both]) == Some((took + [p], AfterFrame(both)));
    assert took + [p] == [p] && AfterFrame(both) == Frame(q);
  }

  lemma TwoFrames(p: Payload, q: Payload)
    ensures Stream([p, q]) == Frame(p) + Frame(q)
  {
    assert [p, q][1..] == [q];
    assert Stream([q]) == Frame(q) + Stream([q][1..]);
  }
}
