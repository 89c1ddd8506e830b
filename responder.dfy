/**
 * What the server does with one received datagram, between the receive
 * and the send: decode the header and the questions from the receive
 * buffer, synthesise one placeholder answer per question, rewrite the
 * header into the response header, and concatenate the encoded header,
 * questions and answers.
 */
module Responder {
  import opened Errors
  import opened Bytes
  import H = HeaderCodec
  import Q = QuestionCodec
  import A = AnswerCodec

  /** The receive buffer is `[0; 512]`, decoded in full whatever the datagram's size. */
  const ReceiveBufferSize := 512
  const PlaceholderTtl: uint32 := 60
  const PlaceholderAddress: seq<uint8> := [1, 1, 1, 1]

  /** Why the server process panics instead of replying. */
  datatype Cause =
    | Unwrapped(error: Error)  // `expect` or `unwrap` on a decoder's error
    | IndexOutOfBounds         // the question decoder indexing an empty slice

  /** The request handling either produces a value or panics. */
  datatype Outcome<T> = Done(value: T) | Panic(cause: Cause)

  /** The number of bytes a list of decoded questions occupied. */
  function Span(qs: seq<Q.Question>): nat
  {
    if qs == [] then 0 else qs[0].sizeInBytes + Span(qs[1..])
  }

  /** Questions decoded earlier, put in front of the outcome of decoding the rest. */
  function Prepend(qs: seq<Q.Question>, o: Outcome<seq<Q.Question>>): Outcome<seq<Q.Question>>
  {
    match o
    case Done(rest) => Done(qs + rest)
    case Panic(c) => Panic(c)
  }

  lemma PrependAssoc(qs: seq<Q.Question>, more: seq<Q.Question>, o: Outcome<seq<Q.Question>>)
    ensures Prepend(qs, Prepend(more, o)) == Prepend(qs + more, o)
  {
    if o.Done? {
      assert qs + (more + o.value) == (qs + more) + o.value;
    }
  }

  lemma PrependNothing(o: Outcome<seq<Q.Question>>)
    ensures Prepend([], o) == o
  {
    if o.Done? {
      assert [] + o.value == o.value;
    }
  }

  /**
   * The question loop: `count` questions decoded one after another from
   * `buf[index..]`, the cursor advancing by each question's size.
   */
  function DecodeQuestions(buf: seq<uint8>, index: nat, count: nat): (r: Outcome<seq<Q.Question>>)
    requires index <= |buf|
    ensures r.Done? ==> |r.value| == count
    ensures r.Panic? ==> r.cause == IndexOutOfBounds || r.cause == Unwrapped(InvalidQuestion)
    decreases count, 0
  {
    if count == 0 then Done([])
    else if index == |buf| then Panic(IndexOutOfBounds)
    else Continue(buf, index, count, Q.Decode(buf[index..]))
  }

  /** The rest of one turn of the question loop, once the question at `index` is decoded: `unwrap` it and go on. */
  function Continue(buf: seq<uint8>, index: nat, count: nat, decoded: Result<Q.Question>): (r: Outcome<seq<Q.Question>>)
    requires count > 0
    requires decoded.Ok? ==> index + decoded.value.sizeInBytes <= |buf|
    requires decoded.Err? ==> decoded.error == InvalidQuestion
    ensures r.Done? ==> |r.value| == count
    ensures r.Panic? ==> r.cause == IndexOutOfBounds || r.cause == Unwrapped(InvalidQuestion)
    decreases count - 1, 1
  {
    match decoded
    case Err(e) => Panic(Unwrapped(e))
    case Ok(q) => Prepend([q], DecodeQuestions(buf, index + q.sizeInBytes, count - 1))
  }

  /** One turn of the question loop. */
  lemma DecodeStep(buf: seq<uint8>, index: nat, count: nat, q: Q.Question)
    requires index < |buf| && count > 0 && Q.Decode(buf[index..]) == Ok(q)
    ensures index + q.sizeInBytes <= |buf|
    ensures DecodeQuestions(buf, index, count) == Prepend([q], DecodeQuestions(buf, index + q.sizeInBytes, count - 1))
  {
  }

  /** The placeholder answer for one question. */
  function Synthesize(q: Q.Question): (a: A.Answer)
    ensures a.name == q.name && a.qtype == q.qtype && a.qclass == q.qclass
    ensures a.ttl == PlaceholderTtl && a.data == PlaceholderAddress && A.Consistent(a)
  {
    A.Answer(q.name, q.qtype, q.qclass, PlaceholderTtl, TruncateToUint16(|PlaceholderAddress|), PlaceholderAddress)
  }

  /** One answer per question, in question order. */
  function SynthesizeAll(qs: seq<Q.Question>): (r: seq<A.Answer>)
    ensures |r| == |qs| && forall i :: 0 <= i < |qs| ==> r[i] == Synthesize(qs[i])
  {
    seq(|qs|, i requires 0 <= i < |qs| => Synthesize(qs[i]))
  }

  /**
   * The request header rewritten into the response header: qr set, both
   * counts set to 1, rcode 0 for a standard query and 4 otherwise; nothing
   * else changes.
   */
  function ResponseHeader(request: H.Header): (response: H.Header)
    ensures response.qr && response.qdCount == 1 && response.anCount == 1
    ensures response.rcode == if request.opCode == 0 then 0 else 4
    ensures response == request.(qr := true, qdCount := 1, anCount := 1, rcode := response.rcode)
    ensures H.FitsWidths(request) ==> H.FitsWidths(response)
  {
    request.(qr := true, qdCount := 1, anCount := 1, rcode := if request.opCode == 0 then 0 else 4)
  }

  /** The datagram sent back for the receive buffer `buf`, or the panic that prevents it. */
  function Respond(buf: seq<uint8>): (r: Outcome<seq<uint8>>)
    requires |buf| == ReceiveBufferSize
    ensures r.Panic? ==> r.cause == IndexOutOfBounds || r.cause == Unwrapped(InvalidQuestion)
  {
    var request := H.Decode(buf[..H.HeaderSize]).value;
    match DecodeQuestions(buf, H.HeaderSize, request.qdCount)
    case Panic(c) => Panic(c)
    case Done(questions) =>
      Done(H.Encode(ResponseHeader(request)) + FlatMap(questions, Q.Encode)
        + FlatMap(SynthesizeAll(questions), A.Encode))
  }

  /** A question whose name is one the decoder returns, with the size of its encoding. */
  predicate Encodable(q: Q.Question)
  {
    Q.ValidName(q.name) && q.sizeInBytes == |q.name| + 4
  }

  /**
   * Questions laid out one after another with `room` bytes left from the
   * first one's offset to the end of the buffer: each is encodable, and its
   * first byte is below the number of bytes left at its own offset, which is
   * the decoder's second check.
   */
  predicate Readable(qs: seq<Q.Question>, room: int)
    decreases |qs|
  {
    qs == [] || (Encodable(qs[0]) && qs[0].name[0] < room && Readable(qs[1..], room - qs[0].sizeInBytes))
  }

  /**
   * The decoded questions lie one after another inside the buffer, and each
   * has a valid name and the size of its encoding.
   */
  lemma {:induction false} DecodedQuestionsFit(buf: seq<uint8>, index: nat, count: nat)
    requires index <= |buf| && DecodeQuestions(buf, index, count).Done?
    ensures var qs := DecodeQuestions(buf, index, count).value;
      index + Span(qs) <= |buf| &&
      forall i :: 0 <= i < |qs| ==> Q.ValidName(qs[i].name) && qs[i].sizeInBytes == |qs[i].name| + 4
    decreases count
  {
    if count > 0 {
      var q := Q.Decode(buf[index..]).value;
      Q.Decoded(buf[index..]);
      DecodedQuestionsFit(buf, index + q.sizeInBytes, count - 1);
      var qs := DecodeQuestions(buf, index, count).value;
      assert qs == [q] + DecodeQuestions(buf, index + q.sizeInBytes, count - 1).value;
      assert qs[1..] == DecodeQuestions(buf, index + q.sizeInBytes, count - 1).value;
    }
  }

  /** Questions whose encodings lie one after another in `buf` flatten into the bytes they cover. */
  lemma EchoStep(buf: seq<uint8>, index: nat, q: Q.Question, more: seq<Q.Question>)
    requires index + q.sizeInBytes + Span(more) <= |buf|
    requires Q.Encode(q) == buf[index..][..q.sizeInBytes]
    requires FlatMap(more, Q.Encode) == buf[index + q.sizeInBytes..index + q.sizeInBytes + Span(more)]
    ensures index + Span([q] + more) <= |buf|
    ensures FlatMap([q] + more, Q.Encode) == buf[index..index + Span([q] + more)]
  {
    var next := index + q.sizeInBytes;
    assert ([q] + more)[1..] == more;
    assert buf[index..][..q.sizeInBytes] == buf[index..next];
    assert buf[index..next + Span(more)] == buf[index..next] + buf[next..next + Span(more)];
  }

  /** The questions the loop decodes are `Readable`: the condition is exactly what the loop accepts. */
  lemma {:induction false} DecodedReadable(buf: seq<uint8>, index: nat, count: nat)
    requires index <= |buf| && DecodeQuestions(buf, index, count).Done?
    ensures Readable(DecodeQuestions(buf, index, count).value, |buf| - index)
    decreases count
  {
    if count > 0 {
      var q := Q.Decode(buf[index..]).value;
      var next := index + q.sizeInBytes;
      DecodeStep(buf, index, count, q);
      Q.Decoded(buf[index..]);
      Q.AcceptsExactly(buf[index..]);
      DecodedReadable(buf, next, count - 1);
      var more := DecodeQuestions(buf, next, count - 1).value;
      assert DecodeQuestions(buf, index, count).value == [q] + more;
      assert ([q] + more)[1..] == more;
    }
  }

  /** Re-encoding the decoded questions reproduces the question bytes of the request. */
  lemma {:induction false} EchoesQuestionSection(buf: seq<uint8>, index: nat, count: nat)
    requires index <= |buf| && DecodeQuestions(buf, index, count).Done?
    ensures var qs := DecodeQuestions(buf, index, count).value;
      index + Span(qs) <= |buf| && FlatMap(qs, Q.Encode) == buf[index..index + Span(qs)]
    decreases count
  {
    if count > 0 {
      var q := Q.Decode(buf[index..]).value;
      var next := index + q.sizeInBytes;
      DecodeStep(buf, index, count, q);
      EchoesQuestionSection(buf, next, count - 1);
      Q.DecodeEncode(buf[index..]);
      var more := DecodeQuestions(buf, next, count - 1).value;
      assert DecodeQuestions(buf, index, count).value == [q] + more;
      EchoStep(buf, index, q, more);
    }
  }

  /** The first of several encoded questions found at the cursor decodes, and the rest follow it. */
  lemma EncodedHead(buf: seq<uint8>, index: nat, qs: seq<Q.Question>)
    requires qs != [] && Encodable(qs[0]) && qs[0].name[0] < |buf| - index
    requires index + |FlatMap(qs, Q.Encode)| <= |buf|
    requires buf[index..index + |FlatMap(qs, Q.Encode)|] == FlatMap(qs, Q.Encode)
    ensures index < |buf| && Q.Decode(buf[index..]) == Ok(qs[0])
    ensures var next, tail := index + qs[0].sizeInBytes, FlatMap(qs[1..], Q.Encode);
      next + |tail| <= |buf| && buf[next..next + |tail|] == tail
  {
    var q := qs[0];
    assert FlatMap(qs, Q.Encode) == Q.Encode(q) + FlatMap(qs[1..], Q.Encode);
    SliceParts(buf, index, Q.Encode(q), FlatMap(qs[1..], Q.Encode));
    Q.DecodesAt(buf[index..], q);
    assert q.(sizeInBytes := |q.name| + 4) == q;
  }

  /**
   * A slice holding two parts one after the other holds each part at its
   * offset. This lemma works inside a buffer at a cursor, going from a slice
   * to its parts; `Sections` goes from a concatenation to its slices and
   * `SplitAt` from slices back to a concatenation. Each is kept in the shape
   * its callers need, so that no caller has to re-derive it.
   */
  lemma SliceParts(buf: seq<uint8>, index: nat, head: seq<uint8>, tail: seq<uint8>)
    requires index + |head| + |tail| <= |buf| && buf[index..index + |head| + |tail|] == head + tail
    ensures buf[index..][..|head|] == head
    ensures buf[index + |head|..index + |head| + |tail|] == tail
  {
    assert buf[index..][..|head|] == (head + tail)[..|head|];
    assert buf[index + |head|..index + |head| + |tail|] == (head + tail)[|head|..];
  }

  /** A question decoded at the cursor, in front of the questions decoded after it. */
  lemma DecodeCons(buf: seq<uint8>, index: nat, qs: seq<Q.Question>)
    requires qs != [] && index < |buf| && Q.Decode(buf[index..]) == Ok(qs[0])
    requires index + qs[0].sizeInBytes <= |buf|
    requires DecodeQuestions(buf, index + qs[0].sizeInBytes, |qs| - 1) == Done(qs[1..])
    ensures DecodeQuestions(buf, index, |qs|) == Done(qs)
  {
    DecodeStep(buf, index, |qs|, qs[0]);
    assert [qs[0]] + qs[1..] == qs;
  }

  /** Encoded questions found at the cursor decode back to themselves, in order. */
  lemma {:induction false} DecodesEncodedQuestions(buf: seq<uint8>, index: nat, qs: seq<Q.Question>)
    requires index <= |buf| && Readable(qs, |buf| - index)
    requires index + |FlatMap(qs, Q.Encode)| <= |buf|
    requires buf[index..index + |FlatMap(qs, Q.Encode)|] == FlatMap(qs, Q.Encode)
    ensures DecodeQuestions(buf, index, |qs|) == Done(qs)
    decreases |qs|
  {
    if qs != [] {
      EncodedHead(buf, index, qs);
      DecodesEncodedQuestions(buf, index + qs[0].sizeInBytes, qs[1..]);
      DecodeCons(buf, index, qs);
    }
  }

  /** Each placeholder answer adds ten bytes to its question's encoding. */
  lemma {:induction false} AnswerSectionLength(qs: seq<Q.Question>)
    requires forall i :: 0 <= i < |qs| ==> qs[i].sizeInBytes == |qs[i].name| + 4
    ensures |FlatMap(SynthesizeAll(qs), A.Encode)| == Span(qs) + 10 * |qs|
  {
    if qs != [] {
      AnswerSectionLength(qs[1..]);
      assert SynthesizeAll(qs)[1..] == SynthesizeAll(qs[1..]);
    }
  }

  /** Where the three sections of a concatenation start and end (the converse of `SplitAt`). */
  lemma Sections(header: seq<uint8>, questions: seq<uint8>, answers: seq<uint8>)
    requires |header| == H.HeaderSize
    ensures var out := header + questions + answers;
      |out| == H.HeaderSize + |questions| + |answers| && out[..H.HeaderSize] == header &&
      out[H.HeaderSize..H.HeaderSize + |questions|] == questions && out[H.HeaderSize + |questions|..] == answers
  {
    var out := header + questions + answers;
    assert out == header + (questions + answers);
    assert (questions + answers)[..|questions|] == questions;
  }

  /** A response built from questions with sized encodings is 12 bytes, the questions, and 10 more bytes per question. */
  lemma AssembledLength(request: H.Header, qs: seq<Q.Question>, out: seq<uint8>)
    requires forall i :: 0 <= i < |qs| ==> qs[i].sizeInBytes == |qs[i].name| + 4
    requires |FlatMap(qs, Q.Encode)| == Span(qs)
    requires out == H.Encode(ResponseHeader(request)) + FlatMap(qs, Q.Encode) + FlatMap(SynthesizeAll(qs), A.Encode)
    ensures |out| == H.HeaderSize + 2 * Span(qs) + 10 * |qs|
  {
    AnswerSectionLength(qs);
  }

  /** The first 12 bytes of a response decode to the rewritten header. */
  lemma AssembledHeader(request: H.Header, questions: seq<uint8>, answers: seq<uint8>)
    requires H.FitsWidths(request)
    ensures var out := H.Encode(ResponseHeader(request)) + questions + answers;
      |out| >= H.HeaderSize && H.Decode(out[..H.HeaderSize]) == Ok(ResponseHeader(request))
  {
    H.ValueRoundTrip(ResponseHeader(request));
    Sections(H.Encode(ResponseHeader(request)), questions, answers);
  }

  /** After the header, a response holds the question bytes of `buf`, then the answers. */
  lemma AssembledSections(buf: seq<uint8>, request: H.Header, qs: seq<Q.Question>, out: seq<uint8>)
    requires H.HeaderSize + Span(qs) <= |buf| && FlatMap(qs, Q.Encode) == buf[H.HeaderSize..H.HeaderSize + Span(qs)]
    requires out == H.Encode(ResponseHeader(request)) + FlatMap(qs, Q.Encode) + FlatMap(SynthesizeAll(qs), A.Encode)
    ensures var end := H.HeaderSize + Span(qs);
      end <= |out| && out[H.HeaderSize..end] == buf[H.HeaderSize..end] &&
      out[end..] == FlatMap(SynthesizeAll(qs), A.Encode)
  {
    Sections(H.Encode(ResponseHeader(request)), FlatMap(qs, Q.Encode), FlatMap(SynthesizeAll(qs), A.Encode));
  }

  /**
   * The layout of a response assembled from a decoded header and the
   * questions echoed from `buf`: a summary of `AssembledLength`,
   * `AssembledHeader` and `AssembledSections` in one statement.
   * `ResponseLayout` uses the three parts separately, each in its own
   * scope, which keeps its proof cheap.
   */
  lemma Assembled(buf: seq<uint8>, request: H.Header, qs: seq<Q.Question>, out: seq<uint8>)
    requires H.FitsWidths(request)
    requires forall i :: 0 <= i < |qs| ==> qs[i].sizeInBytes == |qs[i].name| + 4
    requires H.HeaderSize + Span(qs) <= |buf| && FlatMap(qs, Q.Encode) == buf[H.HeaderSize..H.HeaderSize + Span(qs)]
    requires out == H.Encode(ResponseHeader(request)) + FlatMap(qs, Q.Encode) + FlatMap(SynthesizeAll(qs), A.Encode)
    ensures var end := H.HeaderSize + Span(qs);
      |out| == H.HeaderSize + 2 * Span(qs) + 10 * |qs| &&
      H.Decode(out[..H.HeaderSize]) == Ok(ResponseHeader(request)) &&
      out[H.HeaderSize..end] == buf[H.HeaderSize..end] &&
      out[end..] == FlatMap(SynthesizeAll(qs), A.Encode)
  {
    AssembledLength(request, qs, out);
    AssembledHeader(request, FlatMap(qs, Q.Encode), FlatMap(SynthesizeAll(qs), A.Encode));
    AssembledSections(buf, request, qs, out);
  }

  /**
   * A response, when there is one, is the request header rewritten by
   * `ResponseHeader` (it decodes back to exactly that), then the request's
   * question bytes unchanged, then one placeholder answer per question; its
   * length is 12 plus twice the question bytes plus 10 per question.
   */
  lemma ResponseLayout(buf: seq<uint8>)
    requires |buf| == ReceiveBufferSize && Respond(buf).Done?
    ensures var out := Respond(buf).value;
      var request := H.Decode(buf[..H.HeaderSize]).value;
      var qs := DecodeQuestions(buf, H.HeaderSize, request.qdCount).value;
      var end := H.HeaderSize + Span(qs);
      end <= |buf| && |out| == H.HeaderSize + 2 * Span(qs) + 10 * |qs| &&
      H.Decode(out[..H.HeaderSize]) == Ok(ResponseHeader(request)) &&
      out[H.HeaderSize..end] == buf[H.HeaderSize..end] &&
      out[end..] == FlatMap(SynthesizeAll(qs), A.Encode)
  {
    var request := H.Decode(buf[..H.HeaderSize]).value;
    var qs := DecodeQuestions(buf, H.HeaderSize, request.qdCount).value;
    var out := Respond(buf).value;
    var end := H.HeaderSize + Span(qs);
    assert end <= |buf| && |out| == H.HeaderSize + 2 * Span(qs) + 10 * |qs| by {
      Answered(buf, request, qs);
      DecodedFacts(buf, request, qs);
      AssembledLength(request, qs, out);
    }
    assert out[H.HeaderSize..end] == buf[H.HeaderSize..end] && out[end..] == FlatMap(SynthesizeAll(qs), A.Encode) by {
      Answered(buf, request, qs);
      DecodedFacts(buf, request, qs);
      AssembledSections(buf, request, qs, out);
    }
    assert H.Decode(out[..H.HeaderSize]) == Ok(ResponseHeader(request)) by {
      Answered(buf, request, qs);
      DecodedFacts(buf, request, qs);
      AssembledHeader(request, FlatMap(qs, Q.Encode), FlatMap(SynthesizeAll(qs), A.Encode));
    }
  }

  /**
   * What decoding a buffer establishes about its header and questions: the
   * header fits its widths, and the questions' encodings lie one after
   * another from offset 12, each with the size of its encoding.
   */
  lemma DecodedFacts(buf: seq<uint8>, request: H.Header, qs: seq<Q.Question>)
    requires |buf| == ReceiveBufferSize && H.Decode(buf[..H.HeaderSize]) == Ok(request)
    requires DecodeQuestions(buf, H.HeaderSize, request.qdCount) == Done(qs)
    ensures H.FitsWidths(request)
    ensures forall i :: 0 <= i < |qs| ==> qs[i].sizeInBytes == |qs[i].name| + 4
    ensures H.HeaderSize + Span(qs) <= |buf| && FlatMap(qs, Q.Encode) == buf[H.HeaderSize..H.HeaderSize + Span(qs)]
  {
    EchoesQuestionSection(buf, H.HeaderSize, request.qdCount);
    DecodedQuestionsFit(buf, H.HeaderSize, request.qdCount);
  }

  /** A buffer whose header and questions decode is answered with their response. */
  lemma Answered(buf: seq<uint8>, h: H.Header, qs: seq<Q.Question>)
    requires |buf| == ReceiveBufferSize && H.Decode(buf[..H.HeaderSize]) == Ok(h)
    requires DecodeQuestions(buf, H.HeaderSize, h.qdCount) == Done(qs)
    ensures Respond(buf) ==
      Done(H.Encode(ResponseHeader(h)) + FlatMap(qs, Q.Encode) + FlatMap(SynthesizeAll(qs), A.Encode))
  {
  }

  /**
   * A request made of a header whose fields fit their widths and whose
   * question count is right, followed by questions the decoder reads back
   * (`Readable` from offset 12 of the 512-byte buffer) and any
   * padding up to the buffer size, is answered with the rewritten header,
   * the same questions and their placeholder answers.
   */
  lemma EndToEnd(h: H.Header, qs: seq<Q.Question>, padding: seq<uint8>)
    requires H.FitsWidths(h) && h.qdCount == |qs|
    requires Readable(qs, ReceiveBufferSize - H.HeaderSize)
    requires H.HeaderSize + |FlatMap(qs, Q.Encode)| + |padding| == ReceiveBufferSize
    ensures Respond(H.Encode(h) + FlatMap(qs, Q.Encode) + padding) ==
      Done(H.Encode(ResponseHeader(h)) + FlatMap(qs, Q.Encode) + FlatMap(SynthesizeAll(qs), A.Encode))
  {
    var buf := H.Encode(h) + FlatMap(qs, Q.Encode) + padding;
    RequestHeaderDecodes(h, FlatMap(qs, Q.Encode), padding);
    RequestQuestionsDecode(h, qs, padding);
    Answered(buf, h, qs);
  }

  /**
   * Every buffer the server answers is of the form `EndToEnd` describes: its
   * decoded header and questions meet that lemma's conditions, and the buffer
   * is their encodings followed by the rest of the buffer as padding.
   */
  lemma Covered(buf: seq<uint8>)
    requires |buf| == ReceiveBufferSize && Respond(buf).Done?
    ensures var h := H.Decode(buf[..H.HeaderSize]).value;
      var qs := DecodeQuestions(buf, H.HeaderSize, h.qdCount).value;
      var n := |FlatMap(qs, Q.Encode)|;
      H.FitsWidths(h) && h.qdCount == |qs| && Readable(qs, ReceiveBufferSize - H.HeaderSize) &&
      H.HeaderSize + n <= |buf| && buf == H.Encode(h) + FlatMap(qs, Q.Encode) + buf[H.HeaderSize + n..]
  {
    var h := H.Decode(buf[..H.HeaderSize]).value;
    var qs := DecodeQuestions(buf, H.HeaderSize, h.qdCount).value;
    DecodedRequest(buf, h, qs);
  }

  /** A buffer whose header and questions decode is their encodings followed by padding. */
  lemma DecodedRequest(buf: seq<uint8>, h: H.Header, qs: seq<Q.Question>)
    requires |buf| == ReceiveBufferSize && H.Decode(buf[..H.HeaderSize]) == Ok(h)
    requires DecodeQuestions(buf, H.HeaderSize, h.qdCount) == Done(qs)
    ensures var n := |FlatMap(qs, Q.Encode)|;
      H.FitsWidths(h) && h.qdCount == |qs| && Readable(qs, ReceiveBufferSize - H.HeaderSize) &&
      H.HeaderSize + n <= |buf| && buf == H.Encode(h) + FlatMap(qs, Q.Encode) + buf[H.HeaderSize + n..]
  {
    assert H.Encode(h) == buf[..H.HeaderSize] by {
      H.BytesRoundTrip(buf[..H.HeaderSize]);
    }
    assert FlatMap(qs, Q.Encode) == buf[H.HeaderSize..H.HeaderSize + Span(qs)] by {
      EchoesQuestionSection(buf, H.HeaderSize, h.qdCount);
    }
    SplitAt(buf, H.Encode(h), FlatMap(qs, Q.Encode));
    DecodedReadable(buf, H.HeaderSize, h.qdCount);
  }

  /** A buffer that starts with `header` and then `questions` is those two followed by the rest (the converse of `Sections`). */
  lemma SplitAt(buf: seq<uint8>, header: seq<uint8>, questions: seq<uint8>)
    requires |header| + |questions| <= |buf|
    requires buf[..|header|] == header && buf[|header|..|header| + |questions|] == questions
    ensures buf == header + questions + buf[|header| + |questions|..]
  {
    var n := |header| + |questions|;
    assert buf == buf[..|header|] + buf[|header|..n] + buf[n..];
  }

  /** The first 12 bytes of a request built from `h` decode to `h`. */
  lemma RequestHeaderDecodes(h: H.Header, questions: seq<uint8>, padding: seq<uint8>)
    requires H.FitsWidths(h)
    ensures var buf := H.Encode(h) + questions + padding;
      |buf| >= H.HeaderSize && H.Decode(buf[..H.HeaderSize]) == Ok(h)
  {
    H.ValueRoundTrip(h);
    Sections(H.Encode(h), questions, padding);
  }

  /** The questions of a request built from `h`, `qs` and padding decode to `qs`. */
  lemma RequestQuestionsDecode(h: H.Header, qs: seq<Q.Question>, padding: seq<uint8>)
    requires Readable(qs, ReceiveBufferSize - H.HeaderSize)
    requires H.HeaderSize + |FlatMap(qs, Q.Encode)| + |padding| == ReceiveBufferSize
    ensures var buf := H.Encode(h) + FlatMap(qs, Q.Encode) + padding;
      |buf| == ReceiveBufferSize && DecodeQuestions(buf, H.HeaderSize, |qs|) == Done(qs)
  {
    var buf := H.Encode(h) + FlatMap(qs, Q.Encode) + padding;
    Sections(H.Encode(h), FlatMap(qs, Q.Encode), padding);
    DecodesEncodedQuestions(buf, H.HeaderSize, qs);
  }

  /** The question loop as the Rust code runs it: a cursor from offset 12 and a growing list. */
  method ReadQuestions(buf: seq<uint8>, count: nat) returns (r: Outcome<seq<Q.Question>>)
    requires H.HeaderSize <= |buf|
    ensures r == DecodeQuestions(buf, H.HeaderSize, count)
  {
    var questions: seq<Q.Question> := [];
    var index: nat := H.HeaderSize;
    PrependNothing(DecodeQuestions(buf, index, count));
    for k := 0 to count
      invariant index <= |buf|
      invariant DecodeQuestions(buf, H.HeaderSize, count) == Prepend(questions, DecodeQuestions(buf, index, count - k))
    {
      if index == |buf| {
        return Panic(IndexOutOfBounds);
      }
      var question := Q.Parse(buf[index..]);
      if question.Err? {
        return Panic(Unwrapped(question.error));
      }
      DecodeStep(buf, index, count - k, question.value);
      PrependAssoc(questions, [question.value], DecodeQuestions(buf, index + question.value.sizeInBytes, count - k - 1));
      index := index + question.value.sizeInBytes;
      questions := questions + [question.value];
    }
    assert questions + [] == questions;
    r := Done(questions);
  }

  /** `questions.iter().flat_map(Vec::from).collect()`. */
  method WriteQuestions(questions: seq<Q.Question>) returns (bytes: seq<uint8>)
    ensures bytes == FlatMap(questions, Q.Encode)
  {
    bytes := [];
    for i := 0 to |questions|
      invariant bytes == FlatMap(questions[..i], Q.Encode)
    {
      var encoded := Q.Write(questions[i]);
      FlatMapSnoc(questions[..i], questions[i], Q.Encode);
      assert questions[..i + 1] == questions[..i] + [questions[i]];
      bytes := bytes + encoded;
    }
    assert questions[..|questions|] == questions;
  }

  /** `answers.iter().flat_map(Vec::from).collect()`. */
  method WriteAnswers(answers: seq<A.Answer>) returns (bytes: seq<uint8>)
    ensures bytes == FlatMap(answers, A.Encode)
  {
    bytes := [];
    for i := 0 to |answers|
      invariant bytes == FlatMap(answers[..i], A.Encode)
    {
      var encoded := A.Write(answers[i]);
      FlatMapSnoc(answers[..i], answers[i], A.Encode);
      assert answers[..i + 1] == answers[..i] + [answers[i]];
      bytes := bytes + encoded;
    }
    assert answers[..|answers|] == answers;
  }

  /** The body of the receive loop, as the Rust code runs it. */
  method HandleRequest(buf: seq<uint8>) returns (r: Outcome<seq<uint8>>)
    requires |buf| == ReceiveBufferSize
    ensures r == Respond(buf)
  {
    // `try_into().expect(..)` cannot fail: the slice always has 12 bytes.
    var header := H.Decode(buf[..H.HeaderSize]).value;
    var parsed := ReadQuestions(buf, header.qdCount);
    if parsed.Panic? {
      return Panic(parsed.cause);
    }
    var questions := parsed.value;
    var answers := SynthesizeAll(questions);

    header := header.(qr := true);
    header := header.(qdCount := 1);
    header := header.(anCount := 1);
    if header.opCode == 0 {
      header := header.(rcode := 0);
    } else {
      header := header.(rcode := 4);
    }
    var headerBytes := H.Pack(header);
    var questionBytes := WriteQuestions(questions);
    var answerBytes := WriteAnswers(answers);
    r := Done(headerBytes + questionBytes + answerBytes);
  }
}
