/**
 * Two concrete exchanges: a standard query for `abc.com`, and the same
 * query with an operation code the server does not implement.
 */
module Scenarios {
  import opened Bytes
  import H = HeaderCodec
  import Q = QuestionCodec
  import A = AnswerCodec
  import opened Responder

  /** A query with id 0x1234, recursion desired, one question, and the given operation code. */
  function Query(opCode: bv8): H.Header
  {
    H.Header(0x1234, false, opCode, false, false, true, false, 0, 0, 1, 0, 0, 0)
  }

  /** `abc.com`, type A, class IN, as length-prefixed labels. */
  function AbcCom(): Q.Question
  {
    Q.Question([3, 97, 98, 99, 3, 99, 111, 109, 0], 1, 1, 13)
  }

  /** The placeholder answer for `abc.com`: four bytes of address, sixty seconds to live. */
  function AbcComAnswer(): A.Answer
  {
    A.Answer([3, 97, 98, 99, 3, 99, 111, 109, 0], 1, 1, 60, 4, [1, 1, 1, 1])
  }

  /** The response for a query with the given operation code, whatever bytes follow the question. */
  lemma Exchange(opCode: bv8, padding: seq<uint8>, rcode: bv8)
    requires opCode < 16 && |padding| == ReceiveBufferSize - H.HeaderSize - 13
    requires rcode == if opCode == 0 then 0 else 4
    ensures Respond(H.Encode(Query(opCode)) + Q.Encode(AbcCom()) + padding) ==
      Done(H.Encode(Query(opCode).(qr := true, anCount := 1, rcode := rcode))
        + Q.Encode(AbcCom()) + A.Encode(AbcComAnswer()))
  {
    var q := AbcCom();
    assert [q][1..] == [];
    assert FlatMap([q], Q.Encode) == Q.Encode(q);
    assert SynthesizeAll([q]) == [AbcComAnswer()];
    assert [AbcComAnswer()][1..] == [];
    assert FlatMap([AbcComAnswer()], A.Encode) == A.Encode(AbcComAnswer());
    EndToEnd(Query(opCode), [q], padding);
  }

  /** A standard query is answered with rcode 0, one question and one answer. */
  lemma StandardQuery(padding: seq<uint8>)
    requires |padding| == ReceiveBufferSize - H.HeaderSize - 13
    ensures Respond(H.Encode(Query(0)) + Q.Encode(AbcCom()) + padding) ==
      Done(H.Encode(Query(0).(qr := true, anCount := 1)) + Q.Encode(AbcCom()) + A.Encode(AbcComAnswer()))
  {
    Exchange(0, padding, 0);
    assert Query(0).(qr := true, anCount := 1, rcode := 0) == Query(0).(qr := true, anCount := 1);
  }

  /**
   * An inverse query (operation code 1) gets rcode 4, "not implemented",
   * yet still one answer and an answer count of 1.
   */
  lemma InverseQuery(padding: seq<uint8>)
    requires |padding| == ReceiveBufferSize - H.HeaderSize - 13
    ensures Respond(H.Encode(Query(1)) + Q.Encode(AbcCom()) + padding) ==
      Done(H.Encode(Query(1).(qr := true, anCount := 1, rcode := 4)) + Q.Encode(AbcCom()) + A.Encode(AbcComAnswer()))
  {
    Exchange(1, padding, 4);
  }
}
