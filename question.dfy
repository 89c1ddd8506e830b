/**
 * One entry of the question section: the name, then the 16-bit type and
 * class. The name is taken as the raw bytes up to and including the first
 * zero byte; labels are not walked and compression pointers are not
 * followed.
 */
module QuestionCodec {
  import opened Errors
  import opened Bytes

  /** A decoded question and the number of bytes it occupied. */
  datatype Question = Question(name: seq<uint8>, qtype: uint16, qclass: uint16, sizeInBytes: nat)

  /** The position of the first zero byte at or after `from`, or `|bytes|` when there is none. */
  function FirstZero(bytes: seq<uint8>, from: nat): (k: nat)
    requires from <= |bytes|
    ensures from <= k <= |bytes|
    decreases |bytes| - from
  {
    if from == |bytes| || bytes[from] == 0 then from else FirstZero(bytes, from + 1)
  }

  /** `FirstZero` stops at a zero byte or at the end, and passes over no zero byte. */
  lemma {:induction false} FirstZeroIsFirst(bytes: seq<uint8>, from: nat)
    requires from <= |bytes|
    ensures var k := FirstZero(bytes, from);
      (k == |bytes| || bytes[k] == 0) && forall j :: from <= j < k ==> bytes[j] != 0
    decreases |bytes| - from
  {
    if from < |bytes| && bytes[from] != 0 {
      FirstZeroIsFirst(bytes, from + 1);
    }
  }

  /** A zero byte with no zero byte before it is the one `FirstZero` finds. */
  lemma FirstZeroAt(bytes: seq<uint8>, k: nat)
    requires k < |bytes| && bytes[k] == 0
    requires forall j :: 0 <= j < k ==> bytes[j] != 0
    ensures FirstZero(bytes, 0) == k
  {
    FirstZeroIsFirst(bytes, 0);
  }

  /** Without a zero byte `FirstZero` runs to the end. */
  lemma FirstZeroNone(bytes: seq<uint8>)
    requires forall j :: 0 <= j < |bytes| ==> bytes[j] != 0
    ensures FirstZero(bytes, 0) == |bytes|
  {
    FirstZeroIsFirst(bytes, 0);
  }

  /** A name as the decoder returns it: a non-zero first byte, and a single zero byte, at the end. */
  predicate ValidName(name: seq<uint8>)
  {
    |name| > 0 && name[0] != 0 && name[|name| - 1] == 0 &&
    forall i :: 0 <= i < |name| - 1 ==> name[i] != 0
  }

  /**
   * `DnsMessageQuestion::try_from`. The Rust code reads the first byte without
   * a length check, so the input must not be empty.
   */
  function Decode(bytes: seq<uint8>): (r: Result<Question>)
    requires |bytes| > 0
    ensures r.Err? ==> r.error == InvalidQuestion
    ensures r.Ok? ==> r.value.sizeInBytes == |r.value.name| + 4 <= |bytes|
  {
    if bytes[0] == 0 then Err(InvalidQuestion)
    else if |bytes| < bytes[0] as int + 1 then Err(InvalidQuestion)
    else
      var name := bytes[..FirstZero(bytes, 0)] + [0];  // `take_while(|b| *b != 0)`, then the terminator
      if |name| + 4 > |bytes| then Err(InvalidQuestion)
      else
        Ok(Question(
          name,
          Word16(bytes[|name|], bytes[|name| + 1]),
          Word16(bytes[|name| + 2], bytes[|name| + 3]),
          |name| + 4))
  }

  /**
   * What a successful decode returns: the input up to and including its
   * first zero byte as the name, then the two big-endian words right after it.
   */
  lemma Decoded(bytes: seq<uint8>)
    requires |bytes| > 0 && Decode(bytes).Ok?
    ensures var q := Decode(bytes).value;
      ValidName(q.name) && q.name == bytes[..|q.name|] &&
      q.qtype == Word16(bytes[|q.name|], bytes[|q.name| + 1]) &&
      q.qclass == Word16(bytes[|q.name| + 2], bytes[|q.name| + 3])
  {
    FirstZeroIsFirst(bytes, 0);
  }

  /** `Vec::<u8>::from(&question)`: the name, then the type and class big-endian. */
  function Encode(q: Question): (r: seq<uint8>)
    ensures |r| == |q.name| + 4 && r[..|q.name|] == q.name
  {
    q.name + Be16(q.qtype) + Be16(q.qclass)
  }

  /** The type and class are read back from the four bytes after the name. */
  lemma EncodedWords(q: Question)
    ensures var r, n := Encode(q), |q.name|;
      Word16(r[n], r[n + 1]) == q.qtype && Word16(r[n + 2], r[n + 3]) == q.qclass
  {
    Be16Inverse(q.qtype);
    Be16Inverse(q.qclass);
  }

  /** Encoding as the Rust code does it: a buffer started from the name and extended twice. */
  method Write(q: Question) returns (bytes: seq<uint8>)
    ensures bytes == Encode(q)
  {
    bytes := q.name;
    bytes := bytes + Be16(q.qtype);
    bytes := bytes + Be16(q.qclass);
  }

  /**
   * Decoding as the Rust code does it: the name collected byte by byte up to
   * the first zero, the terminator pushed, then the length checks.
   */
  method Parse(bytes: seq<uint8>) returns (r: Result<Question>)
    requires |bytes| > 0
    ensures r == Decode(bytes)
  {
    if bytes[0] == 0 {
      return Err(InvalidQuestion);
    }
    if |bytes| < bytes[0] as int + 1 {
      return Err(InvalidQuestion);
    }
    var name: seq<uint8> := [];
    var i := 0;
    while i < |bytes| && bytes[i] != 0
      invariant 0 <= i <= |bytes|
      invariant name == bytes[..i]
      invariant FirstZero(bytes, i) == FirstZero(bytes, 0)
    {
      name := name + [bytes[i]];
      i := i + 1;
    }
    name := name + [0];
    if |name| + 4 > |bytes| {
      return Err(InvalidQuestion);
    }
    var qtype := Word16(bytes[|name|], bytes[|name| + 1]);
    var qclass := Word16(bytes[|name| + 2], bytes[|name| + 3]);
    r := Ok(Question(name, qtype, qclass, |name| + 4));
  }

  /**
   * The decoder accepts exactly when the first byte is non-zero, at most
   * that byte's value follows it, and a zero byte occurs with at least four
   * bytes after it.
   */
  lemma AcceptsExactly(bytes: seq<uint8>)
    requires |bytes| > 0
    ensures Decode(bytes).Ok? <==>
      bytes[0] != 0 && bytes[0] < |bytes| &&
      exists k :: 0 <= k < |bytes| - 4 && bytes[k] == 0
  {
    if bytes[0] != 0 && bytes[0] < |bytes| {
      FirstZeroIsFirst(bytes, 0);
      var p := FirstZero(bytes, 0);
      if exists k :: 0 <= k < |bytes| - 4 && bytes[k] == 0 {
        var k :| 0 <= k < |bytes| - 4 && bytes[k] == 0;
        assert p <= k;
      }
    }
  }

  /** A question whose name is valid decodes from its own encoding, whatever follows it. */
  lemma RoundTrip(q: Question, rest: seq<uint8>)
    requires ValidName(q.name)
    requires q.name[0] < |q.name| + 4 + |rest|
    ensures Decode(Encode(q) + rest) == Ok(q.(sizeInBytes := |q.name| + 4))
  {
    var bytes := Encode(q) + rest;
    var n := |q.name|;
    assert bytes[..n] == q.name;
    assert bytes[n - 1] == 0;
    FirstZeroAt(bytes, n - 1);
    assert bytes[..n - 1] + [0] == q.name;
    EncodedWords(q);
  }

  /** A buffer that starts with the encoding of a question with a valid name decodes to that question. */
  lemma DecodesAt(bytes: seq<uint8>, q: Question)
    requires ValidName(q.name) && |q.name| + 4 <= |bytes| && q.name[0] < |bytes|
    requires bytes[..|q.name| + 4] == Encode(q)
    ensures Decode(bytes) == Ok(q.(sizeInBytes := |q.name| + 4))
  {
    assert bytes == Encode(q) + bytes[|q.name| + 4..];
    RoundTrip(q, bytes[|q.name| + 4..]);
  }

  /** Decoding reads exactly the bytes that encoding the result writes. */
  lemma DecodeEncode(bytes: seq<uint8>)
    requires |bytes| > 0 && Decode(bytes).Ok?
    ensures Encode(Decode(bytes).value) == bytes[..Decode(bytes).value.sizeInBytes]
  {
    var q := Decode(bytes).value;
    var n := |q.name|;
    Decoded(bytes);
    Word16Inverse(bytes[n], bytes[n + 1]);
    Word16Inverse(bytes[n + 2], bytes[n + 3]);
    assert bytes[..n + 4] == bytes[..n] + [bytes[n], bytes[n + 1]] + [bytes[n + 2], bytes[n + 3]];
  }

  /** A question cut short anywhere, even by one byte of its class, is rejected. */
  lemma TruncatedRejected(q: Question, k: nat)
    requires ValidName(q.name)
    requires 0 < k < |q.name| + 4
    ensures Decode(Encode(q)[..k]) == Err(InvalidQuestion)
  {
    var bytes := Encode(q)[..k];
    var n := |q.name|;
    if k >= n {
      assert bytes[n - 1] == q.name[n - 1] == 0;
      FirstZeroAt(bytes, n - 1);
    } else {
      assert forall i :: 0 <= i < k ==> bytes[i] == q.name[i];
      FirstZeroNone(bytes);
    }
  }
}
