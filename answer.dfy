/**
 * One resource record of the answer section (the Rust code's
 * `DnsMessageResponse`). Only encoding exists: records are synthesised by
 * the server, never decoded.
 */
module AnswerCodec {
  import opened Bytes

  datatype Answer = Answer(name: seq<uint8>, qtype: uint16, qclass: uint16, ttl: uint32, length: uint16, data: seq<uint8>)

  /** The declared data length is the length of the data, as RFC 1035 requires of RDLENGTH. */
  predicate Consistent(a: Answer)
  {
    a.length == |a.data|
  }

  /** `Vec::<u8>::from(&answer)`: name, type, class, ttl, length, data, all big-endian. */
  function Encode(a: Answer): (r: seq<uint8>)
    ensures |r| == |a.name| + 10 + |a.data|
    ensures r[..|a.name|] == a.name && r[|a.name| + 10..] == a.data
  {
    a.name + Be16(a.qtype) + Be16(a.qclass) + Be32(a.ttl) + Be16(a.length) + a.data
  }

  /** Every fixed-width field is read back from its place after the name. */
  lemma EncodedWords(a: Answer)
    ensures var r, n := Encode(a), |a.name|;
      Word16(r[n], r[n + 1]) == a.qtype && Word16(r[n + 2], r[n + 3]) == a.qclass &&
      Word32(r[n + 4], r[n + 5], r[n + 6], r[n + 7]) == a.ttl && Word16(r[n + 8], r[n + 9]) == a.length
  {
    Be16Inverse(a.qtype);
    Be16Inverse(a.qclass);
    Be32Inverse(a.ttl);
    Be16Inverse(a.length);
  }

  /** Encoding as the Rust code does it: a buffer started from the name and extended five times. */
  method Write(a: Answer) returns (bytes: seq<uint8>)
    ensures bytes == Encode(a)
  {
    bytes := a.name;
    bytes := bytes + Be16(a.qtype);
    bytes := bytes + Be16(a.qclass);
    bytes := bytes + Be32(a.ttl);
    bytes := bytes + Be16(a.length);
    bytes := bytes + a.data;
  }
}
