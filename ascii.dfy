/** Python's `bytes.decode("ascii")` and its inverse `str.encode("ascii")`. */
module Ascii {
  import opened Wrappers
  import opened Bytes

  predicate IsAscii(s: string) {
    forall i | 0 <= i < |s| :: s[i] as int < 128
  }

  /** The characters whose code points are the bytes; `None` (a `UnicodeDecodeError`) if a byte is 128 or more. */
  function Decode(b: seq<Byte>): (r: Option<string>)
    ensures r.Some? <==> forall i | 0 <= i < |b| :: b[i] < 128
    ensures r.Some? ==> |r.value| == |b| && forall i | 0 <= i < |b| :: r.value[i] as int == b[i]
  {
    if b == [] then Some([])
    else if b[0] >= 128 then None
    else
      match Decode(b[1..])
      case None => None
      case Some(rest) => Some([b[0] as char] + rest)
  }

  /** The bytes of an ASCII string. */
  function Encode(s: string): (b: seq<Byte>)
    requires IsAscii(s)
  {
    seq(|s|, i requires 0 <= i < |s| => s[i] as int)
  }

  /** Decoding undoes encoding. */
  lemma DecodeEncode(s: string)
    requires IsAscii(s)
    ensures Decode(Encode(s)) == Some(s)
  {
    var r := Decode(Encode(s));
    assert r.value == s;
  }
}
