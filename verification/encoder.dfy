/** The encoder: encrypts a text character by character, building the cipher text
    and the metadata list side by side. */
module Encoder {
  import opened Chars
  import opened Rules

  /** `enc` and `meta` are what encrypting `raw` one character at a time yields:
      both have the length of `raw`, and position i of each is the forward rule's
      cipher character and code for `raw[i]`. */
  ghost predicate IsEncoding(raw: string, enc: string, meta: seq<Code>, shift1: int, shift2: int) {
    |enc| == |raw| && |meta| == |raw| &&
    forall i :: 0 <= i < |raw| ==> EncryptChar(raw[i], shift1, shift2) == Encrypted(enc[i], meta[i])
  }

  /** The encode loop: appends each cipher character and each code in turn. */
  method EncryptText(raw: string, shift1: int, shift2: int) returns (enc: string, meta: seq<Code>)
    ensures |enc| == |raw| && |meta| == |raw|
    ensures IsEncoding(raw, enc, meta, shift1, shift2)
  {
    enc, meta := [], [];
    for i := 0 to |raw|
      invariant IsEncoding(raw[..i], enc, meta, shift1, shift2)
    {
      var e := EncryptChar(raw[i], shift1, shift2);
      enc := enc + [e.cipher];
      meta := meta + [e.code];
    }
    assert raw[..|raw|] == raw;
  }

  /** The metadata list as it is written out and read back: a JSON array holding
      each code's string token. */
  function MetaToJson(meta: seq<Code>): (j: JsonValue)
  {
    JArray(seq(|meta|, i requires 0 <= i < |meta| => JString(CodeName(meta[i]))))
  }
}
