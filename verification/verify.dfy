/** The final comparison of the original and the recovered text, and the whole
    encrypt, decrypt and verify sequence with the files replaced by values. */
module Verify {
  import opened Encoder
  import opened BruteForce
  import opened Decrypt

  /** Verification succeeds exactly when the two texts agree in length and at
      every position. */
  function VerifyTexts(raw: string, dec: string): (ok: bool)
    ensures ok <==> |raw| == |dec| && forall i :: 0 <= i < |raw| ==> raw[i] == dec[i]
  {
    raw == dec
  }

  /** Encrypts `raw`, decrypts the result and verifies it. When `metadataIntact`
      holds, the decryptor reads back the list the encoder wrote; otherwise the
      metadata file is missing and brute force runs. With the metadata, recovery is
      exact and verification succeeds; without it, every position the ambiguity
      report does not list is still recovered correctly. */
  method RunPipeline(raw: string, shift1: int, shift2: int, metadataIntact: bool)
    returns (dec: string, amb: seq<Ambiguity>, ok: bool)
    ensures ok <==> dec == raw
    ensures |dec| == |raw|
    ensures metadataIntact ==> ok && amb == []
    ensures forall i :: 0 <= i < |raw| && (forall k :: 0 <= k < |amb| ==> amb[k].pos != i) ==> dec[i] == raw[i]
  {
    var enc, meta := EncryptText(raw, shift1, shift2);
    var load := if metadataIntact then Loaded(MetaToJson(meta)) else Missing;
    dec, amb := DecryptText(enc, load, shift1, shift2);
    MetadataRoundTrip(raw, enc, meta, shift1, shift2);
    if !metadataIntact {
      forall i | 0 <= i < |raw| && (forall k :: 0 <= k < |amb| ==> amb[k].pos != i)
        ensures dec[i] == raw[i]
      {
        BruteForceSound(raw, enc, meta, shift1, shift2, i);
      }
    }
    ok := VerifyTexts(raw, dec);
  }
}
