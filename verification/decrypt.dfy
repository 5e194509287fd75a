/** Decryption: the validity test on the loaded metadata, the metadata-guided
    decoder, the one-time choice between it and brute force, and what each path
    guarantees about a text produced by the encoder. */
module Decrypt {
  import opened Chars
  import opened Rules
  import opened Encoder
  import opened BruteForce

  datatype Option<T> = None | Some(value: T)

  /** What trying to load the metadata file gave: no file, a file that could not
      be read or parsed, or the JSON value it held. */
  datatype MetaLoad = Missing | Unreadable | Loaded(value: JsonValue)

  /** The metadata is used only if it loaded as a JSON list whose length is the
      cipher text's; anything else means falling back to brute force. */
  function UsableMeta(load: MetaLoad, cipherLen: nat): (r: Option<seq<JsonValue>>)
    ensures r.Some? <==> load.Loaded? && load.value.JArray? && |load.value.items| == cipherLen
    ensures r.Some? ==> r.value == load.value.items
  {
    match load
    case Loaded(JArray(items)) => if |items| == cipherLen then Some(items) else None
    case _ => None
  }

  /** The metadata-guided decoder: the inverse rule at every position, chosen by
      the metadata value at that position. Letters keep their case, and a position
      whose value is not a letter code keeps its cipher character. */
  function DecodeWithMeta(enc: string, meta: seq<JsonValue>, shift1: int, shift2: int): (dec: string)
    requires |meta| == |enc|
    ensures |dec| == |enc|
    ensures forall i :: 0 <= i < |enc| ==> SameCase(dec[i], enc[i])
    ensures forall i :: 0 <= i < |enc| && meta[i] !in {JString("L1"), JString("L2"), JString("U1"), JString("U2")} ==>
              dec[i] == enc[i]
  {
    seq(|enc|, i requires 0 <= i < |enc| => InverseByMeta(enc[i], meta[i], shift1, shift2))
  }

  /** The metadata round trip: the list the encoder writes passes the validity test
      against its own cipher text, and decoding with it gives back the original
      text exactly, for every pair of shifts. */
  lemma MetadataRoundTrip(raw: string, enc: string, meta: seq<Code>, shift1: int, shift2: int)
    requires IsEncoding(raw, enc, meta, shift1, shift2)
    ensures UsableMeta(Loaded(MetaToJson(meta)), |enc|) == Some(MetaToJson(meta).items)
    ensures DecodeWithMeta(enc, MetaToJson(meta).items, shift1, shift2) == raw
  {
    var dec := DecodeWithMeta(enc, MetaToJson(meta).items, shift1, shift2);
    forall i | 0 <= i < |raw| ensures dec[i] == raw[i] {
      CharRoundTrip(raw[i], shift1, shift2);
    }
  }

  /** Decryption chooses its path once: with usable metadata it decodes exactly and
      reports no ambiguity; otherwise it runs brute force and returns its output
      and its ambiguity report. */
  method DecryptText(enc: string, load: MetaLoad, shift1: int, shift2: int)
    returns (dec: string, amb: seq<Ambiguity>)
    ensures UsableMeta(load, |enc|).Some? ==>
              dec == DecodeWithMeta(enc, UsableMeta(load, |enc|).value, shift1, shift2) && amb == []
    ensures UsableMeta(load, |enc|).None? ==>
              |dec| == |enc| &&
              (forall i :: 0 <= i < |enc| ==> dec[i] == BestEffort(enc[i], shift1, shift2)) &&
              amb == Ambiguities(enc, shift1, shift2)
  {
    var meta := UsableMeta(load, |enc|);
    if meta.Some? {
      dec := DecodeWithMeta(enc, meta.value, shift1, shift2);
      amb := [];
    } else {
      dec, amb := BruteForceDecrypt(enc, shift1, shift2);
    }
  }

  /** Soundness of brute force: on a text the encoder produced with the same
      shifts, every position missing from the ambiguity report is recovered
      correctly, that is, as the metadata-guided decoder recovers it. */
  lemma BruteForceSound(raw: string, enc: string, meta: seq<Code>, shift1: int, shift2: int, i: nat)
    requires IsEncoding(raw, enc, meta, shift1, shift2)
    requires i < |enc|
    requires forall k :: 0 <= k < |Ambiguities(enc, shift1, shift2)| ==> Ambiguities(enc, shift1, shift2)[k].pos != i
    ensures BestEffort(enc[i], shift1, shift2) == raw[i]
    ensures BestEffort(enc[i], shift1, shift2) == DecodeWithMeta(enc, MetaToJson(meta).items, shift1, shift2)[i]
  {
    MetadataRoundTrip(raw, enc, meta, shift1, shift2);
    var c := enc[i];
    if IsAmbiguous(c, shift1, shift2) {
      var k := AmbiguityReported(enc, i, shift1, shift2);
      assert false;
    }
    if IsLetter(raw[i]) {
      OriginalIsCandidate(raw[i], shift1, shift2);
      var cands := Candidates(c, shift1, shift2);
      assert raw[i] in cands;
    }
  }
}
