/** The per-character shift rules: the forward rule that encrypts one character
    and records its code, and the inverse rule driven by a recorded metadata value. */
module Rules {
  import opened Chars

  /** One JSON value, as the metadata file may hold it once it is parsed: the
      encoder writes a list of strings, but a damaged or foreign file may hold
      anything (numbers, booleans, null and objects are all `JOther`). */
  datatype JsonValue = JString(s: string) | JArray(items: seq<JsonValue>) | JOther

  /** The string token under which a code is written to the metadata list. */
  function CodeName(k: Code): string
  {
    match k
    case L1 => "L1"
    case L2 => "L2"
    case U1 => "U1"
    case U2 => "U2"
    case O => "O"
  }

  /** A cipher character together with the code recorded for it. */
  datatype Encrypted = Encrypted(cipher: char, code: Code)

  /** The forward rule: a-m moves by s1*s2, n-z back by s1+s2, A-M back by s1,
      N-Z by s2*s2 (s1, s2 the shifts reduced modulo 26); anything else is kept.
      The recorded code is the character's class, and a letter stays a letter of
      its case. */
  function EncryptChar(c: char, shift1: int, shift2: int): (e: Encrypted)
    ensures e.code == Classify(c)
    ensures e.code == O ==> e.cipher == c
    ensures SameCase(e.cipher, c)
  {
    var code := Classify(c);
    var s1 := shift1 % 26;
    var s2 := shift2 % 26;
    match code
    case L1 => Encrypted(ShiftChar(c, (s1 * s2) % 26), code)
    case L2 => Encrypted(ShiftChar(c, -((s1 + s2) % 26)), code)
    case U1 => Encrypted(ShiftChar(c, -s1), code)
    case U2 => Encrypted(ShiftChar(c, (s2 * s2) % 26), code)
    case O => Encrypted(c, code)
  }

  /** The inverse rule, chosen by the recorded metadata value. A value that is
      not one of the four letter codes (the string "O", any other string, or any
      non-string value) leaves the character unchanged; letters keep their case. */
  function InverseByMeta(cipher: char, meta: JsonValue, shift1: int, shift2: int): (p: char)
    ensures SameCase(p, cipher)
    ensures meta !in {JString("L1"), JString("L2"), JString("U1"), JString("U2")} ==> p == cipher
  {
    var s1 := shift1 % 26;
    var s2 := shift2 % 26;
    if meta == JString("L1") then ShiftChar(cipher, -((s1 * s2) % 26))
    else if meta == JString("L2") then ShiftChar(cipher, (s1 + s2) % 26)
    else if meta == JString("U1") then ShiftChar(cipher, s1)
    else if meta == JString("U2") then ShiftChar(cipher, -((s2 * s2) % 26))
    else cipher
  }

  /** The inverse rule undoes the forward rule: for every character and every pair
      of shifts (negative ones and 0, 0 included), decrypting the cipher character
      under its recorded code gives the character back. */
  lemma CharRoundTrip(c: char, shift1: int, shift2: int)
    ensures var e := EncryptChar(c, shift1, shift2);
            InverseByMeta(e.cipher, JString(CodeName(e.code)), shift1, shift2) == c
  {
    var s1 := shift1 % 26;
    var s2 := shift2 % 26;
    match Classify(c)
    case L1 => ShiftRoundTrip(c, (s1 * s2) % 26);
    case L2 => ShiftRoundTrip(c, -((s1 + s2) % 26));
    case U1 => ShiftRoundTrip(c, -s1);
    case U2 => ShiftRoundTrip(c, (s2 * s2) % 26);
    case O =>
  }

  /** When both shifts are multiples of 26 every rule shifts by 0: the forward rule
      is the identity. */
  lemma ZeroShiftsEncryptIdentity(c: char, shift1: int, shift2: int)
    requires shift1 % 26 == 0 && shift2 % 26 == 0
    ensures EncryptChar(c, shift1, shift2).cipher == c
  {
  }
}
