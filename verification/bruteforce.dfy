/** The brute-force fallback: recovers a text without metadata by trying, for each
    cipher letter, every letter of the same case under the forward rule, and
    records the positions where that does not single out one letter. */
module BruteForce {
  import opened Chars
  import opened Rules

  ghost predicate StrictlyIncreasing(s: seq<char>) {
    forall i, j :: 0 <= i < j < |s| ==> s[i] < s[j]
  }

  /** The lower-case letters 'a' to 'z', in order. */
  function LowerAlphabet(): seq<char>
  {
    seq(26, i requires 0 <= i < 26 => ('a' as int + i) as char)
  }

  /** The upper-case letters 'A' to 'Z', in order. */
  function UpperAlphabet(): seq<char>
  {
    seq(26, i requires 0 <= i < 26 => ('A' as int + i) as char)
  }

  /** Each alphabet holds exactly the letters of its case, in alphabetical order. */
  lemma AlphabetSpec()
    ensures |LowerAlphabet()| == 26 && |UpperAlphabet()| == 26
    ensures StrictlyIncreasing(LowerAlphabet()) && StrictlyIncreasing(UpperAlphabet())
    ensures forall p :: p in LowerAlphabet() <==> IsLower(p)
    ensures forall p :: p in UpperAlphabet() <==> IsUpper(p)
  {
    forall p | IsLower(p) ensures p in LowerAlphabet() {
      assert LowerAlphabet()[p as int - 'a' as int] == p;
    }
    forall p | IsUpper(p) ensures p in UpperAlphabet() {
      assert UpperAlphabet()[p as int - 'A' as int] == p;
    }
  }

  /** The letters of `ps` that the forward rule maps to `c`, in the order of `ps`. */
  function Matching(ps: seq<char>, c: char, shift1: int, shift2: int): seq<char>
  {
    if ps == [] then []
    else
      var n := |ps| - 1;
      Matching(ps[..n], c, shift1, shift2)
        + (if EncryptChar(ps[n], shift1, shift2).cipher == c then [ps[n]] else [])
  }

  /** A letter is among the matches exactly when it is in `ps` and encrypts to `c`. */
  lemma {:induction false} MatchingMembers(ps: seq<char>, c: char, shift1: int, shift2: int)
    ensures forall p :: p in Matching(ps, c, shift1, shift2) <==> p in ps && EncryptChar(p, shift1, shift2).cipher == c
  {
    if ps != [] {
      var n := |ps| - 1;
      MatchingMembers(ps[..n], c, shift1, shift2);
      assert ps == ps[..n] + [ps[n]];
    }
  }

  /** One more letter of `ps` extends the matches of a prefix by that letter or by nothing. */
  lemma MatchingStep(ps: seq<char>, j: nat, c: char, shift1: int, shift2: int)
    requires j < |ps|
    ensures Matching(ps[..j + 1], c, shift1, shift2)
            == Matching(ps[..j], c, shift1, shift2) + (if EncryptChar(ps[j], shift1, shift2).cipher == c then [ps[j]] else [])
  {
    assert ps[..j + 1][..j] == ps[..j];
  }

  /** Filtering keeps the order: the matches of an increasing sequence increase. */
  lemma {:induction false} MatchingIncreasing(ps: seq<char>, c: char, shift1: int, shift2: int)
    requires StrictlyIncreasing(ps)
    ensures StrictlyIncreasing(Matching(ps, c, shift1, shift2))
  {
    if ps != [] {
      var n := |ps| - 1;
      var init := Matching(ps[..n], c, shift1, shift2);
      MatchingIncreasing(ps[..n], c, shift1, shift2);
      MatchingMembers(ps[..n], c, shift1, shift2);
      forall p | p in init ensures p < ps[n] {
        var j :| 0 <= j < n && ps[..n][j] == p;
        assert ps[j] == p;
      }
      var tail := if EncryptChar(ps[n], shift1, shift2).cipher == c then [ps[n]] else [];
      var m := Matching(ps, c, shift1, shift2);
      assert m == init + tail;
      forall i, j | 0 <= i < j < |m| ensures m[i] < m[j] {
        if j >= |init| {
          assert m[j] == ps[n] && m[i] == init[i];
          assert init[i] in init;
        }
      }
    }
  }

  /** The candidates for a cipher character: the letters of its case's alphabet
      that the forward rule maps to it. */
  function Candidates(c: char, shift1: int, shift2: int): seq<char>
  {
    if IsLower(c) then Matching(LowerAlphabet(), c, shift1, shift2)
    else if IsUpper(c) then Matching(UpperAlphabet(), c, shift1, shift2)
    else []
  }

  /** The candidates are exactly the letters of the cipher character's own case
      that the forward rule maps to it, in alphabetical order; a non-letter has none. */
  lemma CandidatesSpec(c: char, shift1: int, shift2: int)
    ensures forall p :: p in Candidates(c, shift1, shift2) <==>
              IsLetter(p) && SameCase(p, c) && EncryptChar(p, shift1, shift2).cipher == c
    ensures StrictlyIncreasing(Candidates(c, shift1, shift2))
    ensures !IsLetter(c) ==> Candidates(c, shift1, shift2) == []
  {
    AlphabetSpec();
    if IsLower(c) {
      MatchingMembers(LowerAlphabet(), c, shift1, shift2);
      MatchingIncreasing(LowerAlphabet(), c, shift1, shift2);
    } else if IsUpper(c) {
      MatchingMembers(UpperAlphabet(), c, shift1, shift2);
      MatchingIncreasing(UpperAlphabet(), c, shift1, shift2);
    }
  }

  /** The character brute force outputs for cipher character `c`. */
  function BestEffort(c: char, shift1: int, shift2: int): char
  {
    var cands := Candidates(c, shift1, shift2);
    if IsLetter(c) then
      if |cands| == 1 then cands[0]
      else if cands != [] then cands[0]
      else c
    else
      c
  }

  /** Brute force keeps non-letters and the case of letters; a letter becomes its
      alphabetically first candidate (its only one when there is exactly one), or
      stays as it is when it has none. */
  lemma BestEffortSpec(c: char, shift1: int, shift2: int)
    ensures var p, cands := BestEffort(c, shift1, shift2), Candidates(c, shift1, shift2);
            SameCase(p, c) &&
            (!IsLetter(c) ==> p == c) &&
            (cands == [] ==> p == c) &&
            (cands != [] ==> p in cands && forall q :: q in cands ==> p <= q)
  {
    var cands := Candidates(c, shift1, shift2);
    CandidatesSpec(c, shift1, shift2);
    if cands != [] {
      forall q | q in cands ensures cands[0] <= q {
        var j :| 0 <= j < |cands| && cands[j] == q;
        if j > 0 {
          assert cands[0] < cands[j];
        }
      }
    }
  }

  /** One entry of the ambiguity report: position, cipher character, candidates. */
  datatype Ambiguity = Ambiguity(pos: nat, cipher: char, candidates: seq<char>)

  /** A position is ambiguous when its cipher character is a letter whose candidate
      count is not exactly one. */
  predicate IsAmbiguous(c: char, shift1: int, shift2: int) {
    IsLetter(c) && |Candidates(c, shift1, shift2)| != 1
  }

  /** The ambiguity report for `enc`, built position by position; every entry
      names a position of `enc`. */
  function Ambiguities(enc: string, shift1: int, shift2: int): (amb: seq<Ambiguity>)
    ensures forall k :: 0 <= k < |amb| ==> amb[k].pos < |enc|
  {
    if enc == [] then []
    else
      var n := |enc| - 1;
      var c := enc[n];
      Ambiguities(enc[..n], shift1, shift2)
        + (if IsAmbiguous(c, shift1, shift2) then [Ambiguity(n, c, Candidates(c, shift1, shift2))] else [])
  }

  /** Every entry of the report is for an ambiguous position and carries that
      position's cipher character and its candidates. */
  lemma {:induction false} AmbiguitiesSound(enc: string, shift1: int, shift2: int)
    ensures forall k :: 0 <= k < |Ambiguities(enc, shift1, shift2)| ==>
              var e := Ambiguities(enc, shift1, shift2)[k];
              IsAmbiguous(enc[e.pos], shift1, shift2) &&
              e == Ambiguity(e.pos, enc[e.pos], Candidates(enc[e.pos], shift1, shift2))
  {
    if enc != [] {
      var n := |enc| - 1;
      var prefix := enc[..n];
      var init := Ambiguities(prefix, shift1, shift2);
      AmbiguitiesSound(prefix, shift1, shift2);
      var amb := Ambiguities(enc, shift1, shift2);
      forall k | 0 <= k < |init| ensures amb[k] == init[k] && prefix[init[k].pos] == enc[init[k].pos] {
      }
    }
  }

  /** The report lists positions in strictly increasing order. */
  lemma {:induction false} AmbiguitiesOrdered(enc: string, shift1: int, shift2: int)
    ensures forall k, l :: 0 <= k < l < |Ambiguities(enc, shift1, shift2)| ==>
              Ambiguities(enc, shift1, shift2)[k].pos < Ambiguities(enc, shift1, shift2)[l].pos
  {
    if enc != [] {
      var n := |enc| - 1;
      var init := Ambiguities(enc[..n], shift1, shift2);
      AmbiguitiesOrdered(enc[..n], shift1, shift2);
      var amb := Ambiguities(enc, shift1, shift2);
      forall k | 0 <= k < |init| ensures amb[k] == init[k] {
      }
    }
  }

  /** Every ambiguous position has an entry in the report; `k` is its index. */
  lemma {:induction false} AmbiguityReported(enc: string, i: nat, shift1: int, shift2: int) returns (k: nat)
    requires i < |enc| && IsAmbiguous(enc[i], shift1, shift2)
    ensures k < |Ambiguities(enc, shift1, shift2)| && Ambiguities(enc, shift1, shift2)[k].pos == i
  {
    var n := |enc| - 1;
    var prefix := enc[..n];
    var init := Ambiguities(prefix, shift1, shift2);
    var amb := Ambiguities(enc, shift1, shift2);
    if i < n {
      assert prefix[i] == enc[i];
      k := AmbiguityReported(prefix, i, shift1, shift2);
      assert amb[k] == init[k];
    } else {
      k := |init|;
    }
  }

  /** The forward rule for a lower-case letter, as the candidate search writes it
      out: a-m moves by s1*s2, n-z back by s1+s2. */
  lemma LowerForward(p: char, shift1: int, shift2: int)
    requires IsLower(p)
    ensures var s1, s2 := shift1 % 26, shift2 % 26;
            EncryptChar(p, shift1, shift2).cipher ==
              if Classify(p) == L1 then ShiftChar(p, (s1 * s2) % 26) else ShiftChar(p, -((s1 + s2) % 26))
  {
  }

  /** The forward rule for an upper-case letter, as the candidate search writes it
      out: A-M moves back by s1, N-Z by s2*s2. */
  lemma UpperForward(p: char, shift1: int, shift2: int)
    requires IsUpper(p)
    ensures var s1, s2 := shift1 % 26, shift2 % 26;
            EncryptChar(p, shift1, shift2).cipher ==
              if Classify(p) == U1 then ShiftChar(p, -s1) else ShiftChar(p, (s2 * s2) % 26)
  {
  }

  /** The candidate search for a lower-case cipher letter: tries 'a' to 'z' in
      order and keeps each letter whose forward rule gives the cipher letter. */
  method LowerCandidates(c: char, shift1: int, shift2: int) returns (candidates: seq<char>)
    requires IsLower(c)
    ensures candidates == Candidates(c, shift1, shift2)
  {
    var s1 := shift1 % 26;
    var s2 := shift2 % 26;
    var alphabet := LowerAlphabet();
    candidates := [];
    for j := 0 to 26
      invariant candidates == Matching(alphabet[..j], c, shift1, shift2)
    {
      var p := alphabet[j];
      LowerForward(p, shift1, shift2);
      var e;
      if Classify(p) == L1 {
        e := ShiftChar(p, (s1 * s2) % 26);
      } else {
        e := ShiftChar(p, -((s1 + s2) % 26));
      }
      if e == c {
        candidates := candidates + [p];
      }
      MatchingStep(alphabet, j, c, shift1, shift2);
    }
    assert alphabet[..26] == alphabet;
  }

  /** The candidate search for an upper-case cipher letter: tries 'A' to 'Z' in
      order and keeps each letter whose forward rule gives the cipher letter. */
  method UpperCandidates(c: char, shift1: int, shift2: int) returns (candidates: seq<char>)
    requires IsUpper(c)
    ensures candidates == Candidates(c, shift1, shift2)
  {
    var s1 := shift1 % 26;
    var s2 := shift2 % 26;
    var alphabet := UpperAlphabet();
    candidates := [];
    for j := 0 to 26
      invariant candidates == Matching(alphabet[..j], c, shift1, shift2)
    {
      var p := alphabet[j];
      UpperForward(p, shift1, shift2);
      var e;
      if Classify(p) == U1 {
        e := ShiftChar(p, -s1);
      } else {
        e := ShiftChar(p, (s2 * s2) % 26);
      }
      if e == c {
        candidates := candidates + [p];
      }
      MatchingStep(alphabet, j, c, shift1, shift2);
    }
    assert alphabet[..26] == alphabet;
  }

  /** The recovery loop: one output character per cipher character, and an
      ambiguity entry for each ambiguous position, in order. */
  method BruteForceDecrypt(enc: string, shift1: int, shift2: int) returns (dec: string, amb: seq<Ambiguity>)
    ensures |dec| == |enc|
    ensures forall i :: 0 <= i < |enc| ==> dec[i] == BestEffort(enc[i], shift1, shift2)
    ensures amb == Ambiguities(enc, shift1, shift2)
  {
    dec, amb := [], [];
    for i := 0 to |enc|
      invariant |dec| == i
      invariant forall j :: 0 <= j < i ==> dec[j] == BestEffort(enc[j], shift1, shift2)
      invariant amb == Ambiguities(enc[..i], shift1, shift2)
    {
      var c := enc[i];
      if IsLetter(c) {
        var candidates;
        if IsLower(c) {
          candidates := LowerCandidates(c, shift1, shift2);
        } else {
          candidates := UpperCandidates(c, shift1, shift2);
        }
        if |candidates| == 1 {
          dec := dec + [candidates[0]];
        } else {
          dec := dec + [if candidates != [] then candidates[0] else c];
          amb := amb + [Ambiguity(i, c, candidates)];
        }
      } else {
        dec := dec + [c];
      }
      assert enc[..i + 1][..i] == enc[..i];
    }
    assert enc[..|enc|] == enc;
  }

  /** The encrypted letter is always among the candidates of its cipher letter. */
  lemma OriginalIsCandidate(p: char, shift1: int, shift2: int)
    requires IsLetter(p)
    ensures p in Candidates(EncryptChar(p, shift1, shift2).cipher, shift1, shift2)
  {
    CandidatesSpec(EncryptChar(p, shift1, shift2).cipher, shift1, shift2);
  }

  /** The collision the scheme allows: with shifts 0 and 13, 'a' (a-m, moved by
      0) and 'n' (n-z, moved back by 13) both encrypt to 'a', so a cipher 'a'
      is ambiguous. */
  lemma CollisionAtThirteen()
    ensures IsAmbiguous('a', 0, 13)
  {
    var cands := Candidates('a', 0, 13);
    CandidatesSpec('a', 0, 13);
    assert EncryptChar('n', 0, 13).cipher == 'a';
    assert 'a' in cands && 'n' in cands;
  }

  /** A strictly increasing sequence holds no value twice: one whose elements all
      equal `c` has at most one element. */
  lemma IncreasingHasNoRepeats(s: seq<char>, c: char)
    requires StrictlyIncreasing(s)
    requires forall i :: 0 <= i < |s| ==> s[i] == c
    ensures |s| <= 1
  {
    if |s| >= 2 {
      assert s[0] < s[1];
    }
  }

  /** When both shifts are multiples of 26 every letter is its own only candidate,
      so brute force recovers every position and reports none. */
  lemma ZeroShiftsUnambiguous(c: char, shift1: int, shift2: int)
    requires IsLetter(c)
    requires shift1 % 26 == 0 && shift2 % 26 == 0
    ensures Candidates(c, shift1, shift2) == [c]
    ensures !IsAmbiguous(c, shift1, shift2) && BestEffort(c, shift1, shift2) == c
  {
    var cands := Candidates(c, shift1, shift2);
    CandidatesSpec(c, shift1, shift2);
    forall i | 0 <= i < |cands| ensures cands[i] == c {
      assert cands[i] in cands;
      ZeroShiftsEncryptIdentity(cands[i], shift1, shift2);
    }
    ZeroShiftsEncryptIdentity(c, shift1, shift2);
    assert c in cands;
    IncreasingHasNoRepeats(cands, c);
  }
}
