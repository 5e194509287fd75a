# Metadata-assisted character cipher — Dafny model

This project models the character cipher of `code/question-one/chipher.py`.

Every character of a text gets one of five codes:

| Code | Characters |
|---|---|
| `L1` | a–m |
| `L2` | n–z |
| `U1` | A–M |
| `U2` | N–Z |
| `O` | anything else |

Each code has its own shift on the 26-letter ring of the character's case. With `s1 = shift1 mod 26` and `s2 = shift2 mod 26`:

- a–m moves forward by `s1*s2`;
- n–z moves back by `s1+s2`;
- A–M moves back by `s1`;
- N–Z moves forward by `s2*s2`;
- anything else is kept.

The encoder writes the cipher text and a metadata list that holds one code per character. The decryptor makes one choice. If the metadata loaded as a list with the cipher text's length, it inverts each position using the recorded code. Otherwise it falls back to brute force. Brute force tries every letter of the cipher letter's case, keeps those that encrypt to it, and outputs the alphabetically first one. It reports every position where the number of candidates is not exactly one. A final check compares the recovered text with the original.

Modules, one per file, leaves first:

- `Chars` (`chars.dfy`): case tests, `ShiftChar`, the `Code` datatype and `Classify`.
- `Rules` (`rules.dfy`): the forward rule `EncryptChar` and the inverse rule `InverseByMeta`. It also defines `JsonValue`, the type of one metadata element as JSON allows it.
- `Encoder` (`encoder.dfy`): the encode loop `EncryptText`. `MetaToJson` is the list the encoder writes, as the decryptor reads it back.
- `BruteForce` (`bruteforce.dfy`): the specification functions `Matching`, `Candidates`, `BestEffort` and `Ambiguities`. It also has the recovery loop `BruteForceDecrypt` with its two candidate searches, and the lemmas about them.
- `Decrypt` (`decrypt.dfy`): the metadata validity test, the metadata-guided decoder, the dispatch `DecryptText`, the round trip and brute-force soundness.
- `Verify` (`verify.dfy`): the equality check. `RunPipeline` runs encrypt, decrypt and verify in sequence.

Python's `%` with divisor 26 floors, so its result is in `[0, 26)`. Dafny's `%` is Euclidean, which gives the same result for a positive divisor. The model therefore writes the source's `% 26` as it is, for every integer shift, negative ones included.

## Model

| member | source | states |
|---|---|---|
| `Chars.IsLower` | code/question-one/chipher.py:13-14 | true exactly for the 26 characters 'a'..'z', and never for an upper-case letter |
| `Chars.IsUpper` | code/question-one/chipher.py:17-18 | true exactly for the 26 characters 'A'..'Z', and never for a lower-case letter |
| `Chars.ShiftChar` | code/question-one/chipher.py:21-29 | a letter stays a letter of its case and moves `shift` places around its ring, modulo 26 with a non-negative remainder; any other character is unchanged |
| `Chars.ShiftRoundTrip` | code/question-one/chipher.py:21-29 | shifting by `k` and then by `-k` returns every character, for every integer `k` |
| `Chars.ShiftByMultipleOf26` | code/question-one/chipher.py:21-29 | a shift by a multiple of 26 leaves every character unchanged |
| `Chars.Classify` | code/question-one/chipher.py:40-45 | total and exhaustive: `L1` iff a–m, `L2` iff n–z, `U1` iff A–M, `U2` iff N–Z, `O` iff not an ASCII letter |
| `Rules.EncryptChar` | code/question-one/chipher.py:48-65 | the recorded code is the character's class; an `O` character is unchanged; letter case is preserved |
| `Rules.InverseByMeta` | code/question-one/chipher.py:68-80 | letter case is preserved; any metadata value other than the four letter codes (`"O"`, another string, a non-string) leaves the character unchanged |
| `Rules.CharRoundTrip` | code/question-one/chipher.py:48-80 | the inverse rule under the recorded code undoes the forward rule for every character and all integer shifts |
| `Rules.ZeroShiftsEncryptIdentity` | code/question-one/chipher.py:48-65 | when both shifts are multiples of 26 (0, 0 included), the forward rule is the identity |
| `Encoder.EncryptText` | code/question-one/chipher.py:91-97 | the cipher text and the metadata list both have the input's length, and position i of each is the forward rule's character and code for input position i |
| `BruteForce.AlphabetSpec` | code/question-one/chipher.py:163-164 | the two alphabets hold exactly the lower-case and the upper-case letters, 26 each, in increasing order |
| `BruteForce.LowerForward` | code/question-one/chipher.py:171-176 | the forward rule written out in the lower-case search is the encoder's forward rule |
| `BruteForce.UpperForward` | code/question-one/chipher.py:187-192 | the forward rule written out in the upper-case search is the encoder's forward rule |
| `BruteForce.MatchingMembers` | code/question-one/chipher.py:169-178 | a letter is kept by the search exactly when it is in the alphabet and encrypts to the cipher letter |
| `BruteForce.MatchingStep` | code/question-one/chipher.py:169-178 | trying one more letter appends it to the kept letters when it encrypts to the cipher letter, and appends nothing otherwise |
| `BruteForce.MatchingIncreasing` | code/question-one/chipher.py:169-178 | the search keeps alphabetical order: the kept letters of an increasing alphabet are increasing |
| `BruteForce.CandidatesSpec` | code/question-one/chipher.py:166-199 | the candidates of a cipher character are exactly the letters of its own case that encrypt to it, in strictly increasing order; a non-letter has none |
| `BruteForce.BestEffortSpec` | code/question-one/chipher.py:179-201 | output keeps case and non-letters; a letter becomes its alphabetically first candidate (its only one when there is one), or stays itself when there are none |
| `BruteForce.Ambiguities` | code/question-one/chipher.py:166-201 | every entry of the ambiguity report names a position of the cipher text |
| `BruteForce.AmbiguitiesSound` | code/question-one/chipher.py:179-199 | every entry is for a position whose candidate count is not 1, and carries that position's cipher character and candidate list |
| `BruteForce.AmbiguitiesOrdered` | code/question-one/chipher.py:166-199 | the report's positions are strictly increasing |
| `BruteForce.AmbiguityReported` | code/question-one/chipher.py:179-199 | every letter position whose candidate count is not 1 has an entry, and the lemma returns that entry's index |
| `BruteForce.LowerCandidates` | code/question-one/chipher.py:167-178 | the lower-case search loop returns exactly the candidate list |
| `BruteForce.UpperCandidates` | code/question-one/chipher.py:184-194 | the upper-case search loop returns exactly the candidate list |
| `BruteForce.BruteForceDecrypt` | code/question-one/chipher.py:153-203 | the output has the input's length and holds the best-effort character at every position; the report is exactly the ambiguity report of the input |
| `BruteForce.OriginalIsCandidate` | code/question-one/chipher.py:153-178 | every letter is among the candidates of the letter it encrypts to |
| `BruteForce.CollisionAtThirteen` | code/question-one/chipher.py:54-58 | with shifts 0 and 13, both 'a' and 'n' encrypt to 'a', so a cipher 'a' is ambiguous: without metadata the scheme is not invertible |
| `BruteForce.ZeroShiftsUnambiguous` | code/question-one/chipher.py:166-199 | when both shifts are multiples of 26, every letter is its own only candidate: no ambiguity, and exact recovery |
| `Decrypt.UsableMeta` | code/question-one/chipher.py:116-129 | metadata is usable iff it loaded as a JSON list whose length equals the cipher text's; a missing file, a read or parse error, a non-list or a wrong length are all unusable |
| `Decrypt.DecodeWithMeta` | code/question-one/chipher.py:132 | output has the cipher's length and keeps each position's case; a position whose metadata value is not a letter code keeps its cipher character |
| `Decrypt.MetadataRoundTrip` | code/question-one/chipher.py:94-132 | the encoder's metadata passes the validity test against its own cipher text, and decoding with it reconstructs the original text exactly, for all integer shifts |
| `Decrypt.DecryptText` | code/question-one/chipher.py:131-135 | usable metadata gives the metadata-guided decoding and no ambiguities; otherwise the brute-force output and its exact ambiguity report |
| `Decrypt.BruteForceSound` | code/question-one/chipher.py:153-183 | on encoder output with the same shifts, every position missing from the ambiguity report is recovered as the original character, which is also what the metadata-guided decoder gives there |
| `Verify.VerifyTexts` | code/question-one/chipher.py:218-234 | true exactly when the texts have the same length and agree at every position |
| `Verify.RunPipeline` | code/question-one/chipher.py:246-261 | encrypt, decrypt and verify. With intact metadata, recovery is exact and verification succeeds. Without metadata, every position the report leaves out is still correct. The result is true iff the recovered text is the original |

## Left out

- File and OS handling is not modelled: `open`, `read` and `write`, the `os.path.exists` checks and the `FileNotFoundError` raises (chipher.py:85-89, 99-100, 110-114, 139-140, 208-216). Texts are values passed in and returned.
- JSON text is not modelled (chipher.py:103-104, 120-121). `MetaToJson` stands for writing the encoder's list and reading it back. A failed read or parse is the `Unreadable` case of `MetaLoad`, and a missing file is `Missing`.
- Console output is not modelled: the warnings, the ambiguity count, the listing capped at 20 entries, and the success and failure messages (chipher.py:106, 123, 126, 129, 137, 142-149, 219, 222-223).
- `Verify.VerifyTexts`: the unified diff and its 200-line cap (chipher.py:224-233) are left out. They come from a library (`difflib`) and only produce diagnostics. Only the boolean result is modelled.
- `Verify.RunPipeline`: reading the two shifts from the console and rejecting non-integers (chipher.py:239-244) is left out. The shifts are parameters, and the exception handlers around each stage are not modelled. The only metadata fault it models is a missing file; other faults are covered by `Decrypt.DecryptText` for any `MetaLoad`.
- Repeatable brute-force output needs no lemma: the model's functions and methods are deterministic.
- Characters are Dafny `char` values, which are Unicode scalar values. A Python string can also hold lone surrogate code points. Only ASCII letters are transformed, so this does not affect any result.
- `code/question-two/temp-pred.py` (CSV statistics with floating point) and `code/question-three/turtle-drawing.py` (turtle graphics) are not part of this model.

Behaviour of the code worth noting, which the model follows:

- Brute force reports a position with no candidates and a position with several in the same list; it does not report them separately (chipher.py:179-183, 195-199).
- `verify_files` returns a boolean, not a first differing region (chipher.py:218-234).
- `inverse_by_meta` accepts any value per position. It compares against the four letter codes and lets everything else through unchanged (chipher.py:68-80).
