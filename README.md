# Referral-code generator, modelled in Dafny

This project models `ReferralService`, the referral-code generator of the
referral module. Each project has a fixed offset, the first eight hex digits
of a SHA-256 digest of its key. Codes are fixed-length strings over the
alphabet `CHARACTERS`. A code is a base-A numeral (A = |CHARACTERS|), least
significant digit first.

The next code is computed from the previous one as follows:

- decode the previous code to (L, d);
- add the generator for length L, which is the first value in the search
  offset, offset + 1, offset - 1, offset + 2, ... that is coprime to A^L;
- reduce the sum modulo A^L;
- move on to length L + 1 when the result equals the offset;
- encode the result.

A code containing a banned word is skipped by feeding it back in as the
previous code.

The files:

- `number_theory.dfy` (module `NumberTheory`) covers:
  - powers and division with remainder;
  - Euclid's `Gcd` and its meaning as the greatest common divisor;
  - Bezout coefficients;
  - the full-cycle theorem: adding a unit g modulo n from s < n visits every
    residue exactly once and is back at s after n steps.
- `codec.dfy` (module `Codec`) holds `indexOf` with its -1 result, the
  encoding, the number a code stands for, and the round trips between them.
- `generator_search.dfy` (module `GeneratorSearch`) is the round-by-round
  search of `getGenerator`. Round r tests offset - r and then
  offset + 1 + r. This module holds the proof that the search ends at the
  first unit.
- `banned_words.dfy` (module `BannedWords`) holds `includes` and `some` over
  the banned list, and their meaning as substring occurrence.
- `referral_service.dfy` (module `Referral`) holds the class
  `ReferralService`:
  - its configuration;
  - the methods `Encode`, `Decode`, `GetGCD`, `GetGenerator`,
    `NextCandidate` and `GetNextReferralCode`;
  - the pure step `Next`, the walk `Path` and the sequence of candidates
    `Tried` that specify those methods;
  - the lemmas about the walk: cycles, rollover, successive calls and the
    banned filter.

The configuration is the constant fields `characters` (CHARACTERS),
`minLength` (MIN_LENGTH), `bannedWords` (BANNED_WORDS) and `initialOffset`.
The constructor takes all four. `Valid()` asks for at least two distinct
characters, MIN_LENGTH >= 1 and an offset below 2^32.

## Model

| member | source | states |
|---|---|---|
| Referral.ReferralService.constructor | src/referral.service.ts:9-13 | stores the configuration and the offset; the offset is below 2^32, the range of eight hex digits |
| Referral.ReferralService.GroupOrder | src/referral.service.ts:49 | A^length, the size of the code space of one length, is at least 1 |
| Referral.ReferralService.Encode | src/referral.service.ts:15-23 | the loop returns exactly `length` characters, all from the alphabet, and they are the base-A digits of `decimal`, least significant first (`Encoding`) |
| Codec.EncodingDigits | src/referral.service.ts:17-20 | character i of encode(L, d) is digit i of d in base A: CHARACTERS[(d / A^i) % A] |
| Codec.EncodingOverAlphabet | src/referral.service.ts:18 | every character encode writes is drawn from CHARACTERS |
| Codec.EncodingTruncates | src/referral.service.ts:15-23 | encode keeps only d mod A^L: digits above position L are dropped |
| Codec.EncodingInjective | src/referral.service.ts:15-23 | two numbers below A^L with the same code are equal |
| Referral.ReferralService.Decode | src/referral.service.ts:25-33 | the backward loop returns the code's length and the number the code stands for (`Value`), with -1 for a character outside the alphabet |
| Codec.IndexOf | src/referral.service.ts:29 | indexOf is -1 exactly when the character is not in the alphabet, and otherwise an index holding the character |
| Codec.IndexOfFirst | src/referral.service.ts:29 | no index before indexOf's result holds the character |
| Codec.IndexOfDistinct | src/referral.service.ts:29 | in an alphabet without repeats, indexOf of the i-th character is i |
| Codec.ValueBounds | src/referral.service.ts:25-33 | a code over the alphabet decodes to a number in [0, A^length) |
| Codec.ValueNonNegative | src/referral.service.ts:25-33 | a code over the alphabet never decodes to a negative number |
| Codec.DecodeEncode | src/referral.service.ts:15-33 | decode(encode(L, d)) yields d mod A^L, so d itself when d < A^L |
| Codec.EncodeDecode | src/referral.service.ts:15-33 | encoding a code's number at the code's length gives the code back |
| Referral.ReferralService.RoundTrip | src/referral.service.ts:15-33 | decode(encode(L, d)) == (L, d) for 0 <= d < A^L; every code over the alphabet decodes into that range and re-encodes to itself |
| Referral.ReferralService.GetGCD | src/referral.service.ts:35-46 | the swapping Euclid loop returns `Gcd(a, b)` whichever argument is larger, 0 included |
| NumberTheory.GcdIsGreatest | src/referral.service.ts:35-46 | Gcd(a, b) divides a and b, and every common divisor divides it |
| NumberTheory.GcdSymmetric | src/referral.service.ts:36 | the gcd does not depend on argument order, which is why the swap is harmless |
| NumberTheory.GcdExamples | src/referral.service.spec.ts:46-48 | gcd(48, 18) = 6 and gcd(101, 103) = 1 |
| NumberTheory.GcdWithOne | src/referral.service.ts:55 | gcd(1, n) = 1: the value 1 ends any search |
| Referral.ReferralService.GetGenerator | src/referral.service.ts:48-60 | the a/b loop returns `Generator(offset, A^length)`, which is coprime to A^length and at least 1 when length >= 1 |
| GeneratorSearch.GeneratorIsUnit | src/referral.service.ts:48-60 | the generator is coprime to n, and is at least 1 when n >= 2 |
| GeneratorSearch.GeneratorIsFirst | src/referral.service.ts:51-59 | the generator is offset - r or offset + 1 + r for some round r <= offset; it is the upper value only when the lower value of that round is not a unit; both values of every earlier round share a factor with n; so the loop runs at most offset + 1 rounds and never tests a negative value |
| GeneratorSearch.SearchIsFirstUnit | src/referral.service.ts:54-59 | started after failed rounds 0 .. r - 1, the search stops at a unit in some round s with r <= s <= offset, and every round before s fails |
| GeneratorSearch.SearchSkips | src/referral.service.ts:57-58 | rounds that fail do not change where the search ends |
| GeneratorSearch.GeneratorUnique | src/referral.service.ts:55-56 | a value that is the first unit in search order is the generator |
| Referral.ReferralService.IsBanned | src/referral.service.ts:62-64 | isBanned(code) holds exactly when some banned word occurs in the code as a contiguous substring |
| BannedWords.Includes | src/referral.service.ts:63 | `code.includes(word)`, scanning start positions left to right, holds exactly when word occurs at some position of code (the empty word everywhere) |
| BannedWords.AnyIncluded | src/referral.service.ts:63 | `some(includes)` over a list holds exactly when some word of the list occurs in code |
| Referral.ReferralService.BannedWordIsBanned | src/referral.service.spec.ts:63-65 | every banned word is itself banned |
| Referral.ReferralService.Next | src/referral.service.ts:70-80 | the step (d + g) mod A^L, with rollover to L + 1 at the offset, gives a non-negative number and never shortens the code |
| Referral.ReferralService.NextInRange | src/referral.service.ts:70-80 | the number a step produces fits the length it produces, so encode loses nothing |
| Referral.ReferralService.NextRollsOverAtOffset | src/referral.service.ts:70-80 | with d' = (d + generator) mod A^L, the new code decodes to d'; it has length L + 1 if and only if d' is the offset, and length L otherwise |
| Referral.ReferralService.NoRolloverPastCodeSpace | src/referral.service.ts:76 | when the offset is not below A^L the rollover test never fires: a code of length L is followed by a code of length L |
| Referral.ReferralService.WalkPastCodeSpace | src/referral.service.ts:70-82 | when the offset is not below A^MIN_LENGTH, step k >= 1 of the walk from the first code is the k-th orbit point of the truncated offset, at length MIN_LENGTH |
| Referral.ReferralService.FirstCodeComesBack | src/referral.service.ts:70-82 | when the offset is not below A^MIN_LENGTH, the walk is back at the first code after A^MIN_LENGTH steps |
| Referral.ReferralService.NextIgnoresWholeCycles | src/referral.service.ts:70-72 | only the residue of the decoded number modulo A^L matters to the step |
| Referral.ReferralService.SuccessorDiffers | src/referral.service.spec.ts:82-90 | the code after a code of length >= 1 is never the same code, because the generator is not a multiple of A^L |
| Referral.ReferralService.NextCandidate | src/referral.service.ts:67-83 | the candidate before the banned check is `Tried(code, 0)`: the offset encoded at MIN_LENGTH when there is no code, otherwise the code of the step from the decoded code; it is over the alphabet |
| Referral.ReferralService.GetNextReferralCode | src/referral.service.ts:66-89 | a returned code is the first code of the sequence Tried(code, 0), Tried(code, 1), ... that is not banned; every code it skipped is banned; it is over the alphabet; None only once the retry budget is spent on banned codes |
| Referral.ReferralService.RetryOutcome | src/referral.service.ts:85-86 | feeding the first candidate back in continues the original sequence one place later: the retry's (j - 1)-th code is the call's j-th, so the banned first candidate and the codes the retry skipped are the call's first skipped codes |
| Referral.ReferralService.SuccessiveCalls | src/referral.service.ts:66-89 | calling with the k-th code a call examined gives, at place j, the original call's code at place k + 1 + j; successive calls therefore walk one sequence |
| Referral.ReferralService.ResumeFromCode | src/referral.service.ts:70-82 | decoding an examined code and stepping continues the walk at its next position, including the first code whose offset was truncated by encode |
| Referral.ReferralService.FirstCodeRereads | src/referral.service.ts:70-82 | the first code decodes to offset mod A^MIN_LENGTH, and the step from it equals the step from the unreduced offset |
| Referral.ReferralService.PathCompose | src/referral.service.ts:86 | i steps and then j steps are i + j steps |
| Referral.ReferralService.Path | src/referral.service.ts:70-80 | the walk never shortens the code, and any walk of at least one step is at a non-negative number |
| Referral.ReferralService.IssuedCodesAreLongEnough | src/referral.service.spec.ts:75-79 | every code a call without a previous code examines is at least MIN_LENGTH long, and no examined code is shorter than the code the call was given |
| Referral.ReferralService.PathInCycle | src/referral.service.ts:74-77 | from the offset at length L (offset < A^L), step k < A^L of the walk is the k-th point of the orbit of the offset under adding the generator modulo A^L |
| Referral.ReferralService.CycleKeepsLength | src/referral.service.ts:74-77 | the first A^L positions of that walk all have length L |
| Referral.ReferralService.CycleThenRollover | src/referral.service.ts:74-77 | after exactly A^L steps the walk is at the offset at length L + 1, and the offset is below A^(L+1) |
| Referral.ReferralService.NoRepeatWithinCycle | src/referral.service.ts:74-75 | no code of length L repeats before the rollover |
| Referral.ReferralService.EveryCodeInCycle | src/referral.service.ts:74-75 | every code of length L over the alphabet is reached by the walk (examined) within one cycle |
| Referral.ReferralService.AfterCycles | src/referral.service.ts:74-77 | after the cycles of lengths L .. L + m - 1, the walk is at the offset at length L + m |
| NumberTheory.FullCycle | src/referral.service.ts:74-77 | adding a unit g modulo n from s < n comes back to s after n steps and not before; no residue repeats within those n steps, and every residue is visited |
| NumberTheory.OrbitClosedForm | src/referral.service.ts:71-72 | k steps of adding g modulo n from s reach (s + k g) mod n |
| NumberTheory.OrbitInjective | src/referral.service.ts:74-75 | with g coprime to n, the first n points of the orbit are pairwise distinct |
| NumberTheory.OrbitCovers | src/referral.service.ts:74-75 | with g coprime to n, every residue below n is reached within n steps |
| NumberTheory.UnitNotMultiple | src/referral.service.ts:71-72 | a unit modulo n > 1 is not a multiple of n, so a step always moves |

## Left out

- The offset is a constructor argument below 2^32. The SHA-256 digest and
  `parseInt` of `generateInitialOffset` (src/referral.service.ts:91-94) are
  calls into `crypto`, so they are not modelled. Neither is the test that
  two projects get different first codes, because it depends on the hash.
- CHARACTERS, MIN_LENGTH and BANNED_WORDS live in files that are not part
  of this model. They are constructor arguments, with at least two distinct
  characters and MIN_LENGTH >= 1.
- The NestJS injection of the key is not modelled. Neither are the module
  and bootstrap files, because they do no computation.
- Numbers are unbounded. JavaScript doubles lose precision above 2^53 (for
  example in `CHARACTERS.length ** length` and `decimal *=` for long codes),
  and that loss is not modelled.
- Referral.ReferralService.GetGCD: requires non-negative operands (`nat`).
  The source can return -1 for a negative operand, but the class never
  passes one.
- Referral.ReferralService.GetNextReferralCode: takes an `attempts` budget
  and returns None when the budget is spent. The source recurses without
  bound, and whether that recursion ends depends on the banned list. Only
  "whatever it returns is the first non-banned code of the sequence" is
  proved.
- Referral.ReferralService.GetNextReferralCode: requires a given previous
  code to be over the alphabet. Decode itself models a foreign character
  literally, as -1 from indexOf (`Codec.Value`).
- Referral.ReferralService.NextCandidate: this is the part of
  `getNextReferralCode` before the banned check (lines 67-83), kept as its
  own method. It keeps the dead recomputation of the generator at line 77.
  Like GetNextReferralCode it requires a given previous code to be over the
  alphabet, while the source accepts any string there.
- Referral.ReferralService.PathInCycle: stated under offset < A^L. The cycle
  and rollover lemmas are all stated that way, because the source never
  reduces the offset modulo A^L. When the offset is not below A^MIN_LENGTH,
  the first code is the truncated offset and the rollover test can never
  fire (NoRolloverPastCodeSpace). The walk is then back at the first code
  after A^MIN_LENGTH steps (FirstCodeComesBack); these are steps of the
  walk, not calls, since banned codes are examined without being returned.
  Whether this happens depends on the unseen constants.
- Referral.ReferralService.Next: uses Dafny's Euclidean `%`. In the methods
  the sum is never negative, because their requires keep previous codes
  over the alphabet, so there it agrees with JavaScript's truncating `%`.
  The specification functions `Next`, `Start` and `Tried` also accept a
  position decoded from a code with a foreign character, whose number can
  be negative. There they return a non-negative residue, where the source
  would get a negative remainder and `encode` would write "undefined"
  characters.
- When the offset is below A^L, the walk from the offset at length L does
  not come back to the first code after A^L steps. The rollover test at
  src/referral.service.ts:76 moves it to the offset at length L + 1
  (CycleThenRollover).
- Characters are Dafny `char`s, that is Unicode scalar values, while the
  source indexes and measures strings in UTF-16 code units (`length`,
  `CHARACTERS[i]`, `charAt`, `includes` at src/referral.service.ts:18-32
  and 63). The model agrees with the source when CHARACTERS and
  BANNED_WORDS lie in the Basic Multilingual Plane; outside it the source
  would, for example, write half-surrogates where the model writes whole
  characters.
- GeneratorSearch.SearchFrom: its guard `r == offset` ends the recursion
  where the source loop relies on the value 1 being coprime to everything.
  SearchIsFirstUnit proves the guard never decides the result.
