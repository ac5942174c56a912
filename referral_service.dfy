/** The referral-code generator. Each project gets a fixed offset; codes are
    produced one at a time from the previous code by adding a generator
    coprime to A^L modulo A^L, rolling over to length L + 1 when the walk
    returns to the offset, and skipping codes that contain a banned word. */
module Referral {
  import opened NumberTheory
  import opened Codec
  import opened BannedWords
  import opened GeneratorSearch

  datatype Option<T> = None | Some(value: T)

  /** What decode returns for a code: its length and the number it stands for. */
  datatype Position = Position(length: nat, value: int)

  class ReferralService {
    /** CHARACTERS: the alphabet, which is also the digit set of the numerals. */
    const characters: string
    /** MIN_LENGTH: the length of the first code. */
    const minLength: nat
    /** BANNED_WORDS: no issued code contains one of these. */
    const bannedWords: seq<string>
    /** The first eight hex digits of the SHA-256 digest of the project key. */
    const initialOffset: nat

    /** The static configuration is well formed and the offset fits in 32 bits. */
    predicate Valid()
    {
      && |characters| >= 2
      && Distinct(characters)
      && minLength >= 1
      && initialOffset < 0x1_0000_0000
    }

    constructor (characters: string, minLength: nat, bannedWords: seq<string>, initialOffset: nat)
      requires |characters| >= 2 && Distinct(characters) && minLength >= 1
      requires initialOffset < 0x1_0000_0000
      ensures Valid()
      ensures this.characters == characters && this.minLength == minLength
      ensures this.bannedWords == bannedWords && this.initialOffset == initialOffset
    {
      this.characters := characters;
      this.minLength := minLength;
      this.bannedWords := bannedWords;
      this.initialOffset := initialOffset;
    }

    /** A^length, the number of codes of that length. */
    function GroupOrder(length: nat): (n: nat)
      requires Valid()
      ensures n >= 1
    {
      Pow(|characters|, length)
    }

    /** Writes decimal as `length` characters, least significant digit first. */
    method Encode(length: nat, decimal: nat) returns (code: string)
      requires Valid()
      ensures |code| == length && OverAlphabet(characters, code)
      ensures code == Encoding(characters, length, decimal)
    {
      code := "";
      var rest: nat := decimal;
      var i := 0;
      while i < length
        invariant i <= length && |code| == i
        invariant code + Encoding(characters, length - i, rest) == Encoding(characters, length, decimal)
      {
        EncodingAppend(characters, code, length, i, rest);
        code := code + [characters[rest % |characters|]];
        rest := rest / |characters|;
        i := i + 1;
      }
      assert code + Encoding(characters, 0, rest) == code;
      EncodingOverAlphabet(characters, length, decimal);
    }

    /** Reads a code back as (length, number), scanning from the last
        character to the first; a character outside the alphabet counts -1. */
    method Decode(code: string) returns (length: nat, decimal: int)
      requires Valid()
      ensures length == |code| && decimal == Value(characters, code)
    {
      decimal := 0;
      var i := |code| - 1;
      while i >= 0
        invariant -1 <= i < |code|
        invariant decimal == Value(characters, code[i + 1..])
      {
        ValueOfSuffix(characters, code, i);
        decimal := decimal * |characters|;
        decimal := decimal + IndexOf(characters, code[i]);
        i := i - 1;
      }
      assert code[0..] == code;
      length := |code|;
    }

    /** Euclid's algorithm on the larger and the smaller operand. */
    method GetGCD(a: nat, b: nat) returns (r: nat)
      ensures r == Gcd(a, b)
    {
      var x, y := a, b;
      if y > x {
        x, y := y, x;
        GcdSymmetric(a, b);
      }
      while true
        invariant y <= x
        invariant Gcd(x, y) == Gcd(a, b)
        decreases x
      {
        if y == 0 {
          return x;
        }
        GcdSymmetric(x % y, y);
        x := x % y;
        if x == 0 {
          GcdSymmetric(0, y);
          return y;
        }
        GcdSymmetric(x, y);
        y := y % x;
      }
    }

    /** Searches outward from the offset for the first value coprime to A^length. */
    method GetGenerator(length: nat) returns (g: nat)
      requires Valid()
      ensures g == Generator(initialOffset, GroupOrder(length))
      ensures Gcd(g, GroupOrder(length)) == 1
      ensures length >= 1 ==> g >= 1
    {
      var groupOrder := Pow(|characters|, length);
      assert groupOrder == GroupOrder(length);
      if length >= 1 {
        PowAtLeastTwo(|characters|, length);
      }
      var a: int, b: int := initialOffset, initialOffset + 1;
      ghost var round: nat := 0;
      while true
        invariant round <= initialOffset
        invariant a == initialOffset - round && b == initialOffset + 1 + round
        invariant forall t :: 0 <= t < round ==> RoundFails(initialOffset, groupOrder, t)
        decreases initialOffset - round
      {
        if 0 < round == initialOffset {
          assert RoundFails(initialOffset, groupOrder, initialOffset - 1);
        }
        GcdWithOne(groupOrder);
        var ga := GetGCD(a, groupOrder);
        if ga == 1 {
          GeneratorUnique(initialOffset, groupOrder, round, a);
          GeneratorIsUnit(initialOffset, groupOrder);
          return a;
        }
        var gb := GetGCD(b, groupOrder);
        if gb == 1 {
          GeneratorUnique(initialOffset, groupOrder, round, b);
          GeneratorIsUnit(initialOffset, groupOrder);
          return b;
        }
        a := a - 1;
        b := b + 1;
        round := round + 1;
      }
    }

    /** isBanned: some banned word occurs in the code as a contiguous substring. */
    function IsBanned(code: string): (b: bool)
      ensures b <==> exists i: nat, k: nat :: i < |bannedWords| && OccursAt(bannedWords[i], code, k)
    {
      AnyIncluded(code, bannedWords)
    }

    /** The position decode reads from a code. */
    function Decoded(code: string): Position
    {
      Position(|code|, Value(characters, code))
    }

    /** Codec.Encoding lifted to a position: the code encode writes for it. */
    function Encoded(s: Position): string
      requires Valid() && s.value >= 0
    {
      Encoding(characters, s.length, s.value)
    }

    /** The number fits in the code length, so encoding loses nothing. */
    predicate InRange(s: Position)
      requires Valid()
    {
      0 <= s.value < GroupOrder(s.length)
    }

    /** Positions in range and codes over the alphabet correspond one to one. */
    lemma RoundTrip(s: Position, code: string)
      requires Valid()
      ensures InRange(s) ==> Decoded(Encoded(s)) == s
      ensures OverAlphabet(characters, code) ==> InRange(Decoded(code)) && Encoded(Decoded(code)) == code
    {
      if InRange(s) {
        DecodeEncode(characters, s.length, s.value);
        DivModUnique(s.value, GroupOrder(s.length), 0, s.value);
      }
      if OverAlphabet(characters, code) {
        ValueBounds(characters, code);
        EncodeDecode(characters, code);
      }
    }

    /** One step of getNextReferralCode on decoded positions: add the
        generator for the current length modulo A^length, and move on to the
        next length when the sum is back at the offset. The result always
        fits its length. */
    function Next(s: Position): (t: Position)
      requires Valid()
      ensures t.value >= 0 && t.length >= s.length
    {
      var n := GroupOrder(s.length);
      var d := (s.value + Generator(initialOffset, n)) % n;
      if d == initialOffset then Position(s.length + 1, d) else Position(s.length, d)
    }

    /** The number a step produces fits the length it produces. */
    lemma NextInRange(s: Position)
      requires Valid()
      ensures InRange(Next(s))
    {
      PowMonotone(|characters|, s.length, s.length + 1);
    }

    /** The position reached from s after k steps, ignoring banned words. */
    function Path(s: Position, k: nat): (t: Position)
      requires Valid()
      ensures t.length >= s.length
      ensures s.value >= 0 || k > 0 ==> t.value >= 0
    {
      if k == 0 then s else Next(Path(s, k - 1))
    }

    /** Where the walk of a call's candidates starts: the step from the
        decoded previous code, or the offset at MIN_LENGTH when there is none. */
    function Start(prev: Option<string>): (s: Position)
      requires Valid()
      ensures s.value >= 0
    {
      match prev
      case None => Position(minLength, initialOffset)
      case Some(p) => Next(Decoded(p))
    }

    /** The k-th code a call with previous code prev examines (k = 0 is its
        first candidate): the code k steps along the walk from Start(prev).
        That each retry continues from the banned code before it is
        SuccessiveCalls. */
    function Tried(prev: Option<string>, k: nat): string
      requires Valid()
    {
      Encoded(Path(Start(prev), k))
    }

    /** The part of getNextReferralCode before the banned check: decode the
        previous code, add the generator modulo A^length, move on to the next
        length when the sum is the offset, and encode; with no previous code,
        the offset written at MIN_LENGTH. */
    method NextCandidate(code: Option<string>) returns (next: string)
      requires Valid()
      requires code.Some? ==> OverAlphabet(characters, code.value)
      ensures next == Tried(code, 0)
      ensures OverAlphabet(characters, next)
    {
      var generator := GetGenerator(if code.Some? then |code.value| else minLength);
      if code.Some? {
        var length, decimal := Decode(code.value);
        ValueNonNegative(characters, code.value);
        decimal := decimal + generator;
        decimal := decimal % Pow(|characters|, length);
        if decimal == initialOffset {
          length := length + 1;
          generator := GetGenerator(length);
        }
        next := Encode(length, decimal);
        assert Position(length, decimal) == Next(Decoded(code.value));
      } else {
        next := Encode(minLength, initialOffset);
      }
    }

    /** The next referral code after `code` (the first code when None). A
        banned candidate is fed back in as the previous code, so the result
        is the first code of the sequence Tried(code, 0), Tried(code, 1), ...
        that is not banned; `skipped` counts the banned codes before it. Each
        retry uses one of `attempts`, and None means the budget ran out. */
    method GetNextReferralCode(code: Option<string>, attempts: nat) returns (r: Option<string>, ghost skipped: nat)
      requires Valid()
      requires code.Some? ==> OverAlphabet(characters, code.value)
      ensures skipped <= attempts
      ensures forall j :: 0 <= j < skipped ==> IsBanned(Tried(code, j))
      ensures r.Some? ==> r.value == Tried(code, skipped) && !IsBanned(r.value) && OverAlphabet(characters, r.value)
      ensures r.None? ==> skipped == attempts && IsBanned(Tried(code, attempts))
      decreases attempts
    {
      var next := NextCandidate(code);
      if !IsBanned(next) {
        return Some(next), 0;
      }
      if attempts == 0 {
        return None, 0;
      }
      ghost var rest: nat;
      r, rest := GetNextReferralCode(Some(next), attempts - 1);
      RetryOutcome(code, rest);
      skipped := rest + 1;
    }

    /** A retry with the call's first candidate examines the call's codes
        from the second one on: its (j - 1)-th code is the call's j-th. So
        the codes the retry skipped, after the banned first candidate, are
        the first codes the call skipped. */
    lemma RetryOutcome(code: Option<string>, rest: nat)
      requires Valid()
      ensures forall j :: 0 < j <= rest + 1 ==> Tried(Some(Tried(code, 0)), j - 1) == Tried(code, j)
      ensures Tried(Some(Tried(code, 0)), rest) == Tried(code, rest + 1)
    {
      SuccessiveCalls(code, 0, rest);
      forall j | 0 < j <= rest + 1
        ensures Tried(Some(Tried(code, 0)), j - 1) == Tried(code, j)
      {
        SuccessiveCalls(code, 0, j - 1);
      }
    }

    // ---------------------------------------------------------------
    // Properties of one step
    // ---------------------------------------------------------------

    /** The code one step builds decodes to the stepped number (d + g) mod
        A^L, and it is one character longer exactly when that number is the
        offset. */
    lemma NextRollsOverAtOffset(s: Position)
      requires Valid()
      ensures var n := GroupOrder(s.length);
              var d := (s.value + Generator(initialOffset, n)) % n;
              && Decoded(Encoded(Next(s))) == Next(s)
              && Next(s).value == d
              && (Next(s).length == s.length + 1 <==> d == initialOffset)
              && (Next(s).length == s.length <==> d != initialOffset)
    {
      NextInRange(s);
      RoundTrip(Next(s), []);
    }

    /** When the offset is not below A^L, a code of length L is never
        followed by a longer one: the rollover test cannot fire. */
    lemma NoRolloverPastCodeSpace(s: Position)
      requires Valid()
      requires initialOffset >= GroupOrder(s.length)
      ensures Next(s).length == s.length
    {
    }

    /** When the offset is not below A^MIN_LENGTH, the walk from the first
        code stays at MIN_LENGTH: step k >= 1 is the k-th point of the orbit
        of the truncated offset under adding the generator. */
    lemma {:induction false} WalkPastCodeSpace(k: nat)
      requires Valid() && initialOffset >= GroupOrder(minLength) && k >= 1
      ensures var n := GroupOrder(minLength);
              Path(Position(minLength, initialOffset), k)
                == Position(minLength, Orbit(initialOffset % n, Generator(initialOffset, n), n, k))
      decreases k
    {
      var n := GroupOrder(minLength);
      if k == 1 {
        ModAddLeft(initialOffset, Generator(initialOffset, n), n);
      } else {
        WalkPastCodeSpace(k - 1);
      }
    }

    /** When the offset is not below A^MIN_LENGTH, the walk is back at the
        first code after A^MIN_LENGTH steps, so codes of that length repeat. */
    lemma FirstCodeComesBack()
      requires Valid() && initialOffset >= GroupOrder(minLength)
      ensures Tried(None, GroupOrder(minLength)) == Tried(None, 0)
    {
      var n := GroupOrder(minLength);
      WalkPastCodeSpace(n);
      OrbitReturns(initialOffset % n, Generator(initialOffset, n), n);
      EncodingTruncates(characters, minLength, initialOffset);
    }

    /** Only the number's residue modulo A^L matters to the step. */
    lemma NextIgnoresWholeCycles(L: nat, v: nat)
      requires Valid()
      ensures Next(Position(L, v % GroupOrder(L))) == Next(Position(L, v))
    {
      var n := GroupOrder(L);
      ModAddLeft(v, Generator(initialOffset, n), n);
    }

    /** A code of length at least one is never its own successor. */
    lemma SuccessorDiffers(s: Position)
      requires Valid() && InRange(s) && s.length >= 1
      ensures Encoded(Next(s)) != Encoded(s)
    {
      var n := GroupOrder(s.length);
      var g := Generator(initialOffset, n);
      var t := Next(s);
      if t.length == s.length && t.value == s.value {
        DivModUnique(s.value, n, 0, s.value);
        ModEqualDiff(s.value + g, s.value, n);
        GeneratorIsUnit(initialOffset, n);
        UnitNotMultiple(g, n);
        assert false;
      }
      if t.length == s.length && Encoded(t) == Encoded(s) {
        EncodingInjective(characters, s.length, t.value, s.value);
      }
    }

    // ---------------------------------------------------------------
    // Properties of the walk
    // ---------------------------------------------------------------

    /** Walking i steps and then j more is walking i + j steps. */
    lemma {:induction false} PathCompose(s: Position, i: nat, j: nat)
      requires Valid()
      ensures Path(Path(s, i), j) == Path(s, i + j)
      decreases j
    {
      if j > 0 {
        PathCompose(s, i, j - 1);
      }
    }

    /** The first code is the offset written at MIN_LENGTH; reading it back
        loses only whole cycles, which the next step does not see. */
    lemma FirstCodeRereads()
      requires Valid()
      ensures var s := Position(minLength, initialOffset);
              Decoded(Encoded(s)) == Position(minLength, initialOffset % GroupOrder(minLength))
              && Next(Decoded(Encoded(s))) == Next(s)
    {
      DecodeEncode(characters, minLength, initialOffset);
      NextIgnoresWholeCycles(minLength, initialOffset);
    }

    /** Calling again with a code a call examined continues that call's
        sequence of candidates, so the codes successive calls return are the
        non-banned codes of one sequence, in order: decoding an examined code
        gives back its position on the walk, up to whole cycles of the first
        code, which the step does not see. */
    lemma SuccessiveCalls(prev: Option<string>, k: nat, j: nat)
      requires Valid()
      ensures Tried(Some(Tried(prev, k)), j) == Tried(prev, k + 1 + j)
    {
      ResumeFromCode(prev, k);
      PathCompose(Start(prev), k + 1, j);
    }

    /** Resuming from the k-th code tried continues the walk at its next step. */
    lemma ResumeFromCode(prev: Option<string>, k: nat)
      requires Valid()
      ensures Start(Some(Tried(prev, k))) == Path(Start(prev), k + 1)
    {
      var start := Start(prev);
      var t := Path(start, k);
      if prev.None? && k == 0 {
        FirstCodeRereads();
      } else {
        if k > 0 {
          NextInRange(Path(start, k - 1));
        } else {
          NextInRange(Decoded(prev.value));
        }
        RoundTrip(t, []);
      }
    }

    /** Issued codes never get shorter: every code is at least MIN_LENGTH
        long, and a call never returns a code shorter than the one it was given. */
    lemma IssuedCodesAreLongEnough(prev: Option<string>, k: nat)
      requires Valid()
      ensures |Tried(prev, k)| >= if prev.Some? then |prev.value| else minLength
    {
    }

    // ---------------------------------------------------------------
    // The full cycle at one length
    // ---------------------------------------------------------------

    /** Starting at the offset at length L (offset < A^L), step k < A^L of
        the walk is the k-th point of the orbit of the offset under adding
        the generator modulo A^L. */
    lemma {:induction false} PathInCycle(L: nat, k: nat)
      requires Valid() && initialOffset < GroupOrder(L) && k < GroupOrder(L)
      ensures var n := GroupOrder(L);
              Path(Position(L, initialOffset), k)
                == Position(L, Orbit(initialOffset, Generator(initialOffset, n), n, k))
      decreases k
    {
      if k > 0 {
        var n := GroupOrder(L);
        var g := Generator(initialOffset, n);
        PathInCycle(L, k - 1);
        GeneratorIsUnit(initialOffset, n);
        FullCycle(initialOffset, g, n);
      }
    }

    /** Since the generator is coprime to A^L, the walk from the offset at
        length L stays at length L for its first A^L positions. */
    lemma CycleKeepsLength(L: nat)
      requires Valid() && initialOffset < GroupOrder(L)
      ensures forall k :: 0 <= k < GroupOrder(L) ==> Path(Position(L, initialOffset), k).length == L
    {
      forall k | 0 <= k < GroupOrder(L)
        ensures Path(Position(L, initialOffset), k).length == L
      {
        PathInCycle(L, k);
      }
    }

    /** After A^L steps from the offset at length L the walk rolls over to
        the offset at length L + 1, the start of the next cycle. */
    lemma CycleThenRollover(L: nat)
      requires Valid() && initialOffset < GroupOrder(L)
      ensures Path(Position(L, initialOffset), GroupOrder(L)) == Position(L + 1, initialOffset)
      ensures initialOffset < GroupOrder(L + 1)
    {
      var n := GroupOrder(L);
      var g := Generator(initialOffset, n);
      PathInCycle(L, n - 1);
      GeneratorIsUnit(initialOffset, n);
      FullCycle(initialOffset, g, n);
      PowMonotone(|characters|, L, L + 1);
    }

    /** No code repeats within one cycle. */
    lemma NoRepeatWithinCycle(L: nat, i: nat, j: nat)
      requires Valid() && initialOffset < GroupOrder(L)
      requires i < j < GroupOrder(L)
      ensures Encoded(Path(Position(L, initialOffset), i)) != Encoded(Path(Position(L, initialOffset), j))
    {
      var n := GroupOrder(L);
      var g := Generator(initialOffset, n);
      PathInCycle(L, i);
      PathInCycle(L, j);
      GeneratorIsUnit(initialOffset, n);
      FullCycle(initialOffset, g, n);
      if Encoded(Path(Position(L, initialOffset), i)) == Encoded(Path(Position(L, initialOffset), j)) {
        EncodingInjective(characters, L, Orbit(initialOffset, g, n, i), Orbit(initialOffset, g, n, j));
        assert false;
      }
    }

    /** Every code of length L over the alphabet occurs within one cycle. */
    lemma EveryCodeInCycle(L: nat, c: string) returns (k: nat)
      requires Valid() && initialOffset < GroupOrder(L)
      requires |c| == L && OverAlphabet(characters, c)
      ensures k < GroupOrder(L) && Encoded(Path(Position(L, initialOffset), k)) == c
    {
      var n := GroupOrder(L);
      var g := Generator(initialOffset, n);
      RoundTrip(Position(0, 0), c);
      GeneratorIsUnit(initialOffset, n);
      k := OrbitCovers(initialOffset, g, n, Value(characters, c));
      PathInCycle(L, k);
    }

    /** Steps needed to run through the full cycles of lengths L .. L + m - 1. */
    function CycleSpan(L: nat, m: nat): nat
      requires Valid()
      decreases m
    {
      if m == 0 then 0 else GroupOrder(L) + CycleSpan(L + 1, m - 1)
    }

    /** After m full cycles the walk is at the offset again, m characters longer. */
    lemma {:induction false} AfterCycles(L: nat, m: nat)
      requires Valid() && initialOffset < GroupOrder(L)
      ensures Path(Position(L, initialOffset), CycleSpan(L, m)) == Position(L + m, initialOffset)
      decreases m
    {
      if m > 0 {
        CycleThenRollover(L);
        AfterCycles(L + 1, m - 1);
        PathCompose(Position(L, initialOffset), GroupOrder(L), CycleSpan(L + 1, m - 1));
      }
    }

    /** A banned word is itself banned. */
    lemma BannedWordIsBanned(i: nat)
      requires i < |bannedWords|
      ensures IsBanned(bannedWords[i])
    {
      assert OccursAt(bannedWords[i], bannedWords[i], 0);
    }
  }
}
