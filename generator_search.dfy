/** The search of getGenerator and the generator it settles on. Round r of
    the search tests offset - r and then offset + 1 + r; the first of these
    values, in that order, that is coprime to A^L is the generator. */
module GeneratorSearch {
  import opened NumberTheory

  /** x is a non-negative number coprime to n. */
  predicate IsUnit(x: int, n: nat)
  {
    x >= 0 && Gcd(x, n) == 1
  }

  /** Neither value tested in round t is coprime to n. */
  predicate RoundFails(offset: nat, n: nat, t: nat)
  {
    !IsUnit(offset - t, n) && !IsUnit(offset + 1 + t, n)
  }

  /** The value the search returns when it starts at round r. The lower value
      is 1 in round offset - 1 (the upper value is 1 in round 0 when the offset
      is 0), so the search stops by round offset at the latest
      (SearchIsFirstUnit); the test r == offset only gives the function a
      value in a round the search never reaches. */
  function SearchFrom(offset: nat, n: nat, r: nat): nat
    requires r <= offset
    decreases offset - r
  {
    if IsUnit(offset - r, n) then offset - r
    else if IsUnit(offset + 1 + r, n) || r == offset then offset + 1 + r
    else SearchFrom(offset, n, r + 1)
  }

  /** The generator getGenerator returns for a code space of size n. */
  function Generator(offset: nat, n: nat): nat
  {
    SearchFrom(offset, n, 0)
  }

  /** Rounds that fail do not change where the search ends. */
  lemma {:induction false} SearchSkips(offset: nat, n: nat, r: nat, s: nat)
    requires r <= s <= offset
    requires forall t :: r <= t < s ==> RoundFails(offset, n, t)
    ensures SearchFrom(offset, n, r) == SearchFrom(offset, n, s)
    decreases s - r
  {
    if r < s {
      assert RoundFails(offset, n, r);
      SearchSkips(offset, n, r + 1, s);
    }
  }

  /** Started after rounds 0 .. r - 1 have failed, the search stops in some
      round s >= r at a unit: the lower value of round s if that is a unit,
      otherwise the upper one; and every round before s fails. */
  lemma {:induction false} SearchIsFirstUnit(offset: nat, n: nat, r: nat) returns (s: nat)
    requires r <= offset
    requires forall t :: 0 <= t < r ==> RoundFails(offset, n, t)
    ensures r <= s <= offset
    ensures IsUnit(SearchFrom(offset, n, r), n)
    ensures SearchFrom(offset, n, r) == offset - s || SearchFrom(offset, n, r) == offset + 1 + s
    ensures SearchFrom(offset, n, r) == offset + 1 + s ==> !IsUnit(offset - s, n)
    ensures forall t :: 0 <= t < s ==> RoundFails(offset, n, t)
    decreases offset - r
  {
    if 0 < offset == r {
      assert RoundFails(offset, n, offset - 1);
    }
    GcdWithOne(n);
    if IsUnit(offset - r, n) || IsUnit(offset + 1 + r, n) {
      s := r;
    } else if r == offset {
      assert false;
    } else {
      s := SearchIsFirstUnit(offset, n, r + 1);
    }
  }

  /** The generator is a unit modulo n, positive when n >= 2. */
  lemma GeneratorIsUnit(offset: nat, n: nat)
    ensures Gcd(Generator(offset, n), n) == 1
    ensures n >= 2 ==> Generator(offset, n) >= 1
  {
    var _ := SearchIsFirstUnit(offset, n, 0);
    if Generator(offset, n) == 0 {
      assert Gcd(0, n) == Gcd(n, 0);
    }
  }

  /** The generator is the first unit in the search order: the lower or upper
      value of some round no later than round offset, the upper one only when
      the lower one of that round is not a unit, and every earlier round fails. */
  lemma GeneratorIsFirst(offset: nat, n: nat) returns (round: nat)
    ensures round <= offset
    ensures Generator(offset, n) == offset - round || Generator(offset, n) == offset + 1 + round
    ensures Generator(offset, n) == offset + 1 + round ==> !IsUnit(offset - round, n)
    ensures forall t :: 0 <= t < round ==> RoundFails(offset, n, t)
  {
    round := SearchIsFirstUnit(offset, n, 0);
  }

  /** A value that is the first unit in the search order is the generator. */
  lemma GeneratorUnique(offset: nat, n: nat, round: nat, g: nat)
    requires round <= offset
    requires forall t :: 0 <= t < round ==> RoundFails(offset, n, t)
    requires (g == offset - round && IsUnit(g, n))
          || (g == offset + 1 + round && !IsUnit(offset - round, n) && IsUnit(g, n))
    ensures Generator(offset, n) == g
  {
    SearchSkips(offset, n, 0, round);
  }
}
