/** Substring tests behind the banned-word filter: String.prototype.includes
    and Array.prototype.some over the banned list. */
module BannedWords {

  /** word occurs in code starting at position k. */
  predicate OccursAt(word: string, code: string, k: nat)
  {
    k + |word| <= |code| && code[k..k + |word|] == word
  }

  lemma OccursShift(word: string, code: string)
    requires code != []
    ensures forall k: nat :: OccursAt(word, code[1..], k) <==> OccursAt(word, code, k + 1)
    ensures forall k: nat :: 1 <= k ==> (OccursAt(word, code, k) <==> OccursAt(word, code[1..], k - 1))
  {
    forall k: nat
      ensures OccursAt(word, code[1..], k) <==> OccursAt(word, code, k + 1)
    {
      if k + 1 + |word| <= |code| {
        assert code[1..][k..k + |word|] == code[k + 1..k + 1 + |word|];
      }
    }
  }

  /** code.includes(word), scanning the start positions from left to right:
      it holds exactly when word occurs somewhere in code. */
  function Includes(code: string, word: string): (b: bool)
    ensures b <==> exists k: nat :: OccursAt(word, code, k)
    decreases |code|
  {
    if |word| > |code| then false
    else if code[..|word|] == word then
      assert OccursAt(word, code, 0);
      true
    else
      IncludesShift(word, code);
      Includes(code[1..], word)
  }

  /** When word does not start code, it occurs in code exactly when it
      occurs in the rest of code. */
  lemma IncludesShift(word: string, code: string)
    requires code != [] && !OccursAt(word, code, 0)
    ensures (exists k: nat :: OccursAt(word, code, k)) <==> (exists k: nat :: OccursAt(word, code[1..], k))
  {
    OccursShift(word, code);
    if exists k: nat :: OccursAt(word, code, k) {
      var k: nat :| OccursAt(word, code, k);
      assert k != 0;
    }
  }

  /** words.some(w => code.includes(w)): it holds exactly when some word of
      the list occurs in code. */
  function AnyIncluded(code: string, words: seq<string>): (b: bool)
    ensures b <==> exists i: nat, k: nat :: i < |words| && OccursAt(words[i], code, k)
  {
    if words == [] then false
    else
      AnyShift(code, words);
      Includes(code, words[0]) || AnyIncluded(code, words[1..])
  }

  lemma AnyShift(code: string, words: seq<string>)
    requires words != []
    ensures (exists i: nat, k: nat :: i < |words| && OccursAt(words[i], code, k))
        <==> (exists k: nat :: OccursAt(words[0], code, k))
             || (exists i: nat, k: nat :: i < |words[1..]| && OccursAt(words[1..][i], code, k))
  {
    if exists i: nat, k: nat :: i < |words| && OccursAt(words[i], code, k) {
      var i: nat, k: nat :| i < |words| && OccursAt(words[i], code, k);
      if i > 0 {
        assert words[1..][i - 1] == words[i];
      }
    }
    if exists i: nat, k: nat :: i < |words[1..]| && OccursAt(words[1..][i], code, k) {
      var i: nat, k: nat :| i < |words[1..]| && OccursAt(words[1..][i], code, k);
      assert words[1..][i] == words[i + 1];
    }
  }
}
