/** The gendered-ending rule: two names that differ only in a final `a` versus `o`. */
module Gender {
  import opened Text

  /** `is_gender_swap(name1, name2)`: after lower-casing, one name ends in `a` and the other
      in `o`, and the names agree on everything before that last letter. */
  predicate IsGenderSwap(name1: string, name2: string)
    ensures IsGenderSwap(name1, name2) ==>
      && |name1| == |name2| && |name1| >= 1
      && Lower(name1[|name1| - 1]) != Lower(name2[|name2| - 1])
  {
    var n1, n2 := Lowercase(name1), Lowercase(name2);
    EndsWithOne(n1, 'a');
    EndsWithOne(n1, 'o');
    EndsWithOne(n2, 'a');
    EndsWithOne(n2, 'o');
    && ((EndsWith(n1, "a") && EndsWith(n2, "o")) || (EndsWith(n1, "o") && EndsWith(n2, "a")))
    && n1[..|n1| - 1] == n2[..|n2| - 1]
  }

  /** An independent, index-based reading of the rule: the names have the same length, their
      last letters are `a` and `o` in some order (in either case), and every earlier letter
      agrees up to case. */
  ghost predicate GenderPair(name1: string, name2: string) {
    && |name1| == |name2| && |name1| >= 1
    && {Lower(name1[|name1| - 1]), Lower(name2[|name2| - 1])} == {'a', 'o'}
    && forall i :: 0 <= i < |name1| - 1 ==> Lower(name1[i]) == Lower(name2[i])
  }

  /** Ending in a one-letter suffix is having that letter last. */
  lemma EndsWithOne(s: string, x: char)
    ensures EndsWith(s, [x]) <==> s != [] && s[|s| - 1] == x
  {
    if s != [] {
      assert s[|s| - 1..] == [s[|s| - 1]];
    }
  }

  /** The rule holds exactly when the index-based reading does. */
  lemma GenderSwapCharacterized(name1: string, name2: string)
    ensures IsGenderSwap(name1, name2) <==> GenderPair(name1, name2)
  {
    var n1, n2 := Lowercase(name1), Lowercase(name2);
    EndsWithOne(n1, 'a');
    EndsWithOne(n1, 'o');
    EndsWithOne(n2, 'a');
    EndsWithOne(n2, 'o');
    if IsGenderSwap(name1, name2) {
      assert |n1| == |n2|;
      forall i | 0 <= i < |name1| - 1 ensures Lower(name1[i]) == Lower(name2[i]) {
        assert n1[..|n1| - 1][i] == n2[..|n2| - 1][i];
      }
    }
    if GenderPair(name1, name2) {
      assert forall i :: 0 <= i < |n1| - 1 ==> n1[i] == n2[i];
      assert n1[..|n1| - 1] == n2[..|n2| - 1];
      var l1, l2 := Lower(name1[|name1| - 1]), Lower(name2[|name2| - 1]);
      assert l1 in {'a', 'o'} && l2 in {'a', 'o'} && l1 != l2;
    }
  }

  /** The rule does not depend on the order of the two names. */
  lemma GenderSwapSymmetric(name1: string, name2: string)
    ensures IsGenderSwap(name1, name2) == IsGenderSwap(name2, name1)
  {
    GenderSwapCharacterized(name1, name2);
    GenderSwapCharacterized(name2, name1);
  }

  /** No name is a gender swap of itself, and the empty name is never part of a swap. */
  lemma GenderSwapIrreflexive(name: string, other: string)
    ensures !IsGenderSwap(name, name)
    ensures !IsGenderSwap("", other) && !IsGenderSwap(other, "")
  {
    GenderSwapCharacterized(name, name);
    GenderSwapCharacterized("", other);
    GenderSwapCharacterized(other, "");
    if |name| >= 1 {
      var l := Lower(name[|name| - 1]);
      assert {l, l} == {l};
      assert {l} != {'a', 'o'} by {
        assert 'a' in {'a', 'o'} && 'o' in {'a', 'o'};
      }
    }
  }

  /** The rule ignores case: lower-casing either name first does not change it. */
  lemma GenderSwapCaseInsensitive(name1: string, name2: string)
    ensures IsGenderSwap(Lowercase(name1), Lowercase(name2)) == IsGenderSwap(name1, name2)
  {
    LowercaseIdempotent(name1);
    LowercaseIdempotent(name2);
  }

  /** "Maria" and "Mario" are a gender swap, in either order; "Maria" and "Marta" are not. */
  lemma MariaMario()
    ensures IsGenderSwap("Maria", "Mario") && IsGenderSwap("Mario", "Maria")
    ensures !IsGenderSwap("Maria", "Marta")
  {
    GenderSwapCharacterized("Maria", "Mario");
    GenderSwapSymmetric("Maria", "Mario");
    GenderSwapCharacterized("Maria", "Marta");
    assert Lower("Maria"[3]) != Lower("Marta"[3]);
  }
}
