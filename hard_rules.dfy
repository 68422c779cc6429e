/** The deterministic cascade that decides a pair of names before any language model is
    asked: gendered endings, exact match, swapped word order, safe phonetic variant. */
module HardRules {
  import opened Wrappers
  import opened Text
  import opened Normalization
  import opened Gender
  import opened Decisions
  import opened Phonetic

  const GenderMessage: string :=
    "Gendered name difference detected. This is a non-match in financial contexts."
  const ExactMessage: string := "Exact match after case and punctuation normalization."
  const OrderMessage: string :=
    "Token order swap changes identity. This is a non-match in financial contexts."

  /** Rule 0: the names have equally many words and some aligned pair is a gender swap.
      It never fires on a list of words against itself. */
  predicate GenderRule(ts: seq<string>, cs: seq<string>)
    ensures GenderRule(ts, cs) ==> ts != cs
  {
    NoSelfSwap();
    |ts| == |cs| && exists i :: 0 <= i < |ts| && IsGenderSwap(ts[i], cs[i])
  }

  /** No word is a gender swap of itself. */
  lemma NoSelfSwap()
    ensures forall t :: !IsGenderSwap(t, t)
  {
    forall t ensures !IsGenderSwap(t, t) {
      GenderSwapIrreflexive(t, t);
    }
  }

  /** Rule 2: the names use the same set of words, in a different list. It needs at least
      two words on one side, since one word (or none) against one word (or none) with the
      same set of words is the same list. */
  predicate OrderRule(ts: seq<string>, cs: seq<string>)
    ensures OrderRule(ts, cs) ==> ts != [] && cs != [] && (|ts| >= 2 || |cs| >= 2)
  {
    SameSetShortLists(ts, cs);
    Elements(ts) == Elements(cs) && ts != cs
  }

  /** Lists of at most one word with the same set of words are equal, and only the empty
      list has no words. */
  lemma SameSetShortLists(ts: seq<string>, cs: seq<string>)
    ensures Elements(ts) == Elements(cs) && ts != cs ==> ts != [] && cs != []
    ensures |ts| <= 1 && |cs| <= 1 && Elements(ts) == Elements(cs) ==> ts == cs
  {
    if ts != [] {
      assert ts[0] in Elements(ts);
    }
    if cs != [] {
      assert cs[0] in Elements(cs);
    }
  }

  /** Rules 0 to 2, in the source's order, on the words of the two normalized names.
      Rule 1 compares `normalize_no_space` of the names, which is their words run
      together (`NormalizeNoSpace`'s contract). */
  function EarlyRules(ts: seq<string>, cs: seq<string>): Option<Decision> {
    if GenderRule(ts, cs) then Some(CreateMatchResult(20, GenderMessage))
    else if Concat(ts) == Concat(cs) then Some(CreateMatchResult(100, ExactMessage))
    else if OrderRule(ts, cs) then Some(CreateMatchResult(30, OrderMessage))
    else None
  }

  /** Rules 0 to 3 on the words of the two normalized names. */
  function WordRules(dm: Encoder, ts: seq<string>, cs: seq<string>): Option<Decision> {
    var early := EarlyRules(ts, cs);
    if early.Some? then early else PhoneticWords(dm, ts, cs)
  }

  /** The whole cascade on two raw names: the first of rules 0 to 3 that applies; `None`
      hands the pair to the language model. */
  function Cascade(dm: Encoder, target: string, candidate: string): Option<Decision> {
    WordRules(dm, Split(Normalize(target)), Split(Normalize(candidate)))
  }

  /** Rule 0's loop over the aligned word pairs: stops at the first gender swap. */
  method FindGenderSwap(ts: seq<string>, cs: seq<string>) returns (swapped: bool)
    requires |ts| == |cs|
    ensures swapped <==> GenderRule(ts, cs)
  {
    for i := 0 to |ts|
      invariant forall k :: 0 <= k < i ==> !IsGenderSwap(ts[k], cs[k])
    {
      if IsGenderSwap(ts[i], cs[i]) {
        return true;
      }
    }
    return false;
  }

  /** `check_hard_rules(target, candidate)`: normalizes and splits both names, then tries
      rules 0 to 3 in order. */
  method CheckHardRules(dm: Encoder, target: string, candidate: string)
    returns (r: Option<Decision>)
    ensures r == Cascade(dm, target, candidate)
  {
    var tNorm := Normalize(target);
    var cNorm := Normalize(candidate);
    var tTokens := Split(tNorm);
    var cTokens := Split(cNorm);
    if |tTokens| == |cTokens| {
      var swapped := FindGenderSwap(tTokens, cTokens);
      if swapped {
        return Some(CreateMatchResult(20, GenderMessage));
      }
    }
    assert NormalizeNoSpace(target) == Concat(tTokens) && NormalizeNoSpace(candidate) == Concat(cTokens);
    if NormalizeNoSpace(target) == NormalizeNoSpace(candidate) {
      return Some(CreateMatchResult(100, ExactMessage));
    }
    if Elements(tTokens) == Elements(cTokens) && tTokens != cTokens {
      return Some(CreateMatchResult(30, OrderMessage));
    }
    var phoneticResult := CheckPhoneticWithRiskAssessment(dm, tNorm, cNorm);
    if phoneticResult.Some? {
      return phoneticResult;
    }
    return None;
  }

  /** On words: every decision is consistent with the threshold and is one of the four
      the rules produce, 20, 100, 30 or 95, a match exactly for 100 and 95; and each
      decision is given exactly when its rule is the first that applies. */
  lemma WordRulesOutcomes(dm: Encoder, ts: seq<string>, cs: seq<string>)
    ensures var r := WordRules(dm, ts, cs);
      r.Some? ==>
        && Consistent(r.value)
        && r.value.confidence in {20, 100, 30, 95}
        && (r.value.isMatch <==> r.value.confidence == 100 || r.value.confidence == 95)
    ensures var r := WordRules(dm, ts, cs);
      && (r == Some(CreateMatchResult(20, GenderMessage)) <==> GenderRule(ts, cs))
      && (r == Some(CreateMatchResult(100, ExactMessage)) <==>
            !GenderRule(ts, cs) && Concat(ts) == Concat(cs))
      && (r == Some(CreateMatchResult(30, OrderMessage)) <==>
            !GenderRule(ts, cs) && Concat(ts) != Concat(cs) && OrderRule(ts, cs))
      && (r == Some(CreateMatchResult(95, SafePhoneticMessage)) <==>
            && !GenderRule(ts, cs) && Concat(ts) != Concat(cs) && !OrderRule(ts, cs)
            && PhoneticWords(dm, ts, cs).Some?)
      && (r == None <==>
            && !GenderRule(ts, cs) && Concat(ts) != Concat(cs) && !OrderRule(ts, cs)
            && PhoneticWords(dm, ts, cs) == None)
  {
    var p := PhoneticWords(dm, ts, cs);
    assert p.Some? ==> p == Some(CreateMatchResult(95, SafePhoneticMessage));
  }

  /** The same on two raw names, with rule 1 read as the source writes it: the names'
      `normalize_no_space` forms are equal. */
  lemma CascadeOutcomes(dm: Encoder, target: string, candidate: string)
    ensures var r := Cascade(dm, target, candidate);
      r.Some? ==> Consistent(r.value) && r.value.confidence in {20, 100, 30, 95}
    ensures var r, ts, cs := Cascade(dm, target, candidate), Split(Normalize(target)), Split(Normalize(candidate));
      && (r == Some(CreateMatchResult(20, GenderMessage)) <==> GenderRule(ts, cs))
      && (r == Some(CreateMatchResult(100, ExactMessage)) <==>
            !GenderRule(ts, cs) && NormalizeNoSpace(target) == NormalizeNoSpace(candidate))
      && (r == Some(CreateMatchResult(30, OrderMessage)) <==>
            !GenderRule(ts, cs) && NormalizeNoSpace(target) != NormalizeNoSpace(candidate) && OrderRule(ts, cs))
      && (r == None ==> PhoneticRisk(dm, Normalize(target), Normalize(candidate)) == None)
  {
    var ts, cs := Split(Normalize(target)), Split(Normalize(candidate));
    WordRulesOutcomes(dm, ts, cs);
    assert NormalizeNoSpace(target) == Concat(ts) && NormalizeNoSpace(candidate) == Concat(cs);
  }

  /** Two names with the same normal form are an exact match: aligned identical words are
      never a gender swap. */
  lemma SameNormalFormExact(dm: Encoder, target: string, candidate: string)
    requires Normalize(target) == Normalize(candidate)
    ensures Cascade(dm, target, candidate) == Some(CreateMatchResult(100, ExactMessage))
  {
    var ts := Split(Normalize(target));
    forall i | 0 <= i < |ts| ensures !IsGenderSwap(ts[i], ts[i]) {
      GenderSwapIrreflexive(ts[i], ts[i]);
    }
  }

  /** Every name matches itself exactly. */
  lemma NameMatchesItself(dm: Encoder, name: string)
    ensures Cascade(dm, name, name) == Some(CreateMatchResult(100, ExactMessage))
  {
    SameNormalFormExact(dm, name, name);
  }

  /** Rule 0 does not depend on which list is the target's. */
  lemma GenderRuleSymmetric(ts: seq<string>, cs: seq<string>)
    ensures GenderRule(ts, cs) == GenderRule(cs, ts)
  {
    if |ts| == |cs| {
      forall i | 0 <= i < |ts| ensures IsGenderSwap(ts[i], cs[i]) == IsGenderSwap(cs[i], ts[i]) {
        GenderSwapSymmetric(ts[i], cs[i]);
      }
    }
  }

  /** Rules 0 to 2 do not depend on which name is the target (rule 3 does, through
      Risk C). */
  lemma EarlyRulesSymmetric(ts: seq<string>, cs: seq<string>)
    ensures EarlyRules(ts, cs) == EarlyRules(cs, ts)
  {
    GenderRuleSymmetric(ts, cs);
  }

  /** Words of different lengths are never a gender swap. */
  lemma NoSwapForLengths(t: string, c: string)
    requires |t| != |c|
    ensures !IsGenderSwap(t, c)
  {
    GenderSwapCharacterized(t, c);
  }
}
