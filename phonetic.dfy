/** The phonetic rule: Double Metaphone agreement on every word pair, approved only when no
    pair shows a risky difference. */
module Phonetic {
  import opened Wrappers
  import opened Text
  import opened Gender
  import opened Decisions

  /** The two codes Double Metaphone gives a word: primary and alternate (often empty). */
  datatype MetaphoneCodes = MetaphoneCodes(primary: string, alternate: string)

  /** The Double Metaphone encoder, a parameter of the model. */
  type Encoder = string -> MetaphoneCodes

  /** `set(doublemetaphone(t))`. */
  function CodeSet(m: MetaphoneCodes): (r: set<string>)
    ensures forall x :: x in r <==> x == m.primary || x == m.alternate
    ensures |r| <= 2
  {
    if m.primary == m.alternate then {m.primary} else {m.primary, m.alternate}
  }

  /** Two code pairs overlap in a non-empty code: `set(code1) & set(code2) - {''}` is
      not empty. */
  predicate CodesOverlap(code1: MetaphoneCodes, code2: MetaphoneCodes) {
    CodeSet(code1) * (CodeSet(code2) - {""}) != {}
  }

  /** Two words sound alike. */
  predicate SharesCode(dm: Encoder, t1: string, t2: string) {
    CodesOverlap(dm(t1), dm(t2))
  }

  /** Every aligned pair of words sounds alike. */
  predicate AllPairsShareCode(dm: Encoder, ts: seq<string>, cs: seq<string>)
    requires |ts| == |cs|
  {
    forall i :: 0 <= i < |ts| ==> SharesCode(dm, ts[i], cs[i])
  }

  /** Risk A: gendered endings, `a`/`o` or `el`/`elle` in either order. Such a pair is
      never a word against itself. */
  predicate RiskA(t: string, c: string)
    ensures RiskA(t, c) ==> t != c
  {
    GenderSwapIrreflexive(t, t);
    ElElleDiffer(t);
    || IsGenderSwap(t, c)
    || (EndsWith(t, "el") && EndsWith(c, "elle"))
    || (EndsWith(t, "elle") && EndsWith(c, "el"))
  }

  /** No word ends in both `el` and `elle`. */
  lemma ElElleDiffer(w: string)
    ensures !(EndsWith(w, "el") && EndsWith(w, "elle"))
  {
    if EndsWith(w, "el") {
      assert w[|w| - 2..][1] == w[|w| - 1] == 'l';
      if |w| >= 4 {
        assert w[|w| - 4..][3] == w[|w| - 1];
      }
    }
  }

  /** Risk B: exactly one of the two words ends in `i`, read by its last letter; such a
      pair is never a word against itself. */
  predicate RiskB(t: string, c: string)
    ensures RiskB(t, c) <==> (t != [] && t[|t| - 1] == 'i') != (c != [] && c[|c| - 1] == 'i')
    ensures RiskB(t, c) ==> t != c
  {
    EndsWithOne(t, 'i');
    EndsWithOne(c, 'i');
    EndsWith(t, "i") != EndsWith(c, "i")
  }

  /** Risk C: the target word has at most four characters. */
  predicate RiskC(t: string) {
    |t| <= 4
  }

  /** A pair that differs and shows one of the three risks. */
  predicate Risky(t: string, c: string) {
    t != c && (RiskA(t, c) || RiskB(t, c) || RiskC(t))
  }

  const SafePhoneticMessage: string := "Safe phonetic match detected (Double Metaphone)."

  /** The outcome of the phonetic rule on the words of two names, stated declaratively:
      approval with confidence 95 when there are equally many words, every pair sounds
      alike and no pair is risky; no decision otherwise. */
  function PhoneticWords(dm: Encoder, ts: seq<string>, cs: seq<string>): Option<Decision> {
    if |ts| != |cs| then None
    else if !AllPairsShareCode(dm, ts, cs) then None
    else if exists i :: 0 <= i < |ts| && Risky(ts[i], cs[i]) then None
    else Some(CreateMatchResult(95, SafePhoneticMessage))
  }

  /** The phonetic rule on two normalized names. */
  function PhoneticRisk(dm: Encoder, tNorm: string, cNorm: string): Option<Decision> {
    PhoneticWords(dm, Split(tNorm), Split(cNorm))
  }

  /** `check_phonetic_with_risk_assessment(t_norm, c_norm)`: splits both names into words
      and scans the word pairs. */
  method CheckPhoneticWithRiskAssessment(dm: Encoder, tNorm: string, cNorm: string)
    returns (r: Option<Decision>)
    ensures r == PhoneticRisk(dm, tNorm, cNorm)
  {
    var tTokens := Split(tNorm);
    var cTokens := Split(cNorm);
    r := PhoneticScan(dm, tTokens, cTokens);
  }

  /** The body of `check_phonetic_with_risk_assessment` on the two word lists: the length
      test, then the two passes, each returning `None` when it fails. */
  method PhoneticScan(dm: Encoder, tTokens: seq<string>, cTokens: seq<string>)
    returns (r: Option<Decision>)
    ensures r == PhoneticWords(dm, tTokens, cTokens)
  {
    if |tTokens| != |cTokens| {
      return None;
    }
    var phoneticMatch := SharePass(dm, tTokens, cTokens);
    if !phoneticMatch {
      return None;
    }
    var risky := FindRisk(tTokens, cTokens);
    if risky {
      return None;
    }
    r := Some(CreateMatchResult(95, SafePhoneticMessage));
  }

  /** The first pass: clears the `phonetic_match` flag and stops at the first pair whose
      code sets share no non-empty code. */
  method SharePass(dm: Encoder, tTokens: seq<string>, cTokens: seq<string>)
    returns (phoneticMatch: bool)
    requires |tTokens| == |cTokens|
    ensures phoneticMatch <==> AllPairsShareCode(dm, tTokens, cTokens)
  {
    phoneticMatch := true;
    var i := 0;
    while i < |tTokens|
      invariant 0 <= i <= |tTokens|
      invariant forall k :: 0 <= k < i ==> SharesCode(dm, tTokens[k], cTokens[k])
    {
      var code1 := dm(tTokens[i]);
      var code2 := dm(cTokens[i]);
      if !CodesOverlap(code1, code2) {
        phoneticMatch := false;
        break;
      }
      i := i + 1;
    }
  }

  /** The second pass: skips identical pairs and stops at the first pair showing Risk A,
      B or C, in that order. */
  method FindRisk(tTokens: seq<string>, cTokens: seq<string>) returns (risky: bool)
    requires |tTokens| == |cTokens|
    ensures risky <==> exists i :: 0 <= i < |tTokens| && Risky(tTokens[i], cTokens[i])
  {
    var j := 0;
    while j < |tTokens|
      invariant 0 <= j <= |tTokens|
      invariant forall k :: 0 <= k < j ==> !Risky(tTokens[k], cTokens[k])
    {
      var tToken, cToken := tTokens[j], cTokens[j];
      if tToken == cToken {
        j := j + 1;
        continue;
      }
      if RiskA(tToken, cToken) {
        return true;
      }
      if RiskB(tToken, cToken) {
        return true;
      }
      if RiskC(tToken) {
        return true;
      }
      assert !Risky(tTokens[j], cTokens[j]);
      j := j + 1;
    }
    return false;
  }

  /** Risk A withholds the approval: one aligned pair with a gendered ending is enough,
      whatever the other pairs are. */
  lemma RiskADefers(dm: Encoder, ts: seq<string>, cs: seq<string>, i: int)
    requires |ts| == |cs| && 0 <= i < |ts|
    requires RiskA(ts[i], cs[i])
    ensures PhoneticWords(dm, ts, cs) == None
  {
    assert Risky(ts[i], cs[i]);
  }

  /** Risk B withholds the approval: one aligned pair where exactly one word ends in `i`
      is enough. */
  lemma RiskBDefers(dm: Encoder, ts: seq<string>, cs: seq<string>, i: int)
    requires |ts| == |cs| && 0 <= i < |ts|
    requires RiskB(ts[i], cs[i])
    ensures PhoneticWords(dm, ts, cs) == None
  {
    assert Risky(ts[i], cs[i]);
  }

  /** Risk C withholds the approval: one aligned pair of different words whose target word
      has at most four characters is enough, whatever the length of the candidate word. */
  lemma RiskCDefers(dm: Encoder, ts: seq<string>, cs: seq<string>, i: int)
    requires |ts| == |cs| && 0 <= i < |ts|
    requires ts[i] != cs[i] && |ts[i]| <= 4
    ensures PhoneticWords(dm, ts, cs) == None
  {
    assert Risky(ts[i], cs[i]);
  }

  /** Sharing a code does not depend on the order of the two words. */
  lemma SharesCodeSymmetric(dm: Encoder, t1: string, t2: string)
    ensures SharesCode(dm, t1, t2) == SharesCode(dm, t2, t1)
  {
    var a, b := CodeSet(dm(t1)), CodeSet(dm(t2));
    if a * (b - {""}) != {} {
      var x :| x in a * (b - {""});
      assert x in b * (a - {""});
    }
    if b * (a - {""}) != {} {
      var x :| x in b * (a - {""});
      assert x in a * (b - {""});
    }
  }

  /** A word sounds like itself exactly when it has a non-empty code. */
  lemma SharesCodeReflexive(dm: Encoder, t: string)
    ensures SharesCode(dm, t, t) <==> dm(t).primary != "" || dm(t).alternate != ""
  {
    var m := dm(t);
    if m.primary != "" {
      assert m.primary in CodeSet(m) * (CodeSet(m) - {""});
    } else if m.alternate != "" {
      assert m.alternate in CodeSet(m) * (CodeSet(m) - {""});
    } else {
      assert CodeSet(m) == {""};
    }
  }

  /** The approval is a match at confidence 95 with the rule's message, and it is given
      only when the names have equally many words, every pair sounds alike, and every pair
      that differs has no gendered ending (`a`/`o`, `el`/`elle`), agrees on a final `i` and
      has a target word of more than four characters. */
  lemma PhoneticApproval(dm: Encoder, tNorm: string, cNorm: string)
    requires PhoneticRisk(dm, tNorm, cNorm).Some?
    ensures PhoneticRisk(dm, tNorm, cNorm).value == Decision(true, 95, SafePhoneticMessage)
    ensures |Split(tNorm)| == |Split(cNorm)|
    ensures forall i :: 0 <= i < |Split(tNorm)| ==> SharesCode(dm, Split(tNorm)[i], Split(cNorm)[i])
    ensures forall i :: 0 <= i < |Split(tNorm)| && Split(tNorm)[i] != Split(cNorm)[i] ==>
      && !RiskA(Split(tNorm)[i], Split(cNorm)[i])
      && (EndsWith(Split(tNorm)[i], "i") <==> EndsWith(Split(cNorm)[i], "i"))
      && |Split(tNorm)[i]| > 4
  {
    var ts, cs := Split(tNorm), Split(cNorm);
    forall i | 0 <= i < |ts| && ts[i] != cs[i]
      ensures !RiskA(ts[i], cs[i]) && (EndsWith(ts[i], "i") <==> EndsWith(cs[i], "i")) && |ts[i]| > 4
    {
      assert !Risky(ts[i], cs[i]);
    }
  }

  /** Conversely, names with equally many words, every pair sounding alike and no pair
      risky, are approved; in particular one pair without a shared code, or one risky
      pair, withholds the approval. */
  lemma PhoneticApprovalComplete(dm: Encoder, tNorm: string, cNorm: string)
    requires |Split(tNorm)| == |Split(cNorm)|
    ensures PhoneticRisk(dm, tNorm, cNorm).Some? <==>
      && AllPairsShareCode(dm, Split(tNorm), Split(cNorm))
      && forall i :: 0 <= i < |Split(tNorm)| ==> !Risky(Split(tNorm)[i], Split(cNorm)[i])
  {
  }

  /** A name compared with itself is approved when each of its words has a non-empty code:
      identical words are never risky. */
  lemma IdenticalNamesApproved(dm: Encoder, name: string)
    requires forall t :: t in Split(name) ==> dm(t).primary != "" || dm(t).alternate != ""
    ensures PhoneticRisk(dm, name, name) == Some(CreateMatchResult(95, SafePhoneticMessage))
  {
    var ts := Split(name);
    forall i | 0 <= i < |ts| ensures SharesCode(dm, ts[i], ts[i]) {
      SharesCodeReflexive(dm, ts[i]);
    }
  }

  /** The risk examples the rules are written for: Michael/Michelle shows Risk A (`el`
      against `elle`, in both orders), Rashid/Rashidi shows Risk B, and Ali/Alin is named for
      Risk C; each pair is risky. Ali/Alin also shows Risk B ("ali" ends in `i`, "alin" does
      not), and the scan tests Risk B first, so Risk B is what defers that pair. */
  lemma RiskExamples()
    ensures RiskA("michael", "michelle") && RiskA("michelle", "michael")
    ensures Risky("michael", "michelle") && Risky("michelle", "michael")
    ensures !RiskA("rashid", "rashidi") && RiskB("rashid", "rashidi") && Risky("rashid", "rashidi")
    ensures RiskB("ali", "alin") && RiskC("ali") && Risky("ali", "alin")
  {
    assert "michael"[5..] == "el" && "michelle"[4..] == "elle";
    assert EndsWith("michael", "el") && EndsWith("michelle", "elle");
    assert "rashidi"[6..] == "i";
    assert !EndsWith("rashid", "i") && EndsWith("rashidi", "i");
    assert !EndsWith("rashid", "el") && !EndsWith("rashid", "elle");
    GenderSwapCharacterized("rashid", "rashidi");
    assert "ali" != "alin" by { assert |"ali"| != |"alin"|; }
    assert "ali"[2..] == "i" && "alin"[3..] == "n";
    assert EndsWith("ali", "i") && !EndsWith("alin", "i");
  }

  /** The words of a single-word name. */
  lemma SingleWord(w: string)
    requires w != [] && forall c :: c in w ==> !IsSpace(c)
    ensures Split(w) == [w]
  {
    SplitJoinSpaced([w]);
  }

  /** "alin" against "alina" is risky only by Risk C, so only with "alin" as the target. */
  lemma AlinAlina()
    ensures !Risky("alina", "alin") && Risky("alin", "alina")
  {
    assert !EndsWith("alina", "i") && !EndsWith("alin", "i");
    assert !EndsWith("alina", "el") && !EndsWith("alin", "el");
    LowercaseFixed("alin");
    LowercaseFixed("alina");
    assert !EndsWith("alin", "a") && !EndsWith("alin", "o");
  }

  /** "alina" and "alin" are one word each. */
  lemma AlinaAlinWords()
    ensures Split("alina") == ["alina"] && Split("alin") == ["alin"]
  {
    assert forall c :: c in "alina" ==> c == 'a' || c == 'l' || c == 'i' || c == 'n';
    SingleWord("alina");
    SingleWord("alin");
  }

  /** On one word against one word, the rule approves exactly when the words sound alike
      and the pair is not risky. */
  lemma PhoneticOneWord(dm: Encoder, t: string, c: string)
    ensures PhoneticWords(dm, [t], [c]) ==
      if SharesCode(dm, t, c) && !Risky(t, c) then Some(CreateMatchResult(95, SafePhoneticMessage))
      else None
  {
    var ts, cs := [t], [c];
    assert ts[0] == t && cs[0] == c;
    assert AllPairsShareCode(dm, ts, cs) <==> SharesCode(dm, ts[0], cs[0]);
    assert (exists i :: 0 <= i < |ts| && Risky(ts[i], cs[i])) <==> Risky(t, c) by {
      if Risky(t, c) {
        assert Risky(ts[0], cs[0]);
      }
    }
  }

  /** Risk C looks at the target word only: when "alina" and "alin" sound alike, the
      target "alina" with the candidate "alin" is approved (the short candidate passes),
      while the target "alin" with the candidate "alina" is not. */
  lemma RiskCTargetOnly(dm: Encoder)
    requires SharesCode(dm, "alina", "alin")
    ensures PhoneticRisk(dm, "alina", "alin") == Some(CreateMatchResult(95, SafePhoneticMessage))
    ensures PhoneticRisk(dm, "alin", "alina") == None
  {
    AlinaAlinWords();
    AlinAlina();
    PhoneticOneWord(dm, "alina", "alin");
    PhoneticOneWord(dm, "alin", "alina");
  }
}
