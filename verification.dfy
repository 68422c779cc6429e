/** The orchestrator: picks an algorithm, lets the cascade decide when it can, and otherwise
    asks the semantic verifier (a language model) once. */
module Verification {
  import opened Wrappers
  import opened Text
  import opened Normalization
  import opened Decisions
  import opened Phonetic
  import opened HardRules

  /** Who decided: the deterministic rules or the language model. */
  datatype Source = HardRule | Llm

  /** A request to the semantic verifier: the plain prompt of algorithm 1, or the advanced
      prompt of algorithm 2 with its phonetic hint. */
  datatype Call =
    | Plain(latestName: string, userInput: string)
    | Advanced(latestName: string, userInput: string, phoneticHint: bool)

  /** The result handed back: a rule's decision, or the verifier's reply as it came. */
  datatype Payload = Rules(decision: Decision) | Reply(text: string)

  /** `(result, source)`, the pair `verify_name` returns. */
  datatype Verdict = Verdict(result: Payload, source: Source)

  const AlgorithmError: string := "Algorithm must be 1 or 2."

  /** The external semantic verifier. Its replies come from a model the program cannot see,
      so they are arbitrary; the ghost logs record every request it receives and every
      reply it gives. */
  class SemanticVerifier {
    ghost var calls: seq<Call>
    ghost var replies: seq<string>

    constructor ()
      ensures calls == [] && replies == []
    {
      calls := [];
      replies := [];
    }

    /** `verify_name_algorithm1(latest_name, user_input)`. */
    method VerifyAlgorithm1(latestName: string, userInput: string) returns (reply: string)
      modifies this
      ensures calls == old(calls) + [Plain(latestName, userInput)]
      ensures replies == old(replies) + [reply]
    {
      reply := *;
      calls := calls + [Plain(latestName, userInput)];
      replies := replies + [reply];
    }

    /** `verify_name_algorithm2(latest_name, user_input, phonetic_hint)`. */
    method VerifyAlgorithm2(latestName: string, userInput: string, phoneticHint: bool)
      returns (reply: string)
      modifies this
      ensures calls == old(calls) + [Advanced(latestName, userInput, phoneticHint)]
      ensures replies == old(replies) + [reply]
    {
      reply := *;
      calls := calls + [Advanced(latestName, userInput, phoneticHint)];
      replies := replies + [reply];
    }
  }

  /** The two normalized names have equally many words and every aligned pair shares a
      non-empty code (the `all(...)` test). Every pair the phonetic rule approves passes
      it. */
  predicate PhoneticallyMatched(dm: Encoder, tNorm: string, cNorm: string)
    ensures PhoneticRisk(dm, tNorm, cNorm).Some? ==> PhoneticallyMatched(dm, tNorm, cNorm)
  {
    var ts, cs := Split(tNorm), Split(cNorm);
    |ts| == |cs| && AllPairsShareCode(dm, ts, cs)
  }

  /** The hint passed to the advanced prompt: the names sound alike, yet the phonetic rule
      did not approve them, so some aligned pair is risky. */
  predicate PhoneticHint(dm: Encoder, tNorm: string, cNorm: string)
    ensures PhoneticHint(dm, tNorm, cNorm) ==>
      var ts, cs := Split(tNorm), Split(cNorm);
      |ts| == |cs| && exists i :: 0 <= i < |ts| && Risky(ts[i], cs[i])
  {
    PhoneticallyMatched(dm, tNorm, cNorm) && PhoneticRisk(dm, tNorm, cNorm) == None
  }

  /** The hint is set exactly for names that sound alike word by word while some differing
      pair shows one of the three risks. */
  lemma PhoneticHintMeansRisky(dm: Encoder, tNorm: string, cNorm: string)
    ensures PhoneticHint(dm, tNorm, cNorm) <==>
      var ts, cs := Split(tNorm), Split(cNorm);
      && |ts| == |cs| && AllPairsShareCode(dm, ts, cs)
      && exists i :: 0 <= i < |ts| && Risky(ts[i], cs[i])
  {
    var ts, cs := Split(tNorm), Split(cNorm);
    if |ts| == |cs| && AllPairsShareCode(dm, ts, cs) {
      PhoneticApprovalComplete(dm, tNorm, cNorm);
    }
  }

  /** When the cascade defers, the phonetic rule has already declined, so the hint is just
      "the names sound alike". */
  lemma HintOnLlmPath(dm: Encoder, latestName: string, userInput: string)
    requires Cascade(dm, latestName, userInput) == None
    ensures PhoneticHint(dm, Normalize(latestName), Normalize(userInput))
        == PhoneticallyMatched(dm, Normalize(latestName), Normalize(userInput))
  {
    CascadeOutcomes(dm, latestName, userInput);
    WordRulesOutcomes(dm, Split(Normalize(latestName)), Split(Normalize(userInput)));
  }

  /** `verify_name(latest_name, user_input, algorithm)`. Algorithm 1 asks the plain prompt
      and nothing else; algorithm 2 returns the cascade's decision when there is one, and
      otherwise asks the advanced prompt once with the phonetic hint; any other algorithm
      is an error and asks nothing. */
  method VerifyName(dm: Encoder, verifier: SemanticVerifier, latestName: string, userInput: string,
                    algorithm: int)
    returns (r: Result<Verdict>)
    modifies verifier
    ensures algorithm == 1 ==>
      && r.Ok? && r.value.source == Llm && r.value.result.Reply?
      && verifier.calls == old(verifier.calls) + [Plain(latestName, userInput)]
      && verifier.replies == old(verifier.replies) + [r.value.result.text]
    ensures algorithm == 2 && Cascade(dm, latestName, userInput).Some? ==>
      && r == Ok(Verdict(Rules(Cascade(dm, latestName, userInput).value), HardRule))
      && verifier.calls == old(verifier.calls) && verifier.replies == old(verifier.replies)
    ensures algorithm == 2 && Cascade(dm, latestName, userInput) == None ==>
      && r.Ok? && r.value.source == Llm && r.value.result.Reply?
      && verifier.calls == old(verifier.calls) + [Advanced(latestName, userInput,
           PhoneticallyMatched(dm, Normalize(latestName), Normalize(userInput)))]
      && verifier.replies == old(verifier.replies) + [r.value.result.text]
    ensures algorithm != 1 && algorithm != 2 ==>
      r == Err(AlgorithmError) && verifier.calls == old(verifier.calls)
      && verifier.replies == old(verifier.replies)
  {
    if algorithm == 1 {
      var llmResult := verifier.VerifyAlgorithm1(latestName, userInput);
      return Ok(Verdict(Reply(llmResult), Llm));
    } else if algorithm == 2 {
      var hardResult := CheckHardRules(dm, latestName, userInput);
      if hardResult.Some? {
        return Ok(Verdict(Rules(hardResult.value), HardRule));
      }
      var tNorm := Normalize(latestName);
      var cNorm := Normalize(userInput);
      var phoneticResult := CheckPhoneticWithRiskAssessment(dm, tNorm, cNorm);
      var tTokens := Split(tNorm);
      var cTokens := Split(cNorm);
      var isPhoneticallyMatched := false;
      if |tTokens| == |cTokens| {
        isPhoneticallyMatched := AllPairsShareCode(dm, tTokens, cTokens);
      }
      var phoneticHint := isPhoneticallyMatched && phoneticResult == None;
      HintOnLlmPath(dm, latestName, userInput);
      var llmResult := verifier.VerifyAlgorithm2(latestName, userInput, phoneticHint);
      return Ok(Verdict(Reply(llmResult), Llm));
    } else {
      return Err(AlgorithmError);
    }
  }

  /** `verify_flow(latest_name, user_input)`: `verify_name` with algorithm 2. */
  method VerifyFlow(dm: Encoder, verifier: SemanticVerifier, latestName: string, userInput: string)
    returns (r: Result<Verdict>)
    modifies verifier
    ensures Cascade(dm, latestName, userInput).Some? ==>
      && r == Ok(Verdict(Rules(Cascade(dm, latestName, userInput).value), HardRule))
      && verifier.calls == old(verifier.calls) && verifier.replies == old(verifier.replies)
    ensures Cascade(dm, latestName, userInput) == None ==>
      && r.Ok? && r.value.source == Llm && r.value.result.Reply?
      && verifier.calls == old(verifier.calls) + [Advanced(latestName, userInput,
           PhoneticallyMatched(dm, Normalize(latestName), Normalize(userInput)))]
      && verifier.replies == old(verifier.replies) + [r.value.result.text]
  {
    r := VerifyName(dm, verifier, latestName, userInput, 2);
  }
}
