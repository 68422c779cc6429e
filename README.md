# NameVerifier: the deterministic matching cascade

NameVerifier decides whether a name a user typed refers to the same person as a name on
record (an account holder's latest name). Algorithm 1 hands every pair to a language
model. Algorithm 2, the default, first runs a cascade of deterministic rules on the
normalized names, and asks the model only when no rule decides. The rules, in order, are:

- rule 0, a gendered ending (`Maria` vs. `Mario`), is a non-match at 20;
- rule 1, an exact match once case, accents, punctuation and spaces are ignored, is a match at 100;
- rule 2, the same words in another order, is a non-match at 30;
- rule 3, a safe Double Metaphone variant (`Steven` vs. `Stephen`), is a match at 95.

Rule 3 approves only when no aligned word pair shows one of three risky differences:
- Risk A, gendered endings;
- Risk B, exactly one word ending in `i`;
- Risk C, a short target word.

When the cascade defers, the model gets a hint: "these names sound alike but were flagged
as risky".

The project models all of this in Dafny and proves the following.

- **Normalization.**
  - Output shape: lower case, no combining marks, no `-`, `'` or `.`, single spaces, trimmed.
  - Idempotence, over the modelled character tables (see "Left out").
  - Insensitivity: case, accents, apostrophes and periods.
  - A hyphen reads as a space.
  - `normalize_no_space` is the words run together.
- **The gender rule.**
  - An index-based characterization.
  - Symmetry.
  - Irreflexivity.
  - Case insensitivity.
- **The phonetic rule.**
  - The two loops are proved against a declarative specification.
  - Approval is given exactly when the words are pairwise alike and no pair is risky.
  - Risk C looks only at the target.
- **The cascade.**
  - The method is proved against a declarative specification.
  - Each outcome of 20/100/30/95/None holds exactly when its rule is the first that applies.
  - Every decision agrees with the threshold of 85.
  - A name matches itself exactly.
  - Rules 0–2 are symmetric.
  - The examples named in the source's comments give the decisions the comments promise:
    Maria/Mario Gonzalez, Ali Hassan/Hassan Ali and Steven/Stephen for the rules, and
    Michael/Michelle, Rashid/Rashidi and Ali/Alin for the three risks (the last is in
    fact decided by Risk B; see "Notes on the source").
  - One further example, "John O'Brien" against "john obrien", shows the exact-match rule
    ignoring case and an apostrophe.
- **The orchestrator.**
  - The result and source of either algorithm, with the verifier's reply returned unchanged.
  - The error for any other algorithm.
  - Exactly which request reaches the language model, if any.
  - The hint is true exactly when the words sound alike and some pair is risky.

Files:
- `wrappers.dfy` holds `Option` and `Result`.
- `settings.dfy` holds `THRESHOLD`.
- `text.dfy` holds the Python string built-ins the source uses, as concrete tables and recursive functions.
- `normalization.dfy`, `gender.dfy`, `phonetic.dfy`, `hard_rules.dfy` and `verification.dfy` follow the repository's modules.
- `decision.dfy` holds `create_match_result`, which the source defines in `rules/hard_rules.py`. It is a module of its own because `utils/phonetic.py` (line 55) and `rules/hard_rules.py` (line 5) import each other, and Dafny modules cannot import each other.
- `cascade_examples.dfy` holds the worked examples.

Parameters of the model:
- Double Metaphone is the function parameter `dm: Encoder`, which maps a word to its primary and alternate codes.
- The language model is the class `SemanticVerifier`. Its replies are arbitrary strings, and a ghost log records every request it receives.

## Model

| member | source | states |
|---|---|---|
| Text.Lowercase | utils/normalization.py:19 | `str.lower` keeps the length, lowers each character, and leaves no upper-case letter |
| Text.Nfkd | utils/normalization.py:21 | NFKD leaves no decomposable character and introduces no upper-case letter |
| Text.DropCombining | utils/normalization.py:22 | the kept characters come from the input and none is a combining mark |
| Text.ReplaceChar | utils/normalization.py:24 | `replace('-', ' ')` keeps the length, turns every hyphen into a space and leaves every other character in place |
| Text.Delete | utils/normalization.py:25-27 | `replace(x, '')` leaves no `x`, and exactly the other characters of the input remain |
| Text.CollapseSpaces | utils/normalization.py:29 | every whitespace run becomes one space: no two adjacent whitespace characters, only plain spaces and non-whitespace characters of the input, the same words as the input, empty only for an empty input, and a leading (trailing) space exactly when the input starts (ends) with whitespace |
| Text.Strip | utils/normalization.py:30 | the result has no whitespace at either end, keeps single spacing, and has the same words as the input |
| Text.StripStart | utils/normalization.py:30 | a suffix of the input that does not start with whitespace, and everything removed in front of it is whitespace |
| Text.StripEnd | utils/normalization.py:30 | a prefix of the input that does not end with whitespace, and everything removed after it is whitespace |
| Text.Split | rules/hard_rules.py:30-31 | `str.split()` yields non-empty words free of whitespace |
| Text.JoinSplit | utils/normalization.py:29-31 | a single-spaced, trimmed string is its words joined by single spaces |
| Text.SplitJoinSpaced | rules/hard_rules.py:30-31 | splitting the space-join of non-empty, whitespace-free words gives the words back |
| Text.AccentFolds | utils/normalization.py:21-22 | NFKD then dropping combining marks turns an accented letter into exactly its base letter |
| Normalization.Unpunctuated | utils/normalization.py:19-27 | after lower-casing, accent folding, the hyphen replacement and the apostrophe and period deletions, no upper-case letter, precomposed letter, combining mark, `-`, `'` or `.` remains |
| Normalization.Normalize | utils/normalization.py:6-31 | empty in, empty out; the result has no `-`, `'`, `.`, combining mark or upper-case letter, only plain single spaces and no whitespace at the ends |
| Normalization.NormalizeNoSpace | utils/normalization.py:34-39 | the result has no whitespace and is the concatenation of the normalized name's words |
| Normalization.NormalizedIsFixed | utils/normalization.py:6-31 | a string already in normal form normalizes to itself |
| Normalization.NormalizeIdempotent | utils/normalization.py:6-31 | normalizing twice equals normalizing once |
| Normalization.NormalizedWords | utils/normalization.py:29-31 | the words of a normal form are non-empty and whitespace-free, and joining them with spaces rebuilds it |
| Normalization.NormalizeKeepsWords | utils/normalization.py:29-30 | collapsing and trimming whitespace loses no word: the words of the normal form are the words of the folded, dehyphenated, unpunctuated name |
| Normalization.NormalizeCaseInsensitive | utils/normalization.py:19 | lower-casing a name first does not change its normal form |
| Normalization.AccentFoldsToBase | utils/normalization.py:19-22 | an accented letter folds to the same single character as its lower-case base letter |
| Normalization.AccentInsensitive | utils/normalization.py:19-22 | replacing an accented letter by its base letter anywhere in a name keeps the normal form |
| Normalization.HyphenIsSpace | utils/normalization.py:24 | a hyphen anywhere in a name normalizes as a space would |
| Normalization.HyphenSeparatesWords | utils/normalization.py:24 | `a-b` normalizes to `a b`, two words |
| Normalization.ApostropheIgnored | utils/normalization.py:25-26 | removing an apostrophe anywhere in a name keeps the normal form |
| Normalization.TypographicApostropheKept | utils/normalization.py:26 | the typographic apostrophe U+2019 survives normalization |
| Normalization.PeriodIgnored | utils/normalization.py:27 | removing a period anywhere in a name keeps the normal form |
| Normalization.OneWordName | utils/normalization.py:6-31 | a one-word ASCII name normalizes to its lower-cased form, its only word |
| Normalization.TwoWordName | utils/normalization.py:6-31 | a two-word ASCII name normalizes to the two lower-cased words, split into exactly those |
| Gender.IsGenderSwap | rules/gender.py:4-14 | a swap pairs two names of the same non-zero length whose last letters differ up to case |
| Gender.GenderSwapCharacterized | rules/gender.py:4-14 | a swap iff equal lengths ≥ 1, last letters `a` and `o` in some order up to case, and every earlier letter equal up to case |
| Gender.GenderSwapSymmetric | rules/gender.py:11-12 | the rule does not depend on the order of the two names |
| Gender.GenderSwapIrreflexive | rules/gender.py:11-12 | no name is a swap of itself, and an empty name is never part of a swap |
| Gender.GenderSwapCaseInsensitive | rules/gender.py:9 | lower-casing either name first does not change the verdict |
| Gender.MariaMario | rules/gender.py:7 | Maria/Mario is a swap in both orders; Maria/Marta is not |
| Decisions.CreateMatchResult | rules/hard_rules.py:9-20 | the decision carries the given confidence and reasoning, and is a match iff the confidence is at least 85 |
| Phonetic.CodeSet | utils/phonetic.py:24-27 | `set(doublemetaphone(t))` holds exactly the primary and the alternate code, so at most two strings |
| Phonetic.RiskA | utils/phonetic.py:40-43 | Risk A (an `a`/`o` gender swap, or `el` against `elle` in either order) never pairs a word with itself |
| Phonetic.RiskB | utils/phonetic.py:46-47 | Risk B holds iff exactly one of the two words has `i` as its last letter, so never for a word against itself |
| Phonetic.CheckPhoneticWithRiskAssessment | utils/phonetic.py:7-56 | splitting both names and scanning the word pairs returns exactly the declarative phonetic rule `PhoneticRisk` |
| Phonetic.PhoneticScan | utils/phonetic.py:18-56 | the length test and the two passes return exactly the declarative rule `PhoneticWords` on the word lists |
| Phonetic.SharePass | utils/phonetic.py:22-29 | the first pass leaves `phonetic_match` set iff every aligned pair shares a non-empty code |
| Phonetic.FindRisk | utils/phonetic.py:35-51 | the second pass reports a risk iff some differing pair shows Risk A, B or C |
| Phonetic.RiskADefers | utils/phonetic.py:40-43 | one aligned pair showing Risk A withholds the approval, whatever the other pairs |
| Phonetic.RiskBDefers | utils/phonetic.py:46-47 | one aligned pair showing Risk B withholds the approval |
| Phonetic.RiskCDefers | utils/phonetic.py:50-51 | one aligned pair of different words whose target word has at most four characters withholds the approval, whatever the candidate word's length |
| Phonetic.RiskExamples | utils/phonetic.py:39-51 | the comments' examples are risky: Michael/Michelle by Risk A in both orders, Rashid/Rashidi by Risk B (and not Risk A), Ali/Alin by Risk C and also by Risk B, which the scan tests first |
| Phonetic.PhoneticOneWord | utils/phonetic.py:18-56 | one word against one word is approved at 95 iff they share a code and the pair is not risky |
| Phonetic.SharesCodeSymmetric | utils/phonetic.py:27 | sharing a non-empty code does not depend on the order of the words |
| Phonetic.SharesCodeReflexive | utils/phonetic.py:27 | a word shares a code with itself iff one of its codes is non-empty |
| Phonetic.PhoneticApproval | utils/phonetic.py:15-56 | an approval is a match at 95 with the rule's message; word counts are equal, every pair shares a code, and every differing pair has no gendered ending, agrees on a final `i` and has a target word longer than 4 |
| Phonetic.PhoneticApprovalComplete | utils/phonetic.py:18-56 | for equal word counts: approved iff every pair shares a code and no differing pair shows Risk A, B or C |
| Phonetic.IdenticalNamesApproved | utils/phonetic.py:35-37 | a name against itself is approved when every word has a non-empty code |
| Phonetic.RiskCTargetOnly | utils/phonetic.py:49-51 | Risk C reads only the target: alina/alin is approved, alin/alina defers |
| HardRules.GenderRule | rules/hard_rules.py:33-37 | rule 0 never fires on a list of words against itself |
| HardRules.OrderRule | rules/hard_rules.py:44 | rule 2 needs words on both sides and at least two words on one side |
| HardRules.FindGenderSwap | rules/hard_rules.py:34-37 | the loop reports a swap iff some aligned pair is a gender swap |
| HardRules.CheckHardRules | rules/hard_rules.py:23-53 | the method returns exactly the declarative cascade `Cascade` on the normalized words |
| HardRules.WordRulesOutcomes | rules/hard_rules.py:33-53 | every decision is consistent with the threshold, with confidence 20, 100, 30 or 95, a match iff 100 or 95; each outcome, None included, holds iff its rule is the first that applies |
| HardRules.CascadeOutcomes | rules/hard_rules.py:23-53 | on raw names: the 20/100/30 outcomes hold iff rule 0 / `normalize_no_space` equality / the order swap is the first that applies; a deferral means the phonetic rule declined |
| HardRules.SameNormalFormExact | rules/hard_rules.py:39-41 | names with the same normal form are an exact match at 100 |
| HardRules.NameMatchesItself | rules/hard_rules.py:39-41 | every name matches itself exactly |
| HardRules.GenderRuleSymmetric | rules/hard_rules.py:34-37 | rule 0 does not depend on which name is the target |
| HardRules.EarlyRulesSymmetric | rules/hard_rules.py:33-45 | rules 0 to 2 do not depend on which name is the target |
| HardRules.NoSwapForLengths | rules/gender.py:11-12 | words of different lengths are never a gender swap |
| CascadeExamples.MariaGonzalez | rules/hard_rules.py:33-37 | "Maria Gonzalez" vs. "Mario Gonzalez" is the gendered non-match at 20 |
| CascadeExamples.JohnOBrien | rules/hard_rules.py:39-41 | "John O'Brien" vs. "john obrien" is the exact match at 100 |
| CascadeExamples.AliHassan | rules/hard_rules.py:43-45 | "Ali Hassan" vs. "Hassan Ali" is the order-swap non-match at 30 |
| CascadeExamples.RepeatedWordOrderSwap | rules/hard_rules.py:44 | rule 2 compares word sets, so "ali ali hassan" vs. "hassan ali" is also an order swap |
| CascadeExamples.StevenStephen | rules/hard_rules.py:47-50 | when steven and stephen share a code, "Steven" vs. "Stephen" is the safe phonetic match at 95 |
| Verification.SemanticVerifier.VerifyAlgorithm1 | core/verification.py:18 | the plain request is appended to the verifier's request log and the reply to its reply log |
| Verification.SemanticVerifier.VerifyAlgorithm2 | core/verification.py:46 | the advanced request, with its hint, is appended to the request log and the reply to the reply log |
| Verification.PhoneticallyMatched | core/verification.py:36-41 | every pair of names the phonetic rule approves passes the `all(...)` test |
| Verification.PhoneticHint | core/verification.py:43 | a true hint means equal word counts and some risky aligned pair |
| Verification.PhoneticHintMeansRisky | core/verification.py:33-43 | the hint holds iff word counts are equal, every pair shares a code and some pair is risky |
| Verification.HintOnLlmPath | core/verification.py:23-43 | once the cascade has deferred, the hint equals "the names sound alike word by word" |
| Verification.VerifyName | core/verification.py:9-49 | algorithm 1 asks the plain prompt once and returns its reply unchanged; algorithm 2 returns the cascade's decision, asking nothing, or asks the advanced prompt once with the hint and returns its reply unchanged; any other algorithm is the error and asks nothing |
| Verification.VerifyFlow | core/verification.py:52-57 | `verify_name` with algorithm 2: the cascade's decision, or one advanced request with the hint whose reply is returned unchanged |

## Left out

- **Unicode, restricted.** `str.lower`, NFKD and `unicodedata.combining` are tables with a stated repertoire:
  - `str.lower` maps A–Z and the upper-case Latin-1 letters U+00C0–U+00DE (not U+00D7);
  - NFKD splits the precomposed Latin-1 letters into a base letter and one combining mark;
  - the combining marks are U+0300–U+036F except U+034F.
  - The tables are total: every other character is its own lower case and its own decomposition, and is not combining. Python differs on such characters, even inside Latin-1.
  - The spacing marks ´ ¨ ¯ ¸ decompose in Python to a space and a combining mark. So Python normalizes "O´Brien" to "o brien", which makes "O´Brien" against "OBrien" an exact match at 100. The model keeps "o´brien" and moves past rule 1.
  - The compatibility characters ª º ² µ also decompose in Python, to a, o, 2 and the Greek μ. The model keeps them.
  - Outside Latin-1, Python lower-cases "Ł" to "ł" and folds "Dvořák" to "dvorak". The model keeps "Ł" and gives "dvořak".
  - Length-changing case mappings (U+0130 `İ` lower-cases to two characters) are not modelled.
  - Idempotence and the "no upper-case letter" guarantee hold for these tables, not for Python's full tables. For example, Python's NFKD turns "™" into "TM", so `normalize("™")` is "TM" while `normalize("TM")` is "tm".
- **`None` as a name.** `normalize` returns `""` for any falsy input. The model takes strings only, so `None` reduces to the empty string.
- **JSON.** `create_match_result` serializes its dictionary with `json.dumps`. The model returns the `Decision` record, so `if hard_result:` on a non-empty JSON string becomes `.Some?`.
- **Double Metaphone.** The internals of the `metaphone` package are not part of this model. The encoder is a parameter, and the examples that need a shared code take it as a precondition.
- **The language-model algorithms.** The prompts, the Anthropic client, the generated test names, the Streamlit and command-line front ends and the test runner are not part of this model. `verify_name_algorithm1`/`2` return arbitrary strings.
- **Settings.** The environment loading and the API settings in `config/settings.py` are left out. Only `THRESHOLD` is modelled.
- **Errors.**
  - `ValueError` is the `Err` case of a `Result`.
  - Exceptions raised inside the language-model calls are not modelled.
  - The default argument `algorithm=2` appears as `VerifyFlow`.
- CascadeExamples.RepeatedWordOrderSwap: stated on the words of the normalized names. The raw names are not used.

## Notes on the source

- **The smart quote.**
  - The docstring of `normalize` (utils/normalization.py:12) says apostrophes are removed, and the comment on line 26 names that line's replacement a smart quote.
  - The character replaced on line 26 is the straight apostrophe `'` (U+0027), the same as on line 25. So the second replacement changes nothing, and the typographic apostrophe U+2019 is kept.
  - The model follows the code, and `Normalization.TypographicApostropheKept` states the consequence.
- **Risk C.**
  - The comment on utils/phonetic.py:49 motivates Risk C by differences in very short names.
  - The test on line 50, `len(t_token) <= 4`, reads only the target word. A short candidate word against a long target word passes.
  - So rule 3 depends on which name is the target. `Phonetic.RiskCTargetOnly` shows this: "alina" against "alin" is approved, while "alin" against "alina" defers.
- **The Risk C example.**
  - The comment on utils/phonetic.py:49 names Ali/Alin as the example of Risk C.
  - "ali" ends in `i` and "alin" does not, so Risk B on line 46 already returns for this pair, and line 50 is never reached for it.
  - `Phonetic.RiskExamples` states both `RiskB("ali", "alin")` and `RiskC("ali")`.
