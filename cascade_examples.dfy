/** Worked examples of the cascade on the names its rules are written for. */
module CascadeExamples {
  import opened Wrappers
  import opened Text
  import opened Normalization
  import opened Gender
  import opened Decisions
  import opened Phonetic
  import opened HardRules

  lemma MariaGonzalezWords()
    ensures Split(Normalize("Maria Gonzalez")) == [Lowercase("Maria"), Lowercase("Gonzalez")]
  {
    assert forall c :: c in "Maria" ==> IsAsciiLetter(c);
    assert forall c :: c in "Gonzalez" ==> IsAsciiLetter(c);
    assert "Maria Gonzalez" == "Maria" + " " + "Gonzalez";
    TwoWordName("Maria", "Gonzalez");
  }

  lemma MarioGonzalezWords()
    ensures Split(Normalize("Mario Gonzalez")) == [Lowercase("Mario"), Lowercase("Gonzalez")]
  {
    assert forall c :: c in "Mario" ==> IsAsciiLetter(c);
    assert forall c :: c in "Gonzalez" ==> IsAsciiLetter(c);
    assert "Mario Gonzalez" == "Mario" + " " + "Gonzalez";
    TwoWordName("Mario", "Gonzalez");
  }

  /** "Maria Gonzalez" against "Mario Gonzalez" is a gendered non-match at confidence 20. */
  lemma MariaGonzalez(dm: Encoder)
    ensures Cascade(dm, "Maria Gonzalez", "Mario Gonzalez") == Some(CreateMatchResult(20, GenderMessage))
  {
    MariaGonzalezWords();
    MarioGonzalezWords();
    MariaMario();
    GenderSwapCaseInsensitive("Maria", "Mario");
    var ts, cs := Split(Normalize("Maria Gonzalez")), Split(Normalize("Mario Gonzalez"));
    assert IsGenderSwap(ts[0], cs[0]);
    assert GenderRule(ts, cs);
  }

  lemma JohnOBrienForms()
    ensures Normalize("John O'Brien") == Normalize("John OBrien")
  {
    assert "John O'Brien" == "John O" + "'" + "Brien";
    assert "John O" + "Brien" == "John OBrien";
    ApostropheIgnored("John O", "Brien");
  }

  /** The lower-cased literal, kept apart from `JohnOBrienSameForm` so that the solver
      computes it without the normalization facts in scope. */
  lemma JohnOBrienLowered()
    ensures Lowercase("John OBrien") == "john obrien"
  {
  }

  lemma JohnOBrienSameForm()
    ensures Normalize("John O'Brien") == Normalize("john obrien")
  {
    JohnOBrienForms();
    NormalizeCaseInsensitive("John OBrien");
    JohnOBrienLowered();
  }

  /** "John O'Brien" against "john obrien" is an exact match at confidence 100: case and
      the apostrophe do not count. */
  lemma JohnOBrien(dm: Encoder)
    ensures Cascade(dm, "John O'Brien", "john obrien") == Some(CreateMatchResult(100, ExactMessage))
  {
    JohnOBrienSameForm();
    SameNormalFormExact(dm, "John O'Brien", "john obrien");
  }

  /** The words of "Ali Hassan" and of "Hassan Ali". */
  lemma AliHassanWords()
    ensures Split(Normalize("Ali Hassan")) == ["ali", "hassan"]
    ensures Split(Normalize("Hassan Ali")) == ["hassan", "ali"]
  {
    AliHassanLetters();
    assert "Ali Hassan" == "Ali" + " " + "Hassan";
    assert "Hassan Ali" == "Hassan" + " " + "Ali";
    TwoWordName("Ali", "Hassan");
    TwoWordName("Hassan", "Ali");
  }

  /** The letters of "Ali" and "Hassan", computed apart from the normalization facts. */
  lemma AliHassanLetters()
    ensures forall c :: c in "Ali" ==> IsAsciiLetter(c)
    ensures forall c :: c in "Hassan" ==> IsAsciiLetter(c)
    ensures Lowercase("Ali") == "ali" && Lowercase("Hassan") == "hassan"
  {
  }

  /** Rule 0 does not apply to "ali hassan" against "hassan ali": aligned words differ in
      length. */
  lemma AliHassanNoGender()
    ensures !GenderRule(["ali", "hassan"], ["hassan", "ali"])
  {
    NoSwapForLengths("ali", "hassan");
    NoSwapForLengths("hassan", "ali");
  }

  /** The words of "ali hassan" and "hassan ali" run together differently, and form the
      same set in different orders. */
  lemma AliHassanOrder()
    ensures Concat(["ali", "hassan"]) != Concat(["hassan", "ali"])
    ensures OrderRule(["ali", "hassan"], ["hassan", "ali"])
  {
    var ts, cs := ["ali", "hassan"], ["hassan", "ali"];
    assert Concat(ts)[0] != Concat(cs)[0];
    assert Elements(ts) == {"ali", "hassan"} == Elements(cs);
    assert ts[0] != cs[0];
  }

  /** On their words, "ali hassan" against "hassan ali" is a swap of word order. */
  lemma AliHassanRules(dm: Encoder)
    ensures WordRules(dm, ["ali", "hassan"], ["hassan", "ali"]) == Some(CreateMatchResult(30, OrderMessage))
  {
    AliHassanNoGender();
    AliHassanOrder();
  }

  /** "Ali Hassan" against "Hassan Ali" is a word-order non-match at confidence 30. */
  lemma AliHassan(dm: Encoder)
    ensures Cascade(dm, "Ali Hassan", "Hassan Ali") == Some(CreateMatchResult(30, OrderMessage))
  {
    AliHassanWords();
    AliHassanRules(dm);
  }

  /** "steven" and "stephen" differ in a way none of the three risks flags. */
  lemma StevenStephenSafe()
    ensures !Risky("steven", "stephen")
  {
    NoSwapForLengths("steven", "stephen");
    assert !EndsWith("steven", "el") && !EndsWith("steven", "elle");
    assert !EndsWith("steven", "i") && !EndsWith("stephen", "i");
  }

  /** On their words, "steven" against "stephen" sounding alike is a safe variant. */
  lemma StevenStephenRules(dm: Encoder)
    requires SharesCode(dm, "steven", "stephen")
    ensures WordRules(dm, ["steven"], ["stephen"]) == Some(CreateMatchResult(95, SafePhoneticMessage))
  {
    var ts, cs := ["steven"], ["stephen"];
    assert ts != cs && Elements(ts) != Elements(cs) by {
      assert "steven" !in Elements(cs);
    }
    NoSwapForLengths("steven", "stephen");
    assert !GenderRule(ts, cs);
    assert Concat(ts) == "steven" && Concat(cs) == "stephen";
    StevenStephenSafe();
    assert AllPairsShareCode(dm, ts, cs);
  }

  /** The letters of "Steven" and "Stephen", computed apart from the normalization facts. */
  lemma StevenStephenLetters()
    ensures forall c :: c in "Steven" ==> IsAsciiLetter(c)
    ensures forall c :: c in "Stephen" ==> IsAsciiLetter(c)
    ensures Lowercase("Steven") == "steven" && Lowercase("Stephen") == "stephen"
  {
  }

  /** The one word of "Steven" and of "Stephen". */
  lemma StevenStephenWords()
    ensures Split(Normalize("Steven")) == ["steven"] && Split(Normalize("Stephen")) == ["stephen"]
  {
    StevenStephenLetters();
    OneWordName("Steven");
    OneWordName("Stephen");
  }

  /** "Steven" against "Stephen", when the encoder gives them a common code, is a safe
      phonetic match at confidence 95. */
  lemma StevenStephen(dm: Encoder)
    requires SharesCode(dm, "steven", "stephen")
    ensures Cascade(dm, "Steven", "Stephen") == Some(CreateMatchResult(95, SafePhoneticMessage))
  {
    StevenStephenWords();
    StevenStephenRules(dm);
  }

  /** Rule 2 compares sets of words, so a repeated word does not matter: the words
      "ali ali hassan" against "hassan ali" (different counts, so rule 0 is skipped) are a
      word-order non-match at confidence 30. */
  lemma RepeatedWordOrderSwap(dm: Encoder)
    ensures WordRules(dm, ["ali", "ali", "hassan"], ["hassan", "ali"]) == Some(CreateMatchResult(30, OrderMessage))
  {
    var ts, cs := ["ali", "ali", "hassan"], ["hassan", "ali"];
    assert !GenderRule(ts, cs);
    assert Concat(ts) == "alialihassan" && Concat(cs) == "hassanali";
    assert Concat(ts)[0] != Concat(cs)[0];
    assert Elements(ts) == Elements(cs) by {
      assert Elements(ts) == {"ali", "hassan"} == Elements(cs);
    }
    assert ts != cs by {
      assert |ts| != |cs|;
    }
  }
}
