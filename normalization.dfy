/** Name normalization: the canonical form in which two names are compared. */
module Normalization {
  import opened Text

  /** A character that every normalization step leaves as it is: lower case, not
      decomposable, not combining, none of `-`, `'` and `.`, and whitespace only as the
      plain space. */
  ghost predicate Folded(c: char) {
    && !IsUpper(c)
    && !Decomposable(c)
    && !IsCombining(c)
    && c != '-' && c != '\'' && c != '.'
    && (IsSpace(c) ==> c == ' ')
  }

  /** The shape of every normalized name: folded characters, single spaces between
      words and no whitespace at either end. */
  ghost predicate IsNormalized(s: string) {
    && (forall c :: c in s ==> Folded(c))
    && (s != [] ==> !IsSpace(s[0]) && !IsSpace(s[|s| - 1]))
    && NoDoubleSpace(s)
  }

  /** The name after folding (lower case, NFKD, combining marks dropped), hyphens turned
      into spaces and apostrophes and periods deleted: the steps of `normalize` before the
      whitespace is standardized. The second apostrophe replacement names the same
      straight apostrophe as the first, so it changes nothing. */
  function Unpunctuated(name: string): (r: string)
    ensures forall c :: c in r ==>
      && !IsUpper(c) && !Decomposable(c) && !IsCombining(c)
      && c != '-' && c != '\'' && c != '.'
  {
    var lowered := Lowercase(name);
    var folded := DropCombining(Nfkd(lowered));
    var dehyphenated := ReplaceChar(folded, '-', ' ');
    var unquoted := Delete(Delete(dehyphenated, '\''), '\'');
    Delete(unquoted, '.')
  }

  /** `normalize(name)`: lower-cases, folds accents (NFKD, then combining marks dropped),
      turns hyphens into spaces, drops apostrophes and periods, collapses whitespace runs
      to one space and trims both ends. */
  function Normalize(name: string): (r: string)
    ensures name == "" ==> r == ""
    ensures '-' !in r && '\'' !in r && '.' !in r
    ensures forall c :: c in r ==> !IsCombining(c) && !IsUpper(c)
    ensures r != [] ==> !IsSpace(r[0]) && !IsSpace(r[|r| - 1])
    ensures NoDoubleSpace(r)
    ensures forall c :: c in r && IsSpace(c) ==> c == ' '
    ensures IsNormalized(r)
  {
    if name == "" then ""
    else
      StandardizedIsNormalized(Unpunctuated(name));
      Strip(CollapseSpaces(Unpunctuated(name)))
  }

  /** Collapsing and trimming the whitespace of a folded, unpunctuated string puts it in
      normal form. */
  lemma StandardizedIsNormalized(u: string)
    requires forall c :: c in u ==>
      && !IsUpper(c) && !Decomposable(c) && !IsCombining(c)
      && c != '-' && c != '\'' && c != '.'
    ensures IsNormalized(Strip(CollapseSpaces(u)))
  {
    var collapsed := CollapseSpaces(u);
    assert forall c :: c in collapsed ==> Folded(c);
    assert forall c :: c in Strip(collapsed) ==> Folded(c);
  }

  /** `normalize_no_space(name)`: the normalized name with its spaces deleted, which is the
      concatenation of its words. */
  function NormalizeNoSpace(name: string): (r: string)
    ensures forall c :: c in r ==> !IsSpace(c)
    ensures r == Concat(Split(Normalize(name)))
  {
    var n := Normalize(name);
    JoinSplit(n);
    DeleteJoinSpaced(Split(n));
    Delete(n, ' ')
  }

  /** A normalized name is its own normal form. */
  lemma NormalizedIsFixed(s: string)
    requires IsNormalized(s)
    ensures Normalize(s) == s
  {
    if s != "" {
      LowercaseFixed(s);
      NfkdFixed(s);
      DropCombiningFixed(s);
      ReplaceCharFixed(s, '-', ' ');
      DeleteFixed(s, '\'');
      DeleteFixed(s, '.');
      CollapseFromFixed(s, false);
      StripFixed(s);
    }
  }

  /** Normalization is idempotent. */
  lemma NormalizeIdempotent(name: string)
    ensures Normalize(Normalize(name)) == Normalize(name)
  {
    NormalizedIsFixed(Normalize(name));
  }

  /** The words of a normalized name are non-empty and free of whitespace, and joining
      them with single spaces gives the normalized name back. */
  lemma NormalizedWords(name: string)
    ensures forall t :: t in Split(Normalize(name)) ==> t != [] && forall c :: c in t ==> !IsSpace(c)
    ensures JoinSpaced(Split(Normalize(name))) == Normalize(name)
  {
    JoinSplit(Normalize(name));
  }

  /** Standardizing whitespace loses no word: the words of a normalized name are the
      whitespace-separated runs of the folded, dehyphenated, unpunctuated name. */
  lemma NormalizeKeepsWords(name: string)
    ensures Split(Normalize(name)) == Split(Unpunctuated(name))
  {
  }

  /** A name without accents, combining marks or periods, whose only whitespace is plain
      spaces, normalizes to the spaced join of words `ws` when lowering it, turning its
      hyphens into spaces and dropping its apostrophes gives that join; `ws` are then its
      words. */
  lemma NormalizeToWords(s: string, ws: seq<string>)
    requires forall c :: c in s ==> !Decomposable(c) && !IsCombining(c) && c != '.'
    requires forall c :: c in s && IsSpace(c) ==> c == ' '
    requires ws != [] && forall w :: w in ws ==> w != [] && forall c :: c in w ==> !IsSpace(c)
    requires Delete(ReplaceChar(Lowercase(s), '-', ' '), '\'') == JoinSpaced(ws)
    ensures Normalize(s) == JoinSpaced(ws)
    ensures Split(Normalize(s)) == ws
  {
    var joined := JoinSpaced(ws);
    JoinSpacedShape(ws);
    SplitJoinSpaced(ws);
    var lowered := Lowercase(s);
    assert s != "";
    assert forall c :: c in lowered ==> !Decomposable(c) && !IsCombining(c) && c != '.' && (IsSpace(c) ==> c == ' ') by {
      forall c | c in lowered ensures !Decomposable(c) && !IsCombining(c) && c != '.' && (IsSpace(c) ==> c == ' ') {
        var i :| 0 <= i < |lowered| && lowered[i] == c;
        assert s[i] in s;
        LowerKeeps(s[i]);
      }
    }
    assert DropCombining(Nfkd(lowered)) == lowered by {
      NfkdFixed(lowered);
      DropCombiningFixed(lowered);
    }
    var unquoted := Delete(ReplaceChar(lowered, '-', ' '), '\'');
    assert Delete(Delete(unquoted, '\''), '.') == joined by {
      DeleteFixed(unquoted, '\'');
      DeleteFixed(unquoted, '.');
    }
    assert Strip(CollapseSpaces(joined)) == joined by {
      CollapseFromFixed(joined, false);
      StripFixed(joined);
    }
  }

  /** Folding (lower-casing, NFKD, dropping combining marks) of one character that is
      neither upper case, precomposed nor combining leaves it as it is. */
  lemma FoldPlain(c: char)
    requires !IsUpper(c) && !Decomposable(c) && !IsCombining(c)
    ensures DropCombining(Nfkd(Lowercase([c]))) == [c]
  {
    assert Lowercase([c]) == [c];
    NfkdFixed([c]);
    DropCombiningFixed([c]);
  }

  /** The folding of `pre + [c] + post` around a plain character `c`. */
  lemma FoldAround(pre: string, c: char, post: string)
    requires !IsUpper(c) && !Decomposable(c) && !IsCombining(c)
    ensures DropCombining(Nfkd(Lowercase(pre + [c] + post)))
         == DropCombining(Nfkd(Lowercase(pre))) + [c] + DropCombining(Nfkd(Lowercase(post)))
  {
    FoldAppend(pre, [c], post);
    FoldPlain(c);
  }

  /** The folding of `pre + post`. */
  lemma FoldJoin(pre: string, post: string)
    ensures DropCombining(Nfkd(Lowercase(pre + post)))
         == DropCombining(Nfkd(Lowercase(pre))) + DropCombining(Nfkd(Lowercase(post)))
  {
    LowercaseAppend(pre, post);
    NfkdAppend(Lowercase(pre), Lowercase(post));
    DropCombiningAppend(Nfkd(Lowercase(pre)), Nfkd(Lowercase(post)));
  }

  /** Turning hyphens into spaces and deleting apostrophes, around an apostrophe. */
  lemma UnquoteAround(f1: string, f2: string)
    ensures Delete(ReplaceChar(f1 + "'" + f2, '-', ' '), '\'') == Delete(ReplaceChar(f1 + f2, '-', ' '), '\'')
  {
    ReplaceCharAppend(f1 + "'", f2, '-', ' ');
    ReplaceCharAppend(f1, "'", '-', ' ');
    ReplaceCharAppend(f1, f2, '-', ' ');
    assert ReplaceChar("'", '-', ' ') == "'";
    var r1, r2 := ReplaceChar(f1, '-', ' '), ReplaceChar(f2, '-', ' ');
    DeleteAround(r1, '\'', r2, '\'');
    DeleteAppend(r1, r2, '\'');
  }

  /** Normalization ignores apostrophes: deleting one anywhere in a name does not change
      its normal form ("O'Brien" and "OBrien" are the same name). */
  lemma ApostropheIgnored(pre: string, post: string)
    ensures Normalize(pre + "'" + post) == Normalize(pre + post)
  {
    var f1, f2 := DropCombining(Nfkd(Lowercase(pre))), DropCombining(Nfkd(Lowercase(post)));
    assert DropCombining(Nfkd(Lowercase(pre + "'" + post))) == f1 + "'" + f2 by {
      FoldAround(pre, '\'', post);
    }
    assert DropCombining(Nfkd(Lowercase(pre + post))) == f1 + f2 by {
      FoldJoin(pre, post);
    }
    UnquoteAround(f1, f2);
  }

  /** Turning hyphens into spaces and deleting apostrophes and periods, around a period. */
  lemma UnpunctuateAround(f1: string, f2: string)
    ensures Delete(Delete(Delete(ReplaceChar(f1 + "." + f2, '-', ' '), '\''), '\''), '.')
         == Delete(Delete(Delete(ReplaceChar(f1 + f2, '-', ' '), '\''), '\''), '.')
  {
    ReplaceCharAppend(f1 + ".", f2, '-', ' ');
    ReplaceCharAppend(f1, ".", '-', ' ');
    ReplaceCharAppend(f1, f2, '-', ' ');
    assert ReplaceChar(".", '-', ' ') == ".";
    var r1, r2 := ReplaceChar(f1, '-', ' '), ReplaceChar(f2, '-', ' ');
    var d1, d2 := Delete(r1, '\''), Delete(r2, '\'');
    var e1, e2 := Delete(d1, '\''), Delete(d2, '\'');
    assert Delete(r1 + "." + r2, '\'') == d1 + "." + d2 && Delete(r1 + r2, '\'') == d1 + d2 by {
      DeleteAround(r1, '.', r2, '\'');
      DeleteAppend(r1, r2, '\'');
    }
    assert Delete(d1 + "." + d2, '\'') == e1 + "." + e2 && Delete(d1 + d2, '\'') == e1 + e2 by {
      DeleteAround(d1, '.', d2, '\'');
      DeleteAppend(d1, d2, '\'');
    }
    DeleteAround(e1, '.', e2, '.');
    DeleteAppend(e1, e2, '.');
  }

  /** Normalization ignores periods: deleting one anywhere in a name does not change its
      normal form ("J. Smith" and "J Smith" are the same name). */
  lemma PeriodIgnored(pre: string, post: string)
    ensures Normalize(pre + "." + post) == Normalize(pre + post)
  {
    var f1, f2 := DropCombining(Nfkd(Lowercase(pre))), DropCombining(Nfkd(Lowercase(post)));
    assert DropCombining(Nfkd(Lowercase(pre + "." + post))) == f1 + "." + f2 by {
      FoldAround(pre, '.', post);
    }
    assert DropCombining(Nfkd(Lowercase(pre + post))) == f1 + f2 by {
      FoldJoin(pre, post);
    }
    UnpunctuateAround(f1, f2);
  }

  /** Normalization reads a hyphen as a space ("Jean-Luc" and "Jean Luc" are the same
      name). */
  lemma HyphenIsSpace(pre: string, post: string)
    ensures Normalize(pre + "-" + post) == Normalize(pre + " " + post)
  {
    FoldAround(pre, '-', post);
    FoldAround(pre, ' ', post);
    var f1, f2 := DropCombining(Nfkd(Lowercase(pre))), DropCombining(Nfkd(Lowercase(post)));
    ReplaceCharAppend(f1 + "-", f2, '-', ' ');
    ReplaceCharAppend(f1, "-", '-', ' ');
    ReplaceCharAppend(f1 + " ", f2, '-', ' ');
    ReplaceCharAppend(f1, " ", '-', ' ');
    assert ReplaceChar("-", '-', ' ') == " " == ReplaceChar(" ", '-', ' ');
  }

  /** An ASCII letter. */
  predicate IsAsciiLetter(c: char) {
    'a' <= c <= 'z' || 'A' <= c <= 'Z'
  }

  /** A name made of ASCII letters and plain spaces normalizes to its lower-cased form
      once that form is the spaced join of the words `ws`. */
  lemma LettersToWords(s: string, ws: seq<string>)
    requires forall c :: c in s ==> IsAsciiLetter(c) || c == ' '
    requires ws != [] && forall w :: w in ws ==> w != [] && forall c :: c in w ==> !IsSpace(c)
    requires Lowercase(s) == JoinSpaced(ws)
    ensures Normalize(s) == JoinSpaced(ws)
    ensures Split(Normalize(s)) == ws
  {
    var lowered := Lowercase(s);
    assert forall c :: c in lowered ==> c != '-' && c != '\'' by {
      forall c | c in lowered ensures c != '-' && c != '\'' {
        var i :| 0 <= i < |lowered| && lowered[i] == c;
        assert s[i] in s;
      }
    }
    ReplaceCharFixed(lowered, '-', ' ');
    DeleteFixed(lowered, '\'');
    NormalizeToWords(s, ws);
  }

  /** Normalization ignores case. */
  lemma NormalizeCaseInsensitive(name: string)
    ensures Normalize(Lowercase(name)) == Normalize(name)
  {
    LowercaseIdempotent(name);
    if name != "" {
      assert Lowercase(name)[0] == Lower(name[0]);
    }
  }

  /** A word of ASCII letters, lower-cased, is a non-empty run of lower-case letters. */
  lemma LoweredWord(w: string)
    requires w != [] && forall c :: c in w ==> IsAsciiLetter(c)
    ensures Lowercase(w) != [] && forall c :: c in Lowercase(w) ==> 'a' <= c <= 'z'
  {
    forall c | c in Lowercase(w) ensures 'a' <= c <= 'z' {
      var i :| 0 <= i < |w| && Lowercase(w)[i] == c;
      assert w[i] in w;
    }
  }

  /** A one-word name of ASCII letters normalizes to its lower-cased form, its only word. */
  lemma OneWordName(w: string)
    requires w != [] && forall c :: c in w ==> IsAsciiLetter(c)
    ensures Normalize(w) == Lowercase(w) && Split(Normalize(w)) == [Lowercase(w)]
  {
    LoweredWord(w);
    LettersToWords(w, [Lowercase(w)]);
  }

  /** A name of two words of ASCII letters normalizes to the two lower-cased words. */
  lemma TwoWordName(first: string, last: string)
    requires first != [] && forall c :: c in first ==> IsAsciiLetter(c)
    requires last != [] && forall c :: c in last ==> IsAsciiLetter(c)
    ensures Normalize(first + " " + last) == Lowercase(first) + " " + Lowercase(last)
    ensures Split(Normalize(first + " " + last)) == [Lowercase(first), Lowercase(last)]
  {
    LoweredWord(first);
    LoweredWord(last);
    var ws := [Lowercase(first), Lowercase(last)];
    assert JoinSpaced(ws) == Lowercase(first) + " " + Lowercase(last) by {
      assert ws[1..] == [Lowercase(last)];
    }
    LowercaseAppend(first + " ", last);
    LowercaseAppend(first, " ");
    assert Lowercase(" ") == " ";
    LettersToWords(first + " " + last, ws);
  }

  /** The lowered, dehyphenated form of "a-b". */
  lemma HyphenatedSteps()
    ensures Delete(ReplaceChar(Lowercase("a-b"), '-', ' '), '\'') == JoinSpaced(["a", "b"])
  {
    assert Lowercase("a-b") == "a-b";
    assert ReplaceChar("a-b", '-', ' ') == "a b";
    DeleteFixed("a b", '\'');
  }

  /** A hyphen separates words: "a-b" normalizes to "a b", whose words are "a" and "b". */
  lemma HyphenSeparatesWords()
    ensures Normalize("a-b") == "a b"
    ensures Split(Normalize("a-b")) == ["a", "b"]
  {
    HyphenatedSteps();
    assert JoinSpaced(["a", "b"]) == "a b";
    assert forall c :: c in "a-b" ==> c == 'a' || c == '-' || c == 'b';
    assert forall w :: w in ["a", "b"] ==> w == "a" || w == "b";
    NormalizeToWords("a-b", ["a", "b"]);
  }

  /** The source's accent folding, one character at a time: after lower-casing, NFKD and
      dropping combining marks, an accented letter leaves exactly its lower-case base
      letter, the result the base letter itself gives. */
  lemma AccentFoldsToBase(c: char)
    requires Decomposable(Lower(c))
    ensures DropCombining(Nfkd(Lowercase([c]))) == [Base(Lower(c))]
    ensures DropCombining(Nfkd(Lowercase([Base(Lower(c))]))) == [Base(Lower(c))]
  {
    var b := Base(Lower(c));
    assert Lowercase([c]) == [Lower(c)];
    AccentFolds(Lower(c));
    assert Lowercase([b]) == [b];
    NfkdFixed([b]);
    DropCombiningFixed([b]);
  }

  /** Lower-casing, decomposing and dropping combining marks work piece by piece. */
  lemma FoldAppend(pre: string, s: string, post: string)
    ensures DropCombining(Nfkd(Lowercase(pre + s + post)))
         == DropCombining(Nfkd(Lowercase(pre))) + DropCombining(Nfkd(Lowercase(s)))
            + DropCombining(Nfkd(Lowercase(post)))
  {
    LowercaseAppend(pre + s, post);
    LowercaseAppend(pre, s);
    var lp, ls, lq := Lowercase(pre), Lowercase(s), Lowercase(post);
    NfkdAppend(lp + ls, lq);
    NfkdAppend(lp, ls);
    DropCombiningAppend(Nfkd(lp) + Nfkd(ls), Nfkd(lq));
    DropCombiningAppend(Nfkd(lp), Nfkd(ls));
  }

  /** Normalization ignores accents: replacing an accented letter by its base letter
      anywhere in a name does not change its normal form ("José" and "Jose" are the same
      name). */
  lemma AccentInsensitive(pre: string, c: char, post: string)
    requires Decomposable(Lower(c))
    ensures Normalize(pre + [c] + post) == Normalize(pre + [Base(Lower(c))] + post)
  {
    var b := Base(Lower(c));
    FoldAppend(pre, [c], post);
    FoldAppend(pre, [b], post);
    AccentFoldsToBase(c);
    assert DropCombining(Nfkd(Lowercase(pre + [c] + post)))
        == DropCombining(Nfkd(Lowercase(pre + [b] + post)));
  }

  /** The apostrophe named as a smart quote is the straight one, so a typographic
      apostrophe (U+2019) is kept. */
  lemma TypographicApostropheKept()
    ensures Normalize("o\U{2019}brien") == "o\U{2019}brien"
  {
    NormalizedIsFixed("o\U{2019}brien");
  }
}
