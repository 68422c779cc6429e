/** The Python string built-ins and Unicode character data that the name normalizer and the
    matching rules rely on: `str.isspace`, `str.lower`, NFKD decomposition,
    `unicodedata.combining`, `str.replace`, `re.sub(r'\s+', ' ', s)`, `str.strip`,
    `str.split`, `str.endswith` and `' '.join`.

    Case mapping and decomposition are given on a stated repertoire: `str.lower` on ASCII and
    Latin-1 letters, NFKD on the precomposed Latin-1 letters, and the combining class on the
    Combining Diacritical Marks block. Every other character is its own lower case and its own
    decomposition. */
module Text {

  // ---------------------------------------------------------------------------------------
  // Character classes

  /** `str.isspace()`; it is also the set that `\s` matches in a `str` regular expression. */
  predicate IsSpace(c: char) {
    || ('\t' <= c <= '\r')
    || ('\U{1C}' <= c <= ' ')
    || c == '\U{85}' || c == '\U{A0}' || c == '\U{1680}'
    || ('\U{2000}' <= c <= '\U{200A}')
    || c == '\U{2028}' || c == '\U{2029}' || c == '\U{202F}' || c == '\U{205F}' || c == '\U{3000}'
  }

  /** The upper-case letters that `str.lower` changes, within ASCII and Latin-1. */
  predicate IsUpper(c: char) {
    ('A' <= c <= 'Z') || ('\U{C0}' <= c <= '\U{DE}' && c != '\U{D7}')
  }

  /** `str.lower` on one character: every such upper-case letter sits 32 code points
      below its lower-case form. */
  function Lower(c: char): (r: char)
    ensures !IsUpper(r)
    ensures IsUpper(c) <==> r != c
  {
    if IsUpper(c) then (c as int + 32) as char else c
  }

  /** `unicodedata.combining(c) != 0` on the Combining Diacritical Marks block, where only
      U+034F (the grapheme joiner) has combining class 0. */
  predicate IsCombining(c: char) {
    '\U{300}' <= c <= '\U{36F}' && c != '\U{34F}'
  }

  const Grave: char := '\U{300}'
  const Acute: char := '\U{301}'
  const Circumflex: char := '\U{302}'
  const Tilde: char := '\U{303}'
  const Diaeresis: char := '\U{308}'
  const RingAbove: char := '\U{30A}'
  const Cedilla: char := '\U{327}'

  /** The code point of the upper-case partner of a Latin-1 letter (lower-case letters sit
      32 code points above their capitals). */
  function LatinUpper(c: char): int {
    if c as int >= 0xE0 then c as int - 0x20 else c as int
  }

  /** The precomposed Latin-1 letters, which NFKD splits into a base letter and one
      combining mark: the accented A, C, E, I, N, O, U and Y in both cases, and y with
      diaeresis. */
  predicate Decomposable(c: char) {
    || c == '\U{FF}'
    || ('\U{C0}' <= c <= '\U{FE}' &&
        var u := LatinUpper(c);
        (0xC0 <= u <= 0xC5) || (0xC7 <= u <= 0xCF) || (0xD1 <= u <= 0xD6) || (0xD9 <= u <= 0xDD))
  }

  /** The base letter of a precomposed Latin-1 letter; it has the letter's case. */
  function Base(c: char): (b: char)
    requires Decomposable(c)
    ensures 'A' <= b <= 'Z' || 'a' <= b <= 'z'
    ensures !IsUpper(c) ==> 'a' <= b <= 'z'
  {
    if c == '\U{FF}' then 'y'
    else
      var u := LatinUpper(c);
      var capital :=
        if u <= 0xC5 then 'A' else if u == 0xC7 then 'C' else if u <= 0xCB then 'E'
        else if u <= 0xCF then 'I' else if u == 0xD1 then 'N' else if u <= 0xD6 then 'O'
        else if u <= 0xDC then 'U' else 'Y';
      if c as int >= 0xE0 then Lower(capital) else capital
  }

  /** The combining mark of a precomposed Latin-1 letter. */
  function Mark(c: char): (m: char)
    requires Decomposable(c)
    ensures IsCombining(m)
  {
    if c == '\U{FF}' then Diaeresis
    else
      var u := LatinUpper(c);
      if u <= 0xC5 then [Grave, Acute, Circumflex, Tilde, Diaeresis, RingAbove][u - 0xC0]
      else if u == 0xC7 then Cedilla
      else if u <= 0xCB then [Grave, Acute, Circumflex, Diaeresis][u - 0xC8]
      else if u <= 0xCF then [Grave, Acute, Circumflex, Diaeresis][u - 0xCC]
      else if u == 0xD1 then Tilde
      else if u <= 0xD6 then [Grave, Acute, Circumflex, Tilde, Diaeresis][u - 0xD2]
      else if u <= 0xDC then [Grave, Acute, Circumflex, Diaeresis][u - 0xD9]
      else Acute
  }

  /** The NFKD decomposition of one character. */
  function Decompose(c: char): (r: string)
    ensures forall d :: d in r ==> !Decomposable(d)
    ensures !IsUpper(c) ==> forall d :: d in r ==> !IsUpper(d)
  {
    if Decomposable(c) then [Base(c), Mark(c)] else [c]
  }

  // ---------------------------------------------------------------------------------------
  // Whole-string operations

  /** `s.lower()`. */
  function Lowercase(s: string): (r: string)
    ensures |r| == |s| && forall i :: 0 <= i < |s| ==> r[i] == Lower(s[i])
    ensures forall c :: c in r ==> !IsUpper(c)
  {
    seq(|s|, i requires 0 <= i < |s| => Lower(s[i]))
  }

  /** `unicodedata.normalize('NFKD', s)`: every character replaced by its decomposition. */
  function Nfkd(s: string): (r: string)
    ensures forall c :: c in r ==> !Decomposable(c)
    ensures (forall c :: c in s ==> !IsUpper(c)) ==> forall c :: c in r ==> !IsUpper(c)
  {
    if s == [] then [] else Decompose(s[0]) + Nfkd(s[1..])
  }

  /** `''.join(c for c in s if not unicodedata.combining(c))`. */
  function DropCombining(s: string): (r: string)
    ensures forall c :: c in r ==> c in s && !IsCombining(c)
  {
    if s == [] then []
    else if IsCombining(s[0]) then DropCombining(s[1..])
    else [s[0]] + DropCombining(s[1..])
  }

  /** `s.replace(x, y)` for one-character strings `x` and `y`. */
  function ReplaceChar(s: string, x: char, y: char): (r: string)
    ensures |r| == |s|
    ensures forall c :: c in r ==> c == y || (c in s && c != x)
    ensures forall i :: 0 <= i < |s| && s[i] != x ==> r[i] == s[i]
    ensures forall i :: 0 <= i < |s| && s[i] == x ==> r[i] == y
  {
    seq(|s|, i requires 0 <= i < |s| => if s[i] == x then y else s[i])
  }

  /** `s.replace(x, "")` for a one-character string `x`. */
  function Delete(s: string, x: char): (r: string)
    ensures x !in r
    ensures forall c :: c in r <==> c in s && c != x
  {
    if s == [] then []
    else if s[0] == x then Delete(s[1..], x)
    else [s[0]] + Delete(s[1..], x)
  }

  /** No two adjacent whitespace characters. */
  ghost predicate NoDoubleSpace(s: string) {
    forall i, j :: 0 <= i < j < |s| && j == i + 1 ==> !(IsSpace(s[i]) && IsSpace(s[j]))
  }

  /** `re.sub(r'\s+', ' ', s)`, scanning left to right; `inRun` says that the characters
      just consumed were whitespace whose single replacement space is already emitted. */
  function CollapseFrom(s: string, inRun: bool): (r: string)
    ensures forall c :: c in r ==> c == ' ' || (c in s && !IsSpace(c))
    ensures NoDoubleSpace(r)
    ensures inRun && r != [] ==> !IsSpace(r[0])
    ensures !inRun ==> (r == [] <==> s == [])
    ensures !inRun && r != [] ==> (IsSpace(r[0]) <==> IsSpace(s[0]))
    ensures r == [] ==> forall c :: c in s ==> IsSpace(c)
    ensures r != [] ==> (IsSpace(r[|r| - 1]) <==> IsSpace(s[|s| - 1]))
  {
    if s == [] then []
    else if IsSpace(s[0]) then
      if inRun then CollapseFrom(s[1..], true) else " " + CollapseFrom(s[1..], true)
    else [s[0]] + CollapseFrom(s[1..], false)
  }

  /** `re.sub(r'\s+', ' ', s)`: every maximal run of whitespace becomes one space. */
  function CollapseSpaces(s: string): (r: string)
    ensures forall c :: c in r ==> c == ' ' || (c in s && !IsSpace(c))
    ensures NoDoubleSpace(r)
    ensures Split(r) == Split(s)
    ensures r == [] <==> s == []
    ensures r != [] ==> (IsSpace(r[0]) <==> IsSpace(s[0]))
    ensures r != [] ==> (IsSpace(r[|r| - 1]) <==> IsSpace(s[|s| - 1]))
  {
    CollapseSplit(s, false);
    CollapseFrom(s, false)
  }

  /** `s.lstrip()`: the suffix of `s` left once its leading whitespace is removed. */
  function StripStart(s: string): (r: string)
    ensures |r| <= |s| && r == s[|s| - |r|..]
    ensures r != [] ==> !IsSpace(r[0])
    ensures forall i :: 0 <= i < |s| - |r| ==> IsSpace(s[i])
  {
    if s != [] && IsSpace(s[0]) then StripStart(s[1..]) else s
  }

  /** `s.rstrip()`: the prefix of `s` left once its trailing whitespace is removed. */
  function StripEnd(s: string): (r: string)
    ensures |r| <= |s| && r == s[..|r|]
    ensures r != [] ==> !IsSpace(r[|r| - 1])
    ensures forall i :: |r| <= i < |s| ==> IsSpace(s[i])
  {
    if s != [] && IsSpace(s[|s| - 1]) then StripEnd(s[..|s| - 1]) else s
  }

  /** `s.strip()`: a slice of `s` with no whitespace at either end and the same words. */
  function Strip(s: string): (r: string)
    ensures forall c :: c in r ==> c in s
    ensures r != [] ==> !IsSpace(r[0]) && !IsSpace(r[|r| - 1])
    ensures NoDoubleSpace(s) ==> NoDoubleSpace(r)
    ensures Split(r) == Split(s)
  {
    StripSlice(s);
    SplitStripStart(s);
    SplitStripEnd(StripStart(s));
    StripEnd(StripStart(s))
  }

  /** The characters of `s.strip()` are those of `s` shifted past the leading whitespace. */
  lemma StripSlice(s: string)
    ensures var left := StripStart(s); var r := StripEnd(left);
      forall i :: 0 <= i < |r| ==> r[i] == s[|s| - |left| + i]
  {
  }

  /** The length of the run of non-whitespace characters that starts `s`. */
  function WordLength(s: string): (k: nat)
    ensures k <= |s|
    ensures forall i :: 0 <= i < k ==> !IsSpace(s[i])
    ensures k < |s| ==> IsSpace(s[k])
  {
    if s == [] || IsSpace(s[0]) then 0 else 1 + WordLength(s[1..])
  }

  /** `s.split()`: the maximal runs of non-whitespace characters, in order. */
  function Split(s: string): (ts: seq<string>)
    ensures forall t :: t in ts ==> t != [] && forall c :: c in t ==> !IsSpace(c)
    ensures s != [] && !IsSpace(s[0]) ==> ts != [] && ts[0] == s[..WordLength(s)]
    decreases |s|
  {
    if s == [] then []
    else if IsSpace(s[0]) then Split(s[1..])
    else
      var k := WordLength(s);
      [s[..k]] + Split(s[k..])
  }

  /** `' '.join(ts)`. */
  function JoinSpaced(ts: seq<string>): string {
    if ts == [] then "" else if |ts| == 1 then ts[0] else ts[0] + " " + JoinSpaced(ts[1..])
  }

  /** `''.join(ts)`. */
  function Concat(ts: seq<string>): string {
    if ts == [] then "" else ts[0] + Concat(ts[1..])
  }

  /** `s.endswith(suffix)`. */
  predicate EndsWith(s: string, suffix: string) {
    |suffix| <= |s| && s[|s| - |suffix|..] == suffix
  }

  /** The set of elements of a list, Python's `set(ts)`. */
  function Elements<T>(ts: seq<T>): set<T> {
    set t | t in ts
  }

  // ---------------------------------------------------------------------------------------
  // Lemmas

  /** Lowering a string twice is lowering it once. */
  lemma LowercaseIdempotent(s: string)
    ensures Lowercase(Lowercase(s)) == Lowercase(s)
  {
    LowercaseFixed(Lowercase(s));
  }

  lemma LowercaseFixed(s: string)
    requires forall c :: c in s ==> !IsUpper(c)
    ensures Lowercase(s) == s
  {
    assert forall i :: 0 <= i < |s| ==> Lowercase(s)[i] == s[i] by {
      forall i | 0 <= i < |s| ensures Lowercase(s)[i] == s[i] {
        assert s[i] in s;
      }
    }
  }

  lemma {:induction false} NfkdFixed(s: string)
    requires forall c :: c in s ==> !Decomposable(c)
    ensures Nfkd(s) == s
  {
    if s != [] {
      assert s[0] in s;
      assert forall c :: c in s[1..] ==> c in s;
      NfkdFixed(s[1..]);
    }
  }

  /** `Nfkd` distributes over concatenation. */
  lemma {:induction false} NfkdAppend(a: string, b: string)
    ensures Nfkd(a + b) == Nfkd(a) + Nfkd(b)
  {
    if a == [] {
      assert a + b == b;
    } else {
      assert (a + b)[1..] == a[1..] + b;
      NfkdAppend(a[1..], b);
    }
  }

  lemma {:induction false} DropCombiningFixed(s: string)
    requires forall c :: c in s ==> !IsCombining(c)
    ensures DropCombining(s) == s
  {
    if s != [] {
      assert s[0] in s;
      assert forall c :: c in s[1..] ==> c in s;
      DropCombiningFixed(s[1..]);
    }
  }

  /** Lower-casing works character by character. */
  lemma LowercaseAppend(a: string, b: string)
    ensures Lowercase(a + b) == Lowercase(a) + Lowercase(b)
  {
    assert forall i :: 0 <= i < |a + b| ==> Lowercase(a + b)[i] == (Lowercase(a) + Lowercase(b))[i];
  }

  /** A precomposed letter folds to its base letter once decomposed and stripped of its
      combining mark. */
  lemma AccentFolds(c: char)
    requires Decomposable(c)
    ensures DropCombining(Nfkd([c])) == [Base(c)]
  {
    var b, m := Base(c), Mark(c);
    assert [c][1..] == [];
    assert Nfkd([c]) == [b, m];
    assert [b, m][1..] == [m];
    assert [m][1..] == [];
    assert DropCombining([m]) == [];
    assert !IsCombining(b);
    assert DropCombining([b, m]) == [b] + DropCombining([m]);
  }

  /** `DropCombining` distributes over concatenation. */
  lemma {:induction false} DropCombiningAppend(a: string, b: string)
    ensures DropCombining(a + b) == DropCombining(a) + DropCombining(b)
  {
    if a == [] {
      assert a + b == b;
    } else {
      assert (a + b)[1..] == a[1..] + b;
      DropCombiningAppend(a[1..], b);
    }
  }

  lemma ReplaceCharFixed(s: string, x: char, y: char)
    requires x !in s
    ensures ReplaceChar(s, x, y) == s
  {
    assert forall i :: 0 <= i < |s| ==> ReplaceChar(s, x, y)[i] == s[i] by {
      forall i | 0 <= i < |s| ensures ReplaceChar(s, x, y)[i] == s[i] {
        assert s[i] in s;
      }
    }
  }

  lemma {:induction false} DeleteFixed(s: string, x: char)
    requires x !in s
    ensures Delete(s, x) == s
  {
    if s != [] {
      assert s[0] in s;
      DeleteFixed(s[1..], x);
    }
  }

  /** `Delete` distributes over concatenation. */
  lemma {:induction false} DeleteAppend(a: string, b: string, x: char)
    ensures Delete(a + b, x) == Delete(a, x) + Delete(b, x)
  {
    if a != [] {
      assert (a + b)[1..] == a[1..] + b;
      DeleteAppend(a[1..], b, x);
    } else {
      assert a + b == b;
    }
  }

  /** Replacing a character works piece by piece. */
  lemma ReplaceCharAppend(a: string, b: string, x: char, y: char)
    ensures ReplaceChar(a + b, x, y) == ReplaceChar(a, x, y) + ReplaceChar(b, x, y)
  {
    assert forall i :: 0 <= i < |a + b| ==>
      ReplaceChar(a + b, x, y)[i] == (ReplaceChar(a, x, y) + ReplaceChar(b, x, y))[i];
  }

  /** Deleting a one-character piece `[c]` between `a` and `b`: it vanishes when it is the
      deleted character, and stays otherwise. */
  lemma DeleteAround(a: string, c: char, b: string, x: char)
    ensures Delete(a + [c] + b, x) == Delete(a, x) + (if c == x then [] else [c]) + Delete(b, x)
  {
    DeleteAppend(a + [c], b, x);
    DeleteAppend(a, [c], x);
    assert [c][1..] == [];
  }

  /** Dropping the first character keeps `NoDoubleSpace`. */
  lemma NoDoubleSpaceTail(s: string)
    requires s != [] && NoDoubleSpace(s)
    ensures NoDoubleSpace(s[1..])
  {
    forall i, j | 0 <= i && j == i + 1 && j < |s| - 1 ensures !(IsSpace(s[1..][i]) && IsSpace(s[1..][j])) {
      assert s[1..][i] == s[i + 1] && s[1..][j] == s[j + 1];
    }
  }

  /** A string whose only whitespace is single, inner spaces is its own collapsed form. */
  lemma {:induction false} CollapseFromFixed(s: string, inRun: bool)
    requires forall c :: c in s && IsSpace(c) ==> c == ' '
    requires NoDoubleSpace(s)
    requires inRun && s != [] ==> !IsSpace(s[0])
    ensures CollapseFrom(s, inRun) == s
  {
    if s != [] {
      var tail := s[1..];
      assert s[0] in s;
      assert forall c :: c in tail ==> c in s;
      NoDoubleSpaceTail(s);
      if IsSpace(s[0]) {
        assert tail != [] ==> !IsSpace(tail[0]) by {
          if tail != [] { assert tail[0] == s[1]; }
        }
        assert s[0] == ' ' && s == " " + tail;
        CollapseFromFixed(tail, true);
      } else {
        assert s == [s[0]] + tail;
        CollapseFromFixed(tail, false);
      }
    }
  }

  lemma StripFixed(s: string)
    requires s != [] ==> !IsSpace(s[0]) && !IsSpace(s[|s| - 1])
    ensures Strip(s) == s
  {
  }

  /** A non-empty string that starts with a non-space character splits into its first
      word and the split of what follows the word. */
  lemma SplitWord(s: string)
    requires s != [] && !IsSpace(s[0])
    ensures Split(s) == [s[..WordLength(s)]] + Split(s[WordLength(s)..])
    ensures Split(s) != []
  {
  }

  /** Any suffix of a string keeps `NoDoubleSpace`. */
  lemma NoDoubleSpaceSuffix(s: string, j: nat)
    requires j <= |s| && NoDoubleSpace(s)
    ensures NoDoubleSpace(s[j..])
  {
    forall i, i' | 0 <= i && i' == i + 1 && i' < |s[j..]| ensures !(IsSpace(s[j..][i]) && IsSpace(s[j..][i'])) {
      assert s[j..][i] == s[j + i] && s[j..][i'] == s[j + i'];
    }
  }

  /** Whitespace in front of a string does not change its split. */
  lemma SplitSkipsSpace(s: string)
    requires s != [] && IsSpace(s[0])
    ensures Split(s) == Split(s[1..])
  {
  }

  /** One step of `JoinSplit`: the split of a string continues past the space that ends its
      first word. */
  lemma SplitNextWord(s: string, k: nat)
    requires s != [] && !IsSpace(s[0]) && k == WordLength(s) && k < |s| - 1
    requires !IsSpace(s[k + 1])
    ensures Split(s) == [s[..k]] + Split(s[k + 1..])
    ensures Split(s[k + 1..]) != []
  {
    SplitWord(s);
    assert s[k..][1..] == s[k + 1..];
    SplitSkipsSpace(s[k..]);
    SplitWord(s[k + 1..]);
  }

  /** The join of a first word and the words after its space. */
  lemma JoinStep(s: string, k: nat, ws: seq<string>)
    requires k < |s| - 1 && s[k] == ' ' && ws != [] && JoinSpaced(ws) == s[k + 1..]
    ensures JoinSpaced([s[..k]] + ws) == s
  {
    assert ([s[..k]] + ws)[1..] == ws;
    assert s == s[..k] + [s[k]] + s[k + 1..];
  }

  /** A string whose only whitespace is single spaces between non-space characters is
      reproduced by joining its words with spaces. */
  lemma {:induction false} JoinSplit(s: string)
    requires forall c :: c in s && IsSpace(c) ==> c == ' '
    requires s != [] ==> !IsSpace(s[0]) && !IsSpace(s[|s| - 1])
    requires NoDoubleSpace(s)
    ensures JoinSpaced(Split(s)) == s
  {
    if s != [] {
      var k := WordLength(s);
      SplitWord(s);
      if k == |s| {
        assert s[k..] == [];
      } else {
        assert s[k] in s;
        assert s[k] == ' ';
        assert k < |s| - 1;
        var rest := s[k + 1..];
        SplitNextWord(s, k);
        assert forall c :: c in rest ==> c in s;
        NoDoubleSpaceSuffix(s, k + 1);
        JoinSplit(rest);
        JoinStep(s, k, Split(rest));
      }
    }
  }

  /** Deleting the separating spaces of a spaced join leaves the concatenation. */
  lemma {:induction false} DeleteJoinSpaced(ts: seq<string>)
    requires forall t :: t in ts ==> ' ' !in t
    ensures Delete(JoinSpaced(ts), ' ') == Concat(ts)
  {
    if ts != [] {
      assert ts[0] in ts;
      DeleteFixed(ts[0], ' ');
      if |ts| == 1 {
        assert Concat(ts) == ts[0] + Concat(ts[1..]);
      } else {
        assert forall t :: t in ts[1..] ==> t in ts;
        DeleteJoinSpaced(ts[1..]);
        DeleteAppend(ts[0] + " ", JoinSpaced(ts[1..]), ' ');
        DeleteAppend(ts[0], " ", ' ');
      }
    }
  }

  /** `Lower` changes only letters, and keeps a letter that has no decomposition free of
      one. */
  lemma LowerKeeps(c: char)
    ensures !Decomposable(c) ==> !Decomposable(Lower(c))
    ensures IsCombining(Lower(c)) == IsCombining(c)
    ensures IsSpace(Lower(c)) == IsSpace(c)
    ensures c !in "-'." ==> Lower(c) !in "-'."
  {
  }

  /** A word followed by nothing or by whitespace is the run of non-whitespace that starts
      the pair. */
  lemma {:induction false} WordLengthOfWord(w: string, rest: string)
    requires forall c :: c in w ==> !IsSpace(c)
    requires rest == [] || IsSpace(rest[0])
    ensures WordLength(w + rest) == |w|
  {
    if w == [] {
      assert w + rest == rest;
    } else {
      assert w[0] in w;
      assert (w + rest)[1..] == w[1..] + rest;
      assert forall c :: c in w[1..] ==> c in w;
      WordLengthOfWord(w[1..], rest);
    }
  }

  /** Splitting a spaced join of non-empty words without whitespace gives the words back:
      `Split` inverts `JoinSpaced`. */
  lemma {:induction false} SplitJoinSpaced(ws: seq<string>)
    requires forall w :: w in ws ==> w != [] && forall c :: c in w ==> !IsSpace(c)
    ensures Split(JoinSpaced(ws)) == ws
  {
    if ws != [] {
      var w := ws[0];
      assert w in ws;
      if |ws| == 1 {
        assert w + [] == w;
        WordLengthOfWord(w, []);
        SplitWord(w);
        assert w[..|w|] == w && w[|w|..] == [];
      } else {
        var rest := JoinSpaced(ws[1..]);
        var s := w + " " + rest;
        assert s == w + (" " + rest);
        WordLengthOfWord(w, " " + rest);
        SplitWord(s);
        assert s[..|w|] == w && s[|w|..] == " " + rest;
        SplitSkipsSpace(" " + rest);
        assert (" " + rest)[1..] == rest;
        assert forall v :: v in ws[1..] ==> v in ws;
        SplitJoinSpaced(ws[1..]);
      }
    }
  }

  /** The shape of a spaced join of non-empty words without whitespace. */
  ghost predicate SingleSpaced(s: string) {
    && (forall c :: c in s && IsSpace(c) ==> c == ' ')
    && (s != [] ==> !IsSpace(s[0]) && !IsSpace(s[|s| - 1]))
    && NoDoubleSpace(s)
  }

  /** One step of `JoinSpacedShape`: a word, a space and a single-spaced non-empty rest. */
  lemma JoinTwoSingleSpaced(w: string, r: string)
    requires w != [] && forall c :: c in w ==> !IsSpace(c)
    requires r != [] && SingleSpaced(r)
    ensures SingleSpaced(w + " " + r)
  {
    var s := w + " " + r;
    assert forall i :: 0 <= i < |w| ==> s[i] == w[i];
    assert s[|w|] == ' ';
    assert forall i :: |w| < i < |s| ==> s[i] == r[i - |w| - 1];
    assert forall c :: c in s ==> c in w || c == ' ' || c in r;
    assert s[0] == w[0] && w[0] in w;
    forall i, j | 0 <= i < j < |s| && j == i + 1 ensures !(IsSpace(s[i]) && IsSpace(s[j])) {
      if j < |w| {
        assert s[j] == w[j] && w[j] in w;
      } else if i == |w| - 1 {
        assert s[i] == w[i] && w[i] in w;
      } else if i > |w| {
        assert s[i] == r[i - |w| - 1] && s[j] == r[j - |w| - 1];
      }
    }
  }

  /** A spaced join of non-empty words without whitespace is single-spaced, and non-empty
      when there is a word. */
  lemma {:induction false} JoinSpacedShape(ws: seq<string>)
    requires forall w :: w in ws ==> w != [] && forall c :: c in w ==> !IsSpace(c)
    ensures SingleSpaced(JoinSpaced(ws))
    ensures ws != [] ==> JoinSpaced(ws) != []
  {
    if ws != [] {
      var w := ws[0];
      assert w in ws;
      if |ws| == 1 {
        assert JoinSpaced(ws) == w;
        assert w[0] in w && w[|w| - 1] in w;
      } else {
        assert forall v :: v in ws[1..] ==> v in ws;
        JoinSpacedShape(ws[1..]);
        JoinTwoSingleSpaced(w, JoinSpaced(ws[1..]));
      }
    }
  }

  /** Splitting a string that starts with the non-space character `c`: `c` begins the first
      word, alone when `x` is empty or starts with whitespace, and glued to the first word
      of `x` otherwise. */
  lemma SplitCons(c: char, x: string)
    requires !IsSpace(c)
    ensures Split([c] + x) ==
      if x == [] || IsSpace(x[0]) then [[c]] + Split(x)
      else [[c] + Split(x)[0]] + Split(x)[1..]
  {
    var s := [c] + x;
    assert s[1..] == x;
    var k := WordLength(s);
    assert k == 1 + WordLength(x);
    assert s[..k] == [c] + x[..k - 1];
    assert s[k..] == x[k - 1..];
    if x != [] && !IsSpace(x[0]) {
      SplitWord(x);
    } else {
      assert x[..0] == [] && x[0..] == x;
    }
  }

  /** Collapsing whitespace runs keeps the words. */
  lemma {:induction false} CollapseSplit(s: string, inRun: bool)
    ensures Split(CollapseFrom(s, inRun)) == Split(s)
    decreases |s|
  {
    if s != [] {
      var tail := s[1..];
      assert s == [s[0]] + tail;
      if IsSpace(s[0]) {
        CollapseSplit(tail, true);
        CollapseSplitSpace(s[0], tail);
      } else {
        CollapseSplit(tail, false);
        CollapseSplitWord(s[0], tail);
      }
    }
  }

  /** One step of `CollapseSplit`: a whitespace character in front of a string whose
      collapsed form has the same words. */
  lemma CollapseSplitSpace(c: char, tail: string)
    requires IsSpace(c)
    requires Split(CollapseFrom(tail, true)) == Split(tail)
    ensures Split(CollapseFrom([c] + tail, false)) == Split([c] + tail)
    ensures Split(CollapseFrom([c] + tail, true)) == Split([c] + tail)
  {
    var s, x := [c] + tail, CollapseFrom(tail, true);
    assert s[0] == c && s[1..] == tail;
    SplitSkipsSpace(s);
    assert (" " + x)[1..] == x;
    SplitSkipsSpace(" " + x);
  }

  /** One step of `CollapseSplit`: a non-space character in front of a string whose
      collapsed form has the same words. */
  lemma CollapseSplitWord(c: char, tail: string)
    requires !IsSpace(c)
    requires Split(CollapseFrom(tail, false)) == Split(tail)
    ensures Split(CollapseFrom([c] + tail, false)) == Split([c] + tail)
    ensures Split(CollapseFrom([c] + tail, true)) == Split([c] + tail)
  {
    var s := [c] + tail;
    assert s[0] == c && s[1..] == tail;
    SplitCons(c, CollapseFrom(tail, false));
    SplitCons(c, tail);
  }

  /** Removing leading whitespace keeps the words. */
  lemma {:induction false} SplitStripStart(s: string)
    ensures Split(StripStart(s)) == Split(s)
  {
    if s != [] && IsSpace(s[0]) {
      SplitSkipsSpace(s);
      SplitStripStart(s[1..]);
    }
  }

  /** A trailing whitespace character does not change the words. */
  lemma {:induction false} SplitTrailingSpace(x: string, c: char)
    requires IsSpace(c)
    ensures Split(x + [c]) == Split(x)
    decreases |x|
  {
    if x == [] {
      assert x + [c] == [c] && [c][1..] == [];
    } else if IsSpace(x[0]) {
      assert (x + [c])[1..] == x[1..] + [c];
      SplitTrailingSpace(x[1..], c);
    } else {
      var tail := x[1..];
      assert x + [c] == [x[0]] + (tail + [c]);
      assert x == [x[0]] + tail;
      SplitTrailingSpace(tail, c);
      SplitCons(x[0], tail + [c]);
      SplitCons(x[0], tail);
      if tail != [] {
        assert (tail + [c])[0] == tail[0];
      }
    }
  }

  /** Removing trailing whitespace keeps the words. */
  lemma {:induction false} SplitStripEnd(s: string)
    ensures Split(StripEnd(s)) == Split(s)
    decreases |s|
  {
    if s != [] && IsSpace(s[|s| - 1]) {
      var init := s[..|s| - 1];
      assert s == init + [s[|s| - 1]];
      SplitTrailingSpace(init, s[|s| - 1]);
      SplitStripEnd(init);
    }
  }
}
