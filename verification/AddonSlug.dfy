/** The slug normaliser of partner add-ons: a chain of regular-expression passes. */
module AddonSlug {
  import opened Selections
  import opened WhiteSpace

  predicate IsSlugLetter(c: char) { 'a' <= c <= 'z' || '0' <= c <= '9' }

  predicate IsHyphen(c: char) { c == '-' }

  predicate IsSeparator(c: char) { IsSpace(c) || IsHyphen(c) }

  // ----- the passes

  /** Keeps the lower-case letters, digits, white space and hyphens. */
  function DropOthers(s: string): (t: string)
    ensures forall i :: 0 <= i < |t| ==> IsSlugLetter(t[i]) || IsSeparator(t[i])
  {
    if s == "" then ""
    else (if IsSlugLetter(s[0]) || IsSeparator(s[0]) then [s[0]] else "") + DropOthers(s[1..])
  }

  /** What is left of a text after its leading characters of one class. */
  function SkipRun(s: string, within: char -> bool): (t: string)
    ensures |t| <= |s|
  {
    if s == "" || !within(s[0]) then s else SkipRun(s[1..], within)
  }

  /** Every maximal run of characters of one class becomes one hyphen. */
  function ReplaceRuns(s: string, within: char -> bool): string
    decreases |s|
  {
    if s == "" then ""
    else if within(s[0]) then "-" + ReplaceRuns(SkipRun(s[1..], within), within)
    else [s[0]] + ReplaceRuns(s[1..], within)
  }

  function TrimStart(s: string, within: char -> bool): string { SkipRun(s, within) }

  function TrimEnd(s: string, within: char -> bool): (t: string)
    ensures |t| <= |s|
  {
    if s == "" || !within(s[|s| - 1]) then s else TrimEnd(s[..|s| - 1], within)
  }

  /** generateSlug */
  function GenerateSlug(name: string, lower: string -> string): string {
    var kept := DropOthers(lower(name));
    var hyphenated := ReplaceRuns(ReplaceRuns(kept, IsSpace), IsHyphen);
    var trimmed := TrimEnd(TrimStart(hyphenated, IsSpace), IsSpace);
    TrimEnd(TrimStart(trimmed, IsHyphen), IsHyphen)
  }

  // ----- the specification: split at separators, drop empty words, join with one hyphen

  /** The length of the word a text starts with. */
  function WordLength(s: string): (n: nat)
    ensures n <= |s|
  {
    if s == "" || IsSeparator(s[0]) then 0 else 1 + WordLength(s[1..])
  }

  function Words(s: string): seq<string>
    decreases |s|
  {
    if s == "" then []
    else if IsSeparator(s[0]) then Words(s[1..])
    else [s[..WordLength(s)]] + Words(s[WordLength(s)..])
  }

  function Join(words: seq<string>): string {
    if words == [] then ""
    else if |words| == 1 then words[0]
    else words[0] + "-" + Join(words[1..])
  }

  // ----- every pass keeps the words

  lemma {:induction false} SkipRunKeepsWords(s: string, within: char -> bool)
    requires forall c :: within(c) ==> IsSeparator(c)
    ensures Words(SkipRun(s, within)) == Words(s)
  {
    if s != "" && within(s[0]) {
      SkipRunKeepsWords(s[1..], within);
    }
  }

  /** Texts with the same words and first words of the same length keep both under a letter. */
  predicate SameWords(s: string, t: string) {
    && WordLength(s) == WordLength(t)
    && s[..WordLength(s)] == t[..WordLength(t)]
    && Words(s[WordLength(s)..]) == Words(t[WordLength(t)..])
  }

  lemma AllWords(s: string)
    ensures var n := WordLength(s); Words(s) == (if n == 0 then [] else [s[..n]]) + Words(s[n..])
  {
    if WordLength(s) == 0 {
      assert s[0..] == s;
    }
  }

  lemma SameWordsHaveSameWords(s: string, t: string)
    requires SameWords(s, t)
    ensures Words(s) == Words(t)
  {
    AllWords(s);
    AllWords(t);
  }

  lemma SameWordsUnderHead(c: char, s: string, t: string)
    requires SameWords(s, t)
    ensures SameWords([c] + s, [c] + t)
  {
    var a, b := [c] + s, [c] + t;
    assert a[1..] == s && b[1..] == t;
    if IsSeparator(c) {
      SameWordsHaveSameWords(s, t);
      assert a[0..] == a && b[0..] == b;
    } else {
      var n := WordLength(s);
      assert a[..n + 1] == [c] + s[..n] && b[..n + 1] == [c] + t[..n];
      assert a[n + 1..] == s[n..] && b[n + 1..] == t[n..];
    }
  }

  /** A run of separators may be replaced by one hyphen. */
  lemma {:induction false} ReplaceRunsKeepsWords(s: string, within: char -> bool)
    requires forall c :: within(c) ==> IsSeparator(c)
    ensures SameWords(ReplaceRuns(s, within), s)
    decreases |s|
  {
    if s == "" {
    } else {
      if within(s[0]) {
        var rest := SkipRun(s[1..], within);
        ReplaceRunsKeepsWords(rest, within);
        SameWordsHaveSameWords(ReplaceRuns(rest, within), rest);
        SkipRunKeepsWords(s[1..], within);
        assert ("-" + ReplaceRuns(rest, within))[1..] == ReplaceRuns(rest, within);
      } else {
        ReplaceRunsKeepsWords(s[1..], within);
        SameWordsUnderHead(s[0], ReplaceRuns(s[1..], within), s[1..]);
        assert [s[0]] + s[1..] == s;
      }
    }
  }

  lemma {:induction false} WordBeforeSeparator(s: string, c: char)
    requires IsSeparator(c)
    ensures WordLength(s + [c]) == WordLength(s)
  {
    if s == "" {
      assert s + [c] == [c];
    } else {
      assert (s + [c])[1..] == s[1..] + [c];
      if !IsSeparator(s[0]) {
        WordBeforeSeparator(s[1..], c);
      }
    }
  }

  lemma {:induction false} SeparatorAtEnd(s: string, c: char)
    requires IsSeparator(c)
    ensures Words(s + [c]) == Words(s)
    decreases |s|
  {
    if s == "" {
      assert s + [c] == [c] && [c][1..] == "";
    } else if IsSeparator(s[0]) {
      SeparatorAtEnd(s[1..], c);
      assert (s + [c])[1..] == s[1..] + [c];
    } else {
      var n := WordLength(s);
      WordBeforeSeparator(s, c);
      SeparatorAtEnd(s[n..], c);
      assert (s + [c])[n..] == s[n..] + [c];
      assert (s + [c])[..n] == s[..n];
    }
  }

  lemma {:induction false} TrimEndKeepsWords(s: string, within: char -> bool)
    requires forall c :: within(c) ==> IsSeparator(c)
    ensures Words(TrimEnd(s, within)) == Words(s)
  {
    if s != "" && within(s[|s| - 1]) {
      TrimEndKeepsWords(s[..|s| - 1], within);
      SeparatorAtEnd(s[..|s| - 1], s[|s| - 1]);
      assert s[..|s| - 1] + [s[|s| - 1]] == s;
    }
  }

  // ----- a text without stray hyphens is its words, joined

  /** No character of the class is next to another one. */
  predicate NoTwo(s: string, within: char -> bool) {
    forall i :: 0 <= i < |s| - 1 ==> !within(s[i]) || !within(s[i + 1])
  }

  /** Letters and single hyphens. */
  predicate IsClean(s: string) {
    && (forall i :: 0 <= i < |s| ==> IsSlugLetter(s[i]) || s[i] == '-')
    && NoTwo(s, IsHyphen)
  }

  /** Letters and single hyphens, none of them at an end. */
  predicate IsSlug(s: string) {
    IsClean(s) && (s != "" ==> s[0] != '-' && s[|s| - 1] != '-')
  }

  lemma {:induction false} WordEnds(s: string)
    ensures var n := WordLength(s);
            && (forall i :: 0 <= i < n ==> !IsSeparator(s[i]))
            && (n < |s| ==> IsSeparator(s[n]))
  {
    if s != "" && !IsSeparator(s[0]) {
      WordEnds(s[1..]);
    }
  }

  lemma NoWords()
    ensures Words("") == [] && Join([]) == ""
  {}

  lemma JoinFront(word: string, words: seq<string>)
    ensures Join([word] + words) == if words == [] then word else word + "-" + Join(words)
  {
    assert ([word] + words)[1..] == words;
  }

  lemma LettersAreNoSpaces(s: string)
    requires forall i :: 0 <= i < |s| ==> IsSlugLetter(s[i]) || s[i] == '-'
    ensures forall i :: 0 <= i < |s| ==> !IsSpace(s[i])
  {}

  lemma SeparatorInFront(s: string)
    requires s != "" && IsSeparator(s[0])
    ensures Words(s) == Words(s[1..])
  {}

  lemma StartsWithWord(s: string)
    requires s != "" && !IsSeparator(s[0])
    ensures Words(s) != []
  {}

  lemma SlicesStayClean(s: string, lo: nat, hi: nat)
    requires IsClean(s) && lo <= hi <= |s|
    ensures IsClean(s[lo..hi])
  {
    var t := s[lo..hi];
    assert forall i :: 0 <= i < |t| ==> t[i] == s[lo + i];
    forall i | 0 <= i < |t| - 1
      ensures !IsHyphen(t[i]) || !IsHyphen(t[i + 1])
    {
      assert t[i + 1] == s[lo + i + 1];
    }
  }

  /** The first word of a slug is not empty, and after it the slug ends or goes on with a hyphen
      and another slug that is not empty. */
  lemma FirstWordOfSlug(s: string)
    requires IsSlug(s) && s != ""
    ensures var n := WordLength(s);
            && n > 0
            && (n < |s| ==> && n + 1 < |s| && s[n] == '-' && IsSlug(s[n + 1..])
                            && Words(s[n..]) == Words(s[n + 1..]) && Words(s[n + 1..]) != [])
  {
    hide WordLength;
    hide Words;
    hide IsSpace;
    var n := WordLength(s);
    WordEnds(s);
    LettersAreNoSpaces(s);
    if n < |s| {
      assert s[n..][0] == s[n] && s[n..][1..] == s[n + 1..];
      SeparatorInFront(s[n..]);
      SlicesStayClean(s, n + 1, |s|);
      StartsWithWord(s[n + 1..]);
    }
  }

  lemma {:induction false} SlugIsItsWords(s: string)
    requires IsSlug(s)
    ensures Join(Words(s)) == s
    decreases |s|
  {
    hide Words;
    hide Join;
    hide IsSeparator;
    hide IsClean;
    if s == "" {
      NoWords();
    } else {
      var n := WordLength(s);
      AllWords(s);
      FirstWordOfSlug(s);
      if n == |s| {
        assert s[n..] == "" && s[..n] == s;
        NoWords();
        JoinFront(s, []);
        assert [s] + [] == [s];
      } else {
        var rest := s[n + 1..];
        SlugIsItsWords(rest);
        JoinFront(s[..n], Words(rest));
        assert s == s[..n] + "-" + rest;
      }
    }
  }

  // ----- what the chain leaves

  lemma {:induction false} AfterRun(s: string, within: char -> bool)
    ensures var t := SkipRun(s, within);
            && (t != "" ==> !within(t[0]))
            && |t| <= |s| && t == s[|s| - |t|..]
  {
    if s != "" && within(s[0]) {
      AfterRun(s[1..], within);
    }
  }

  predicate IsKept(c: char) { IsSlugLetter(c) || IsSeparator(c) }

  predicate IsSlugChar(c: char) { IsSlugLetter(c) || c == '-' }

  lemma RunIsSuffix(s: string, within: char -> bool)
    requires s != ""
    ensures var rest := SkipRun(s[1..], within);
            && (rest != "" ==> !within(rest[0]))
            && |rest| < |s| && forall i :: 0 <= i < |rest| ==> rest[i] == s[|s| - |rest| + i]
  {
    AfterRun(s[1..], within);
  }

  /** The pass for white space leaves none. */
  lemma {:induction false} SpacesAreReplaced(s: string)
    requires forall i :: 0 <= i < |s| ==> IsKept(s[i])
    ensures forall i :: 0 <= i < |ReplaceRuns(s, IsSpace)| ==> IsSlugChar(ReplaceRuns(s, IsSpace)[i])
    decreases |s|
  {
    if s == "" {
    } else {
      RunIsSuffix(s, IsSpace);
      assert IsKept(s[0]);
      SpacesAreReplaced(if IsSpace(s[0]) then SkipRun(s[1..], IsSpace) else s[1..]);
    }
  }

  /** The pass for hyphens leaves no two of them together. */
  lemma {:induction false} HyphensAreReplaced(s: string)
    requires forall i :: 0 <= i < |s| ==> IsSlugChar(s[i])
    ensures var t := ReplaceRuns(s, IsHyphen);
            && IsClean(t)
            && (s != "" && s[0] != '-' ==> t != "" && t[0] == s[0])
    decreases |s|
  {
    if s == "" {
    } else {
      RunIsSuffix(s, IsHyphen);
      assert IsSlugChar(s[0]);
      HyphensAreReplaced(if s[0] == '-' then SkipRun(s[1..], IsHyphen) else s[1..]);
    }
  }

  lemma {:induction false} TrimEndIsPrefix(s: string, within: char -> bool)
    ensures var t := TrimEnd(s, within); t <= s && (t != "" ==> !within(t[|t| - 1]))
  {
    if s != "" && within(s[|s| - 1]) {
      TrimEndIsPrefix(s[..|s| - 1], within);
    }
  }

  lemma NothingToTrim(s: string, within: char -> bool)
    requires forall i :: 0 <= i < |s| ==> !within(s[i])
    ensures TrimEnd(TrimStart(s, within), within) == s
  {}

  /** The last pass turns letters and single hyphens into a slug. */
  lemma TrimmedIsSlug(s: string)
    requires IsClean(s)
    ensures IsSlug(TrimEnd(TrimStart(s, IsHyphen), IsHyphen))
  {
    hide IsClean;
    var t := TrimStart(s, IsHyphen);
    AfterRun(s, IsHyphen);
    var u := TrimEnd(t, IsHyphen);
    TrimEndIsPrefix(t, IsHyphen);
    var k := |s| - |t|;
    assert u == s[k..k + |u|];
    SlicesStayClean(s, k, k + |u|);
  }

  lemma PassesLeaveCleanText(kept: string)
    requires forall i :: 0 <= i < |kept| ==> IsKept(kept[i])
    ensures var twice := ReplaceRuns(ReplaceRuns(kept, IsSpace), IsHyphen);
            IsClean(twice) && TrimEnd(TrimStart(twice, IsSpace), IsSpace) == twice
  {
    hide ReplaceRuns;
    var once := ReplaceRuns(kept, IsSpace);
    var twice := ReplaceRuns(once, IsHyphen);
    SpacesAreReplaced(kept);
    HyphensAreReplaced(once);
    LettersAreNoSpaces(twice);
    NothingToTrim(twice, IsSpace);
  }

  lemma PassesKeepWords(kept: string)
    ensures var twice := ReplaceRuns(ReplaceRuns(kept, IsSpace), IsHyphen);
            Words(TrimEnd(TrimStart(twice, IsHyphen), IsHyphen)) == Words(kept)
  {
    hide Words;
    hide SameWords;
    hide ReplaceRuns;
    hide SkipRun;
    hide TrimEnd;
    var once := ReplaceRuns(kept, IsSpace);
    var twice := ReplaceRuns(once, IsHyphen);
    ReplaceRunsKeepsWords(kept, IsSpace);
    SameWordsHaveSameWords(once, kept);
    ReplaceRunsKeepsWords(once, IsHyphen);
    SameWordsHaveSameWords(twice, once);
    SkipRunKeepsWords(twice, IsHyphen);
    TrimEndKeepsWords(TrimStart(twice, IsHyphen), IsHyphen);
  }

  /** The chain computes: lower-case, delete other characters, split at white space and hyphens,
      drop empty words, join with one hyphen. Its result never has a hyphen at an end or two in a
      row. */
  lemma SlugIsJoinedWords(name: string, lower: string -> string)
    ensures IsSlug(GenerateSlug(name, lower))
    ensures GenerateSlug(name, lower) == Join(Words(DropOthers(lower(name))))
  {
    hide Words;
    hide Join;
    hide ReplaceRuns;
    hide SkipRun;
    hide TrimEnd;
    hide DropOthers;
    hide IsClean;
    var kept := DropOthers(lower(name));
    var twice := ReplaceRuns(ReplaceRuns(kept, IsSpace), IsHyphen);
    PassesLeaveCleanText(kept);
    TrimmedIsSlug(twice);
    PassesKeepWords(kept);
    SlugIsItsWords(GenerateSlug(name, lower));
  }

  lemma {:induction false} NothingToDrop(s: string)
    requires forall i :: 0 <= i < |s| ==> IsSlugLetter(s[i]) || s[i] == '-'
    ensures DropOthers(s) == s
  {
    if s == "" {
    } else {
      NothingToDrop(s[1..]);
    }
  }

  /** A slug is its own slug, for every lower-casing that leaves slugs alone. */
  lemma SlugIsStable(name: string, lower: string -> string)
    requires forall s: string :: IsSlug(s) ==> lower(s) == s
    ensures GenerateSlug(GenerateSlug(name, lower), lower) == GenerateSlug(name, lower)
  {
    var slug := GenerateSlug(name, lower);
    SlugIsJoinedWords(name, lower);
    SlugIsJoinedWords(slug, lower);
    NothingToDrop(slug);
    SlugIsItsWords(slug);
  }

  // ----- what is dropped

  lemma {:induction false} DropOthersIsSelect(s: string)
    ensures DropOthers(s) == Select(s, IsKept)
  {
    if s == "" {
    } else {
      DropOthersIsSelect(s[1..]);
      SelectFromFront(s[0], s[1..], IsKept);
      assert [s[0]] + s[1..] == s;
      hide Select;
    }
  }

  /** The first pass keeps exactly the letters a to z, the digits, white space and hyphens. */
  lemma DropsExactly(s: string)
    ensures IsSelection(DropOthers(s), s, IsKept)
    ensures forall c :: IsKept(c) <==> 'a' <= c <= 'z' || '0' <= c <= '9' || c == '-' || IsSpace(c)
  {
    hide IsSelection;
    DropOthersIsSelect(s);
    SelectIsSelection(s, IsKept);
  }

  lemma {:induction false} NothingDropped(s: string)
    requires forall i :: 0 <= i < |s| ==> IsKept(s[i])
    ensures DropOthers(s) == s
  {
    if s == "" {
    } else {
      NothingDropped(s[1..]);
    }
  }

  lemma {:induction false} WordInFront(word: string, rest: string)
    requires forall i :: 0 <= i < |word| ==> !IsSeparator(word[i])
    requires rest == "" || IsSeparator(rest[0])
    ensures WordLength(word + rest) == |word|
  {
    if word == "" {
      assert word + rest == rest;
    } else {
      assert (word + rest)[1..] == word[1..] + rest;
      WordInFront(word[1..], rest);
    }
  }

  lemma FirstWord(word: string, rest: string)
    requires word != "" && forall i :: 0 <= i < |word| ==> !IsSeparator(word[i])
    requires rest == "" || IsSeparator(rest[0])
    ensures Words(word + rest) == [word] + Words(rest)
  {
    WordInFront(word, rest);
    assert (word + rest)[..|word|] == word && (word + rest)[|word|..] == rest;
  }

  predicate IsWord(s: string) { s != "" && forall i :: 0 <= i < |s| ==> IsSlugLetter(s[i]) }

  lemma WordsHaveNoSeparators(s: string)
    requires IsWord(s)
    ensures forall i :: 0 <= i < |s| ==> !IsSeparator(s[i]) && IsKept(s[i])
  {}

  lemma NonEmpty(s: string)
    requires IsWord(s)
    ensures s != ""
  {}

  /** Two words with a blank or a hyphen between them are joined with a hyphen. */
  lemma TwoWords(name: string, lower: string -> string, a: string, c: char, b: string)
    requires IsWord(a) && IsWord(b) && IsSeparator(c) && lower(name) == a + ([c] + b)
    ensures GenerateSlug(name, lower) == a + "-" + b
  {
    hide IsSeparator;
    hide IsWord;
    WordsHaveNoSeparators(a);
    WordsHaveNoSeparators(b);
    NothingDropped(lower(name));
    NonEmpty(a);
    NonEmpty(b);
    FirstWord(a, [c] + b);
    assert ([c] + b)[1..] == b;
    FirstWord(b, "");
    assert b + "" == b;
    NoWords();
    JoinFront(b, []);
    JoinFront(a, [b]);
    hide Words;
    hide Join;
    SlugIsJoinedWords(name, lower);
    assert [b] + [] == [b];
  }
}
