/**
  Strings as the C code sees them, and the words of a command line.
 */
module Words {
  const NUL: char := '\0'

  /** The C string that starts at index i: the characters before the next NUL. */
  function CStr(a: seq<char>, i: nat): string
    decreases |a| - i
  {
    if i >= |a| || a[i] == NUL then [] else [a[i]] + CStr(a, i + 1)
  }

  /** A NUL stands at or after index i. */
  predicate Terminated(a: seq<char>, i: nat)
    decreases |a| - i
  {
    i < |a| && (a[i] == NUL || Terminated(a, i + 1))
  }

  /** The C string at i ends at its length: a NUL follows and none comes before. */
  lemma {:induction false} CStrAt(a: seq<char>, i: nat)
    requires Terminated(a, i)
    ensures i + |CStr(a, i)| < |a| && a[i + |CStr(a, i)|] == NUL
    ensures CStr(a, i) == a[i..i + |CStr(a, i)|]
    ensures forall k :: i <= k < i + |CStr(a, i)| ==> a[k] != NUL
    decreases |a| - i
  {
    if a[i] != NUL {
      CStrAt(a, i + 1);
      var m := |CStr(a, i + 1)|;
      assert a[i..i + 1 + m] == [a[i]] + a[i + 1..i + 1 + m];
    }
  }

  /** And those two facts determine it. */
  lemma {:induction false} CStrIs(a: seq<char>, i: nat, n: nat)
    requires i + n < |a| && a[i + n] == NUL && forall k :: i <= k < i + n ==> a[k] != NUL
    ensures CStr(a, i) == a[i..i + n] && Terminated(a, i)
    decreases n
  {
    if n > 0 {
      CStrIs(a, i + 1, n - 1);
    }
  }

  predicate IsDelim(c: char, delims: string) {
    c in delims
  }

  predicate AllDelims(s: string, delims: string) {
    forall k :: 0 <= k < |s| ==> IsDelim(s[k], delims)
  }

  predicate NoDelims(s: string, delims: string) {
    forall k :: 0 <= k < |s| ==> !IsDelim(s[k], delims)
  }

  /** How many leading characters are delimiters. */
  function LeadingDelims(s: string, delims: string): (n: nat)
    ensures n <= |s| && AllDelims(s[..n], delims) && (n < |s| ==> !IsDelim(s[n], delims))
  {
    if s == [] || !IsDelim(s[0], delims) then 0
    else
      var n := LeadingDelims(s[1..], delims);
      assert s[..n + 1] == [s[0]] + s[1..][..n];
      n + 1
  }

  /** How many leading characters are not delimiters. */
  function WordLength(s: string, delims: string): (n: nat)
    ensures n <= |s| && NoDelims(s[..n], delims) && (n < |s| ==> IsDelim(s[n], delims))
    ensures s != [] && !IsDelim(s[0], delims) ==> n > 0
  {
    if s == [] || IsDelim(s[0], delims) then 0
    else
      var n := WordLength(s[1..], delims);
      assert s[..n + 1] == [s[0]] + s[1..][..n];
      n + 1
  }

  /** The words of a string: its maximal delimiter-free runs, in order. */
  function WordsOf(s: string, delims: string): seq<string>
    decreases |s|
  {
    var t := s[LeadingDelims(s, delims)..];
    if t == [] then []
    else
      assert !IsDelim(t[0], delims);
      var n := WordLength(t, delims);
      [t[..n]] + WordsOf(t[n..], delims)
  }

  /** Words and the gaps around them put back together. */
  function Weave(words: seq<string>, gaps: seq<string>): string
    requires |gaps| == |words| + 1
  {
    if words == [] then gaps[0] else gaps[0] + words[0] + Weave(words[1..], gaps[1..])
  }

  /** Words are non-empty and delimiter-free; gaps are delimiters, and non-empty between words. */
  predicate ProperWeave(words: seq<string>, gaps: seq<string>, delims: string) {
    && |gaps| == |words| + 1
    && (forall i :: 0 <= i < |words| ==> words[i] != [] && NoDelims(words[i], delims))
    && (forall i :: 0 <= i < |gaps| ==> AllDelims(gaps[i], delims))
    && (forall i :: 1 <= i < |words| ==> gaps[i] != [])
  }

  lemma {:induction false} LeadingDelimsIs(s: string, delims: string, n: nat)
    requires n <= |s| && AllDelims(s[..n], delims) && (n < |s| ==> !IsDelim(s[n], delims))
    ensures LeadingDelims(s, delims) == n
  {
    if n > 0 {
      assert s[0] == s[..n][0] && s[1..][..n - 1] == s[..n][1..];
      LeadingDelimsIs(s[1..], delims, n - 1);
    }
  }

  lemma {:induction false} WordLengthIs(s: string, delims: string, n: nat)
    requires n <= |s| && NoDelims(s[..n], delims) && (n < |s| ==> IsDelim(s[n], delims))
    ensures WordLength(s, delims) == n
  {
    if n > 0 {
      assert s[0] == s[..n][0] && s[1..][..n - 1] == s[..n][1..];
      WordLengthIs(s[1..], delims, n - 1);
    }
  }

  /** However words are spaced, splitting gives them back. */
  lemma {:induction false} WordsOfWeave(words: seq<string>, gaps: seq<string>, delims: string)
    requires ProperWeave(words, gaps, delims)
    ensures WordsOf(Weave(words, gaps), delims) == words
    decreases |words|
  {
    hide WordsOf;
    if words == [] {
      NoWords(gaps[0], delims);
    } else {
      assert gaps[1] == gaps[1..][0];
      WordsOfWeave(words[1..], gaps[1..], delims);
      WeaveStartsWithGap(words[1..], gaps[1..]);
      FirstOfWeave(gaps[0], words[0], Weave(words[1..], gaps[1..]), delims);
      assert Weave(words, gaps) == gaps[0] + (words[0] + Weave(words[1..], gaps[1..]));
    }
  }

  /** A leading delimiter does not matter. */
  lemma WordsOfSkip(s: string, delims: string)
    requires s != [] && IsDelim(s[0], delims)
    ensures WordsOf(s, delims) == WordsOf(s[1..], delims)
  {
    assert s[LeadingDelims(s, delims)..] == s[1..][LeadingDelims(s[1..], delims)..];
  }

  lemma NoWordsLeft(s: string, delims: string)
    requires LeadingDelims(s, delims) == |s|
    ensures WordsOf(s, delims) == []
  {
  }

  lemma NoWords(gap: string, delims: string)
    requires AllDelims(gap, delims)
    ensures WordsOf(gap, delims) == []
  {
    assert gap[..|gap|] == gap;
    LeadingDelimsIs(gap, delims, |gap|);
  }

  /** A gap, then a word, then a rest that is empty or starts with a delimiter, splits into that word and the words of
      the rest. */
  lemma FirstOfWeave(g: string, w: string, rest: string, delims: string)
    requires AllDelims(g, delims) && w != [] && NoDelims(w, delims) && (rest != [] ==> IsDelim(rest[0], delims))
    ensures WordsOf(g + (w + rest), delims) == [w] + WordsOf(rest, delims)
  {
    hide WordsOf, LeadingDelims, WordLength;
    var s, t := g + (w + rest), w + rest;
    assert s[..|g|] == g && s[|g|..] == t && t[0] == w[0] && (|g| < |s| ==> s[|g|] == t[0]);
    LeadingDelimsIs(s, delims, |g|);
    assert t[..|w|] == w && t[|w|..] == rest && (rest != [] ==> t[|w|] == rest[0]);
    WordLengthIs(t, delims, |w|);
    WordsOfStep(s, delims, |g|, t, |w|);
  }

  lemma WeaveStartsWithGap(words: seq<string>, gaps: seq<string>)
    requires |gaps| == |words| + 1
    ensures |gaps[0]| <= |Weave(words, gaps)| && Weave(words, gaps)[..|gaps[0]|] == gaps[0]
    ensures words == [] ==> Weave(words, gaps) == gaps[0]
    ensures gaps[0] != [] ==> Weave(words, gaps) != [] && Weave(words, gaps)[0] == gaps[0][0]
  {
  }

  /** A weave that starts with a delimiter starts with a gap. */
  lemma GapNeeded(words: seq<string>, gaps: seq<string>, delims: string)
    requires ProperWeave(words, gaps, delims) && words != []
    requires Weave(words, gaps) != [] && IsDelim(Weave(words, gaps)[0], delims)
    ensures gaps[0] != []
  {
    var tail := words[0] + Weave(words[1..], gaps[1..]);
    assert Weave(words, gaps) == gaps[0] + tail;
    assert tail[0] == words[0][0];
  }

  lemma WeaveCons(gap: string, word: string, words: seq<string>, gaps: seq<string>, delims: string)
    requires ProperWeave(words, gaps, delims) && AllDelims(gap, delims) && word != [] && NoDelims(word, delims)
    requires words != [] ==> gaps[0] != []
    ensures ProperWeave([word] + words, [gap] + gaps, delims)
    ensures Weave([word] + words, [gap] + gaps) == gap + word + Weave(words, gaps)
  {
    assert ([word] + words)[1..] == words && ([gap] + gaps)[1..] == gaps;
  }

  /** One step of splitting: leading gap, first word, rest. */
  lemma SplitFirst(s: string, delims: string, k: nat, t: string, n: nat)
    requires k == LeadingDelims(s, delims) && t == s[k..] && t != [] && n == WordLength(t, delims)
    ensures s == s[..k] + t[..n] + t[n..] && AllDelims(s[..k], delims) && t[..n] != [] && NoDelims(t[..n], delims)
    ensures t[n..] != [] ==> IsDelim(t[n..][0], delims)
    ensures WordsOf(s, delims) == [t[..n]] + WordsOf(t[n..], delims)
    ensures |t[n..]| < |s|
  {
    hide WordsOf, Weave, LeadingDelims, WordLength;
    assert !IsDelim(t[0], delims);
    assert n > 0;
    assert s == s[..k] + t && t == t[..n] + t[n..];
    WordsOfStep(s, delims, k, t, n);
  }

  lemma WordsOfStep(s: string, delims: string, k: nat, t: string, n: nat)
    requires k == LeadingDelims(s, delims) && t == s[k..] && t != [] && n == WordLength(t, delims)
    ensures WordsOf(s, delims) == [t[..n]] + WordsOf(t[n..], delims)
  {
    hide LeadingDelims, WordLength;
  }

  /** Every string is a weave of its words. */
  lemma {:induction false} EveryStringWeaves(s: string, delims: string) returns (gaps: seq<string>)
    ensures ProperWeave(WordsOf(s, delims), gaps, delims) && Weave(WordsOf(s, delims), gaps) == s
    decreases |s|
  {
    var k := LeadingDelims(s, delims);
    var t := s[k..];
    if t == [] {
      gaps := [s];
      assert s[..k] == s;
    } else {
      hide WordsOf, Weave, ProperWeave, LeadingDelims, WordLength;
      var n := WordLength(t, delims);
      var gap, word, rest := s[..k], t[..n], t[n..];
      SplitFirst(s, delims, k, t, n);
      var tail := EveryStringWeaves(rest, delims);
      WeaveLength(WordsOf(rest, delims), tail, delims);
      if WordsOf(rest, delims) != [] {
        GapNeeded(WordsOf(rest, delims), tail, delims);
      }
      WeaveCons(gap, word, WordsOf(rest, delims), tail, delims);
      gaps := [gap] + tail;
    }
  }

  lemma WeaveLength(words: seq<string>, gaps: seq<string>, delims: string)
    requires ProperWeave(words, gaps, delims)
    ensures |gaps| == |words| + 1 && (words != [] ==> Weave(words, gaps) != [])
  {
  }
}
