/** `re.sub(rf"\b{word}\b", op, s)` for a literal word: the regex engine
    scans left to right, tries a match at each position, and on a match
    emits the replacement and resumes after the matched text. `\b` looks at
    the characters of the ORIGINAL string on either side of a position. */
module RegexSub {
  import opened Chars
  import opened Tokens

  /** `\b` at position k: exactly one of the neighbouring characters is a
      word character (the string's ends count as non-word). */
  predicate BoundaryAt(s: string, k: nat)
    requires k <= |s|
  {
    (0 < k && IsWordChar(s[k - 1])) != (k < |s| && IsWordChar(s[k]))
  }

  /** The text of `w` appears at position i, boundaries or not. */
  predicate OccursAt(s: string, w: string, i: nat)
    requires i <= |s|
  {
    i + |w| <= |s| && s[i..i + |w|] == w
  }

  /** The text of `w` appears at position i or at some later position. */
  predicate OccursFrom(s: string, w: string, i: nat)
    requires i <= |s|
    decreases |s| - i
  {
    OccursAt(s, w, i) || (i < |s| && OccursFrom(s, w, i + 1))
  }

  /** The pattern `\bw\b` matches at position i. */
  predicate MatchAt(s: string, w: string, i: nat)
    requires i <= |s|
  {
    OccursAt(s, w, i) && BoundaryAt(s, i) && BoundaryAt(s, i + |w|)
  }

  /** The scan from position i: each match becomes `op`, every other
      character is copied. The output is never longer than what is left,
      and where `w` does not occur at all the rest is copied unchanged. */
  function SubFrom(s: string, w: string, op: char, i: nat): (r: string)
    requires i <= |s|
    requires |w| > 0
    ensures |r| <= |s| - i
    ensures !OccursFrom(s, w, i) ==> r == s[i..]
    decreases |s| - i
  {
    if i == |s| then []
    else if MatchAt(s, w, i) then [op] + SubFrom(s, w, op, i + |w|)
    else
      var rest := SubFrom(s, w, op, i + 1);
      assert s[i..] == [s[i]] + s[i + 1..];
      [s[i]] + rest
  }

  /** `re.sub(rf"\b{w}\b", op, s)`; the synonym words are never empty. The
      result is never longer than `s`, and a text in which `w` does not occur
      is returned unchanged. */
  function ReSub(s: string, w: string, op: char): (r: string)
    requires |w| > 0
    ensures |r| <= |s|
    ensures !OccursFrom(s, w, 0) ==> r == s
  {
    assert s[0..] == s;
    SubFrom(s, w, op, 0)
  }

  /** Whole-run replacement: every word token equal to `w` becomes `op`. */
  function ReplaceWord(ts: seq<Token>, w: string, op: char): (r: seq<Token>)
    ensures |r| == |ts|
  {
    seq(|ts|, k requires 0 <= k < |ts| => if ts[k] == Word(w) then Sep(op) else ts[k])
  }

  /** Position i is not strictly inside a run of word characters. */
  predicate NotInsideRun(s: string, i: nat)
    requires i <= |s|
  {
    i == 0 || i == |s| || !IsWordChar(s[i - 1]) || !IsWordChar(s[i])
  }

  /** Inside a run no match can start, so the scan copies the rest of the run. */
  lemma {:induction false} CopiesRestOfRun(s: string, w: string, op: char, k: nat, j: nat)
    requires 0 < k <= j <= |s|
    requires |w| > 0
    requires forall m :: k - 1 <= m < j ==> IsWordChar(s[m])
    ensures SubFrom(s, w, op, k) == s[k..j] + SubFrom(s, w, op, j)
    decreases j - k
  {
    if k < j {
      assert IsWordChar(s[k - 1]) && IsWordChar(s[k]);
      assert !BoundaryAt(s, k);
      assert !MatchAt(s, w, k);
      assert SubFrom(s, w, op, k) == [s[k]] + SubFrom(s, w, op, k + 1);
      CopiesRestOfRun(s, w, op, k + 1, j);
      ConsSlice(s, k, j, SubFrom(s, w, op, j));
    } else {
      assert s[k..j] == [];
    }
  }

  lemma ReplaceWordCons(t: Token, ts: seq<Token>, w: string, op: char)
    ensures ReplaceWord([t] + ts, w, op)
         == [if t == Word(w) then Sep(op) else t] + ReplaceWord(ts, w, op)
  {
    var lhs := ReplaceWord([t] + ts, w, op);
    var rhs := [if t == Word(w) then Sep(op) else t] + ReplaceWord(ts, w, op);
    assert |lhs| == |rhs|;
    forall k | 0 <= k < |lhs| ensures lhs[k] == rhs[k] {
      if k > 0 { assert ([t] + ts)[k] == ts[k - 1]; }
    }
  }

  /** Joining a rewritten token list, one token at a time. */
  lemma JoinReplaceWordCons(t: Token, ts: seq<Token>, w: string, op: char)
    ensures Join(ReplaceWord([t] + ts, w, op))
         == (if t == Word(w) then [op] else TokenText(t)) + Join(ReplaceWord(ts, w, op))
  {
    ReplaceWordCons(t, ts, w, op);
    var r := ReplaceWord([t] + ts, w, op);
    assert r[1..] == ReplaceWord(ts, w, op);
  }

  /** No match starts at a non-word character. */
  lemma NoMatchAtSep(s: string, w: string, i: nat)
    requires i < |s| && WordLike(w) && !IsWordChar(s[i])
    ensures !MatchAt(s, w, i)
  {
  }

  /** A match at the start of the run s[i..j] covers the whole run. */
  lemma MatchIsWholeRun(s: string, w: string, i: nat, j: nat)
    requires i < j <= |s| && WordLike(w)
    requires forall m :: i <= m < j ==> IsWordChar(s[m])
    requires j < |s| ==> !IsWordChar(s[j])
    requires i == 0 || !IsWordChar(s[i - 1])
    ensures MatchAt(s, w, i) <==> s[i..j] == w
  {
  }

  /** The maximal run that starts at position i of s. */
  lemma RunAt(s: string, i: nat) returns (j: nat)
    requires i < |s| && IsWordChar(s[i])
    ensures i < j <= |s|
    ensures forall m :: i <= m < j ==> IsWordChar(s[m])
    ensures j < |s| ==> !IsWordChar(s[j])
    ensures Tokenize(s[i..]) == [Word(s[i..j])] + Tokenize(s[j..])
  {
    var rest := s[i..];
    var n := RunLength(rest);
    j := i + n;
    forall m | i <= m < j ensures IsWordChar(s[m]) { assert s[m] == rest[m - i]; }
    if j < |s| { assert s[j] == rest[n]; }
    assert rest[..n] == s[i..j] && rest[n..] == s[j..];
  }

  /** The step at a separator, given that the scan rewrites the text after it. */
  lemma SepStep(s: string, w: string, op: char, i: nat)
    requires i < |s| && WordLike(w) && !IsWordChar(s[i])
    requires SubFrom(s, w, op, i + 1) == Join(ReplaceWord(Tokenize(s[i + 1..]), w, op))
    ensures SubFrom(s, w, op, i) == Join(ReplaceWord(Tokenize(s[i..]), w, op))
  {
    NoMatchAtSep(s, w, i);
    assert s[i..][1..] == s[i + 1..];
    assert Tokenize(s[i..]) == [Sep(s[i])] + Tokenize(s[i + 1..]);
    JoinReplaceWordCons(Sep(s[i]), Tokenize(s[i + 1..]), w, op);
  }

  /** The scan over the run s[i..j]: the replacement when the run is the
      word, the run itself otherwise. */
  lemma ScanRun(s: string, w: string, op: char, i: nat, j: nat)
    requires i < j <= |s| && WordLike(w)
    requires forall m :: i <= m < j ==> IsWordChar(s[m])
    requires j < |s| ==> !IsWordChar(s[j])
    requires i == 0 || !IsWordChar(s[i - 1])
    ensures SubFrom(s, w, op, i) == (if s[i..j] == w then [op] else s[i..j]) + SubFrom(s, w, op, j)
  {
    MatchIsWholeRun(s, w, i, j);
    if s[i..j] == w {
      assert |s[i..j]| == j - i;
      ScanMatch(s, w, op, i, j);
    } else {
      ScanNoMatch(s, w, op, i, j);
    }
  }

  lemma ScanMatch(s: string, w: string, op: char, i: nat, j: nat)
    requires i < j <= |s| && |w| > 0
    requires i + |w| == j && MatchAt(s, w, i)
    ensures SubFrom(s, w, op, i) == [op] + SubFrom(s, w, op, j)
  {
    assert i != |s|;
  }

  lemma ScanNoMatch(s: string, w: string, op: char, i: nat, j: nat)
    requires i < j <= |s| && |w| > 0
    requires forall m :: i <= m < j ==> IsWordChar(s[m])
    requires !MatchAt(s, w, i)
    ensures SubFrom(s, w, op, i) == s[i..j] + SubFrom(s, w, op, j)
  {
    var rest := SubFrom(s, w, op, j);
    CopiesRestOfRun(s, w, op, i + 1, j);
    assert SubFrom(s, w, op, i) == [s[i]] + (s[i + 1..j] + rest);
    ConsSlice(s, i, j, rest);
  }

  lemma ConsSlice(s: string, i: nat, j: nat, rest: string)
    requires i < j <= |s|
    ensures [s[i]] + (s[i + 1..j] + rest) == s[i..j] + rest
  {
    assert [s[i]] + s[i + 1..j] == s[i..j];
  }

  /** The step over the run s[i..j], given that the scan rewrites the text
      after it. */
  lemma RunStep(s: string, w: string, op: char, i: nat, j: nat)
    requires i < j <= |s| && WordLike(w)
    requires forall m :: i <= m < j ==> IsWordChar(s[m])
    requires j < |s| ==> !IsWordChar(s[j])
    requires i == 0 || !IsWordChar(s[i - 1])
    requires Tokenize(s[i..]) == [Word(s[i..j])] + Tokenize(s[j..])
    requires SubFrom(s, w, op, j) == Join(ReplaceWord(Tokenize(s[j..]), w, op))
    ensures SubFrom(s, w, op, i) == Join(ReplaceWord(Tokenize(s[i..]), w, op))
  {
    JoinReplaceWordCons(Word(s[i..j]), Tokenize(s[j..]), w, op);
    ScanRun(s, w, op, i, j);
  }

  /** The regex scan from a position outside any run rewrites the remaining
      text run by run. */
  lemma {:induction false} SubFromRewritesRuns(s: string, w: string, op: char, i: nat)
    requires i <= |s|
    requires WordLike(w)
    requires NotInsideRun(s, i)
    ensures SubFrom(s, w, op, i) == Join(ReplaceWord(Tokenize(s[i..]), w, op))
    decreases |s| - i
  {
    if i == |s| {
      assert s[i..] == [];
    } else if !IsWordChar(s[i]) {
      assert NotInsideRun(s, i + 1);
      SubFromRewritesRuns(s, w, op, i + 1);
      SepStep(s, w, op, i);
    } else {
      var j := RunAt(s, i);
      assert NotInsideRun(s, j);
      SubFromRewritesRuns(s, w, op, j);
      RunStep(s, w, op, i, j);
    }
  }

  /** `re.sub(rf"\b{w}\b", op, s)` replaces exactly the maximal word runs
      equal to `w` by `op` and leaves every other character where it was. */
  lemma ReSubReplacesWholeWords(s: string, w: string, op: char)
    requires WordLike(w)
    ensures ReSub(s, w, op) == Join(ReplaceWord(Tokenize(s), w, op))
  {
    SubFromRewritesRuns(s, w, op, 0);
    assert s[0..] == s;
  }
}
