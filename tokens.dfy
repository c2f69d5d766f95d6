/** A string seen as its maximal runs of word characters (what `\b...\b`
    delimits) and the single non-word characters between them. */
module Tokens {
  import opened Chars

  datatype Token = Word(text: string) | Sep(ch: char)

  function TokenText(t: Token): string {
    match t
    case Word(w) => w
    case Sep(c) => [c]
  }

  /** A non-empty string of word characters. */
  predicate WordLike(w: string) {
    |w| > 0 && forall k :: 0 <= k < |w| ==> IsWordChar(w[k])
  }

  predicate TokenOk(t: Token) {
    match t
    case Word(w) => WordLike(w)
    case Sep(c) => !IsWordChar(c)
  }

  /** Every word is a non-empty run of word characters, every separator a
      non-word character, and no two words are adjacent: each word is
      therefore a MAXIMAL run of the joined text. */
  predicate WellFormed(ts: seq<Token>) {
    (forall k :: 0 <= k < |ts| ==> TokenOk(ts[k]))
    && (forall i, j :: 0 <= i < |ts| && 0 <= j < |ts| && j == i + 1 ==> !(ts[i].Word? && ts[j].Word?))
  }

  function Join(ts: seq<Token>): string {
    if ts == [] then [] else TokenText(ts[0]) + Join(ts[1..])
  }

  /** Length of the longest prefix of `s` made of word characters. */
  function RunLength(s: string): (n: nat)
    ensures n <= |s|
    ensures forall k :: 0 <= k < n ==> IsWordChar(s[k])
    ensures n < |s| ==> !IsWordChar(s[n])
  {
    if s != [] && IsWordChar(s[0]) then 1 + RunLength(s[1..]) else 0
  }

  /** Splits `s` into maximal word runs and separators. */
  function Tokenize(s: string): (ts: seq<Token>)
    ensures WellFormed(ts)
    ensures Join(ts) == s
    ensures ts != [] ==> (s != [] && (!IsWordChar(s[0]) <==> ts[0].Sep?))
    decreases |s|
  {
    if s == [] then []
    else if !IsWordChar(s[0]) then
      var rest := Tokenize(s[1..]);
      assert Join([Sep(s[0])] + rest) == [s[0]] + Join(rest);
      assert [s[0]] + s[1..] == s;
      ConsWellFormed(Sep(s[0]), rest);
      [Sep(s[0])] + rest
    else
      var n := RunLength(s);
      var rest := Tokenize(s[n..]);
      assert rest != [] ==> s[n..] != [] && s[n..][0] == s[n] && rest[0].Sep?;
      assert WordLike(s[..n]) by {
        assert n > 0;
        forall k | 0 <= k < n ensures IsWordChar(s[..n][k]) { assert s[..n][k] == s[k]; }
      }
      assert Join([Word(s[..n])] + rest) == s[..n] + Join(rest);
      SplitAt(s, n);
      ConsWellFormed(Word(s[..n]), rest);
      [Word(s[..n])] + rest
  }

  lemma SplitAt(s: string, n: nat)
    requires n <= |s|
    ensures s[..n] + s[n..] == s
  {
  }

  /** Prepending a token keeps a list well formed unless it puts two words
      side by side. */
  lemma ConsWellFormed(t: Token, ts: seq<Token>)
    requires TokenOk(t) && WellFormed(ts)
    requires t.Word? && ts != [] ==> ts[0].Sep?
    ensures WellFormed([t] + ts)
  {
    var r := [t] + ts;
    forall i, j | 0 <= i < |r| && 0 <= j < |r| && j == i + 1
      ensures !(r[i].Word? && r[j].Word?)
    {
      if i > 0 { assert r[i] == ts[i - 1] && r[j] == ts[j - 1]; }
    }
  }

  lemma {:induction false} JoinAppend(a: seq<Token>, b: seq<Token>)
    ensures Join(a + b) == Join(a) + Join(b)
  {
    if a == [] {
      assert a + b == b;
    } else {
      assert (a + b)[1..] == a[1..] + b;
      JoinAppend(a[1..], b);
    }
  }

  /** A word followed by nothing or by a non-word character is a whole run. */
  lemma {:induction false} RunLengthOfWord(w: string, rest: string)
    requires WordLike(w)
    requires rest == [] || !IsWordChar(rest[0])
    ensures RunLength(w + rest) == |w|
  {
    if |w| > 1 {
      assert (w + rest)[1..] == w[1..] + rest;
      RunLengthOfWord(w[1..], rest);
    } else {
      assert (w + rest)[1..] == rest;
    }
  }

  /** Tokenizing is the inverse of joining on well-formed token lists. */
  lemma {:induction false} TokenizeJoin(ts: seq<Token>)
    requires WellFormed(ts)
    ensures Tokenize(Join(ts)) == ts
  {
    if ts != [] {
      var rest := ts[1..];
      assert WellFormed(rest) by {
        forall i, j | 0 <= i < j < |rest| && j == i + 1 ensures !(rest[i].Word? && rest[j].Word?) {
          assert rest[i] == ts[i + 1] && rest[j] == ts[j + 1];
        }
      }
      TokenizeJoin(rest);
      var s := Join(ts);
      assert s == TokenText(ts[0]) + Join(rest);
      match ts[0]
      case Sep(c) =>
        assert s[0] == c && s[1..] == Join(rest);
      case Word(w) =>
        var j := Join(rest);
        assert j == [] || !IsWordChar(j[0]) by {
          if rest != [] {
            assert ts[1].Sep?;
            assert j == [rest[0].ch] + Join(rest[1..]);
          }
        }
        RunLengthOfWord(w, j);
        assert s[..|w|] == w && s[|w|..] == j;
    }
  }
}
