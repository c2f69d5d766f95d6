/** `sinonimos_operadores` and `normalizar_operadores`: lower-case a
    sentence, then rewrite every whole-word operator synonym to its symbol,
    one `re.sub` per synonym in table order. */
module Normalizer {
  import opened Chars
  import opened Tokens
  import opened RegexSub

  datatype Option<T> = None | Some(value: T)

  /** One synonym and the operator symbol it stands for. */
  datatype Rule = Rule(op: char, word: string)

  /** The synonym table, in the dictionary's insertion order. */
  const SynonymTable: seq<(char, seq<string>)> := [
    ('+', ["mais", "soma", "adição", "adicionar", "somar"]),
    ('-', ["menos", "subtração", "diminuir", "diferença", "subtrair"]),
    ('*', ["vezes", "multiplicado", "multiplicação", "produto", "dobro", "triplo"]),
    ('/', ["dividido", "divisão", "metade", "terço"])
  ]

  /** Every operator is a non-word character and every synonym a non-empty
      run of word characters, so `\bword\b` is a whole-run match. */
  predicate TableOk(table: seq<(char, seq<string>)>) {
    forall i :: 0 <= i < |table| ==>
      !IsWordChar(table[i].0) && forall j :: 0 <= j < |table[i].1| ==> WordLike(table[i].1[j])
  }

  predicate RulesOk(rules: seq<Rule>) {
    forall k :: 0 <= k < |rules| ==> WordLike(rules[k].word) && !IsWordChar(rules[k].op)
  }

  function RulesFor(op: char, words: seq<string>): (rs: seq<Rule>)
    ensures |rs| == |words|
  {
    seq(|words|, k requires 0 <= k < |words| => Rule(op, words[k]))
  }

  /** The (operator, synonym) pairs in the order the nested loops visit them. */
  function Rules(table: seq<(char, seq<string>)>): seq<Rule> {
    if table == [] then []
    else Rules(table[..|table| - 1]) + RulesFor(table[|table| - 1].0, table[|table| - 1].1)
  }

  /** The operator of the first rule whose synonym is `w`. */
  function Lookup(rules: seq<Rule>, w: string): (r: Option<char>)
    ensures r.None? <==> forall k :: 0 <= k < |rules| ==> rules[k].word != w
    ensures r.Some? ==> exists k :: 0 <= k < |rules| && rules[k] == Rule(r.value, w)
  {
    if rules == [] then None
    else if rules[0].word == w then Some(rules[0].op)
    else
      var r := Lookup(rules[1..], w);
      assert r.Some? ==> exists k :: 0 <= k < |rules| && rules[k] == Rule(r.value, w) by {
        if r.Some? {
          var k :| 0 <= k < |rules| - 1 && rules[1..][k] == Rule(r.value, w);
          assert rules[k + 1] == Rule(r.value, w);
        }
      }
      assert r.None? ==> forall k :: 0 <= k < |rules| ==> rules[k].word != w by {
        if r.None? {
          forall k | 0 < k < |rules| ensures rules[k].word != w {
            assert rules[k] == rules[1..][k - 1];
          }
        }
      }
      r
  }

  function RewriteToken(rules: seq<Rule>, t: Token): Token {
    match t
    case Sep(_) => t
    case Word(w) =>
      match Lookup(rules, w)
      case Some(op) => Sep(op)
      case None => t
  }

  function RewriteTokens(rules: seq<Rule>, ts: seq<Token>): (r: seq<Token>)
    ensures |r| == |ts|
  {
    seq(|ts|, k requires 0 <= k < |ts| => RewriteToken(rules, ts[k]))
  }

  /** What `normalizar_operadores` computes, stated run by run: lower-case,
      then replace every maximal word run that is a synonym by its operator.
      The result is never longer than the sentence. */
  function Normalize(frase: string): (r: string)
    ensures |r| <= |frase|
  {
    var tokens := Tokenize(Lower(frase));
    RewriteNotLonger(Rules(SynonymTable), tokens);
    Join(RewriteTokens(Rules(SynonymTable), tokens))
  }

  /** Each rewritten token is a single symbol in place of a non-empty word,
      so rewriting never lengthens the text. */
  lemma {:induction false} RewriteNotLonger(rules: seq<Rule>, ts: seq<Token>)
    requires forall k :: 0 <= k < |ts| ==> TokenOk(ts[k])
    ensures |Join(RewriteTokens(rules, ts))| <= |Join(ts)|
    decreases |ts|
  {
    if ts != [] {
      var u := RewriteTokens(rules, ts);
      RewriteNotLonger(rules, ts[1..]);
      assert u[1..] == RewriteTokens(rules, ts[1..]);
      assert |TokenText(u[0])| <= |TokenText(ts[0])|;
    }
  }

  /** `normalizar_operadores(frase)`: the nested loops rebind the sentence
      once per synonym. */
  method NormalizeOperators(frase: string) returns (r: string)
    ensures r == Normalize(frase)
  {
    r := Lower(frase);
    ghost var tokens := Tokenize(r);
    RewriteNoRules(tokens);
    SynonymTableOk();
    var i := 0;
    while i < |SynonymTable|
      invariant 0 <= i <= |SynonymTable|
      invariant r == Join(RewriteTokens(Rules(SynonymTable[..i]), tokens))
    {
      var (op, words) := SynonymTable[i];
      NoWordsYet(SynonymTable, i);
      var j := 0;
      while j < |words|
        invariant 0 <= j <= |words|
        invariant r == Join(RewriteTokens(Rules(SynonymTable[..i]) + RulesFor(op, words[..j]), tokens))
      {
        NextWord(SynonymTable, i, j, tokens);
        r := ReSub(r, words[j], op);
        j := j + 1;
      }
      AllWords(SynonymTable, i);
      i := i + 1;
    }
    assert SynonymTable[..|SynonymTable|] == SynonymTable;
  }

  // ---------------------------------------------------------------------
  // Lemmas behind the loop

  lemma SynonymTableOk()
    ensures TableOk(SynonymTable)
  {
    EntryOk(0);
    EntryOk(1);
    EntryOk(2);
    EntryOk(3);
  }

  /** Entry i of the synonym table: a non-word operator and word-like synonyms. */
  lemma EntryOk(i: nat)
    requires i < |SynonymTable|
    ensures !IsWordChar(SynonymTable[i].0)
    ensures forall j :: 0 <= j < |SynonymTable[i].1| ==> WordLike(SynonymTable[i].1[j])
  {
    var ws := SynonymTable[i].1;
    forall j | 0 <= j < |ws| ensures WordLike(ws[j]) {
      WordOk(ws[j]);
    }
  }

  /** The synonyms are spelled with lower-case letters, Latin-1 included. */
  lemma WordOk(w: string)
    requires w != [] && forall k :: 0 <= k < |w| ==> 'a' <= w[k] <= 'z' || '\U{E0}' <= w[k] <= '\U{F6}'
    ensures WordLike(w)
  {
  }

  lemma RewriteNoRules(ts: seq<Token>)
    ensures RewriteTokens([], ts) == ts
  {
  }

  /** Entering the inner loop: no synonym of entry i has been visited. */
  lemma NoWordsYet(table: seq<(char, seq<string>)>, i: nat)
    requires i < |table|
    ensures Rules(table[..i]) + RulesFor(table[i].0, table[i].1[..0]) == Rules(table[..i])
  {
    assert table[i].1[..0] == [];
  }

  /** Leaving the inner loop: every synonym of entry i has been visited. */
  lemma AllWords(table: seq<(char, seq<string>)>, i: nat)
    requires i < |table|
    ensures Rules(table[..i]) + RulesFor(table[i].0, table[i].1[..|table[i].1|]) == Rules(table[..i + 1])
  {
    assert table[..i + 1][..i] == table[..i];
    assert table[i].1[..|table[i].1|] == table[i].1;
  }

  /** One pass of the inner loop body: the `re.sub` for synonym j of entry i
      extends the rules applied so far by that synonym. */
  lemma NextWord(table: seq<(char, seq<string>)>, i: nat, j: nat, ts: seq<Token>)
    requires TableOk(table) && WellFormed(ts)
    requires i < |table| && j < |table[i].1|
    ensures |table[i].1[j]| > 0
    ensures ReSub(Join(RewriteTokens(Rules(table[..i]) + RulesFor(table[i].0, table[i].1[..j]), ts)),
                  table[i].1[j], table[i].0)
         == Join(RewriteTokens(Rules(table[..i]) + RulesFor(table[i].0, table[i].1[..j + 1]), ts))
  {
    var (op, words) := table[i];
    var done := Rules(table[..i]) + RulesFor(op, words[..j]);
    PrefixRulesOk(table, i, j);
    SubstituteStep(done, Rule(op, words[j]), ts);
    assert RulesFor(op, words[..j + 1]) == RulesFor(op, words[..j]) + [Rule(op, words[j])];
    assert Rules(table[..i]) + RulesFor(op, words[..j + 1]) == done + [Rule(op, words[j])];
  }

  /** The rules visited before step (i, j) of the nested loops are well formed. */
  lemma PrefixRulesOk(table: seq<(char, seq<string>)>, i: nat, j: nat)
    requires TableOk(table)
    requires i < |table| && j < |table[i].1|
    ensures RulesOk(Rules(table[..i]) + RulesFor(table[i].0, table[i].1[..j]))
    ensures WordLike(table[i].1[j])
  {
    TableRulesOk(table[..i]);
  }

  lemma {:induction false} TableRulesOk(table: seq<(char, seq<string>)>)
    requires TableOk(table)
    ensures RulesOk(Rules(table))
  {
    if table != [] {
      TableRulesOk(table[..|table| - 1]);
    }
  }

  /** A lookup in an extended rule list finds the earlier rules first. */
  lemma {:induction false} LookupAppend(rules: seq<Rule>, e: Rule, w: string)
    ensures Lookup(rules + [e], w)
         == if Lookup(rules, w).Some? then Lookup(rules, w)
            else if e.word == w then Some(e.op) else None
  {
    if rules != [] {
      assert (rules + [e])[1..] == rules[1..] + [e];
      LookupAppend(rules[1..], e, w);
    } else {
      assert [] + [e] == [e];
    }
  }

  /** Rewriting with the rules so far and then replacing one more synonym is
      rewriting with the extended rule list. */
  lemma RewriteThenReplace(rules: seq<Rule>, e: Rule, ts: seq<Token>)
    requires RulesOk(rules)
    ensures ReplaceWord(RewriteTokens(rules, ts), e.word, e.op) == RewriteTokens(rules + [e], ts)
  {
    var lhs := ReplaceWord(RewriteTokens(rules, ts), e.word, e.op);
    var rhs := RewriteTokens(rules + [e], ts);
    forall k | 0 <= k < |ts| ensures lhs[k] == rhs[k] {
      if ts[k].Word? { LookupAppend(rules, e, ts[k].text); }
    }
  }

  lemma RewritePreservesWellFormed(rules: seq<Rule>, ts: seq<Token>)
    requires RulesOk(rules) && WellFormed(ts)
    ensures WellFormed(RewriteTokens(rules, ts))
  {
    var r := RewriteTokens(rules, ts);
    forall k | 0 <= k < |r| ensures TokenOk(r[k]) {
      if ts[k].Word? && Lookup(rules, ts[k].text).Some? {
        var op := Lookup(rules, ts[k].text).value;
        var m :| 0 <= m < |rules| && rules[m] == Rule(op, ts[k].text);
      }
    }
  }

  /** One `re.sub` of the loop body, on a sentence already rewritten by the
      earlier rules. */
  lemma SubstituteStep(rules: seq<Rule>, e: Rule, ts: seq<Token>)
    requires RulesOk(rules) && WordLike(e.word) && WellFormed(ts)
    ensures ReSub(Join(RewriteTokens(rules, ts)), e.word, e.op) == Join(RewriteTokens(rules + [e], ts))
  {
    var u := RewriteTokens(rules, ts);
    RewritePreservesWellFormed(rules, ts);
    TokenizeJoin(u);
    ReSubReplacesWholeWords(Join(u), e.word, e.op);
    RewriteThenReplace(rules, e, ts);
  }

  // ---------------------------------------------------------------------
  // What normalisation guarantees

  lemma {:induction false} JoinNoUpper(ts: seq<Token>)
    ensures NoUpper(Join(ts)) <==> forall k :: 0 <= k < |ts| ==> NoUpper(TokenText(ts[k]))
  {
    if ts != [] {
      JoinNoUpper(ts[1..]);
      NoUpperAppend(TokenText(ts[0]), Join(ts[1..]));
      assert forall k :: 0 < k < |ts| ==> ts[k] == ts[1..][k - 1];
    }
  }

  /** The sentence is lower-cased first and the replacements are operator
      symbols, so no upper-case letter survives normalisation. */
  lemma NormalizeNoUpper(frase: string)
    ensures NoUpper(Normalize(frase))
  {
    var t := Tokenize(Lower(frase));
    SynonymTableOk();
    TableRulesOk(SynonymTable);
    JoinNoUpper(t);
    RewriteNoUpper(Rules(SynonymTable), t);
  }

  /** Rewriting with well-formed rules adds no upper-case letter. */
  lemma RewriteNoUpper(rules: seq<Rule>, t: seq<Token>)
    requires RulesOk(rules)
    requires forall k :: 0 <= k < |t| ==> NoUpper(TokenText(t[k]))
    ensures NoUpper(Join(RewriteTokens(rules, t)))
  {
    var u := RewriteTokens(rules, t);
    forall k | 0 <= k < |u| ensures NoUpper(TokenText(u[k])) {
      if t[k].Word? && Lookup(rules, t[k].text).Some? {
        var op := Lookup(rules, t[k].text).value;
        var m :| 0 <= m < |rules| && rules[m] == Rule(op, t[k].text);
        assert !IsWordChar(op);
      }
    }
    JoinNoUpper(u);
  }

  /** Normalisation keeps the run structure of the lower-cased sentence:
      its k-th run or separator is the input's k-th, except that a run
      equal to a synonym has become that synonym's operator; in particular
      a synonym inside a longer run is left alone, as is every character
      outside a replaced run. */
  lemma NormalizeTokens(frase: string)
    ensures Tokenize(Normalize(frase)) == RewriteTokens(Rules(SynonymTable), Tokenize(Lower(frase)))
    ensures var t, u := Tokenize(Lower(frase)), Tokenize(Normalize(frase));
      |u| == |t| &&
      forall k :: 0 <= k < |t| ==>
        if t[k].Word? && Lookup(Rules(SynonymTable), t[k].text).Some?
        then u[k] == Sep(Lookup(Rules(SynonymTable), t[k].text).value)
        else u[k] == t[k]
  {
    SynonymTableOk();
    TableRulesOk(SynonymTable);
    RewritePreservesWellFormed(Rules(SynonymTable), Tokenize(Lower(frase)));
    TokenizeJoin(RewriteTokens(Rules(SynonymTable), Tokenize(Lower(frase))));
  }

  /** The sentence is lower-cased first, so its letter case never matters. */
  lemma NormalizeIgnoresCase(frase: string)
    ensures Normalize(Lower(frase)) == Normalize(frase)
  {
    assert Lower(Lower(frase)) == Lower(frase);
  }

  /** No word run of a normalised sentence is a synonym any more. */
  lemma NoSynonymRemains(frase: string)
    ensures var u := Tokenize(Normalize(frase));
      forall k :: 0 <= k < |u| && u[k].Word? ==> Lookup(Rules(SynonymTable), u[k].text).None?
  {
    NormalizeTokens(frase);
  }

  /** A rewritten token is rewritten no further: an operator is a separator,
      and a word that was kept is no synonym. */
  lemma RewriteIdempotent(rules: seq<Rule>, ts: seq<Token>)
    ensures RewriteTokens(rules, RewriteTokens(rules, ts)) == RewriteTokens(rules, ts)
  {
    var u := RewriteTokens(rules, ts);
    forall k | 0 <= k < |u| ensures RewriteToken(rules, u[k]) == u[k] { }
  }

  /** Normalising twice is normalising once: the operators are non-word
      characters, so they neither form a synonym nor join two runs. */
  lemma NormalizeIdempotent(frase: string)
    ensures Normalize(Normalize(frase)) == Normalize(frase)
  {
    var rules := Rules(SynonymTable);
    var n := Normalize(frase);
    var u := RewriteTokens(rules, Tokenize(Lower(frase)));
    NormalizeNoUpper(frase);
    assert Lower(n) == n;
    NormalizeTokens(frase);
    assert Tokenize(n) == u;
    RewriteIdempotent(rules, Tokenize(Lower(frase)));
    assert Normalize(n) == Join(RewriteTokens(rules, u));
  }

  /** The table's rules written out in visiting order. */
  const SynonymRules: seq<Rule> := [
    Rule('+', "mais"), Rule('+', "soma"), Rule('+', "adição"), Rule('+', "adicionar"), Rule('+', "somar"),
    Rule('-', "menos"), Rule('-', "subtração"), Rule('-', "diminuir"), Rule('-', "diferença"), Rule('-', "subtrair"),
    Rule('*', "vezes"), Rule('*', "multiplicado"), Rule('*', "multiplicação"), Rule('*', "produto"),
    Rule('*', "dobro"), Rule('*', "triplo"),
    Rule('/', "dividido"), Rule('/', "divisão"), Rule('/', "metade"), Rule('/', "terço")
  ]

  lemma RulesOfTable()
    ensures Rules(SynonymTable) == SynonymRules
  {
    var t := SynonymTable;
    assert t[..4] == t && t[..4][..3] == t[..3] && t[..3][..2] == t[..2] && t[..2][..1] == t[..1] && t[..1][..0] == [];
    assert Rules(t[..1]) == RulesFor(t[0].0, t[0].1);
    assert Rules(t[..2]) == Rules(t[..1]) + RulesFor(t[1].0, t[1].1);
    assert Rules(t[..3]) == Rules(t[..2]) + RulesFor(t[2].0, t[2].1);
    assert Rules(t) == Rules(t[..3]) + RulesFor(t[3].0, t[3].1);
    assert RulesFor(t[0].0, t[0].1) == SynonymRules[..5];
    assert RulesFor(t[1].0, t[1].1) == SynonymRules[5..10];
    assert RulesFor(t[2].0, t[2].1) == SynonymRules[10..16];
    assert RulesFor(t[3].0, t[3].1) == SynonymRules[16..];
    assert SynonymRules == SynonymRules[..5] + SynonymRules[5..10] + SynonymRules[10..16] + SynonymRules[16..];
  }

  lemma SynonymsDistinct()
    ensures forall a, b :: 0 <= a < b < |SynonymRules| ==> SynonymRules[a].word != SynonymRules[b].word
  {
  }

  lemma SynonymsLong()
    ensures forall k :: 0 <= k < |SynonymRules| ==> |SynonymRules[k].word| >= 4
  {
  }

  /** No synonym is shorter than four characters, so articles, prepositions
      and numbers below 1000 are never rewritten. */
  lemma ShortWordsKept(w: string)
    requires |w| < 4
    ensures Lookup(Rules(SynonymTable), w) == None
  {
    ShortWordsNotSynonyms(w);
    RulesOfTable();
  }

  lemma ShortWordsNotSynonyms(w: string)
    requires |w| < 4
    ensures Lookup(SynonymRules, w) == None
  {
    SynonymsLong();
    LookupOfShort(SynonymRules, w);
  }

  lemma LookupOfShort(rules: seq<Rule>, w: string)
    requires forall k :: 0 <= k < |rules| ==> |rules[k].word| >= 4
    requires |w| < 4
    ensures Lookup(rules, w) == None
  {
  }

  /** Where synonym j of table entry i sits among the written-out rules. */
  lemma SynonymAt(i: nat, j: nat) returns (k: nat)
    requires i < |SynonymTable| && j < |SynonymTable[i].1|
    ensures k < |SynonymRules| && SynonymRules[k] == Rule(SynonymTable[i].0, SynonymTable[i].1[j])
  {
    var t := SynonymTable;
    if i == 0 {
      assert RulesFor(t[0].0, t[0].1) == SynonymRules[..5];
      k := j;
    } else if i == 1 {
      assert RulesFor(t[1].0, t[1].1) == SynonymRules[5..10];
      k := 5 + j;
    } else if i == 2 {
      assert RulesFor(t[2].0, t[2].1) == SynonymRules[10..16];
      k := 10 + j;
    } else {
      assert RulesFor(t[3].0, t[3].1) == SynonymRules[16..];
      k := 16 + j;
    }
  }

  /** Each listed synonym stands for the operator it is listed under. */
  lemma SynonymOperator(i: nat, j: nat)
    requires i < |SynonymTable| && j < |SynonymTable[i].1|
    ensures Lookup(Rules(SynonymTable), SynonymTable[i].1[j]) == Some(SynonymTable[i].0)
  {
    var k := SynonymAt(i, j);
    SynonymsDistinct();
    var w := SynonymTable[i].1[j];
    var r := Lookup(SynonymRules, w);
    var m :| 0 <= m < |SynonymRules| && SynonymRules[m] == Rule(r.value, w);
    assert m == k;
    RulesOfTable();
  }

  /** A sentence whose lower-cased form is given as runs and separators
      normalises run by run. */
  lemma NormalizeByRuns(frase: string, ts: seq<Token>, us: seq<Token>, out: string)
    requires WellFormed(ts) && Join(ts) == Lower(frase)
    requires RewriteTokens(Rules(SynonymTable), ts) == us && Join(us) == out
    ensures Normalize(frase) == out
  {
    TokenizeJoin(ts);
  }

  /** A rewrite given token by token. */
  lemma RewriteEach(rules: seq<Rule>, ts: seq<Token>, us: seq<Token>)
    requires |ts| == |us| && forall k :: 0 <= k < |ts| ==> RewriteToken(rules, ts[k]) == us[k]
    ensures RewriteTokens(rules, ts) == us
  {
  }

  lemma LowerOf(s: string, low: string)
    requires |s| == |low| && forall k :: 0 <= k < |s| ==> LowerChar(s[k]) == low[k]
    ensures Lower(s) == low
  {
  }

  // "o dobro de 8": "dobro" becomes "*".

  const DoubleIn: seq<Token> := [Word("o"), Sep(' '), Word("dobro"), Sep(' '), Word("de"), Sep(' '), Word("8")]
  const DoubleOut: seq<Token> := [Word("o"), Sep(' '), Sep('*'), Sep(' '), Word("de"), Sep(' '), Word("8")]

  lemma DoubleTokens()
    ensures WellFormed(DoubleIn) && Join(DoubleIn) == "o dobro de 8"
  {
    assert TokenOk(DoubleIn[0]);
    assert TokenOk(DoubleIn[1]);
    assert TokenOk(DoubleIn[2]);
    assert TokenOk(DoubleIn[3]);
    assert TokenOk(DoubleIn[4]);
    assert TokenOk(DoubleIn[5]);
    assert TokenOk(DoubleIn[6]);
    assert WellFormed(DoubleIn);
    DoubleJoin();
  }

  lemma DoubleJoin()
    ensures Join(DoubleIn) == "o dobro de 8"
  {
  }

  lemma DoubleLower()
    ensures Lower("o dobro de 8") == "o dobro de 8"
  {
    LowerOf("o dobro de 8", "o dobro de 8");
  }

  lemma DoubleRuns()
    ensures WellFormed(DoubleIn) && Join(DoubleIn) == Lower("o dobro de 8")
  {
    DoubleTokens();
    DoubleLower();
  }

  lemma DoubleRewrite()
    ensures RewriteTokens(Rules(SynonymTable), DoubleIn) == DoubleOut
    ensures Join(DoubleOut) == "o * de 8"
  {
    ShortWordsKept("o");
    ShortWordsKept("de");
    ShortWordsKept("8");
    SynonymOperator(2, 4);
    DoubleRewriteWith(Rules(SynonymTable));
    DoubleOutJoin();
  }

  lemma DoubleRewriteWith(rules: seq<Rule>)
    requires Lookup(rules, "o") == None && Lookup(rules, "de") == None && Lookup(rules, "8") == None && Lookup(rules, "dobro") == Some('*')
    ensures RewriteTokens(rules, DoubleIn) == DoubleOut
  {
    assert RewriteToken(rules, DoubleIn[0]) == DoubleOut[0];
    assert RewriteToken(rules, DoubleIn[1]) == DoubleOut[1];
    assert RewriteToken(rules, DoubleIn[2]) == DoubleOut[2];
    assert RewriteToken(rules, DoubleIn[3]) == DoubleOut[3];
    assert RewriteToken(rules, DoubleIn[4]) == DoubleOut[4];
    assert RewriteToken(rules, DoubleIn[5]) == DoubleOut[5];
    assert RewriteToken(rules, DoubleIn[6]) == DoubleOut[6];
    RewriteEach(rules, DoubleIn, DoubleOut);
  }

  lemma DoubleOutJoin()
    ensures Join(DoubleOut) == "o * de 8"
  {
  }

  lemma ExampleDouble()
    ensures Normalize("o dobro de 8") == "o * de 8"
  {
    DoubleRuns();
    DoubleRewrite();
    NormalizeByRuns("o dobro de 8", DoubleIn, DoubleOut, "o * de 8");
  }

  // "A metade de 6": lower-cased, and "metade" becomes "/".

  const HalfIn: seq<Token> := [Word("a"), Sep(' '), Word("metade"), Sep(' '), Word("de"), Sep(' '), Word("6")]
  const HalfOut: seq<Token> := [Word("a"), Sep(' '), Sep('/'), Sep(' '), Word("de"), Sep(' '), Word("6")]

  lemma HalfTokens()
    ensures WellFormed(HalfIn) && Join(HalfIn) == "a metade de 6"
  {
    assert TokenOk(HalfIn[0]);
    assert TokenOk(HalfIn[1]);
    assert TokenOk(HalfIn[2]);
    assert TokenOk(HalfIn[3]);
    assert TokenOk(HalfIn[4]);
    assert TokenOk(HalfIn[5]);
    assert TokenOk(HalfIn[6]);
    assert WellFormed(HalfIn);
    HalfJoin();
  }

  lemma HalfJoin()
    ensures Join(HalfIn) == "a metade de 6"
  {
  }

  lemma HalfLower()
    ensures Lower("A metade de 6") == "a metade de 6"
  {
    LowerOf("A metade de 6", "a metade de 6");
  }

  lemma HalfRuns()
    ensures WellFormed(HalfIn) && Join(HalfIn) == Lower("A metade de 6")
  {
    HalfTokens();
    HalfLower();
  }

  lemma HalfRewrite()
    ensures RewriteTokens(Rules(SynonymTable), HalfIn) == HalfOut
    ensures Join(HalfOut) == "a / de 6"
  {
    ShortWordsKept("a");
    ShortWordsKept("de");
    ShortWordsKept("6");
    SynonymOperator(3, 2);
    HalfRewriteWith(Rules(SynonymTable));
    HalfOutJoin();
  }

  lemma HalfRewriteWith(rules: seq<Rule>)
    requires Lookup(rules, "a") == None && Lookup(rules, "de") == None && Lookup(rules, "6") == None && Lookup(rules, "metade") == Some('/')
    ensures RewriteTokens(rules, HalfIn) == HalfOut
  {
    assert RewriteToken(rules, HalfIn[0]) == HalfOut[0];
    assert RewriteToken(rules, HalfIn[1]) == HalfOut[1];
    assert RewriteToken(rules, HalfIn[2]) == HalfOut[2];
    assert RewriteToken(rules, HalfIn[3]) == HalfOut[3];
    assert RewriteToken(rules, HalfIn[4]) == HalfOut[4];
    assert RewriteToken(rules, HalfIn[5]) == HalfOut[5];
    assert RewriteToken(rules, HalfIn[6]) == HalfOut[6];
    RewriteEach(rules, HalfIn, HalfOut);
  }

  lemma HalfOutJoin()
    ensures Join(HalfOut) == "a / de 6"
  {
  }

  lemma ExampleHalf()
    ensures Normalize("A metade de 6") == "a / de 6"
  {
    HalfRuns();
    HalfRewrite();
    NormalizeByRuns("A metade de 6", HalfIn, HalfOut, "a / de 6");
  }

  // "Somas de 2": "soma" is a synonym, but here it is only the start of the
  // longer run "somas", so nothing is rewritten.

  const SumsIn: seq<Token> := [Word("somas"), Sep(' '), Word("de"), Sep(' '), Word("2")]

  lemma SumsTokens()
    ensures WellFormed(SumsIn) && Join(SumsIn) == "somas de 2"
  {
    assert TokenOk(SumsIn[0]);
    assert TokenOk(SumsIn[1]);
    assert TokenOk(SumsIn[2]);
    assert TokenOk(SumsIn[3]);
    assert TokenOk(SumsIn[4]);
    assert WellFormed(SumsIn);
    SumsJoin();
  }

  lemma SumsJoin()
    ensures Join(SumsIn) == "somas de 2"
  {
  }

  lemma SumsLower()
    ensures Lower("Somas de 2") == "somas de 2"
  {
    LowerOf("Somas de 2", "somas de 2");
  }

  lemma SumsRuns()
    ensures WellFormed(SumsIn) && Join(SumsIn) == Lower("Somas de 2")
  {
    SumsTokens();
    SumsLower();
  }

  lemma SumsNotListed()
    ensures Lookup(SynonymRules, "somas") == None
  {
    assert forall k :: 0 <= k < |SynonymRules| ==> SynonymRules[k].word != "somas";
  }

  lemma SumsNotSynonym()
    ensures Lookup(Rules(SynonymTable), "somas") == None
  {
    SumsNotListed();
    RulesOfTable();
  }

  lemma SumsRewrite()
    ensures RewriteTokens(Rules(SynonymTable), SumsIn) == SumsIn
    ensures Join(SumsIn) == "somas de 2"
  {
    SumsNotSynonym();
    ShortWordsKept("de");
    ShortWordsKept("2");
    SumsRewriteWith(Rules(SynonymTable));
    SumsJoin();
  }

  lemma SumsRewriteWith(rules: seq<Rule>)
    requires Lookup(rules, "somas") == None && Lookup(rules, "de") == None && Lookup(rules, "2") == None
    ensures RewriteTokens(rules, SumsIn) == SumsIn
  {
    assert RewriteToken(rules, SumsIn[0]) == SumsIn[0];
    assert RewriteToken(rules, SumsIn[1]) == SumsIn[1];
    assert RewriteToken(rules, SumsIn[2]) == SumsIn[2];
    assert RewriteToken(rules, SumsIn[3]) == SumsIn[3];
    assert RewriteToken(rules, SumsIn[4]) == SumsIn[4];
    RewriteEach(rules, SumsIn, SumsIn);
  }

  lemma ExampleEmbedded()
    ensures Normalize("Somas de 2") == "somas de 2"
  {
    SumsRuns();
    SumsRewrite();
    NormalizeByRuns("Somas de 2", SumsIn, SumsIn, "somas de 2");
  }

  // The `re.sub` for the entry "soma" leaves the longer word "somar" alone:
  // `\b` does not hold between "soma" and the following "r".

  lemma SomarTokens()
    ensures WellFormed([Word("somar")]) && Join([Word("somar")]) == "somar"
  {
    assert TokenOk(Word("somar"));
  }

  lemma EntryInsideLongerWord()
    ensures ReSub("somar", "soma", '+') == "somar"
  {
    var ts := [Word("somar")];
    SomarTokens();
    TokenizeJoin(ts);
    assert WordLike("soma");
    ReSubReplacesWholeWords("somar", "soma", '+');
    assert ReplaceWord(ts, "soma", '+') == ts;
  }
}
