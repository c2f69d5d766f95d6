/** `avaliar_acuracia`: run every test sentence through the models, compare
    the value of the generated expression with the value of the expected
    one (both with their spaces removed), count the hits and write one
    report line per test. Unlike `resolver_expressao`, this comparison
    evaluates the generated text without the character guard. */
module Accuracy {
  import opened Normalizer
  import opened Guard
  import opened Pipeline

  /** The fixed list of (sentence, expected expression) pairs. */
  const Tests: seq<(string, string)> := [
    ("o dobro de 8", "2 * 8"),
    ("a soma de 2 mais 2", "2 + 2"),
    ("a metade de 6", "6 / 2"),
    ("a diferença entre 7 e 3", "7 - 3"),
    ("3 vezes 4", "3 * 4"),
    ("4 mais 4", "4 + 4"),
    ("6 menos 2", "6 - 2"),
    ("10 dividido por 2", "10 / 2"),
    ("quanto é 9 menos 3", "9 - 3"),
    ("qual o produto de 5 e 5", "5 * 5"),
    ("qual a divisão de 8 por 4", "8 / 4")
  ]

  /** Every expected expression of the test list passes the character guard
      of `resolver_expressao`. */
  lemma ExpectedPassGuard()
    ensures forall k :: 0 <= k < |Tests| ==> MatchesPlus(Tests[k].1)
  {
    forall k | 0 <= k < |Tests| ensures MatchesPlus(Tests[k].1) {
      var e := Tests[k].1;
      assert |e| > 0 && forall m :: 0 <= m < |e| ==> InClass(e[m]);
    }
  }

  const Tick: char := '\U{2705}'
  const Cross: char := '\U{274C}'

  /** `s.replace(" ", "")`. */
  function StripSpaces(s: string): (r: string)
    ensures |r| <= |s|
    ensures forall k :: 0 <= k < |r| ==> r[k] != ' '
    decreases |s|
  {
    if s == [] then [] else (if s[0] == ' ' then [] else [s[0]]) + StripSpaces(s[1..])
  }

  /** Removing the spaces works piece by piece: the order of the kept
      characters is the order they had. */
  lemma {:induction false} StripSpacesAppend(a: string, b: string)
    ensures StripSpaces(a + b) == StripSpaces(a) + StripSpaces(b)
    decreases |a|
  {
    if a != [] {
      var head := if a[0] == ' ' then [] else [a[0]];
      assert (a + b)[0] == a[0] && (a + b)[1..] == a[1..] + b;
      assert StripSpaces(a + b) == head + StripSpaces(a[1..] + b);
      StripSpacesAppend(a[1..], b);
      assert StripSpaces(a) == head + StripSpaces(a[1..]);
    } else {
      assert a + b == b;
    }
  }

  /** Every character other than the space keeps its number of occurrences,
      and no space is left. */
  lemma {:induction false} StripSpacesCounts(s: string, c: char)
    ensures multiset(StripSpaces(s))[c] == if c == ' ' then 0 else multiset(s)[c]
    decreases |s|
  {
    if s != [] {
      StripSpacesCounts(s[1..], c);
      assert s == [s[0]] + s[1..];
      assert multiset(s) == multiset([s[0]]) + multiset(s[1..]);
      var r := StripSpaces(s);
      assert r == (if s[0] == ' ' then [] else [s[0]]) + StripSpaces(s[1..]);
      assert multiset(r) == multiset(if s[0] == ' ' then [] else [s[0]]) + multiset(StripSpaces(s[1..]));
    }
  }

  /** A string without spaces is left as it is, and only such a string. */
  lemma {:induction false} StripSpacesFixed(s: string)
    ensures StripSpaces(s) == s <==> forall k :: 0 <= k < |s| ==> s[k] != ' '
    decreases |s|
  {
    if s != [] {
      StripSpacesFixed(s[1..]);
      assert forall k :: 0 < k < |s| ==> s[k] == s[1..][k - 1];
      if s[0] == ' ' {
        assert |StripSpaces(s)| <= |s[1..]| < |s|;
      }
    }
  }

  /** `acertou`: both expressions evaluate and Python's `==` holds between
      their values (`same` stands for it, so 3 and 3.0 may compare equal); an
      exception from either evaluation makes the test fail. */
  predicate Passed<V>(expected: string, generated: string, eval: string -> EvalOutcome<V>,
                      same: (V, V) -> bool)
    ensures eval(StripSpaces(expected)).Raised? ==> !Passed(expected, generated, eval, same)
    ensures eval(StripSpaces(generated)).Raised? ==> !Passed(expected, generated, eval, same)
  {
    match (eval(StripSpaces(expected)), eval(StripSpaces(generated)))
    case (Value(a), Value(b)) => same(a, b)
    case _ => false
  }

  /** Stripping is idempotent: a stripped text has no space left to strip. */
  lemma StripSpacesTwice(s: string)
    ensures StripSpaces(StripSpaces(s)) == StripSpaces(s)
  {
    StripSpacesFixed(StripSpaces(s));
  }

  /** Spaces in either expression never change a test's outcome. */
  lemma PassedIgnoresSpaces<V>(expected: string, generated: string, eval: string -> EvalOutcome<V>,
                               same: (V, V) -> bool)
    ensures Passed(expected, generated, eval, same)
         == Passed(StripSpaces(expected), StripSpaces(generated), eval, same)
  {
    StripSpacesTwice(expected);
    StripSpacesTwice(generated);
  }

  /** Whether each test passes. */
  function Outcomes<V>(tests: seq<(string, string)>, translate: string -> string,
                       generate: string -> string, eval: string -> EvalOutcome<V>,
                       same: (V, V) -> bool): (r: seq<bool>)
    ensures |r| == |tests|
  {
    seq(|tests|, k requires 0 <= k < |tests| =>
      Passed(tests[k].1, Generated(tests[k].0, translate, generate), eval, same))
  }

  /** A report line ends in the tick mark. */
  predicate Ticked(line: string) {
    |line| >= 4 && line[|line| - 4..] == " (" + [Tick] + ")"
  }

  /** The tick marks of the report lines. */
  function Marks(lines: seq<string>): (r: seq<bool>)
    ensures |r| == |lines|
  {
    seq(|lines|, k requires 0 <= k < |lines| => Ticked(lines[k]))
  }

  /** `f"{entrada} => {gerado} ({'✅' if acertou else '❌'})"`: the line
      starts with the test sentence, and it ends in the tick mark exactly
      when the test passed. */
  function ReportLine(sentence: string, generated: string, passed: bool): (line: string)
    ensures |sentence| < |line| && line[..|sentence|] == sentence
    ensures Ticked(line) == passed
  {
    var head := sentence + " => " + generated;
    var tail := " (" + [if passed then Tick else Cross] + ")";
    var line := head + tail;
    assert line[..|sentence|] == sentence;
    assert line[|line| - 4..] == tail;
    assert !passed ==> tail[2] != (" (" + [Tick] + ")")[2];
    line
  }

  /** The number of `true` entries. */
  function CountTrue(bs: seq<bool>): (n: nat)
    ensures n <= |bs|
    ensures n == |bs| <==> forall k :: 0 <= k < |bs| ==> bs[k]
    ensures n == 0 <==> forall k :: 0 <= k < |bs| ==> !bs[k]
  {
    if bs == [] then 0
    else
      var init := bs[..|bs| - 1];
      var n0 := CountTrue(init);
      assert forall k :: 0 <= k < |init| ==> init[k] == bs[k];
      n0 + if bs[|bs| - 1] then 1 else 0
  }

  /** Counting one more entry adds one exactly when that entry is true. */
  lemma CountTrueStep(bs: seq<bool>, i: nat)
    requires i < |bs|
    ensures CountTrue(bs[..i + 1]) == CountTrue(bs[..i]) + if bs[i] then 1 else 0
  {
    assert bs[..i + 1][..i] == bs[..i];
  }

  /** The report lines for a list of tests. */
  function ReportLines<V>(tests: seq<(string, string)>, translate: string -> string,
                          generate: string -> string, eval: string -> EvalOutcome<V>,
                          same: (V, V) -> bool): (r: seq<string>)
    ensures |r| == |tests|
  {
    seq(|tests|, k requires 0 <= k < |tests| =>
      ReportLine(tests[k].0, Generated(tests[k].0, translate, generate),
                 Outcomes(tests, translate, generate, eval, same)[k]))
  }

  /** A report line carries the tick mark exactly when its test passed. */
  lemma ReportMarks<V>(tests: seq<(string, string)>, translate: string -> string,
                       generate: string -> string, eval: string -> EvalOutcome<V>,
                       same: (V, V) -> bool)
    ensures Marks(ReportLines(tests, translate, generate, eval, same)) == Outcomes(tests, translate, generate, eval, same)
  {
    var lines := ReportLines(tests, translate, generate, eval, same);
    var outcomes := Outcomes(tests, translate, generate, eval, same);
    forall k | 0 <= k < |tests| ensures Marks(lines)[k] == outcomes[k] {
      assert Ticked(lines[k]) == outcomes[k];
    }
  }

  /** One more element of a sequence extends its prefix. */
  lemma PrefixStep<T>(xs: seq<T>, i: nat, x: T)
    requires i < |xs| && xs[i] == x
    ensures xs[..i] + [x] == xs[..i + 1]
  {
  }

  /** `avaliar_acuracia()` over a list of tests, up to the summary line:
      the hit count, the number of tests, and the report lines. */
  method EvaluateAccuracy<V>(tests: seq<(string, string)>, translate: string -> string,
                             generate: string -> string, eval: string -> EvalOutcome<V>,
                             same: (V, V) -> bool)
    returns (hits: nat, total: nat, lines: seq<string>)
    ensures total == |tests| && hits <= total
    ensures hits == CountTrue(Outcomes(tests, translate, generate, eval, same))
    ensures lines == ReportLines(tests, translate, generate, eval, same)
    ensures Marks(lines) == Outcomes(tests, translate, generate, eval, same)
  {
    ghost var outcomes := Outcomes(tests, translate, generate, eval, same);
    ghost var report := ReportLines(tests, translate, generate, eval, same);
    hits := 0;
    total := |tests|;
    lines := [];
    var i := 0;
    while i < |tests|
      invariant 0 <= i <= |tests|
      invariant hits == CountTrue(outcomes[..i])
      invariant lines == report[..i]
    {
      var (sentence, expected) := tests[i];
      var english := TranslateToEnglish(sentence, translate);
      var generated := generate(english);
      assert generated == Generated(sentence, translate, generate);
      var expectedStripped := StripSpaces(expected);
      var generatedStripped := StripSpaces(generated);
      var passed := match (eval(expectedStripped), eval(generatedStripped))
        case (Value(a), Value(b)) => same(a, b)
        case _ => false;
      assert passed == outcomes[i];
      var line := ReportLine(sentence, generated, passed);
      assert line == report[i];
      PrefixStep(report, i, line);
      CountTrueStep(outcomes, i);
      lines := lines + [line];
      if passed {
        hits := hits + 1;
      }
      assert hits == CountTrue(outcomes[..i + 1]);
      i := i + 1;
    }
    assert outcomes[..|tests|] == outcomes;
    assert report[..|tests|] == report;
    ReportMarks(tests, translate, generate, eval, same);
  }
}
