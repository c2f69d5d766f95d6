/** `resolver_expressao`: a generated expression is evaluated only when it
    consists of digits, the four operators, parentheses and spaces. The
    evaluator itself is a parameter. */
module Guard {

  /** What the evaluator does with an expression: a value, or an exception
      whose text is the message. */
  datatype EvalOutcome<V> = Value(v: V) | Raised(message: string)

  /** What `resolver_expressao` returns: the evaluated value, or a message. */
  datatype Answer<V> = Number(v: V) | Message(text: string)

  const InvalidExpression: string := "Expressão inválida"
  const ErrorPrefix: string := "Erro: "

  /** The guard's character class: the digits, the four operator symbols,
      both parentheses and the space. */
  predicate InClass(c: char) {
    ('0' <= c <= '9') || c == '+' || c == '-' || c == '*' || c == '/' || c == '(' || c == ')' || c == ' '
  }

  /** The class repeated zero or more times matches all of `s`. */
  predicate MatchesStar(s: string)
    decreases |s|
  {
    s == [] || (InClass(s[0]) && MatchesStar(s[1..]))
  }

  lemma {:induction false} MatchesStarAll(s: string)
    ensures MatchesStar(s) <==> forall k :: 0 <= k < |s| ==> InClass(s[k])
    decreases |s|
  {
    if s != [] {
      MatchesStarAll(s[1..]);
      assert forall k :: 0 < k < |s| ==> s[k] == s[1..][k - 1];
    }
  }

  /** `re.fullmatch` of the class repeated one or more times: one class
      character, then the class repeated zero or more times over the rest.
      It accepts exactly the non-empty strings over the class. */
  predicate MatchesPlus(s: string)
    ensures MatchesPlus(s) <==> |s| > 0 && forall k :: 0 <= k < |s| ==> InClass(s[k])
  {
    if |s| == 0 then false
    else
      MatchesStarAll(s[1..]);
      assert forall k :: 0 < k < |s| ==> s[k] == s[1..][k - 1];
      InClass(s[0]) && MatchesStar(s[1..])
  }

  /** `resolver_expressao(expr)`: the evaluator is consulted only when the
      guard accepts; a rejected expression gives "Expressão inválida" and an
      exception gives "Erro: " followed by its message. */
  function ResolveExpression<V>(expr: string, eval: string -> EvalOutcome<V>): (r: Answer<V>)
    ensures r == Message(InvalidExpression)
        <==> !(|expr| > 0 && forall k :: 0 <= k < |expr| ==> InClass(expr[k]))
    ensures r.Number? ==> eval(expr) == Value(r.v)
    ensures r.Message? && r != Message(InvalidExpression)
        ==> eval(expr).Raised? && r.text == ErrorPrefix + eval(expr).message
  {
    if MatchesPlus(expr) then
      match eval(expr)
      case Value(v) => Number(v)
      case Raised(m) =>
        assert (ErrorPrefix + m)[1] == 'r' && InvalidExpression[1] == 'x';
        Message(ErrorPrefix + m)
    else Message(InvalidExpression)
  }

  /** An expression with a letter, a dot or any other character outside the
      class never reaches the evaluator. */
  lemma RejectsOutsideClass<V>(expr: string, k: nat, eval: string -> EvalOutcome<V>)
    requires k < |expr| && !InClass(expr[k])
    ensures ResolveExpression(expr, eval) == Message(InvalidExpression)
  {
  }

  /** The empty expression (the model generated nothing) is rejected too. */
  lemma RejectsEmpty<V>(eval: string -> EvalOutcome<V>)
    ensures ResolveExpression("", eval) == Message(InvalidExpression)
  {
  }
}
