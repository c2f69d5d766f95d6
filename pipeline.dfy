/** `traduzir_para_ingles` and `processar`: the request path from a
    Portuguese sentence to an expression and its value. The translation
    model, the expression-generating model and the evaluator are parameters:
    `translate` stands for the translation model's output on a normalised
    sentence, `generate` for the generating model's stripped output on the
    English text. */
module Pipeline {
  import opened Chars
  import opened Normalizer
  import opened Guard

  /** The expression the models produce for a sentence, in `processar` and
      in `avaliar_acuracia` alike. The models see the normalised
      sentence only, so neither the sentence's letter case nor normalising
      it beforehand changes what they produce. */
  function Generated(sentence: string, translate: string -> string, generate: string -> string): (expression: string)
    ensures expression == generate(translate(Normalize(Lower(sentence))))
    ensures expression == generate(translate(Normalize(Normalize(sentence))))
  {
    NormalizeIgnoresCase(sentence);
    NormalizeIdempotent(sentence);
    generate(translate(Normalize(sentence)))
  }

  /** `traduzir_para_ingles(texto_pt)`: the sentence is normalised before it
      reaches the translation model. */
  method TranslateToEnglish(sentence: string, translate: string -> string) returns (english: string)
    ensures english == translate(Normalize(sentence))
  {
    var normalized := NormalizeOperators(sentence);
    english := translate(normalized);
  }

  /** `processar(frase)`: the generated expression, and the guarded result
      of evaluating it. */
  method Process<V>(sentence: string, translate: string -> string, generate: string -> string,
                    eval: string -> EvalOutcome<V>)
    returns (expression: string, answer: Answer<V>)
    ensures expression == Generated(sentence, translate, generate)
    ensures answer == Message(InvalidExpression)
        <==> !(|expression| > 0 && forall k :: 0 <= k < |expression| ==> InClass(expression[k]))
    ensures answer.Number? ==> eval(expression) == Value(answer.v)
    ensures answer == ResolveExpression(expression, eval)
  {
    var english := TranslateToEnglish(sentence, translate);
    expression := generate(english);
    answer := ResolveExpression(expression, eval);
  }
}
