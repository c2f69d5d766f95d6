# MathPrompt: the string-processing core of `app_gradio.py`

MathPrompt takes a Portuguese sentence that describes an arithmetic
operation, such as "o dobro de 8". It works in four steps:

1. It rewrites the operator words in the sentence to operator symbols.
2. It translates the sentence to English with a pretrained model.
3. It asks a second pretrained model for a math expression, such as "2 * 8".
4. It evaluates that expression, but only when the expression passes a
   character guard.

A self-test runs a fixed list of sentences through the same path. It
compares the value of each generated expression with the value of the
expected one, after removing spaces from both, and counts the hits.

This project models the parts of that program that the repository itself
defines, and proves what they guarantee:

- `chars.dfy`: Python's `\w` on `str` patterns (`isalnum()` or `_`) and
  `str.lower()`, both over ASCII and Latin-1.
- `tokens.dfy`: a sentence viewed as maximal runs of word characters and
  single separators. Splitting and joining are proved inverse.
- `regex_sub.dfy`: `re.sub(rf"\b{palavra}\b", operador, frase)` as the
  left-to-right scan the regex engine performs. It is proved equal to
  "replace every maximal run equal to the word".
- `normalizer.dfy`: `sinonimos_operadores` and `normalizar_operadores`. The
  nested loops are a method. That method is proved equal to the run-by-run
  specification `Normalize`. Lemmas then prove what normalisation does and
  does not change.
- `guard.dfy`: `resolver_expressao`. The evaluator is a parameter that
  returns a value or raises an exception with a message.
- `pipeline.dfy`: `traduzir_para_ingles` and `processar`, with the
  translation and generation models as parameters.
- `accuracy.dfy`: `avaliar_acuracia` up to the summary: space stripping,
  the hit counter and the report lines.

One observation about the code: `avaliar_acuracia` calls `eval` on the
generated text without the character guard that `resolver_expressao`
applies. The model keeps that missing guard: `EvaluateAccuracy` hands the
stripped generated text to the evaluator whatever characters it contains.

## Model

| member | source | states |
|---|---|---|
| Chars.WordCharClasses | app_gradio.py:20 | the `\w` behind `\b` counts the Portuguese accented letters of the synonyms as word characters and the operator symbols, parentheses, space and punctuation as non-word characters, so `\b` never falls inside a word such as "adição" |
| Chars.LowerChar | app_gradio.py:17 | the lower-cased character is never upper case; a character that is not upper case is unchanged; lower-casing neither creates nor removes a word character |
| Chars.Lower | app_gradio.py:17 | `frase.lower()` keeps the length, leaves no upper-case letter, keeps each position's word/non-word class, and is the identity on text without upper-case letters |
| Tokens.Tokenize | app_gradio.py:20 | the split into runs and separators is well formed (no two runs adjacent, so every run is maximal) and joins back to the input |
| Tokens.TokenizeJoin | app_gradio.py:20 | splitting the join of a well-formed token list gives back that list, so the run view of a text is unique |
| RegexSub.SubFrom | app_gradio.py:20 | the regex scan from a position never produces more text than remains, and where the word does not occur from that position on it copies the rest unchanged |
| RegexSub.ReSub | app_gradio.py:20 | `re.sub(\bw\b, op, s)` never lengthens the text (each match of at least one character becomes one operator character) and returns a text in which w does not occur unchanged |
| RegexSub.ReSubReplacesWholeWords | app_gradio.py:20 | for a synonym made of word characters, `re.sub(\bw\b, op, s)` is exactly "replace each maximal run equal to w by op, keep everything else in place" |
| RegexSub.SubFromRewritesRuns | app_gradio.py:20 | from any position outside a run, the regex scan rewrites the rest of the text run by run |
| Normalizer.Lookup | app_gradio.py:18-20 | a word has no operator exactly when no rule lists it; an operator it gets comes from a rule that lists the word with that operator |
| Normalizer.Normalize | app_gradio.py:16-21 | normalisation never lengthens the sentence |
| Normalizer.RewriteNotLonger | app_gradio.py:18-20 | replacing synonym runs by their one-character operators never lengthens the joined text |
| Normalizer.NormalizeIgnoresCase | app_gradio.py:17 | a sentence and its lower-cased form normalise to the same text, because `frase.lower()` comes first |
| Normalizer.NormalizeOperators | app_gradio.py:16-21 | the nested loops over the table, one `re.sub` per synonym in dictionary order, compute `Normalize(frase)` |
| Normalizer.SubstituteStep | app_gradio.py:19-20 | one `re.sub` applied to a sentence already rewritten by the earlier rules gives the rewrite by the earlier rules plus this one |
| Normalizer.SynonymTableOk | app_gradio.py:9-14 | every operator is a non-word character and every synonym a non-empty run of word characters |
| Normalizer.SynonymsDistinct | app_gradio.py:9-14 | no synonym is listed twice |
| Normalizer.SynonymOperator | app_gradio.py:9-14 | each listed synonym rewrites to the operator it is listed under, e.g. "dobro" to `*` and "metade" to `/` |
| Normalizer.ShortWordsKept | app_gradio.py:9-14 | a word shorter than four characters (an article, a preposition, a number below 1000) is never rewritten |
| Normalizer.NormalizeNoUpper | app_gradio.py:17-20 | no upper-case letter remains after normalisation |
| Normalizer.RewriteNoUpper | app_gradio.py:18-20 | replacing runs by operator symbols introduces no upper-case letter |
| Normalizer.NormalizeTokens | app_gradio.py:18-20 | the output has the same runs and separators as the lower-cased input, in the same order; a run equal to a synonym has become its operator, and every other run and separator is unchanged |
| Normalizer.NoSynonymRemains | app_gradio.py:18-20 | no run of the output is a synonym |
| Normalizer.RewriteIdempotent | app_gradio.py:18-20 | rewriting an already rewritten token list changes nothing |
| Normalizer.NormalizeIdempotent | app_gradio.py:16-21 | normalising a normalised sentence gives it back unchanged |
| Normalizer.ExampleDouble | app_gradio.py:12 | "o dobro de 8" normalises to "o * de 8" |
| Normalizer.ExampleHalf | app_gradio.py:13 | "A metade de 6" normalises to "a / de 6" |
| Normalizer.ExampleEmbedded | app_gradio.py:20 | "Somas de 2" normalises to "somas de 2": the synonym "soma" inside the longer word is not replaced |
| Normalizer.EntryInsideLongerWord | app_gradio.py:10 | the `re.sub` for the entry "soma" leaves "somar" unchanged |
| Guard.MatchesPlus | app_gradio.py:65 | `re.fullmatch(r"[0-9\+\-\*/\(\) ]+", expr)` holds exactly when expr is non-empty and each character is a digit, `+`, `-`, `*`, `/`, a parenthesis or a space |
| Guard.ResolveExpression | app_gradio.py:63-70 | the result is "Expressão inválida" exactly when the guard rejects; a number is the evaluator's value; any other message is "Erro: " followed by the exception's message |
| Guard.RejectsOutsideClass | app_gradio.py:65-68 | one character outside the class is enough to get "Expressão inválida" |
| Guard.RejectsEmpty | app_gradio.py:65-68 | the empty expression gets "Expressão inválida" |
| Pipeline.TranslateToEnglish | app_gradio.py:28-35 | the translation model receives the normalised sentence |
| Pipeline.Generated | app_gradio.py:74-75 | the generated expression depends only on the normalised sentence: lower-casing or normalising the sentence beforehand does not change it (the same expression is generated in `avaliar_acuracia`, lines 100-101) |
| Pipeline.Process | app_gradio.py:73-77 | the expression is the generated one for the normalised sentence, and the answer is exactly `resolver_expressao` of that expression: "Expressão inválida" exactly when it fails the guard, and a number is the evaluator's value for it |
| Accuracy.StripSpaces | app_gradio.py:102-103 | `replace(" ", "")` leaves no space and never lengthens the text |
| Accuracy.StripSpacesAppend | app_gradio.py:102-103 | stripping works piece by piece, so the kept characters stay in their original order |
| Accuracy.StripSpacesCounts | app_gradio.py:102-103 | every character other than the space occurs as often after stripping as before |
| Accuracy.StripSpacesFixed | app_gradio.py:102-103 | stripping leaves a text unchanged exactly when it contains no space |
| Accuracy.StripSpacesTwice | app_gradio.py:102-103 | stripping a stripped text changes nothing |
| Accuracy.Passed | app_gradio.py:104-107 | a test passes only when both stripped expressions evaluate; an exception from either evaluation makes it fail |
| Accuracy.PassedIgnoresSpaces | app_gradio.py:102-107 | spaces in the expected or the generated expression never change a test's outcome |
| Accuracy.ExpectedPassGuard | app_gradio.py:80-92 | every expected expression in the test list passes the guard of `resolver_expressao` |
| Accuracy.ReportLine | app_gradio.py:108 | a report line starts with the test sentence, and it ends in the tick mark exactly when its test passed |
| Accuracy.CountTrue | app_gradio.py:109-110 | the count is at most the number of tests; it equals that number exactly when every test passed, and it is 0 exactly when none passed |
| Accuracy.CountTrueStep | app_gradio.py:109-110 | the counter grows by one exactly for a passing test |
| Accuracy.ReportMarks | app_gradio.py:108-110 | the tick marks of the report lines are exactly the pass/fail outcomes |
| Accuracy.EvaluateAccuracy | app_gradio.py:94-110 | `total` is the number of tests; `acertos` is the number of passing tests, so it is between 0 and `total`; there is exactly one report line per test, in order, and its mark is that test's outcome |

## Left out

- Model loading, the translation model and the expression generator (app_gradio.py:24-60) are calls into pretrained models. They are function parameters: `translate` stands for the translated text of a normalised sentence and `generate` for the stripped generated expression.
- Python `eval` (app_gradio.py:66, 105) is a parameter returning a value or a raised exception's message. Its grammar, the float results of `/`, and which inputs raise are not modelled.
- Accuracy.EvaluateAccuracy: assumes that `eval` is pure and always returns. In `avaliar_acuracia` the generated text reaches `eval` without the guard, so it could in principle change `testes` or `resultados`, or not terminate (for example a huge `**`). The model does not capture either case. Python's `==` between the two values is the parameter `same`, because it is not structural equality (3 == 3.0 holds).
- The accuracy percentage `round((acertos / total) * 100, 2)` and the summary string (app_gradio.py:112-114) are left out, because they are floating-point formatting. `EvaluateAccuracy` returns the hit count, the total and the report lines instead.
- The Gradio interface and the `!pip install` lines (app_gradio.py:1-2, 116-134) are left out.
- Chars.Lower: models `str.lower()` over ASCII and Latin-1 only. Characters above U+00FF are left unchanged, while Python maps them by full Unicode case rules.
- Chars.IsWordChar: models `\w` over ASCII and Latin-1 only. Characters above U+00FF count as non-word characters, while Python's `\w` includes every Unicode letter and digit.
- A non-`str` argument to `normalizar_operadores` raises `AttributeError` at `frase.lower()`. For `resolver_expressao`, `re.fullmatch` raises `TypeError` inside the `try`, so the function returns "Erro: " followed by that message. The model's inputs are always strings, so neither case is modelled, and the only exceptions `ResolveExpression` turns into "Erro: …" are the evaluator's.
