# Assignment generator: mark validation and reply shaping

The system is a single HTTP endpoint, `POST /generate_assignments`, in two
variants. It takes a subject, a topic list and question counts. It asks a hosted
language model for questions and turns the model's plain-text reply into a list
of questions.

- The validating variant (`main.py`) gives short questions 2 marks and long
  questions 5. It rejects a request with status 400 when
  `2*short_questions + 5*long_questions` differs from the declared
  `num_assignments`, and it does so before any model call. Otherwise it calls
  the question generator for the short questions and then for the long ones.
  Each reply becomes a list of `{question, marks}` records. The response
  reports the total and the per-category subtotals.
- The reduced variant (`main_v1.py`) has short questions only. It computes
  `2*short_questions` and never checks it. Its questions are bare strings.

Both variants shape a reply the same way:
- split it on `"\n"`;
- keep the lines whose whitespace-`strip()` is non-empty;
- strip `-`, `•` and space from both ends of each kept line;
- keep the first `count` results, with Python slice semantics.

Any failure of the model call, or of reading its reply, becomes a 500 error
carrying the error's text.

The model is pure: datatypes, functions and lemmas. The source is straight-line
code and comprehensions with no mutable state.

- `common.dfy`: `Wrappers.Result`, plus `Http.HttpError` with the two status
  codes.
- `reply_text.dfy` (module `ReplyText`): Python's `str.strip()` over Python's
  whitespace set and `str.strip("-• ")`; `str.split("\n")` and its inverse
  `"\n".join`; the filter; the parsed reply; `xs[:count]`.
- `decimal.dfy` (module `Decimal`): `str(int)`, which renders the two numbers
  in the 400 detail.
- `assignments.dfy` (module `Assignments`): the validating variant.
- `assignments_v1.dfy` (module `AssignmentsV1`): the reduced variant.
- `variants.dfy` (module `Variants`): how the two variants relate.
- `scenarios.dfy` (module `Scenarios`): the worked Biology request (2 short
  and 1 long question, declared totals 9 and 10) and edge cases of the reply
  pipeline.

The upstream completion service is a parameter `upstream` of the endpoint. It is
a function from the arguments of one generation call (subject, topics, count,
and for `main.py` the question type and mark) to `Success(reply text)` or
`Failure(error text)`. The endpoint returns an `Exchange`: the generation calls
it issued, in order, and its response or `HttpError`. This makes two facts
statable: no call happens on a 400, and the long-question call is issued even
when `long_questions == 0`.

Integers are unbounded and may be negative, because the request model accepts
any `int`. A negative `count` is modelled with Python slice semantics:
`xs[:count]` drops `-count` items from the end.

Behaviour of the code that is easy to misread:
- Bullet characters are stripped from both ends of a line, not only the leading
  end.
- The long-question generator is called even when there are no long questions.
- Blank lines are the whitespace-only ones. A line such as `"--"` or `" • "` is
  kept and yields an empty question `""`.
- A `"\r"` at the end of a line is kept.

## Model

| member | source | states |
|---|---|---|
| `ReplyText.IsPySpace` | main.py:65 | the characters `str.strip()` removes: among printable ASCII only the space; tab, line feed, carriage return, U+0085, U+00A0, U+2028 and U+3000 are all removed |
| `ReplyText.SkipLeading` | main.py:65 | the scan stops at the first character outside the strip set, and every character it passes is in the set |
| `ReplyText.SkipTrailing` | main.py:65 | the backward scan never passes the left cut, stops after the last character outside the set, and every character it passes is in the set |
| `ReplyText.Strip` | main.py:65 | `s.strip(chars)` is a substring `s[i..j]`; everything cut from either end is in the set; the rest is empty or neither starts nor ends with a set character |
| `ReplyText.StrippedAtUnique` | main.py:65 | only one substring of `s` fits that description |
| `ReplyText.StripCharacterised` | main.py:65 | every substring fitting the description is what `Strip` returns, so the description is a complete specification |
| `ReplyText.StripKeepsCleanString` | main.py:65 | a line with no leading or trailing `-`, `•` or space (or no leading or trailing whitespace) is returned unchanged |
| `ReplyText.StripIdempotent` | main.py:65 | stripping twice equals stripping once |
| `ReplyText.StripEmptyIff` | main.py:65 | a strip returns `""` exactly when every character is in the set, so `"--"` and `" • "` become empty questions |
| `ReplyText.StripTruthyIffNotBlank` | main.py:65 | the filter `if q.strip()` holds exactly for lines that are not all Python whitespace |
| `ReplyText.SplitLines` | main.py:65 | `split("\n")` gives at least one piece, and no piece contains a line feed |
| `ReplyText.SplitLinesCount` | main.py:65 | there is one more piece than there are line feeds, so `"a\n"` gives two pieces |
| `ReplyText.JoinSplitLines` | main.py:65 | joining the pieces with `"\n"` gives back the reply |
| `ReplyText.SplitLinesPrepend` | main.py:65 | a line-feed-free prefix is glued onto the first piece of what follows it |
| `ReplyText.SplitJoinLines` | main.py:65 | splitting a join of line-feed-free pieces gives back exactly those pieces |
| `ReplyText.KeptLines` | main.py:65 | the filter `if q.strip()` never lengthens the list, and every line it keeps has a non-empty whitespace-strip |
| `ReplyText.KeptLinesAppend` | main.py:65 | the filter distributes over concatenation, so kept lines keep their order |
| `ReplyText.KeptLinesMembers` | main.py:65 | a line is kept exactly when it occurs in the reply and is not blank |
| `ReplyText.KeptLinesCount` | main.py:65 | the number of kept lines equals the number of positions whose line is not blank |
| `ReplyText.ParseReply` | main.py:65 | the comprehension yields at most one question per line of the reply, and no question starts or ends with `-`, `•` or a space |
| `ReplyText.OneLineReplyParses` | main.py:65 | a reply of one non-blank line without a bullet character at either end is exactly one question, the line itself |
| `ReplyText.ParseReplyCount` | main.py:65 | the parsed reply has one question per split line whose whitespace-strip is non-empty |
| `ReplyText.SlicePrefix` | main.py:66 | `xs[:count]` is a prefix of `xs` of length `min(count, len)` for `count >= 0`, or `max(len + count, 0)` for a negative count; it never pads |
| `Decimal.DigitChar` | main.py:33 | a digit value renders as a decimal digit character |
| `Decimal.DigitValue` | main.py:33 | reading a digit character back gives a value that renders as the same character |
| `Decimal.NatToString` | main.py:33 | `str(n)` for `n >= 0` is one or more decimal digits; `str(0)` is `"0"` and a positive value has no leading zero |
| `Decimal.IntToString` | main.py:33 | `str(i)` is digits, with a leading `-` exactly when `i < 0` |
| `Decimal.ParseNatToString` | main.py:33 | reading the digits of `str(n)` back gives `n` |
| `Decimal.IntToStringInjective` | main.py:33 | different integers render differently |
| `Assignments.MismatchDetail` | main.py:33 | the 400 detail begins with `Total marks from questions = `, ends with a full stop and is a single line |
| `Assignments.RenderedPairInjective` | main.py:33 | two numbers placed between fixed texts, the middle one starting with a comma, can be read back |
| `Assignments.MismatchDetailInjective` | main.py:31-34 | the 400 detail determines both the computed total and the expected value |
| `Assignments.WrapQuestions` | main.py:66 | wrapping keeps every question text, in order, and gives each record the category's mark |
| `Assignments.GenerateQuestions` | main.py:58-68 | fails exactly when the upstream call fails, with a 500 carrying the error text; otherwise returns the prefix of the parsed reply of length `min(count, parsed)` for `count >= 0`, each question wrapped with the given mark |
| `Assignments.GenerateAssignments` | main.py:24-46 | 400 exactly when `2*short + 5*long != num_assignments`, with no generation call and the detail built from both values; otherwise the short call, then the long call even for zero long questions unless the short call failed; any other error is a 500 carrying the text of the failed call; success only when both calls succeed, with `total_marks == short_question_marks + long_question_marks == num_assignments`, subtotals `2*short` and `5*long`, every short record worth 2 and every long record worth 5 |
| `AssignmentsV1.GenerateQuestions` | main_v1.py:47-57 | fails exactly when the upstream call fails, with a 500 carrying the error text; otherwise returns a prefix of the parsed reply of length `min(count, parsed)` for `count >= 0` |
| `AssignmentsV1.GenerateAssignments` | main_v1.py:22-36 | makes exactly one generation call and never rejects a request for mark reasons; succeeds exactly when that call does; `total_marks == 2*short_questions`; the questions are that call's shaped reply |
| `Variants.ShapingAgrees` | main_v1.py:54-55 | both variants shape a reply identically; the validating one only wraps each question with its mark |
| `Variants.TotalsAgree` | main_v1.py:27 | a request the reduced variant serves, declared with its total and no long questions, would never draw a 400 from the validating variant |
| `Scenarios.ShortReplyParses` | main.py:65 | `"- What is a cell?\n- Define gene.\n\n"` parses to the two questions without their bullets; the trailing empty pieces are dropped |
| `Scenarios.LongReplyParses` | main.py:65 | the worked long reply `"Explain mitosis in detail."` parses to the single question `"Explain mitosis in detail."` |
| `Scenarios.BiologyAccepted` | main.py:24-46 | subject Biology, 2 short and 1 long question, declared total 9: accepted with totals 9, 4 and 5 and the expected records |
| `Scenarios.BiologyRejected` | main.py:28-34 | the same request with a declared total of 10: a 400, no generation call, detail `Total marks from questions = 9, but expected 10.` |
| `Scenarios.BulletOnlyLineAndCarriageReturn` | main.py:65 | a `" • "` line yields an empty question, and `"foo\r"` keeps its carriage return |
| `Scenarios.NegativeCountDropsFromEnd` | main.py:66 | with `count == -1` the last question is dropped, and a one-question reply yields nothing |

## Left out

- FastAPI app and route wiring, and JSON (de)serialisation: the request and response bodies are datatypes with the same fields.
- Pydantic validation and coercion: a request field is modelled by its type only, so counts and the declared total are any integers.
- Environment loading and the API key, API base and model name settings (main.py:8-12, main_v1.py:8-12): configuration with no logic.
- The `openai.ChatCompletion.create` network call and the `response['choices'][0]['message']['content']` access. These are replaced by the `upstream` parameter. Any exception they raise is its `Failure` text.
- The upstream parameter is a function, so two identical calls would get the same reply. The real service is not deterministic. In `main.py` the two calls always differ in their question type, and `main_v1.py` makes one call, so this does not restrict what the model can state.
- `async`/`await`: suspension on I/O only. The model orders the two calls in the `calls` sequence.
- The prompt text (main.py:49-57, main_v1.py:39-46) is free-form templating; the model keeps its inputs in `GenerationCall` but not the wording, nor the `", "`-joined topic list it contains.
- The sampling temperature 0.7: passed through, never computed on.
- `Scenarios.BiologyAccepted` and `Scenarios.NegativeCountDropsFromEnd` take the replies through their parsed form. `Scenarios.ShortReplyParses` and `Scenarios.LongReplyParses` show that the worked example's replies have that form. This keeps the verifier from evaluating the reply pipeline character by character.
