# Real-time phishing detection: the text normaliser and the prediction endpoint

The service exposes a FastAPI endpoint, `POST /predict`, that takes the text of an
e-mail and answers whether it is phishing. The handler runs these steps:

1. It normalises the text with `clean_text`. The function lowercases the text,
   deletes every `http` together with the non-whitespace run that follows it,
   deletes every character that is neither an ASCII letter nor whitespace,
   collapses whitespace runs to a single space and trims both ends.
2. It hands the normalised text, as a batch of one, to a fitted TF-IDF vectoriser.
3. It asks a fitted logistic-regression classifier for the raw label of that row
   and for the row's class probabilities.
4. It reports the largest probability as the confidence and maps the label to
   `is_phishing` and to the display string "Phishing Email" or "Safe Email".
5. It returns a fixed-shape answer with the model's name, version and type.
   If any step raises, the handler answers with HTTP 500 and the detail
   "Internal server error" instead.

The model has two modules:

- `cleaning.dfy`, module `Cleaning`. Each of the four passes is a recursive
  function over `string`. Lower-casing works character by character. The three
  `re.sub` passes follow Python's semantics: a left-to-right scan, leftmost
  matches, and `\S+` taking the maximal run. `CleanText` composes the passes. The lemmas cover:
  - the alphabet and spacing of the output;
  - the absence of URL matches after the URL pass;
  - the fixed points of every pass and of the whole normaliser;
  - the equivalence of the last pass with `" ".join(text.split())`;
  - the exact condition under which normalising twice equals normalising once.
- `prediction.dfy`, module `Prediction`. The vectoriser and classifier are
  function-valued fields of `Artifacts`. Each returns a `Result`, so any of them
  may fail. `PredictEmail` is the handler: its contract states the
  all-or-nothing error policy, the confidence as the maximum probability, the
  agreement of the label fields, and the fixed metadata.

Whitespace is the ASCII part of Python's `\s`: the space, the code points 9 to 13
(tab, line feed, vertical tab, form feed, carriage return) and 28 to 31. One
predicate, `IsSpace`, serves passes 2 to 4 (URLs, symbols, whitespace);
lower-casing does not look at whitespace.

Normalising is not idempotent in the code. The symbol pass runs after the URL
pass, so deleting punctuation can assemble a new URL match. `"htt!pxy"`
normalises to `"httpxy"`, and a second pass deletes that to `""`. The model
follows the code: `CleanTextNotIdempotent` proves this counterexample, and
`CleanTextIdempotentIff` gives the exact condition under which a second pass
changes nothing.

## Model

| member | source | states |
|---|---|---|
| Cleaning.Lower | api/main.py:47 | lower-casing keeps the length; LowerChars and LowerFixedPoints carry its character-level contract |
| Cleaning.LowerChars | api/main.py:47 | `text.lower()` on ASCII: no upper-case letter is left, each upper-case letter becomes its lower-case letter (code point + 32), and every other character is unchanged |
| Cleaning.LowerFixedPoints | api/main.py:47 | lowercasing leaves a text unchanged exactly when it has no upper-case letter |
| Cleaning.RemoveUrls | api/main.py:48 | the URL pass never lengthens the text and keeps leading whitespace; RemoveUrlsSpaceHead, RemoveUrlsWord and RemoveUrlsAppend pin down what it keeps, RemoveUrlsLeavesNoUrl what it removes |
| Cleaning.RemoveUrlsLeavesNoUrl | api/main.py:48 | after `re.sub(r'http\S+', '', ...)` no `http` followed by a non-whitespace character remains: deleting the maximal run never exposes a new match |
| Cleaning.RemoveUrlsKeepsPlainText | api/main.py:48 | a text with no match of `http\S+` passes the URL pass unchanged |
| Cleaning.RemoveUrlsFixedPoints | api/main.py:48 | the URL pass leaves a text unchanged exactly when the text has no match |
| Cleaning.RemoveUrlsIdempotent | api/main.py:48 | running the URL pass twice is running it once |
| Cleaning.RemoveUrlsShortens | api/main.py:48 | the URL pass either deletes something or returns its input |
| Cleaning.RemoveUrlsMembers | api/main.py:48 | every character of the output of the URL pass occurs in its input |
| Cleaning.RemoveUrlsWord | api/main.py:48 | inside one whitespace-free word, the pass keeps exactly the part before the word's first match (the whole word when there is none) and deletes the rest of the word |
| Cleaning.RemoveUrlsCutsWord | api/main.py:48 | `"visit:http://x"` becomes `"visit:"`: a match in mid-word cuts the word, it does not delete it |
| Cleaning.RemoveUrlsDeletesToken | api/main.py:48 | a whitespace-free token that starts with a match is deleted whole, up to the next whitespace |
| Cleaning.BareHttpKept | api/main.py:48 | a bare `http` at the end of the text or before whitespace is kept |
| Cleaning.RemoveUrlsAroundSpace | api/main.py:48 | the URL pass works word by word: it distributes over a space |
| Cleaning.RemoveUrlsSpaceHead | api/main.py:48 | no match starts with whitespace: the URL pass keeps any leading whitespace character and goes on after it |
| Cleaning.RemoveSymbols | api/main.py:49 | every character left by `re.sub(r'[^a-zA-Z\s]', '', ...)` is an ASCII letter or whitespace |
| Cleaning.RemoveSymbolsMembers | api/main.py:49 | a character occurs in the output of the symbol pass exactly when it occurs in the input and is a letter or whitespace |
| Cleaning.RemoveSymbolsFixedPoints | api/main.py:49 | the symbol pass leaves a text unchanged exactly when every character is a letter or whitespace |
| Cleaning.RemoveSymbolsAppend | api/main.py:49 | the symbol pass is a character filter: it distributes over concatenation |
| Cleaning.CollapseSpaces | api/main.py:50 | collapsing never lengthens the text, is empty exactly when its input is, and turns a leading whitespace run into one space; CollapseSpacesShape and CollapseStripJoinsWords carry the rest |
| Cleaning.CollapseSpacesShape | api/main.py:50 | after `re.sub(r'\s+', ' ', ...)` every whitespace character is a plain space, no two whitespace characters are adjacent, and every other character comes from the input |
| Cleaning.CollapseSpacesFixedPoints | api/main.py:50 | the collapsing pass leaves a text unchanged exactly when its only whitespace is single plain spaces |
| Cleaning.CollapseSpacesAbsorbsSpace | api/main.py:50 | a space directly before a whitespace run is absorbed into that run |
| Cleaning.Strip | api/main.py:50 | `strip()` never lengthens the text; StripSpec characterises its result |
| Cleaning.StripSpec | api/main.py:50 | `strip()` returns a contiguous slice that starts after the leading whitespace, has only whitespace after it, and neither starts nor ends with whitespace |
| Cleaning.StripFixedPoints | api/main.py:50 | `strip()` leaves a text unchanged exactly when it is empty or neither starts nor ends with whitespace |
| Cleaning.StripLeadingSpaces | api/main.py:50 | leading whitespace has no effect on `strip()` |
| Cleaning.WordsAreWords | api/main.py:50 | the reference splitter yields non-empty, whitespace-free words |
| Cleaning.WordsOfBlank | api/main.py:50 | the reference splitter yields no words exactly when the text is all whitespace |
| Cleaning.CollapseStripJoinsWords | api/main.py:50 | collapsing whitespace runs and then stripping equals joining the whitespace-separated words with single spaces, `" ".join(text.split())` |
| Cleaning.CleanText | api/main.py:46-51 | the four passes in source order; the normalised text is never longer than the input. CleanTextShape, CleanTextFixedPoints and CleanTextIdempotentIff carry its contract |
| Cleaning.CleanTextJoinsWords | api/main.py:46-51 | `clean_text` is the single-space join of the words left after lowercasing and removing URLs and symbols |
| Cleaning.CleanTextShape | api/main.py:46-51 | every character of the normalised text is `a`–`z` or a space, it neither starts nor ends with a space, and it never has two spaces in a row |
| Cleaning.CleanTextFixedPoints | api/main.py:46-51 | the normaliser leaves a text unchanged exactly when the text has the clean shape and no match of `http\S+` |
| Cleaning.CleanTextIdempotentIff | api/main.py:46-51 | normalising twice equals normalising once exactly when the normalised text has no match of `http\S+` |
| Cleaning.CleanTextNotIdempotent | api/main.py:48-49 | `"htt!pxy"` normalises to a text that a second normalisation changes: the symbol pass runs after the URL pass |
| Cleaning.CleanTextJoinsUrl | api/main.py:46-51 | `"htt!pxy"` normalises to `"httpxy"` |
| Cleaning.CleanTextDeletesUrlWord | api/main.py:46-51 | `"httpxy"` normalises to the empty text |
| Cleaning.CleanTextOfBlank | api/main.py:46-51 | an empty or whitespace-only text normalises to the empty text |
| Cleaning.UrlTokenVanishes | api/main.py:46-51 | a link standing as its own word between spaces disappears without a trace: the text normalises as if the link and one of its spaces were absent |
| Cleaning.FirstPasses | api/main.py:47-49 | lower-casing, URL deletion and symbol deletion together never lengthen the text |
| Cleaning.FirstPassesAroundSpace | api/main.py:47-49 | the first three passes work on each side of a space separately |
| Cleaning.FirstPassesOfWords | api/main.py:47-49 | seven words joined by single spaces go through the first three passes word by word |
| Cleaning.FirstPassesKeepPlainWord | api/main.py:47-49 | a lower-case word holding no URL match passes the first three passes unchanged |
| Cleaning.LowerKeepsNoUpper | api/main.py:47 | lower-casing leaves a text without upper-case letters alone |
| Cleaning.CleanShapeAroundSpace | api/main.py:50 | two non-empty texts of the normalised shape joined by one space have that shape |
| Cleaning.LastPassKeepsCleanShape | api/main.py:50 | collapsing and stripping whitespace leave a text of the normalised shape unchanged |
| Cleaning.ExampleLinkFree | api/main.py:46-51 | `"Click here to verify your account now!!!"` normalises to `"click here to verify your account now"` |
| Cleaning.ExampleWithoutLink | api/main.py:46-51 | removing the link word `http://evil.com` from the example leaves its normal form unchanged |
| Cleaning.CleanTextExample | api/main.py:46-51 | `"Click here http://evil.com to verify your account now!!!"` normalises to `"click here to verify your account now"`: link, capital and exclamation marks go, the words stay |
| Prediction.Max | api/main.py:100 | `max(probabilities)` is at least every probability and is one of them |
| Prediction.MaxUnique | api/main.py:100 | these two properties determine the maximum: a value has both exactly when it is `Max` |
| Prediction.MaxWithin | api/main.py:100 | bounds that hold for every probability hold for the maximum |
| Prediction.Succeeds | api/main.py:93-100 | the success condition: `transform` returns, `predict` returns and gives a first label, `predict_proba` returns with a non-empty first row; PredictEmail answers exactly when it holds |
| Prediction.Label | api/main.py:96 | `model.predict(vector)[0]`, the raw label of the single request row; PredictEmail's contract ties `is_phishing` to it |
| Prediction.Probabilities | api/main.py:99 | `model.predict_proba(vector)[0]`, the request row's probabilities, which are never empty when every step succeeds |
| Prediction.Verdict | api/main.py:103 | the display string is "Phishing Email" exactly when the verdict is phishing, and "Safe Email" exactly when it is not |
| Prediction.PredictEmail | api/main.py:84-127 | every failure is exactly HTTP 500 "Internal server error". A response is returned exactly when vectorising and both classifier calls succeed and give a label and a non-empty probability row. The confidence is the maximum of the row. `is_phishing` is `bool(label)` and agrees with the display string. Name, version and type are the constants of lines 28-30, and the processing time is the measured one |
| Prediction.ConfidenceIsProbability | api/main.py:99-100 | when the classifier's probabilities lie in [0, 1], the reported confidence does too |
| Prediction.AnswerDependsOnCleanedText | api/main.py:90-93 | the artifacts see only the normalised text: e-mails that normalise alike get the same answer |
| Prediction.LinkDoesNotChangeAnswer | api/main.py:88-93 | adding a link as its own word does not change the answer |
| Prediction.BlankEmailIsJudgedEmpty | api/main.py:90-93 | a whitespace-only e-mail reaches the vectoriser as the empty text |

## Left out

- The browser front end (`frontend/script.js`). It is DOM and `fetch` code with nothing to verify.
- The FastAPI application, CORS middleware, the `/` and `/health` routes, and all logging (api/main.py:1-21, 54-65, 107-112, 126). This is framework and I/O plumbing. The log message of a failure does not reach the caller, so dropping it changes no answer.
- Loading the pickled vectoriser and classifier (api/main.py:36-40). `transform`, `predict` and `predict_proba` are arbitrary functions that may fail. TF-IDF weighting and logistic-regression numerics are not modelled.
- Prediction.PredictEmail: the request's `min_length=5` validation (api/main.py:75) runs before the handler. The model states it as a precondition instead of modelling the HTTP 422 reply.
- Prediction.PredictEmail: probabilities are exact reals, not floats. `confidence_score` is the maximum itself, not `round(float(confidence), 4)`. NaN and other float behaviour of `max` is not modelled.
- Prediction.PredictEmail: the clock is outside the model. The already-rounded elapsed time is a parameter, and nothing is claimed about its sign, because `time.time()` is not monotonic.
- Prediction.PredictEmail: the raw label is an integer, and `bool(label)` is "label is non-zero". Other label types a pickled classifier might return are not modelled.
- Cleaning.Lower: only ASCII letters are mapped. `str.lower()` on other Unicode characters (some of which expand to two characters), and the non-ASCII whitespace that Python's `\s` also matches, are not modelled.
