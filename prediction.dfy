// The `/predict` endpoint: normalise the e-mail text, run the fitted TF-IDF
// vectoriser and classifier on it, and compose a fixed-shape answer, or the one
// generic HTTP 500 error when any step raises.
//
// The vectoriser and the classifier are opaque fitted objects; they are given
// here as function-valued fields that either produce a value or fail with the
// message of the exception they would raise.

module Prediction {
  import opened Cleaning

  datatype Result<T, E> = Ok(value: T) | Err(error: E)

  /** The loaded artifacts. A batch of texts goes into `transform`; `predict`
      gives one raw class label per row of the feature matrix, `predictProba`
      one row of class probabilities per row. */
  datatype Artifacts<!V> = Artifacts(
    transform: seq<string> -> Result<V, string>,
    predict: V -> Result<seq<int>, string>,
    predictProba: V -> Result<seq<seq<real>>, string>)

  datatype HttpError = HttpError(statusCode: int, detail: string)

  /** The JSON object returned by a successful prediction. */
  datatype Response = Response(
    modelName: string,
    modelVersion: string,
    modelType: string,
    prediction: string,
    isPhishing: bool,
    confidenceScore: real,
    processingTimeSeconds: real)

  const MODEL_NAME: string := "Email Phishing Detector"
  const MODEL_VERSION: string := "1.0.0"
  const MODEL_TYPE: string := "TF-IDF + Logistic Regression"
  const PHISHING_EMAIL: string := "Phishing Email"
  const SAFE_EMAIL: string := "Safe Email"

  /** Pydantic rejects a request whose text is shorter than this before the
      handler runs. */
  const MIN_TEXT_LENGTH: nat := 5

  const InternalServerError: HttpError := HttpError(500, "Internal server error")

  // ---------------------------------------------------------------------------
  // Python's `max` over the probability row
  // ---------------------------------------------------------------------------

  /** The largest entry: it bounds every entry and is one of them. */
  function Max(s: seq<real>): (m: real)
    requires |s| > 0
    ensures forall i :: 0 <= i < |s| ==> s[i] <= m
    ensures m in s
  {
    if |s| == 1 then s[0]
    else
      var rest := Max(s[1..]);
      if rest > s[0] then rest else s[0]
  }

  /** The two properties of `Max` pin it down: any value that bounds every
      entry and is itself an entry equals `Max(s)`. */
  lemma {:induction false} MaxUnique(s: seq<real>, m: real)
    requires |s| > 0
    ensures ((forall i :: 0 <= i < |s| ==> s[i] <= m) && m in s) <==> m == Max(s)
  {
    if (forall i :: 0 <= i < |s| ==> s[i] <= m) && m in s {
      var j :| 0 <= j < |s| && s[j] == m;
      var k :| 0 <= k < |s| && s[k] == Max(s);
      assert Max(s) <= m && m <= Max(s);
    }
  }

  /** A bound that holds of every entry holds of the maximum, from both sides. */
  lemma {:induction false} MaxWithin(s: seq<real>, lo: real, hi: real)
    requires |s| > 0
    ensures (forall i :: 0 <= i < |s| ==> lo <= s[i] <= hi) ==> lo <= Max(s) <= hi
  {
    var k :| 0 <= k < |s| && s[k] == Max(s);
  }

  // ---------------------------------------------------------------------------
  // The pipeline steps
  // ---------------------------------------------------------------------------

  /** Every step of the pipeline on the normalised text `cleaned` returns, and
      the two indexings and the `max` find something to work on. */
  predicate Succeeds<V>(arts: Artifacts<V>, cleaned: string)
  {
    && arts.transform([cleaned]).Ok?
    && arts.predict(arts.transform([cleaned]).value).Ok?
    && |arts.predict(arts.transform([cleaned]).value).value| > 0
    && arts.predictProba(arts.transform([cleaned]).value).Ok?
    && |arts.predictProba(arts.transform([cleaned]).value).value| > 0
    && |arts.predictProba(arts.transform([cleaned]).value).value[0]| > 0
  }

  /** The raw class label of the single request row. */
  function Label<V>(arts: Artifacts<V>, cleaned: string): (raw: int)
    requires Succeeds(arts, cleaned)
  {
    arts.predict(arts.transform([cleaned]).value).value[0]
  }

  /** The class probabilities of the single request row; there is at least one,
      so `max` has something to choose from. */
  function Probabilities<V>(arts: Artifacts<V>, cleaned: string): (row: seq<real>)
    requires Succeeds(arts, cleaned)
    ensures |row| > 0
  {
    arts.predictProba(arts.transform([cleaned]).value).value[0]
  }

  /** The display string for a verdict. */
  function Verdict(isPhishing: bool): (v: string)
    ensures v == PHISHING_EMAIL <==> isPhishing
    ensures v == SAFE_EMAIL <==> !isPhishing
  {
    if isPhishing then PHISHING_EMAIL else SAFE_EMAIL
  }

  /** The handler of `POST /predict`. `elapsed` is the rounded wall-clock time
      the handler measured; the clock itself is outside the model. Whatever
      step raises, the caller sees the same generic error and no part of the
      answer. */
  function PredictEmail<V>(arts: Artifacts<V>, text: string, elapsed: real): (r: Result<Response, HttpError>)
    requires |text| >= MIN_TEXT_LENGTH
    ensures r.Err? ==> r.error == InternalServerError
    ensures r.Ok? <==> Succeeds(arts, CleanText(text))
    ensures r.Ok? ==>
      && (forall i :: 0 <= i < |Probabilities(arts, CleanText(text))| ==>
            Probabilities(arts, CleanText(text))[i] <= r.value.confidenceScore)
      && r.value.confidenceScore in Probabilities(arts, CleanText(text))
    ensures r.Ok? ==> r.value.isPhishing == (Label(arts, CleanText(text)) != 0)
    ensures r.Ok? ==> (r.value.prediction == PHISHING_EMAIL <==> r.value.isPhishing)
    ensures r.Ok? ==> (r.value.prediction == SAFE_EMAIL <==> !r.value.isPhishing)
    ensures r.Ok? ==>
      && r.value.modelName == MODEL_NAME
      && r.value.modelVersion == MODEL_VERSION
      && r.value.modelType == MODEL_TYPE
      && r.value.processingTimeSeconds == elapsed
  {
    var cleaned := CleanText(text);
    match arts.transform([cleaned])
    case Err(_) => Err(InternalServerError)
    case Ok(vector) =>
      match arts.predict(vector)
      case Err(_) => Err(InternalServerError)
      case Ok(labels) =>
        if |labels| == 0 then Err(InternalServerError)
        else
          match arts.predictProba(vector)
          case Err(_) => Err(InternalServerError)
          case Ok(rows) =>
            if |rows| == 0 || |rows[0]| == 0 then Err(InternalServerError)
            else
              var confidence := Max(rows[0]);
              var isPhishing := labels[0] != 0;
              Ok(Response(MODEL_NAME, MODEL_VERSION, MODEL_TYPE, Verdict(isPhishing),
                          isPhishing, confidence, elapsed))
  }

  // ---------------------------------------------------------------------------
  // Properties of the endpoint
  // ---------------------------------------------------------------------------

  /** When the classifier's probabilities are probabilities, so is the reported
      confidence. */
  lemma {:induction false} ConfidenceIsProbability<V>(arts: Artifacts<V>, text: string, elapsed: real)
    requires |text| >= MIN_TEXT_LENGTH
    requires Succeeds(arts, CleanText(text))
    requires forall i :: 0 <= i < |Probabilities(arts, CleanText(text))| ==>
      0.0 <= Probabilities(arts, CleanText(text))[i] <= 1.0
    ensures PredictEmail(arts, text, elapsed).Ok?
    ensures 0.0 <= PredictEmail(arts, text, elapsed).value.confidenceScore <= 1.0
  {
    MaxWithin(Probabilities(arts, CleanText(text)), 0.0, 1.0);
  }

  /** The artifacts see only the normalised text: two e-mails that normalise
      alike get the same answer. */
  lemma {:induction false} AnswerDependsOnCleanedText<V>(arts: Artifacts<V>, t1: string, t2: string, elapsed: real)
    requires |t1| >= MIN_TEXT_LENGTH && |t2| >= MIN_TEXT_LENGTH
    requires CleanText(t1) == CleanText(t2)
    ensures PredictEmail(arts, t1, elapsed) == PredictEmail(arts, t2, elapsed)
  {
  }

  /** A link standing alone between two spaces does not influence the verdict:
      the e-mail is judged as if the link were not there. */
  lemma {:induction false} LinkDoesNotChangeAnswer<V>(arts: Artifacts<V>, a: string, u: string, b: string, elapsed: real)
    requires |a + " " + b| >= MIN_TEXT_LENGTH
    requires forall i :: 0 <= i < |u| ==> !IsSpace(u[i])
    requires UrlAt(Lower(u), 0)
    ensures PredictEmail(arts, a + " " + u + " " + b, elapsed) == PredictEmail(arts, a + " " + b, elapsed)
  {
    UrlTokenVanishes(a, u, b);
    AnswerDependsOnCleanedText(arts, a + " " + u + " " + b, a + " " + b, elapsed);
  }

  /** An e-mail with no letters at all (only whitespace) reaches the vectoriser
      as the empty text. */
  lemma {:induction false} BlankEmailIsJudgedEmpty<V>(arts: Artifacts<V>, text: string, elapsed: real)
    requires |text| >= MIN_TEXT_LENGTH
    requires forall i :: 0 <= i < |text| ==> IsSpace(text[i])
    ensures PredictEmail(arts, text, elapsed).Ok? <==> Succeeds(arts, "")
  {
    CleanTextOfBlank(text);
  }
}
