/**
 * The RUB->USD rate lookup of app/Services/CurrencyApiService.php: a cache
 * held in memory and in a file, two upstream providers tried in turn under
 * one shared time budget, each with bounded retries and exponential backoff,
 * and the validation every rate passes through.
 *
 * Clocks are integers: seconds for the cache (`time()`), milliseconds for the
 * budget (`microtime(true)`). Each provider is an oracle answering attempt
 * `k` (given the two cURL timeouts) with a response and the milliseconds it
 * took; sleeping advances the millisecond clock by exactly the delay.
 */
module CurrencyApi {
  import opened Wrappers
  import opened Text
  import opened Digits
  import opened DecimalSyntax
  import opened BcMath

  const PrimaryUrl := "https://open.er-api.com/v6/latest/RUB"
  const SecondaryUrl := "https://www.cbr-xml-daily.ru/daily_json.js"

  // ---- rate validation ----

  /**
   * A rate field as decoded from JSON: something other than an int, float or
   * string (including a missing field), or the text `(string) $value` gives.
   */
  datatype RateInput = NotScalar | Scalar(text: string)

  const RateMissing := "Rate is missing or invalid."
  const RateNotNumeric := "Rate is not numeric."
  const RateNotPositive := "Rate must be greater than zero."

  /**
   * `normalizeRate`: the trimmed text must match `^\d+(?:\.\d+)?$` and be
   * positive once cut to 8 fractional digits; the result is that cut value
   * with exactly 8 fractional digits.
   */
  function NormalizeRate(value: RateInput): (r: Result<string, string>)
    ensures value.NotScalar? ==> r == Err(RateMissing)
    ensures value.Scalar? && !MatchesUnsigned(Trim(value.text)) ==> r == Err(RateNotNumeric)
    ensures value.Scalar? && MatchesUnsigned(Trim(value.text)) && Truncate(Read(Trim(value.text)), 8).mantissa <= 0
      ==> r == Err(RateNotPositive)
    ensures r.Ok? <==> value.Scalar? && MatchesUnsigned(Trim(value.text)) && Truncate(Read(Trim(value.text)), 8).mantissa > 0
    ensures r.Ok? ==> Parse(r.value).Some? && Read(r.value) == Truncate(Read(Trim(value.text)), 8)
    ensures r.Ok? ==> r.value == Format(Read(r.value))
  {
    match value
    case NotScalar => Err(RateMissing)
    case Scalar(text) =>
      var rate := Trim(text);
      if !MatchesUnsigned(rate) then
        Err(RateNotNumeric)
      else if Compare(Read(rate), Zero, 8) <= 0 then
        Err(RateNotPositive)
      else
        var cut := Add(Read(rate), Zero, 8);
        assert cut == Truncate(Read(rate), 8) by {
          AddZero(Read(rate));
        }
        ReadFormat(cut);
        Ok(Format(cut))
  }

  lemma AddZero(x: Fixed)
    ensures Add(x, Zero, 8) == Truncate(x, 8)
  {
    assert Fixed(x.mantissa * Pow10(0) + 0 * Pow10(x.scale), x.scale + 0) == x;
  }

  /** A normalized rate is positive and carries exactly 8 fractional digits. */
  lemma NormalizedRateShape(value: RateInput)
    requires NormalizeRate(value).Ok?
    ensures var x := Read(NormalizeRate(value).value); x.mantissa > 0 && x.scale == 8
  {
  }

  /** Normalizing is idempotent: a rate that passed validation passes it again unchanged. */
  lemma NormalizeRateIdempotent(value: RateInput)
    requires NormalizeRate(value).Ok?
    ensures NormalizeRate(Scalar(NormalizeRate(value).value)) == NormalizeRate(value)
  {
    var r := NormalizeRate(value).value;
    NormalizeCanonical(Read(r));
  }

  /** bcmath's rendering of a positive value with 8 fractional digits is a normalized rate. */
  lemma NormalizeCanonical(x: Fixed)
    requires x.scale == 8 && x.mantissa > 0
    ensures NormalizeRate(Scalar(Format(x))) == Ok(Format(x))
  {
    var r := Format(x);
    FormatHasNoBlankEnds(x);
    TrimUnchanged(r);
    ReadFormat(x);
    assert MatchesUnsigned(r);
    TruncateSameScale(x);
    var out := NormalizeRate(Scalar(r));
    assert out.Ok?;
    assert Read(out.value) == x;
  }

  /**
   * A positive rate below 10^-8 is rejected: the comparison with zero is made
   * at 8 fractional digits, where it is zero.
   */
  lemma TinyRateRejected(text: string)
    requires MatchesUnsigned(Trim(text))
    requires Read(Trim(text)).mantissa * Pow10(8) < Pow10(Read(Trim(text)).scale)
    ensures NormalizeRate(Scalar(text)) == Err(RateNotPositive)
  {
    UnsignedIsNonNegative(Trim(text));
    TruncateBelowUnit(Read(Trim(text)), 8);
  }

  lemma UnsignedIsNonNegative(s: string)
    requires MatchesUnsigned(s)
    ensures Read(s).mantissa >= 0
  {
  }

  lemma TruncateBelowUnit(x: Fixed, t: nat)
    requires 0 <= x.mantissa
    requires x.mantissa * Pow10(t) < Pow10(x.scale)
    ensures Truncate(x, t).mantissa == 0
  {
    var a := x.mantissa * Pow10(t);
    assert a >= 0 by {
      MulNonNegative(x.mantissa, Pow10(t));
    }
    DivModUnique(a, Pow10(x.scale), 0, a);
  }

  lemma MulNonNegative(a: int, b: int)
    requires a >= 0 && b >= 0
    ensures a * b >= 0
  {
  }

  // ---- one HTTP request ----

  /** What `curl_exec` yields: a transport failure with cURL's message, or a status and a body. */
  datatype Response = TransportFailed(curlError: string) | Received(status: int, body: Body)

  /**
   * The body after `json_decode`: a decode error or a JSON scalar or null
   * (`InvalidJson`), or a PHP array (a JSON object or list) with what the
   * provider's rate path holds; a list or a missing path gives `NotScalar`.
   */
  datatype Body = InvalidJson | Document(rate: RateInput)

  /** One answer of a provider: the response and the milliseconds the request took. */
  datatype Exchange = Exchange(response: Response, elapsedMs: nat)

  function Min(a: int, b: int): int {
    if a <= b then a else b
  }

  function Max(a: int, b: int): int {
    if a >= b then a else b
  }

  /** `CURLOPT_TIMEOUT_MS`: the remaining budget clamped to [200, 10000]. */
  function TotalTimeout(remainingMs: int): (r: int)
    ensures 200 <= r <= 10000
    ensures 200 <= remainingMs <= 10000 ==> r == remainingMs
    ensures remainingMs < 200 ==> r == 200
    ensures remainingMs > 10000 ==> r == 10000
  {
    Max(200, Min(10000, remainingMs))
  }

  /** `CURLOPT_CONNECTTIMEOUT_MS`: the remaining budget clamped to [200, 5000]. */
  function ConnectTimeout(remainingMs: int): (r: int)
    ensures 200 <= r <= 5000
    ensures 200 <= remainingMs <= 5000 ==> r == remainingMs
    ensures remainingMs < 200 ==> r == 200
    ensures remainingMs > 5000 ==> r == 5000
  {
    Max(200, Min(5000, remainingMs))
  }

  /** The connect timeout never exceeds the total timeout, and neither shrinks when more budget is left. */
  lemma TimeoutsOrdered(remainingMs: int, moreMs: int)
    requires remainingMs <= moreMs
    ensures ConnectTimeout(remainingMs) <= TotalTimeout(remainingMs)
    ensures TotalTimeout(remainingMs) <= TotalTimeout(moreMs)
    ensures ConnectTimeout(remainingMs) <= ConnectTimeout(moreMs)
  {
  }

  /** `requestJson`: the rate field of a decoded 2xx response, or the exception message. */
  function RequestJson(url: string, response: Response): (r: Result<RateInput, string>)
    ensures r.Ok? <==> response.Received? && 200 <= response.status < 300 && response.body.Document?
    ensures response.Received? && !(200 <= response.status < 300) ==> r == Err("HTTP " + IntToString(response.status) + " for " + url)
    ensures r.Ok? ==> r.value == response.body.rate
  {
    match response
    case TransportFailed(error) => Err("HTTP request failed for " + url + ": " + error)
    case Received(status, body) =>
      if status < 200 || status >= 300 then
        Err("HTTP " + IntToString(status) + " for " + url)
      else
        match body
        case InvalidJson => Err("Invalid JSON from " + url)
        case Document(rate) => Ok(rate)
  }

  /** The open.er-api operation: `rates.USD`, validated. */
  function PrimaryRate(response: Response): (r: Result<string, string>)
    ensures r.Ok? <==> RequestJson(PrimaryUrl, response).Ok? && NormalizeRate(RequestJson(PrimaryUrl, response).value).Ok?
    ensures r.Ok? ==> r == NormalizeRate(response.body.rate)
  {
    var rate :- RequestJson(PrimaryUrl, response);
    NormalizeRate(rate)
  }

  /** The CBR operation: `Valute.USD.Value` (roubles per dollar), validated, then `bcdiv('1', $rubPerUsd, 8)`. */
  function SecondaryRate(response: Response): (r: Result<string, string>)
    ensures r.Ok? <==> RequestJson(SecondaryUrl, response).Ok? && NormalizeRate(RequestJson(SecondaryUrl, response).value).Ok?
    ensures r.Ok? ==> var rubPerUsd := Read(NormalizeRate(response.body.rate).value);
      rubPerUsd.mantissa > 0 && r.value == Format(Div(Fixed(1, 0), rubPerUsd, 8))
  {
    var field :- RequestJson(SecondaryUrl, response);
    var rubPerUsd :- NormalizeRate(field);
    Ok(Format(Div(Fixed(1, 0), Read(rubPerUsd), 8)))
  }

  // ---- retries ----

  /** What one call of the closure given to `withRetry` does: the rate it returns or the message it throws, and the milliseconds it took. */
  datatype Attempt = Attempt(result: Result<string, string>, elapsedMs: nat)

  /** `CURRENCY_API_RETRIES` and `CURRENCY_API_BACKOFF_MS`, both positive. */
  datatype RetryPolicy = RetryPolicy(maxAttempts: nat, backoffMs: nat)

  /** One call of the operation: its number, the budget it was given, its outcome, its duration and the pause after it. */
  datatype Call = Call(attempt: nat, remainingMs: int, result: Result<string, string>, elapsedMs: nat, delayMs: nat)

  /**
   * What `withRetry` leaves behind: the rate (`null` as `None`), the error
   * entries it appended, whether it stopped on the budget check before an
   * attempt, the clock when it returned, and its calls in order.
   */
  datatype RetryRun = RetryRun(rate: Option<string>, errors: seq<ErrorEntry>, exhausted: bool, clockMs: int, calls: seq<Call>)

  function Pow2(n: nat): (r: nat)
    ensures r >= 1
  {
    if n == 0 then 1 else 2 * Pow2(n - 1)
  }

  /** The pause after failed attempt `attempt`: the doubled base, but never into the last 50 ms of the budget. */
  function Backoff(baseMs: nat, attempt: nat, remainingMs: int): (r: nat)
    requires attempt >= 1
    ensures r <= baseMs * Pow2(attempt - 1)
    ensures r > 0 ==> r <= remainingMs - 50
    ensures remainingMs - 50 <= 0 ==> r == 0
    ensures 0 < remainingMs - 50 < baseMs * Pow2(attempt - 1) ==> r == remainingMs - 50
    ensures remainingMs - 50 >= baseMs * Pow2(attempt - 1) ==> r == baseMs * Pow2(attempt - 1)
  {
    Min(baseMs * Pow2(attempt - 1), Max(0, remainingMs - 50))
  }

  /** An entry of the `$errors` array, before `sprintf` renders it. */
  datatype ErrorEntry =
    | BudgetEntry(provider: string, attempt: nat)
    | AttemptEntry(provider: string, attempt: nat, maxAttempts: nat, message: string)

  /** The `sprintf` formats of `withRetry`. */
  function EntryText(e: ErrorEntry): string {
    match e
    case BudgetEntry(provider, attempt) =>
      provider + ": processing budget exceeded before attempt " + IntToString(attempt)
    case AttemptEntry(provider, attempt, maxAttempts, message) =>
      provider + " attempt " + IntToString(attempt) + "/" + IntToString(maxAttempts) + ": " + message
  }

  /** One error entry per failed call, in order. */
  function FailureLog(provider: string, maxAttempts: nat, calls: seq<Call>): seq<ErrorEntry> {
    if |calls| == 0 then []
    else
      (if calls[0].result.Err? then [AttemptEntry(provider, calls[0].attempt, maxAttempts, calls[0].result.error)] else [])
      + FailureLog(provider, maxAttempts, calls[1..])
  }

  /**
   * `withRetry` from attempt `attempt` on, with the clock at `clockMs`: an
   * attempt starts only while the budget left is positive; a success is
   * returned at once; after a failure that is not the last attempt the
   * budget is checked again and the backoff is slept.
   */
  function Retry(provider: string, policy: RetryPolicy, operation: (nat, int) -> Attempt,
                 deadlineMs: int, attempt: nat, clockMs: int): (r: RetryRun)
    requires attempt >= 1
    decreases policy.maxAttempts + 1 - attempt
    ensures r.clockMs >= clockMs
    ensures attempt <= policy.maxAttempts + 1 ==> |r.calls| <= policy.maxAttempts + 1 - attempt
    ensures forall i :: 0 <= i < |r.calls| ==> r.calls[i].attempt == attempt + i && r.calls[i].remainingMs > 0
  {
    if attempt > policy.maxAttempts then
      RetryRun(None, [], false, clockMs, [])
    else
      var remaining := deadlineMs - clockMs;
      if remaining <= 0 then
        RetryRun(None, [BudgetEntry(provider, attempt)], true, clockMs, [])
      else
        var answer := operation(attempt, remaining);
        var result := answer.result;
        var after := clockMs + answer.elapsedMs;
        match result
        case Ok(rate) =>
          RetryRun(Some(rate), [], false, after, [Call(attempt, remaining, result, answer.elapsedMs, 0)])
        case Err(message) =>
          var entry := AttemptEntry(provider, attempt, policy.maxAttempts, message);
          var left := deadlineMs - after;
          if attempt < policy.maxAttempts && left > 0 then
            var delay := Backoff(policy.backoffMs, attempt, left);
            var call := Call(attempt, remaining, result, answer.elapsedMs, delay);
            var rest := Retry(provider, policy, operation, deadlineMs, attempt + 1, after + delay);
            RetryRun(rest.rate, [entry] + rest.errors, rest.exhausted, rest.clockMs, [call] + rest.calls)
          else
            RetryRun(None, [entry], false, after, [Call(attempt, remaining, result, answer.elapsedMs, 0)])
  }

  lemma FailureLogCons(provider: string, maxAttempts: nat, call: Call, calls: seq<Call>)
    ensures call.result.Err? ==>
      FailureLog(provider, maxAttempts, [call] + calls)
      == [AttemptEntry(provider, call.attempt, maxAttempts, call.result.error)] + FailureLog(provider, maxAttempts, calls)
    ensures call.result.Ok? ==> FailureLog(provider, maxAttempts, [call] + calls) == FailureLog(provider, maxAttempts, calls)
  {
    assert ([call] + calls)[1..] == calls;
  }

  /** The pause after attempt `attempt`, started at `clockMs`, failed with budget left. */
  function DelayAfter(policy: RetryPolicy, operation: (nat, int) -> Attempt, deadlineMs: int, attempt: nat, clockMs: int): nat
    requires attempt >= 1
  {
    var left := deadlineMs - clockMs - operation(attempt, deadlineMs - clockMs).elapsedMs;
    if left > 0 then Backoff(policy.backoffMs, attempt, left) else 0
  }

  /** The clock when attempt `attempt + 1` is considered. */
  function ResumeAt(policy: RetryPolicy, operation: (nat, int) -> Attempt, deadlineMs: int, attempt: nat, clockMs: int): int
    requires attempt >= 1
  {
    clockMs + operation(attempt, deadlineMs - clockMs).elapsedMs + DelayAfter(policy, operation, deadlineMs, attempt, clockMs)
  }

  lemma RetryStopped(provider: string, policy: RetryPolicy, operation: (nat, int) -> Attempt,
                     deadlineMs: int, attempt: nat, clockMs: int)
    requires attempt >= 1 && (attempt > policy.maxAttempts || deadlineMs - clockMs <= 0)
    ensures var r := Retry(provider, policy, operation, deadlineMs, attempt, clockMs);
      r.calls == [] && r.rate == None && r.clockMs == clockMs &&
      r.exhausted == (attempt <= policy.maxAttempts) &&
      r.errors == if attempt <= policy.maxAttempts then [BudgetEntry(provider, attempt)] else []
  {
  }

  /** The answer to attempt `attempt` when it starts at `clockMs`. */
  function AnswerAt(operation: (nat, int) -> Attempt, deadlineMs: int, attempt: nat, clockMs: int): Attempt {
    operation(attempt, deadlineMs - clockMs)
  }

  lemma RetrySucceeded(provider: string, policy: RetryPolicy, operation: (nat, int) -> Attempt,
                       deadlineMs: int, attempt: nat, clockMs: int)
    requires attempt >= 1 && attempt <= policy.maxAttempts && deadlineMs - clockMs > 0
    requires AnswerAt(operation, deadlineMs, attempt, clockMs).result.Ok?
    ensures var answer := AnswerAt(operation, deadlineMs, attempt, clockMs);
      var result := answer.result;
      Retry(provider, policy, operation, deadlineMs, attempt, clockMs)
      == RetryRun(Some(result.value), [], false, clockMs + answer.elapsedMs,
                  [Call(attempt, deadlineMs - clockMs, result, answer.elapsedMs, 0)])
  {
  }

  lemma RetryGaveUp(provider: string, policy: RetryPolicy, operation: (nat, int) -> Attempt,
                    deadlineMs: int, attempt: nat, clockMs: int)
    requires attempt >= 1 && attempt <= policy.maxAttempts && deadlineMs - clockMs > 0
    requires AnswerAt(operation, deadlineMs, attempt, clockMs).result.Err?
    requires !(attempt < policy.maxAttempts && deadlineMs - clockMs - AnswerAt(operation, deadlineMs, attempt, clockMs).elapsedMs > 0)
    ensures var answer := AnswerAt(operation, deadlineMs, attempt, clockMs);
      var result := answer.result;
      Retry(provider, policy, operation, deadlineMs, attempt, clockMs)
      == RetryRun(None, [AttemptEntry(provider, attempt, policy.maxAttempts, result.error)], false, clockMs + answer.elapsedMs,
                  [Call(attempt, deadlineMs - clockMs, result, answer.elapsedMs, 0)])
  {
  }

  lemma RetryContinued(provider: string, policy: RetryPolicy, operation: (nat, int) -> Attempt,
                       deadlineMs: int, attempt: nat, clockMs: int)
    requires attempt >= 1 && attempt < policy.maxAttempts && deadlineMs - clockMs > 0
    requires AnswerAt(operation, deadlineMs, attempt, clockMs).result.Err?
    requires deadlineMs - clockMs - AnswerAt(operation, deadlineMs, attempt, clockMs).elapsedMs > 0
    ensures var answer := AnswerAt(operation, deadlineMs, attempt, clockMs);
      var result := answer.result;
      var delay := DelayAfter(policy, operation, deadlineMs, attempt, clockMs);
      var rest := Retry(provider, policy, operation, deadlineMs, attempt + 1, ResumeAt(policy, operation, deadlineMs, attempt, clockMs));
      Retry(provider, policy, operation, deadlineMs, attempt, clockMs)
      == RetryRun(rest.rate, [AttemptEntry(provider, attempt, policy.maxAttempts, result.error)] + rest.errors,
                  rest.exhausted, rest.clockMs, [Call(attempt, deadlineMs - clockMs, result, answer.elapsedMs, delay)] + rest.calls)
  {
  }

  /** Every call of the operation given positive budget ends within the cURL total timeout that budget allows. */
  ghost predicate WithinTimeout(operation: (nat, int) -> Attempt) {
    forall attempt: nat, remainingMs: int :: remainingMs > 0 ==> operation(attempt, remainingMs).elapsedMs <= TotalTimeout(remainingMs)
  }

  /**
   * When every request ends within its cURL timeout, `withRetry` returns at
   * most 200 ms (the timeout's floor) after the deadline: an attempt starts
   * only before the deadline, and a pause is taken only with budget left.
   */
  lemma {:induction false} RetryOvershootBounded(provider: string, policy: RetryPolicy, operation: (nat, int) -> Attempt,
                                                 deadlineMs: int, attempt: nat, clockMs: int)
    requires attempt >= 1
    requires WithinTimeout(operation)
    decreases policy.maxAttempts + 1 - attempt
    ensures Retry(provider, policy, operation, deadlineMs, attempt, clockMs).clockMs <= Max(clockMs, deadlineMs + 200)
  {
    var remaining := deadlineMs - clockMs;
    if attempt <= policy.maxAttempts && remaining > 0 {
      var answer := operation(attempt, remaining);
      assert answer.elapsedMs <= TotalTimeout(remaining);
      var after := clockMs + answer.elapsedMs;
      if answer.result.Err? && attempt < policy.maxAttempts && deadlineMs - after > 0 {
        var delay := Backoff(policy.backoffMs, attempt, deadlineMs - after);
        RetryOvershootBounded(provider, policy, operation, deadlineMs, attempt + 1, after + delay);
      }
    }
  }

  /**
   * `withRetry` returns the first success: every call before the last
   * failed, and the rate is there exactly when the last call succeeded.
   */
  lemma {:induction false} RetryFirstSuccess(provider: string, policy: RetryPolicy, operation: (nat, int) -> Attempt,
                                             deadlineMs: int, attempt: nat, clockMs: int)
    requires attempt >= 1
    decreases policy.maxAttempts + 1 - attempt
    ensures StopsAtFirstSuccess(Retry(provider, policy, operation, deadlineMs, attempt, clockMs))
  {
    var r := Retry(provider, policy, operation, deadlineMs, attempt, clockMs);
    if attempt > policy.maxAttempts || deadlineMs - clockMs <= 0 {
      RetryStopped(provider, policy, operation, deadlineMs, attempt, clockMs);
    } else {
      var answer := AnswerAt(operation, deadlineMs, attempt, clockMs);
      var result := answer.result;
      if result.Ok? {
        RetrySucceeded(provider, policy, operation, deadlineMs, attempt, clockMs);
      } else if attempt < policy.maxAttempts && deadlineMs - clockMs - answer.elapsedMs > 0 {
        RetryContinued(provider, policy, operation, deadlineMs, attempt, clockMs);
        var delay := DelayAfter(policy, operation, deadlineMs, attempt, clockMs);
        var resumeAt := ResumeAt(policy, operation, deadlineMs, attempt, clockMs);
        var rest := Retry(provider, policy, operation, deadlineMs, attempt + 1, resumeAt);
        RetryFirstSuccess(provider, policy, operation, deadlineMs, attempt + 1, resumeAt);
        var call := Call(attempt, deadlineMs - clockMs, result, answer.elapsedMs, delay);
        assert r.calls == [call] + rest.calls && r.rate == rest.rate && r.exhausted == rest.exhausted;
        FailureInFront(call, rest, r);
      } else {
        RetryGaveUp(provider, policy, operation, deadlineMs, attempt, clockMs);
      }
    }
  }

  /** Every call but the last failed, and the run found a rate exactly when the last call did, which ended it. */
  predicate StopsAtFirstSuccess(r: RetryRun) {
    (forall i :: 0 <= i < |r.calls| - 1 ==> r.calls[i].result.Err?) &&
    (r.rate.Some? <==> |r.calls| > 0 && r.calls[|r.calls| - 1].result.Ok?) &&
    (r.rate.Some? ==> r.rate.value == r.calls[|r.calls| - 1].result.value && !r.exhausted)
  }

  lemma FailureInFront(call: Call, rest: RetryRun, r: RetryRun)
    requires call.result.Err? && StopsAtFirstSuccess(rest)
    requires r.calls == [call] + rest.calls && r.rate == rest.rate && r.exhausted == rest.exhausted
    ensures StopsAtFirstSuccess(r)
  {
    ConsCalls(call, rest.calls);
    if |rest.calls| > 0 {
      assert r.calls[|r.calls| - 1] == rest.calls[|rest.calls| - 1];
    }
  }

  lemma ConsCalls(call: Call, rest: seq<Call>)
    ensures |[call] + rest| == |rest| + 1
    ensures ([call] + rest)[0] == call
    ensures forall i :: 1 <= i < |rest| + 1 ==> ([call] + rest)[i] == rest[i - 1]
  {
  }

  /** The entries of a run that started at attempt `attempt`: one per failed call, then the budget entry if it stopped on the budget. */
  predicate LogsFailures(provider: string, maxAttempts: nat, attempt: nat, r: RetryRun) {
    r.errors == FailureLog(provider, maxAttempts, r.calls)
                + (if r.exhausted then [BudgetEntry(provider, attempt + |r.calls|)] else [])
  }

  /**
   * The error entries `withRetry` appends: one per failed call, in order,
   * then one budget entry when it stopped on the check before an attempt.
   */
  lemma {:induction false} RetryErrors(provider: string, policy: RetryPolicy, operation: (nat, int) -> Attempt,
                                       deadlineMs: int, attempt: nat, clockMs: int)
    requires attempt >= 1
    decreases policy.maxAttempts + 1 - attempt
    ensures LogsFailures(provider, policy.maxAttempts, attempt, Retry(provider, policy, operation, deadlineMs, attempt, clockMs))
  {
    if attempt > policy.maxAttempts || deadlineMs - clockMs <= 0 {
      ErrorsWhenStopped(provider, policy, operation, deadlineMs, attempt, clockMs);
    } else {
      var answer := AnswerAt(operation, deadlineMs, attempt, clockMs);
      var result := answer.result;
      if result.Ok? {
        RetrySucceeded(provider, policy, operation, deadlineMs, attempt, clockMs);
        ErrorsOfOneCall(provider, policy.maxAttempts, attempt, Retry(provider, policy, operation, deadlineMs, attempt, clockMs));
      } else if attempt < policy.maxAttempts && deadlineMs - clockMs - answer.elapsedMs > 0 {
        var resumeAt := ResumeAt(policy, operation, deadlineMs, attempt, clockMs);
        RetryErrors(provider, policy, operation, deadlineMs, attempt + 1, resumeAt);
        ErrorsWhenContinued(provider, policy, operation, deadlineMs, attempt, clockMs);
      } else {
        RetryGaveUp(provider, policy, operation, deadlineMs, attempt, clockMs);
        ErrorsOfOneCall(provider, policy.maxAttempts, attempt, Retry(provider, policy, operation, deadlineMs, attempt, clockMs));
      }
    }
  }

  lemma ErrorsWhenContinued(provider: string, policy: RetryPolicy, operation: (nat, int) -> Attempt,
                            deadlineMs: int, attempt: nat, clockMs: int)
    requires attempt >= 1 && attempt < policy.maxAttempts && deadlineMs - clockMs > 0
    requires var answer := AnswerAt(operation, deadlineMs, attempt, clockMs);
      answer.result.Err? && deadlineMs - clockMs - answer.elapsedMs > 0
    requires LogsFailures(provider, policy.maxAttempts, attempt + 1,
                          Retry(provider, policy, operation, deadlineMs, attempt + 1, ResumeAt(policy, operation, deadlineMs, attempt, clockMs)))
    ensures LogsFailures(provider, policy.maxAttempts, attempt, Retry(provider, policy, operation, deadlineMs, attempt, clockMs))
  {
    var answer := AnswerAt(operation, deadlineMs, attempt, clockMs);
    RetryContinued(provider, policy, operation, deadlineMs, attempt, clockMs);
    var resumeAt := ResumeAt(policy, operation, deadlineMs, attempt, clockMs);
    var call := Call(attempt, deadlineMs - clockMs, answer.result, answer.elapsedMs, DelayAfter(policy, operation, deadlineMs, attempt, clockMs));
    ErrorsAfterFailure(provider, policy.maxAttempts, call,
                       Retry(provider, policy, operation, deadlineMs, attempt + 1, resumeAt),
                       Retry(provider, policy, operation, deadlineMs, attempt, clockMs));
  }

  lemma ErrorsWhenStopped(provider: string, policy: RetryPolicy, operation: (nat, int) -> Attempt,
                          deadlineMs: int, attempt: nat, clockMs: int)
    requires attempt >= 1 && (attempt > policy.maxAttempts || deadlineMs - clockMs <= 0)
    ensures LogsFailures(provider, policy.maxAttempts, attempt, Retry(provider, policy, operation, deadlineMs, attempt, clockMs))
  {
    RetryStopped(provider, policy, operation, deadlineMs, attempt, clockMs);
  }

  lemma ErrorsOfOneCall(provider: string, maxAttempts: nat, attempt: nat, r: RetryRun)
    requires |r.calls| == 1 && !r.exhausted
    requires r.errors == if r.calls[0].result.Err?
      then [AttemptEntry(provider, r.calls[0].attempt, maxAttempts, r.calls[0].result.error)] else []
    ensures LogsFailures(provider, maxAttempts, attempt, r)
  {
    FailureLogCons(provider, maxAttempts, r.calls[0], []);
    assert [r.calls[0]] + [] == r.calls;
  }

  lemma ErrorsAfterFailure(provider: string, maxAttempts: nat, call: Call, rest: RetryRun, r: RetryRun)
    requires call.result.Err?
    requires r.calls == [call] + rest.calls && r.exhausted == rest.exhausted
    requires r.errors == [AttemptEntry(provider, call.attempt, maxAttempts, call.result.error)] + rest.errors
    requires LogsFailures(provider, maxAttempts, call.attempt + 1, rest)
    ensures LogsFailures(provider, maxAttempts, call.attempt, r)
  {
    var entry := AttemptEntry(provider, call.attempt, maxAttempts, call.result.error);
    var budget := if rest.exhausted then [BudgetEntry(provider, call.attempt + 1 + |rest.calls|)] else [];
    var log := FailureLog(provider, maxAttempts, rest.calls);
    FailureLogCons(provider, maxAttempts, call, rest.calls);
    assert call.attempt + |r.calls| == call.attempt + 1 + |rest.calls|;
    assert [entry] + (log + budget) == ([entry] + log) + budget;
  }

  /** The budget entry is written only once the deadline has passed. */
  lemma {:induction false} RetryExhausted(provider: string, policy: RetryPolicy, operation: (nat, int) -> Attempt,
                                          deadlineMs: int, attempt: nat, clockMs: int)
    requires attempt >= 1
    decreases policy.maxAttempts + 1 - attempt
    ensures var r := Retry(provider, policy, operation, deadlineMs, attempt, clockMs);
      r.exhausted ==> r.clockMs >= deadlineMs
  {
    if attempt > policy.maxAttempts || deadlineMs - clockMs <= 0 {
      RetryStopped(provider, policy, operation, deadlineMs, attempt, clockMs);
    } else {
      var answer := AnswerAt(operation, deadlineMs, attempt, clockMs);
      var result := answer.result;
      if result.Ok? {
        RetrySucceeded(provider, policy, operation, deadlineMs, attempt, clockMs);
      } else if attempt < policy.maxAttempts && deadlineMs - clockMs - answer.elapsedMs > 0 {
        RetryContinued(provider, policy, operation, deadlineMs, attempt, clockMs);
        RetryExhausted(provider, policy, operation, deadlineMs, attempt + 1, ResumeAt(policy, operation, deadlineMs, attempt, clockMs));
      } else {
        RetryGaveUp(provider, policy, operation, deadlineMs, attempt, clockMs);
      }
    }
  }

  /** The largest pause after failed attempt `attempt`: `base * 2 ** (attempt - 1)`. */
  function BackoffCap(baseMs: nat, attempt: nat): nat {
    if attempt >= 1 then baseMs * Pow2(attempt - 1) else 0
  }

  /**
   * The timing of a run that started with the clock at `clockMs`: each call
   * is given the budget left when it starts, each pause is at most the
   * doubled base and never eats into the last 50 ms, and the final attempt
   * is not followed by a pause.
   */
  predicate Paced(policy: RetryPolicy, deadlineMs: int, clockMs: int, calls: seq<Call>) {
    (|calls| > 0 ==> calls[0].remainingMs == deadlineMs - clockMs) &&
    (forall i :: 0 <= i < |calls| - 1 ==>
       calls[i + 1].remainingMs == calls[i].remainingMs - calls[i].elapsedMs - calls[i].delayMs) &&
    (forall i :: 0 <= i < |calls| ==>
       calls[i].delayMs <= BackoffCap(policy.backoffMs, calls[i].attempt) &&
       (calls[i].delayMs > 0 ==> calls[i].remainingMs - calls[i].elapsedMs - calls[i].delayMs >= 50) &&
       (calls[i].attempt >= policy.maxAttempts ==> calls[i].delayMs == 0))
  }

  /** Every run of `withRetry` is paced. */
  lemma {:induction false} RetryPaced(provider: string, policy: RetryPolicy, operation: (nat, int) -> Attempt,
                                      deadlineMs: int, attempt: nat, clockMs: int)
    requires attempt >= 1
    decreases policy.maxAttempts + 1 - attempt
    ensures Paced(policy, deadlineMs, clockMs, Retry(provider, policy, operation, deadlineMs, attempt, clockMs).calls)
  {
    if attempt > policy.maxAttempts || deadlineMs - clockMs <= 0 {
      RetryStopped(provider, policy, operation, deadlineMs, attempt, clockMs);
    } else {
      var answer := AnswerAt(operation, deadlineMs, attempt, clockMs);
      var result := answer.result;
      if result.Ok? {
        RetrySucceeded(provider, policy, operation, deadlineMs, attempt, clockMs);
      } else if attempt < policy.maxAttempts && deadlineMs - clockMs - answer.elapsedMs > 0 {
        var resumeAt := ResumeAt(policy, operation, deadlineMs, attempt, clockMs);
        RetryPaced(provider, policy, operation, deadlineMs, attempt + 1, resumeAt);
        PacedWhenContinued(provider, policy, operation, deadlineMs, attempt, clockMs);
      } else {
        RetryGaveUp(provider, policy, operation, deadlineMs, attempt, clockMs);
      }
    }
  }

  lemma PacedWhenContinued(provider: string, policy: RetryPolicy, operation: (nat, int) -> Attempt,
                           deadlineMs: int, attempt: nat, clockMs: int)
    requires attempt >= 1 && attempt < policy.maxAttempts && deadlineMs - clockMs > 0
    requires var answer := AnswerAt(operation, deadlineMs, attempt, clockMs);
      answer.result.Err? && deadlineMs - clockMs - answer.elapsedMs > 0
    requires var resumeAt := ResumeAt(policy, operation, deadlineMs, attempt, clockMs);
      Paced(policy, deadlineMs, resumeAt, Retry(provider, policy, operation, deadlineMs, attempt + 1, resumeAt).calls)
    ensures Paced(policy, deadlineMs, clockMs, Retry(provider, policy, operation, deadlineMs, attempt, clockMs).calls)
  {
    var answer := AnswerAt(operation, deadlineMs, attempt, clockMs);
    RetryContinued(provider, policy, operation, deadlineMs, attempt, clockMs);
    var resumeAt := ResumeAt(policy, operation, deadlineMs, attempt, clockMs);
    var call := Call(attempt, deadlineMs - clockMs, answer.result, answer.elapsedMs, DelayAfter(policy, operation, deadlineMs, attempt, clockMs));
    PacedAfterFailure(policy, deadlineMs, clockMs, resumeAt, call,
                      Retry(provider, policy, operation, deadlineMs, attempt + 1, resumeAt).calls);
  }

  lemma PacedAfterFailure(policy: RetryPolicy, deadlineMs: int, clockMs: int, resumeAt: int, call: Call, rest: seq<Call>)
    requires Paced(policy, deadlineMs, resumeAt, rest)
    requires call.remainingMs == deadlineMs - clockMs
    requires resumeAt == clockMs + call.elapsedMs + call.delayMs
    requires call.delayMs <= BackoffCap(policy.backoffMs, call.attempt)
    requires call.delayMs > 0 ==> call.remainingMs - call.elapsedMs - call.delayMs >= 50
    requires call.attempt < policy.maxAttempts
    ensures Paced(policy, deadlineMs, clockMs, [call] + rest)
  {
    ConsCalls(call, rest);
    var calls := [call] + rest;
    forall i | 0 <= i < |calls| - 1
      ensures calls[i + 1].remainingMs == calls[i].remainingMs - calls[i].elapsedMs - calls[i].delayMs
    {
      if i > 0 {
        assert calls[i] == rest[i - 1] && calls[i + 1] == rest[i];
      }
    }
  }

  /** Each call's outcome and duration are the operation's for that attempt and the budget it was given. */
  predicate Answered(operation: (nat, int) -> Attempt, calls: seq<Call>) {
    forall i :: 0 <= i < |calls| ==>
      calls[i].result == operation(calls[i].attempt, calls[i].remainingMs).result &&
      calls[i].elapsedMs == operation(calls[i].attempt, calls[i].remainingMs).elapsedMs
  }

  lemma {:induction false} RetryAnswered(provider: string, policy: RetryPolicy, operation: (nat, int) -> Attempt,
                                         deadlineMs: int, attempt: nat, clockMs: int)
    requires attempt >= 1
    decreases policy.maxAttempts + 1 - attempt
    ensures Answered(operation, Retry(provider, policy, operation, deadlineMs, attempt, clockMs).calls)
  {
    if attempt > policy.maxAttempts || deadlineMs - clockMs <= 0 {
      RetryStopped(provider, policy, operation, deadlineMs, attempt, clockMs);
    } else {
      var answer := AnswerAt(operation, deadlineMs, attempt, clockMs);
      var result := answer.result;
      if result.Ok? {
        RetrySucceeded(provider, policy, operation, deadlineMs, attempt, clockMs);
      } else if attempt < policy.maxAttempts && deadlineMs - clockMs - answer.elapsedMs > 0 {
        RetryContinued(provider, policy, operation, deadlineMs, attempt, clockMs);
        var resumeAt := ResumeAt(policy, operation, deadlineMs, attempt, clockMs);
        var call := Call(attempt, deadlineMs - clockMs, result, answer.elapsedMs, DelayAfter(policy, operation, deadlineMs, attempt, clockMs));
        RetryAnswered(provider, policy, operation, deadlineMs, attempt + 1, resumeAt);
        var rest := Retry(provider, policy, operation, deadlineMs, attempt + 1, resumeAt).calls;
        ConsCalls(call, rest);
        assert Answered(operation, [call] + rest) by {
          forall i | 0 <= i < |[call] + rest|
            ensures ([call] + rest)[i].result == operation(([call] + rest)[i].attempt, ([call] + rest)[i].remainingMs).result
            ensures ([call] + rest)[i].elapsedMs == operation(([call] + rest)[i].attempt, ([call] + rest)[i].remainingMs).elapsedMs
          {
            if i > 0 {
              assert ([call] + rest)[i] == rest[i - 1];
            }
          }
        }
      } else {
        RetryGaveUp(provider, policy, operation, deadlineMs, attempt, clockMs);
      }
    }
  }

  // ---- the cache ----

  /** `self::$inMemoryCache` when it holds both `rate` and `expires_at`. */
  datatype MemoryEntry = MemoryEntry(rate: string, expiresAt: int)

  /** The decoded cache file when it holds both `rate` and `fetched_at`. */
  datatype FileEntry = FileEntry(rate: RateInput, fetchedAt: int)

  /** The cache file as `is_file`, `file_get_contents` and `json_decode` see it. */
  datatype CacheFile = Absent | Unreadable | Undecodable | Stored(entry: FileEntry)

  datatype Cache = Cache(memory: Option<MemoryEntry>, file: CacheFile)

  /** What `readCache` returns (a rate, `null`, or the exception `normalizeRate` raises) and the cache after it. */
  datatype CacheRead = CacheRead(result: Result<Option<string>, string>, cache: Cache)

  predicate MemoryValid(cache: Cache, now: int) {
    cache.memory.Some? && cache.memory.value.expiresAt > now
  }

  predicate FileFresh(cache: Cache, ttl: nat, now: int) {
    cache.file.Stored? && cache.file.entry.fetchedAt + ttl > now
  }

  /**
   * `readCache` at second `now`: a memory entry is good while `expires_at`
   * is still ahead; otherwise a file entry is good while `fetched_at + ttl`
   * is still ahead, and its rate is validated and copied into memory.
   */
  function ReadCache(cache: Cache, ttl: nat, now: int): (r: CacheRead)
    ensures MemoryValid(cache, now) ==> r == CacheRead(Ok(Some(cache.memory.value.rate)), cache)
    ensures !MemoryValid(cache, now) && !FileFresh(cache, ttl, now) ==> r == CacheRead(Ok(None), cache)
    ensures !MemoryValid(cache, now) && FileFresh(cache, ttl, now) ==>
      r == FromFile(cache, ttl, NormalizeRate(cache.file.entry.rate))
  {
    if MemoryValid(cache, now) then
      CacheRead(Ok(Some(cache.memory.value.rate)), cache)
    else if !FileFresh(cache, ttl, now) then
      CacheRead(Ok(None), cache)
    else
      FromFile(cache, ttl, NormalizeRate(cache.file.entry.rate))
  }

  /** The file entry's rate after validation: copied into memory until `fetched_at + ttl`, or its error raised with nothing changed. */
  function FromFile(cache: Cache, ttl: nat, normalized: Result<string, string>): (r: CacheRead)
    requires cache.file.Stored?
    ensures normalized.Ok? ==>
      r == CacheRead(Ok(Some(normalized.value)), cache.(memory := Some(MemoryEntry(normalized.value, cache.file.entry.fetchedAt + ttl))))
    ensures normalized.Err? ==> r == CacheRead(Err(normalized.error), cache)
  {
    match normalized
    case Err(message) => CacheRead(Err(message), cache)
    case Ok(rate) => CacheRead(Ok(Some(rate)), cache.(memory := Some(MemoryEntry(rate, cache.file.entry.fetchedAt + ttl))))
  }

  /**
   * `writeCache` at second `now`: when the temporary file is written and
   * renamed into place (`stored`), both the file and memory hold the rate;
   * when any step fails, nothing changes.
   */
  function WriteCache(cache: Cache, rate: string, ttl: nat, now: int, stored: bool): (r: Cache)
    ensures stored ==> r.memory == Some(MemoryEntry(rate, now + ttl)) && r.file == Stored(FileEntry(Scalar(rate), now))
    ensures !stored ==> r == cache
  {
    if stored then Cache(Some(MemoryEntry(rate, now + ttl)), Stored(FileEntry(Scalar(rate), now))) else cache
  }

  /** A cache entry stops being served at its expiry second: memory at `expires_at`, the file at `fetched_at + ttl`. */
  lemma CacheExpiresAtBoundary(rate: string, file: FileEntry, ttl: nat)
    ensures ReadCache(Cache(Some(MemoryEntry(rate, file.fetchedAt + ttl)), Absent), ttl, file.fetchedAt + ttl)
         == CacheRead(Ok(None), Cache(Some(MemoryEntry(rate, file.fetchedAt + ttl)), Absent))
    ensures ReadCache(Cache(None, Stored(file)), ttl, file.fetchedAt + ttl) == CacheRead(Ok(None), Cache(None, Stored(file)))
  {
  }

  /**
   * What was written is read back unchanged for `ttl` seconds: from memory,
   * and equally from the file alone (a fresh process), because a
   * normalized rate passes validation unchanged.
   */
  lemma WrittenRateIsServed(cache: Cache, value: RateInput, ttl: nat, now: int, later: int)
    requires NormalizeRate(value).Ok?
    requires now <= later < now + ttl
    ensures var rate := NormalizeRate(value).value;
      var written := WriteCache(cache, rate, ttl, now, true);
      ReadCache(written, ttl, later) == CacheRead(Ok(Some(rate)), written) &&
      ReadCache(written.(memory := None), ttl, later).result == Ok(Some(rate))
  {
    NormalizeRateIdempotent(value);
  }

  // ---- getRubToUsdRate ----

  /** A provider's endpoint: its answer to attempt `k` given the total and the connect timeout (ms). */
  type Provider = (nat, int, int) -> Exchange

  /** The request `requestJson` sends with `remainingMs` of budget left, with the cURL timeouts that budget allows. */
  function Request(provider: Provider, attempt: nat, remainingMs: int): Exchange {
    provider(attempt, TotalTimeout(remainingMs), ConnectTimeout(remainingMs))
  }

  /** The first closure `getRubToUsdRate` passes to `withRetry`: open.er-api's `rates.USD`, validated. */
  function PrimaryOperation(provider: Provider): (nat, int) -> Attempt {
    (attempt: nat, remainingMs: int) =>
      var answer := Request(provider, attempt, remainingMs);
      Attempt(PrimaryRate(answer.response), answer.elapsedMs)
  }

  /** The second closure: CBR's roubles per dollar, validated and inverted. */
  function FallbackOperation(provider: Provider): (nat, int) -> Attempt {
    (attempt: nat, remainingMs: int) =>
      var answer := Request(provider, attempt, remainingMs);
      Attempt(SecondaryRate(answer.response), answer.elapsedMs)
  }

  /** `WEBHOOK_PROCESSING_BUDGET_MS`, the retry settings and `CURRENCY_CACHE_TTL_SEC`. */
  datatype Settings = Settings(budgetMs: nat, policy: RetryPolicy, ttlSec: nat)

  /** The rate or the exception message, the cache afterwards, and the two providers' runs. */
  datatype Lookup = Lookup(result: Result<string, string>, cache: Cache, primary: RetryRun, secondary: RetryRun)

  function NotRun(clockMs: int): RetryRun {
    RetryRun(None, [], false, clockMs, [])
  }

  function Texts(errors: seq<ErrorEntry>): (r: seq<string>)
    ensures |r| == |errors|
    ensures forall i :: 0 <= i < |errors| ==> r[i] == EntryText(errors[i])
  {
    seq(|errors|, i requires 0 <= i < |errors| => EntryText(errors[i]))
  }

  /** The message of the `RuntimeException` raised when both providers fail. */
  function FailureMessage(errors: seq<ErrorEntry>): string {
    "Failed to fetch RUB->USD exchange rate. " + Join(Texts(errors), " | ")
  }

  /**
   * `getRubToUsdRate`: the cache first; otherwise the first closure, then
   * (only if that gave nothing) the second with the same deadline and error
   * list; a rate is written to the cache, no rate raises the aggregated
   * failure. The service passes `PrimaryOperation` and `FallbackOperation`
   * of its two endpoints as `primary` and `fallback`. `nowSec`/`writeSec`
   * are `time()` at the cache read and write, `clockMs` is the millisecond
   * clock when the budget starts.
   */
  function GetRubToUsdRate(cache: Cache, settings: Settings, nowSec: int, writeSec: int, clockMs: int, stored: bool,
                           primary: (nat, int) -> Attempt, fallback: (nat, int) -> Attempt): (r: Lookup)
    ensures ReadCache(cache, settings.ttlSec, nowSec).result != Ok(None) ==>
      r.primary.calls == [] && r.secondary.calls == [] &&
      r.cache == ReadCache(cache, settings.ttlSec, nowSec).cache &&
      match ReadCache(cache, settings.ttlSec, nowSec).result
      case Ok(hit) => r.result == Ok(hit.value)
      case Err(message) => r.result == Err(message)
    ensures r.primary.rate.Some? ==> r.secondary.calls == [] && r.result == Ok(r.primary.rate.value)
    ensures r.secondary.rate.Some? ==> r.result == Ok(r.secondary.rate.value)
    ensures ReadCache(cache, settings.ttlSec, nowSec).result == Ok(None) && r.primary.rate.None? && r.secondary.rate.None?
      ==> r.result == Err(FailureMessage(r.primary.errors + r.secondary.errors)) && r.cache == cache
    ensures ReadCache(cache, settings.ttlSec, nowSec).result == Ok(None) && r.result.Ok?
      ==> r.cache == WriteCache(cache, r.result.value, settings.ttlSec, writeSec, stored)
  {
    var read := ReadCache(cache, settings.ttlSec, nowSec);
    match read.result
    case Err(message) => Lookup(Err(message), read.cache, NotRun(clockMs), NotRun(clockMs))
    case Ok(Some(rate)) => Lookup(Ok(rate), read.cache, NotRun(clockMs), NotRun(clockMs))
    case Ok(None) =>
      var runs := Upstream(settings, clockMs, primary, fallback);
      var rate := if runs.primary.rate.Some? then runs.primary.rate else runs.secondary.rate;
      match rate
      case None => Lookup(Err(FailureMessage(runs.primary.errors + runs.secondary.errors)), cache, runs.primary, runs.secondary)
      case Some(value) => Lookup(Ok(value), WriteCache(cache, value, settings.ttlSec, writeSec, stored), runs.primary, runs.secondary)
  }

  /** The two `withRetry` loops of a lookup that missed the cache. */
  datatype Runs = Runs(primary: RetryRun, secondary: RetryRun)

  /**
   * The upstream part of `getRubToUsdRate`: the first closure from the
   * start of the budget, then the second one only if the first gave
   * nothing, from wherever the first loop left the clock and against the
   * same deadline.
   */
  function Upstream(settings: Settings, clockMs: int, primary: (nat, int) -> Attempt, fallback: (nat, int) -> Attempt): Runs {
    var deadlineMs := clockMs + settings.budgetMs;
    var first := Retry("open.er-api", settings.policy, primary, deadlineMs, 1, clockMs);
    var second := if first.rate.Some? then NotRun(first.clockMs)
                  else Retry("cbr", settings.policy, fallback, deadlineMs, 1, first.clockMs);
    Runs(first, second)
  }

  /** Whether the lookup went upstream (the cache had nothing to offer). */
  predicate CacheMissed(cache: Cache, settings: Settings, nowSec: int) {
    ReadCache(cache, settings.ttlSec, nowSec).result == Ok(None)
  }

  /** On a cache miss the runs of the lookup are the upstream loops; on a hit nothing is requested. */
  lemma LookupRuns(cache: Cache, settings: Settings, nowSec: int, writeSec: int, clockMs: int, stored: bool,
                   primary: (nat, int) -> Attempt, fallback: (nat, int) -> Attempt)
    ensures var r := GetRubToUsdRate(cache, settings, nowSec, writeSec, clockMs, stored, primary, fallback);
      var runs := Upstream(settings, clockMs, primary, fallback);
      if CacheMissed(cache, settings, nowSec) then r.primary == runs.primary && r.secondary == runs.secondary
      else r.primary.calls == [] && r.secondary.calls == []
  {
  }

  /**
   * At most `maxAttempts` requests go to each provider, each one only while
   * budget is left, and both loops are paced against one deadline: the
   * second loop's first request is given what the first loop left over.
   */
  lemma UpstreamPaced(settings: Settings, clockMs: int, primary: (nat, int) -> Attempt, fallback: (nat, int) -> Attempt)
    ensures var runs := Upstream(settings, clockMs, primary, fallback);
      |runs.primary.calls| <= settings.policy.maxAttempts && |runs.secondary.calls| <= settings.policy.maxAttempts &&
      (forall i :: 0 <= i < |runs.primary.calls| ==> runs.primary.calls[i].remainingMs > 0) &&
      (forall i :: 0 <= i < |runs.secondary.calls| ==> runs.secondary.calls[i].remainingMs > 0)
    ensures var runs := Upstream(settings, clockMs, primary, fallback);
      var deadlineMs := clockMs + settings.budgetMs;
      Paced(settings.policy, deadlineMs, clockMs, runs.primary.calls) &&
      Paced(settings.policy, deadlineMs, runs.primary.clockMs, runs.secondary.calls)
  {
    var runs := Upstream(settings, clockMs, primary, fallback);
    var deadlineMs := clockMs + settings.budgetMs;
    var first := Retry("open.er-api", settings.policy, primary, deadlineMs, 1, clockMs);
    assert runs.primary == first;
    RetryPaced("open.er-api", settings.policy, primary, deadlineMs, 1, clockMs);
    if first.rate.Some? {
      assert runs.secondary == NotRun(first.clockMs);
    } else {
      var second := Retry("cbr", settings.policy, fallback, deadlineMs, 1, first.clockMs);
      assert runs.secondary == second;
      RetryPaced("cbr", settings.policy, fallback, deadlineMs, 1, first.clockMs);
    }
  }

  /** cURL honours `CURLOPT_TIMEOUT_MS`: every answer of the endpoint arrives within the total timeout it was given. */
  ghost predicate HonoursTimeout(provider: Provider) {
    forall attempt: nat, totalMs: int, connectMs: int :: provider(attempt, totalMs, connectMs).elapsedMs <= totalMs
  }

  /**
   * With endpoints that honour their cURL timeouts, a lookup that goes
   * upstream returns at most 200 ms after the end of its budget, however
   * both loops fare.
   */
  lemma UpstreamOvershootBounded(settings: Settings, clockMs: int, primary: Provider, fallback: Provider)
    requires HonoursTimeout(primary) && HonoursTimeout(fallback)
    ensures var runs := Upstream(settings, clockMs, PrimaryOperation(primary), FallbackOperation(fallback));
      clockMs <= runs.primary.clockMs <= runs.secondary.clockMs <= clockMs + settings.budgetMs + 200
  {
    var first := PrimaryOperation(primary);
    var second := FallbackOperation(fallback);
    var deadlineMs := clockMs + settings.budgetMs;
    assert WithinTimeout(first) by {
      forall attempt: nat, remainingMs: int | remainingMs > 0
        ensures first(attempt, remainingMs).elapsedMs <= TotalTimeout(remainingMs)
      {
        assert first(attempt, remainingMs).elapsedMs == Request(primary, attempt, remainingMs).elapsedMs;
      }
    }
    assert WithinTimeout(second) by {
      forall attempt: nat, remainingMs: int | remainingMs > 0
        ensures second(attempt, remainingMs).elapsedMs <= TotalTimeout(remainingMs)
      {
        assert second(attempt, remainingMs).elapsedMs == Request(fallback, attempt, remainingMs).elapsedMs;
      }
    }
    var run := Retry("open.er-api", settings.policy, first, deadlineMs, 1, clockMs);
    RetryOvershootBounded("open.er-api", settings.policy, first, deadlineMs, 1, clockMs);
    if run.rate.None? {
      RetryOvershootBounded("cbr", settings.policy, second, deadlineMs, 1, run.clockMs);
    }
  }

  /** The second loop runs only when the first gave no rate, and a rate it found is what its closure returned on its last call. */
  lemma FallbackIsLastAnswer(settings: Settings, clockMs: int, primary: (nat, int) -> Attempt, fallback: (nat, int) -> Attempt)
    ensures var runs := Upstream(settings, clockMs, primary, fallback);
      runs.primary.rate.Some? ==> runs.secondary.calls == []
    ensures var runs := Upstream(settings, clockMs, primary, fallback);
      runs.secondary.rate.Some? ==>
        |runs.secondary.calls| > 0 &&
        var last := runs.secondary.calls[|runs.secondary.calls| - 1];
        fallback(last.attempt, last.remainingMs).result == Ok(runs.secondary.rate.value)
  {
    var runs := Upstream(settings, clockMs, primary, fallback);
    var deadlineMs := clockMs + settings.budgetMs;
    if runs.primary.rate.None? {
      assert runs.secondary == Retry("cbr", settings.policy, fallback, deadlineMs, 1, runs.primary.clockMs);
      RetryFirstSuccess("cbr", settings.policy, fallback, deadlineMs, 1, runs.primary.clockMs);
      RetryAnswered("cbr", settings.policy, fallback, deadlineMs, 1, runs.primary.clockMs);
    }
  }

  /**
   * What CBR's closure returns is the inverse of the roubles-per-dollar
   * value in the provider's answer, cut to 8 digits; so a rate that came
   * from CBR is that inverse for the answer to the last request.
   */
  lemma FallbackRateIsInverse(provider: Provider, attempt: nat, remainingMs: int)
    ensures var result := FallbackOperation(provider)(attempt, remainingMs).result;
      var answer := Request(provider, attempt, remainingMs);
      result.Ok? ==>
        var rubPerUsd := Read(NormalizeRate(answer.response.body.rate).value);
        rubPerUsd.mantissa > 0 && result.value == Format(Div(Fixed(1, 0), rubPerUsd, 8))
  {
  }

  /**
   * The shared `$errors` list (which the exception joins when both providers
   * fail) holds every failed request of open.er-api, then its budget entry if
   * any, then the same for CBR.
   */
  lemma FailureListsEveryError(settings: Settings, clockMs: int, primary: (nat, int) -> Attempt, fallback: (nat, int) -> Attempt)
    ensures ListsEveryError(Upstream(settings, clockMs, primary, fallback), settings.policy.maxAttempts)
  {
    var max := settings.policy.maxAttempts;
    var deadlineMs := clockMs + settings.budgetMs;
    var first := Retry("open.er-api", settings.policy, primary, deadlineMs, 1, clockMs);
    RetryErrors("open.er-api", settings.policy, primary, deadlineMs, 1, clockMs);
    var second := if first.rate.Some? then NotRun(first.clockMs)
                  else Retry("cbr", settings.policy, fallback, deadlineMs, 1, first.clockMs);
    if first.rate.None? {
      RetryErrors("cbr", settings.policy, fallback, deadlineMs, 1, first.clockMs);
    }
    JoinLogs(first, second, max);
  }

  /** Both runs' error entries, joined: each run's failed calls in order, each followed by its budget entry if it had one. */
  predicate ListsEveryError(r: Runs, max: nat) {
    r.primary.errors + r.secondary.errors == (
      FailureLog("open.er-api", max, r.primary.calls)
      + (if r.primary.exhausted then [BudgetEntry("open.er-api", 1 + |r.primary.calls|)] else [])
      + FailureLog("cbr", max, r.secondary.calls)
      + (if r.secondary.exhausted then [BudgetEntry("cbr", 1 + |r.secondary.calls|)] else []))
  }

  lemma JoinLogs(first: RetryRun, second: RetryRun, max: nat)
    requires LogsFailures("open.er-api", max, 1, first) && LogsFailures("cbr", max, 1, second)
    ensures ListsEveryError(Runs(first, second), max)
  {
    var a := FailureLog("open.er-api", max, first.calls);
    var b := if first.exhausted then [BudgetEntry("open.er-api", 1 + |first.calls|)] else [];
    var c := FailureLog("cbr", max, second.calls);
    var d := if second.exhausted then [BudgetEntry("cbr", 1 + |second.calls|)] else [];
    assert (a + b) + (c + d) == a + b + c + d;
  }

  /** A fetched rate that was stored is served from the cache for the next `ttl` seconds. */
  lemma FetchedRateIsCached(cache: Cache, settings: Settings, nowSec: int, writeSec: int, clockMs: int,
                            primary: (nat, int) -> Attempt, fallback: (nat, int) -> Attempt, later: int)
    requires CacheMissed(cache, settings, nowSec)
    requires GetRubToUsdRate(cache, settings, nowSec, writeSec, clockMs, true, primary, fallback).result.Ok?
    requires writeSec <= later < writeSec + settings.ttlSec
    ensures var r := GetRubToUsdRate(cache, settings, nowSec, writeSec, clockMs, true, primary, fallback);
      ReadCache(r.cache, settings.ttlSec, later) == CacheRead(Ok(Some(r.result.value)), r.cache)
  {
  }
}
