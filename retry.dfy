/** `withRetry`, which both src/lib/github-loader.ts and src/lib/github.ts define
    with the same attempt loop and different throttling tests. The wrapped
    operation is a function from the attempt index (0 for the first call) to what
    that call returned or threw; waits are recorded, in milliseconds, instead of
    being slept. */
module Retry {
  import opened Common
  import opened Strings

  /** The throttling test of src/lib/github-loader.ts. */
  predicate IsThrottleLoader(message: string)
  {
    Contains(message, "429") || Contains(message, "quota")
  }

  /** The throttling test of src/lib/github.ts, which also accepts
      "Too Many Requests". */
  predicate IsThrottleCommits(message: string)
  {
    Contains(message, "429") || Contains(message, "quota") || Contains(message, "Too Many Requests")
  }

  const DefaultRetryDelayMs: real := 60000.0

  predicate IsDigitOrDot(c: char)
  {
    IsDigit(c) || c == '.'
  }

  /** The end of the run of `[\d.]` characters that starts at `from`. */
  function RunEnd(s: string, from: nat): (e: nat)
    requires from <= |s|
    decreases |s| - from
    ensures from <= e <= |s|
    ensures forall k :: from <= k < e ==> IsDigitOrDot(s[k])
    ensures e < |s| ==> !IsDigitOrDot(s[e])
  {
    if from < |s| && IsDigitOrDot(s[from]) then RunEnd(s, from + 1) else from
  }

  const RetryIn: string := "retry in "

  /** The capture of `/retry in ([\d.]+)s/` when a match starts at `p`. The
      greedy group takes the whole run of digits and dots, and a shorter run
      would be followed by a digit or a dot rather than by `s`, so the match
      exists exactly when the whole run is non-empty and followed by `s`. */
  function CaptureAt(s: string, p: nat): Option<string>
  {
    if !OccursAt(s, RetryIn, p) then None
    else
      var q := p + |RetryIn|;
      var e := RunEnd(s, q);
      if q < e < |s| && s[e] == 's' then Some(s[q..e]) else None
  }

  /** The leftmost match at or after `from`. */
  function FirstCapture(s: string, from: nat): (r: Option<string>)
    decreases |s| - from
    ensures r.Some? ==> exists p :: from <= p && CaptureAt(s, p) == r && forall q :: from <= q < p ==> CaptureAt(s, q).None?
    ensures r.None? ==> forall p :: from <= p ==> CaptureAt(s, p).None?
  {
    if from >= |s| then
      assert forall p :: from <= p ==> !OccursAt(s, RetryIn, p);
      None
    else if CaptureAt(s, from).Some? then CaptureAt(s, from)
    else FirstCapture(s, from + 1)
  }

  /** The length of the longest prefix of digits. */
  function DigitPrefix(s: string): (n: nat)
    ensures n <= |s|
    ensures forall k :: 0 <= k < n ==> IsDigit(s[k])
    ensures n < |s| ==> !IsDigit(s[n])
  {
    if s != [] && IsDigit(s[0]) then 1 + DigitPrefix(s[1..]) else 0
  }

  function Pow10(n: nat): (r: nat)
    ensures r >= 1
  {
    if n == 0 then 1 else 10 * Pow10(n - 1)
  }

  /** The number written `whole.fraction` in decimal. */
  function DecimalValue(whole: string, fraction: string): real
    requires AllDigits(whole) && AllDigits(fraction)
  {
    DigitsValue(whole) as real + DigitsValue(fraction) as real / Pow10(|fraction|) as real
  }

  /** `parseFloat` of a string of digits and dots: the longest prefix of the form
      digits, optionally a dot and more digits, holding at least one digit; None
      stands for NaN. */
  function ParseFloat(s: string): (r: Option<real>)
    ensures r.Some? ==> r.value >= 0.0
    ensures (forall k :: 0 <= k < |s| ==> IsDigit(s[k])) && s != [] ==> r == Some(DigitsValue(s) as real)
  {
    var i := DigitPrefix(s);
    var whole := DigitsValue(s[..i]);
    if i < |s| && s[i] == '.' then
      var rest := s[i + 1..];
      var f := DigitPrefix(rest);
      if i == 0 && f == 0 then None
      else Some(DecimalValue(s[..i], rest[..f]))
    else if i == 0 then None
    else
      assert i == |s| ==> s[..i] == s;
      Some(whole as real)
  }

  /** The length of the digit prefix is where the digits stop. */
  lemma {:induction false} DigitPrefixIs(s: string, n: nat)
    requires n <= |s| && forall k :: 0 <= k < n ==> IsDigit(s[k])
    requires n == |s| || !IsDigit(s[n])
    ensures DigitPrefix(s) == n
  {
    if n > 0 {
      DigitPrefixIs(s[1..], n - 1);
    }
  }

  /** `parseFloat` of digits, a dot and digits, followed by anything that is
      not a digit, is the decimal value they write. */
  lemma ParseFloatFraction(a: string, b: string, t: string)
    requires AllDigits(a) && AllDigits(b) && a + b != []
    requires t == [] || !IsDigit(t[0])
    ensures ParseFloat(a + "." + b + t) == Some(DecimalValue(a, b))
  {
    var s := a + "." + b + t;
    var rest := s[|a| + 1..];
    DigitPrefixIs(s, |a|);
    assert s[..|a|] == a;
    assert rest == b + t;
    DigitPrefixIs(rest, |b|);
    assert rest[..|b|] == b;
    ParseFloatPoint(s, |a|, |b|);
  }

  /** `parseFloat` when the digit prefix of length `i` is followed by a dot
      and `f` more digits, not both zero. */
  lemma ParseFloatPoint(s: string, i: nat, f: nat)
    requires i < |s| && DigitPrefix(s) == i && s[i] == '.'
    requires DigitPrefix(s[i + 1..]) == f && (i > 0 || f > 0)
    ensures ParseFloat(s) == Some(DecimalValue(s[..i], s[i + 1..][..f]))
  {
  }

  /** `parseFloat` of digits followed by anything that is neither a digit nor
      a dot is their integer value. */
  lemma ParseFloatWhole(a: string, t: string)
    requires AllDigits(a) && a != []
    requires t == [] || (!IsDigit(t[0]) && t[0] != '.')
    ensures ParseFloat(a + t) == Some(DigitsValue(a) as real)
  {
    var s := a + t;
    DigitPrefixIs(s, |a|);
    assert s[..|a|] == a;
  }

  /** The delay `withRetry` sleeps after a throttling error: the suggested
      `retry in Ns` times 1000, or 60000 ms when there is none. A capture that
      `parseFloat` reads as NaN (only dots) makes `setTimeout` wait 1 ms. */
  function RetryDelayMs(message: string): (d: real)
    ensures d >= 0.0
  {
    match FirstCapture(message, 0)
    case None => DefaultRetryDelayMs
    case Some(c) =>
      match ParseFloat(c)
      case None => 1.0
      case Some(v) => v * 1000.0
  }

  /** A suggestion `retry in <whole>[.<fraction>]s` whose `retry in ` is the
      first one in the message gets exactly that many seconds, in
      milliseconds. `point` is "." or empty, and the fraction is empty when
      there is no dot. */
  lemma SuggestedDelayUsed(prefix: string, whole: string, point: string, fraction: string, rest: string)
    requires IndexOf(prefix + RetryIn, RetryIn) == |prefix|
    requires AllDigits(whole) && AllDigits(fraction) && whole + fraction != []
    requires point == "." || (point == "" && fraction == "")
    ensures RetryDelayMs(prefix + RetryIn + (whole + point + fraction) + "s" + rest) == DecimalValue(whole, fraction) * 1000.0
  {
    var c := whole + point + fraction;
    SuggestionCaptured(prefix, c, rest);
    if point == "." {
      ParseFloatFraction(whole, fraction, "");
      assert c == whole + "." + fraction + "";
    } else {
      ParseFloatWhole(whole, "");
      assert c == whole + "";
      WholeDecimalValue(whole);
    }
    CapturedDelay(prefix + RetryIn + c + "s" + rest, c);
  }

  /** A value without fraction digits is the value of its whole part. */
  lemma WholeDecimalValue(whole: string)
    requires AllDigits(whole)
    ensures DecimalValue(whole, "") == DigitsValue(whole) as real
  {
    assert DigitsValue("") == 0 && Pow10(0) == 1;
  }

  /** The delay of a message whose capture `parseFloat` reads as a number. */
  lemma CapturedDelay(m: string, c: string)
    requires FirstCapture(m, 0) == Some(c) && ParseFloat(c).Some?
    ensures RetryDelayMs(m) == ParseFloat(c).value * 1000.0
  {
  }

  /** A run of digits and dots after the first `retry in `, closed by `s`, is
      the capture `match` returns. */
  lemma SuggestionCaptured(prefix: string, c: string, rest: string)
    requires IndexOf(prefix + RetryIn, RetryIn) == |prefix|
    requires c != [] && forall k :: 0 <= k < |c| ==> IsDigitOrDot(c[k])
    ensures FirstCapture(prefix + RetryIn + c + "s" + rest, 0) == Some(c)
  {
    var m := prefix + RetryIn + c + "s" + rest;
    var p := |prefix|;
    var q := p + |RetryIn|;
    var e := q + |c|;
    assert m[p..q] == RetryIn;
    assert m[q..e] == c;
    assert m[e] == 's';
    RunEndStops(m, q, e);
    assert CaptureAt(m, p) == Some(c);
    IndexOfSpec(prefix + RetryIn, RetryIn);
    forall p' | 0 <= p' < p
      ensures CaptureAt(m, p').None?
    {
      if OccursAt(m, RetryIn, p') {
        assert m == (prefix + RetryIn) + (c + "s" + rest);
        OccursInPrefix(prefix + RetryIn, c + "s" + rest, RetryIn, p');
      }
    }
    FirstCaptureAt(m, 0, p);
  }

  /** An occurrence that ends inside `s` is an occurrence in `s`. */
  lemma OccursInPrefix(s: string, t: string, pat: string, p: nat)
    requires OccursAt(s + t, pat, p) && p + |pat| <= |s|
    ensures OccursAt(s, pat, p)
  {
    assert (s + t)[p..p + |pat|] == s[p..p + |pat|];
  }

  /** The first position holding a capture is the one `match` reports. */
  lemma {:induction false} FirstCaptureAt(s: string, from: nat, q: nat)
    requires from <= q && CaptureAt(s, q).Some?
    requires forall p :: from <= p < q ==> CaptureAt(s, p).None?
    ensures FirstCapture(s, from) == CaptureAt(s, q)
    decreases q - from
  {
    if from < q {
      FirstCaptureAt(s, from + 1, q);
    }
  }

  lemma {:induction false} RunEndStops(s: string, from: nat, stop: nat)
    requires from <= stop < |s|
    requires forall k :: from <= k < stop ==> IsDigitOrDot(s[k])
    requires !IsDigitOrDot(s[stop])
    ensures RunEnd(s, from) == stop
    decreases stop - from
  {
    if from < stop {
      RunEndStops(s, from + 1, stop);
    }
  }

  lemma {:induction false} NoMatchFrom(s: string, from: nat)
    requires forall p :: !OccursAt(s, RetryIn, p)
    ensures FirstCapture(s, from) == None
    decreases |s| - from
  {
    if from < |s| {
      NoMatchFrom(s, from + 1);
    }
  }

  /** A message without any `retry in ` waits the 60 s default. */
  lemma NoSuggestionWaitsDefault(message: string)
    requires !Contains(message, RetryIn)
    ensures RetryDelayMs(message) == DefaultRetryDelayMs
  {
    ContainsSpec(message, RetryIn);
    NoMatchFrom(message, 0);
  }

  /** The record of one `withRetry` run: what it returned (None for `null`), how
      many times it called the operation, and the waits it slept between calls. */
  datatype Trace<T> = Trace(result: Option<T>, calls: nat, waits: seq<real>)

  /** The loop of `withRetry` from attempt number `attempt` (1-based), with the
      waits slept so far; `delay` is the wait after a throttling error. */
  function RunFrom<T>(op: nat -> Result<T>, maxRetries: int, isThrottle: string -> bool,
                      delay: string -> real, attempt: nat, waits: seq<real>): Trace<T>
    requires attempt >= 1
    decreases maxRetries - attempt
  {
    if attempt > maxRetries then Trace(None, attempt - 1, waits)
    else
      match op(attempt - 1)
      case Ok(v) => Trace(Some(v), attempt, waits)
      case Err(m) =>
        if !isThrottle(m) then Trace(None, attempt, waits)
        else if attempt == maxRetries then Trace(None, attempt, waits)
        else RunFrom(op, maxRetries, isThrottle, delay, attempt + 1, waits + [delay(m)])
  }

  /** What `withRetry(fn, maxRetries)` does with the given operation. */
  function Run<T>(op: nat -> Result<T>, maxRetries: int, isThrottle: string -> bool): Trace<T>
  {
    RunFrom(op, maxRetries, isThrottle, RetryDelayMs, 1, [])
  }

  /** The call with index `j` threw an error the classifier calls throttling. */
  predicate Throttled<T>(o: Result<T>, isThrottle: string -> bool)
  {
    o.Err? && isThrottle(o.message)
  }

  ghost predicate ThrottledBefore<T>(op: nat -> Result<T>, isThrottle: string -> bool, k: nat)
  {
    forall j :: 0 <= j < k ==> Throttled(op(j), isThrottle)
  }

  function DelayOf<T>(o: Result<T>, delay: string -> real): real
  {
    if o.Err? then delay(o.message) else 0.0
  }

  /** The waits that follow the first `n` calls. */
  function Delays<T>(op: nat -> Result<T>, delay: string -> real, n: nat): (d: seq<real>)
    ensures |d| == n
    ensures forall j :: 0 <= j < n ==> d[j] == DelayOf(op(j), delay)
  {
    seq(n, j requires 0 <= j < n => DelayOf(op(j), delay))
  }

  /** The `withRetry` attempt loop. */
  method WithRetry<T>(op: nat -> Result<T>, maxRetries: int, isThrottle: string -> bool)
    returns (result: Option<T>, calls: nat, waits: seq<real>)
    ensures Trace(result, calls, waits) == Run(op, maxRetries, isThrottle)
  {
    var attempt := 1;
    waits := [];
    while attempt <= maxRetries
      invariant 1 <= attempt
      invariant RunFrom(op, maxRetries, isThrottle, RetryDelayMs, attempt, waits) == Run(op, maxRetries, isThrottle)
      decreases maxRetries - attempt
    {
      match op(attempt - 1)
      case Ok(v) =>
        return Some(v), attempt, waits;
      case Err(m) =>
        if isThrottle(m) {
          var retryDelay := RetryDelayMs(m);
          if attempt == maxRetries {
            return None, attempt, waits;
          }
          waits := waits + [retryDelay];
        } else {
          return None, attempt, waits;
        }
      attempt := attempt + 1;
    }
    return None, attempt - 1, waits;
  }

  lemma {:induction false} RunFromStopsAtFirstNonThrottled<T>(
    op: nat -> Result<T>, maxRetries: int, isThrottle: string -> bool, delay: string -> real, attempt: nat, k: nat)
    requires 1 <= attempt <= k + 1
    requires k < maxRetries
    requires ThrottledBefore(op, isThrottle, k)
    requires !Throttled(op(k), isThrottle)
    ensures RunFrom(op, maxRetries, isThrottle, delay, attempt, Delays(op, delay, attempt - 1))
         == Trace(if op(k).Ok? then Some(op(k).value) else None, k + 1, Delays(op, delay, k))
    decreases k + 1 - attempt
  {
    if attempt <= k {
      assert Throttled(op(attempt - 1), isThrottle);
      assert Delays(op, delay, attempt - 1) + [delay(op(attempt - 1).message)] == Delays(op, delay, attempt);
      RunFromStopsAtFirstNonThrottled(op, maxRetries, isThrottle, delay, attempt + 1, k);
    }
  }

  lemma {:induction false} RunFromAllThrottled<T>(
    op: nat -> Result<T>, maxRetries: int, isThrottle: string -> bool, delay: string -> real, attempt: nat)
    requires 1 <= attempt <= maxRetries
    requires ThrottledBefore(op, isThrottle, maxRetries)
    ensures RunFrom(op, maxRetries, isThrottle, delay, attempt, Delays(op, delay, attempt - 1))
         == Trace(None, maxRetries, Delays(op, delay, maxRetries - 1))
    decreases maxRetries - attempt
  {
    assert Throttled(op(attempt - 1), isThrottle);
    if attempt < maxRetries {
      assert Delays(op, delay, attempt - 1) + [delay(op(attempt - 1).message)] == Delays(op, delay, attempt);
      RunFromAllThrottled(op, maxRetries, isThrottle, delay, attempt + 1);
    }
  }

  /** Success or a non-throttling error at call `k`, after `k` throttled calls and
      before the attempts run out: the value (or null) after `k + 1` calls and
      `k` waits, each the delay its error asked for. */
  lemma StopsAtFirstNonThrottled<T>(op: nat -> Result<T>, maxRetries: int, isThrottle: string -> bool, k: nat)
    requires k < maxRetries
    requires ThrottledBefore(op, isThrottle, k)
    requires !Throttled(op(k), isThrottle)
    ensures Run(op, maxRetries, isThrottle)
         == Trace(if op(k).Ok? then Some(op(k).value) else None, k + 1, Delays(op, RetryDelayMs, k))
  {
    assert Delays(op, RetryDelayMs, 0) == [];
    RunFromStopsAtFirstNonThrottled(op, maxRetries, isThrottle, RetryDelayMs, 1, k);
  }

  /** Throttled on every attempt: null after exactly `maxRetries` calls, with a
      wait between consecutive calls and none after the last. */
  lemma AllThrottledGivesNull<T>(op: nat -> Result<T>, maxRetries: int, isThrottle: string -> bool)
    requires maxRetries >= 1
    requires ThrottledBefore(op, isThrottle, maxRetries)
    ensures Run(op, maxRetries, isThrottle) == Trace(None, maxRetries, Delays(op, RetryDelayMs, maxRetries - 1))
  {
    assert Delays(op, RetryDelayMs, 0) == [];
    RunFromAllThrottled(op, maxRetries, isThrottle, RetryDelayMs, 1);
  }

  lemma {:induction false} RunFromBounds<T>(op: nat -> Result<T>, maxRetries: int, isThrottle: string -> bool,
                                          delay: string -> real, attempt: nat, waits: seq<real>)
    requires 1 <= attempt
    ensures var t := RunFrom(op, maxRetries, isThrottle, delay, attempt, waits);
      && (attempt > maxRetries ==> t == Trace(None, attempt - 1, waits))
      && (attempt <= maxRetries ==>
            && attempt <= t.calls <= maxRetries
            && |t.waits| == |waits| + t.calls - attempt
            && (t.result.Some? ==> op(t.calls - 1) == Ok(t.result.value)))
    decreases maxRetries - attempt
  {
    if attempt <= maxRetries && op(attempt - 1).Err? && isThrottle(op(attempt - 1).message) && attempt < maxRetries {
      RunFromBounds(op, maxRetries, isThrottle, delay, attempt + 1, waits + [delay(op(attempt - 1).message)]);
    }
  }

  /** No attempt at all when `maxRetries < 1`; otherwise at least one and at most
      `maxRetries` calls with one wait fewer than calls, and a value only when
      the last call returned it. It never throws: every outcome is a Trace. */
  lemma RunBounds<T>(op: nat -> Result<T>, maxRetries: int, isThrottle: string -> bool)
    ensures var t := Run(op, maxRetries, isThrottle);
      && (maxRetries < 1 ==> t == Trace(None, 0, []))
      && (maxRetries >= 1 ==> 1 <= t.calls <= maxRetries && |t.waits| == t.calls - 1)
      && (t.result.Some? ==> op(t.calls - 1) == Ok(t.result.value))
  {
    RunFromBounds(op, maxRetries, isThrottle, RetryDelayMs, 1, []);
  }

  /** An operation that never throws is called once and its value returned. */
  lemma NeverThrowingCalledOnce<T>(op: nat -> Result<T>, maxRetries: int, isThrottle: string -> bool)
    requires maxRetries >= 1 && op(0).Ok?
    ensures Run(op, maxRetries, isThrottle) == Trace(Some(op(0).value), 1, [])
  {
    StopsAtFirstNonThrottled(op, maxRetries, isThrottle, 0);
  }

  /** Every error the loader's copy treats as throttling, the commit copy does too. */
  lemma CommitClassifierWider(message: string)
    ensures IsThrottleLoader(message) ==> IsThrottleCommits(message)
  {
  }

  lemma TooManyRequestsNotLoaderThrottle()
    ensures !IsThrottleLoader("Too Many Requests")
  {
    AbsentPairNotContained("Too Many Requests", "429", 0);
    AbsentPairNotContained("Too Many Requests", "quota", 2);
  }

  lemma TooManyRequestsDefaultDelay()
    ensures RetryDelayMs("Too Many Requests") == DefaultRetryDelayMs
  {
    AbsentPairNotContained("Too Many Requests", RetryIn, 0);
    NoSuggestionWaitsDefault("Too Many Requests");
  }

  lemma TooManyRequestsCommitThrottle()
    ensures IsThrottleCommits("Too Many Requests")
  {
    assert OccursAt("Too Many Requests", "Too Many Requests", 0);
    ContainsSpec("Too Many Requests", "Too Many Requests");
  }

  /** An error reading only "Too Many Requests" ends the loader's copy at once:
      it returns null after one call. */
  lemma TooManyRequestsStopsLoader<T>(op: nat -> Result<T>)
    requires op(0) == Err("Too Many Requests")
    ensures Run(op, 3, IsThrottleLoader) == Trace(None, 1, [])
  {
    TooManyRequestsNotLoaderThrottle();
    StopsAtFirstNonThrottled(op, 3, IsThrottleLoader, 0);
  }

  /** The same error makes the commit copy wait the default 60 s and retry. */
  lemma TooManyRequestsRetriesCommits<T>(op: nat -> Result<T>, v: T)
    requires op(0) == Err("Too Many Requests") && op(1) == Ok(v)
    ensures Run(op, 3, IsThrottleCommits) == Trace(Some(v), 2, [DefaultRetryDelayMs])
  {
    TooManyRequestsCommitThrottle();
    TooManyRequestsDefaultDelay();
    ThrottledFirst(op, IsThrottleCommits);
    StopsAtFirstNonThrottled(op, 3, IsThrottleCommits, 1);
    assert Delays(op, RetryDelayMs, 1)[0] == DefaultRetryDelayMs;
  }

  lemma ThrottledFirst<T>(op: nat -> Result<T>, isThrottle: string -> bool)
    requires Throttled(op(0), isThrottle)
    ensures ThrottledBefore(op, isThrottle, 1)
  {
  }
}
