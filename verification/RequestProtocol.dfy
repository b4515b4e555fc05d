/**
  A request made by the client's `do` (packages/sdk-go/client.go, packages/sdk-go/retry.go), from the first
  attempt to the last, against a server that replays by idempotency key.
 */
module RequestProtocol {
  import opened Wrappers
  import opened GoText
  import opened ErrorMapping
  import opened Retry

  // ---------------------------------------------------------------- the gate

  function UpperChar(c: char): char
  {
    if 'a' <= c <= 'z' then (c as int - 32) as char else c
  }

  /**
    `strings.ToUpper`, as far as its result is ASCII: besides the letters, only dotless i and long s have an
    ASCII upper case.
   */
  function Upper(s: string): string
  {
    if s == "" then ""
    else if "\U{C4}\U{B1}" <= s then "I" + Upper(s[2..])
    else if "\U{C5}\U{BF}" <= s then "S" + Upper(s[2..])
    else [UpperChar(s[0])] + Upper(s[1..])
  }

  /** Folding as in `strings.EqualFold`, as far as its result is ASCII: only long s and the Kelvin sign are added. */
  function Folded(s: string): string
  {
    if s == "" then ""
    else if "\U{C5}\U{BF}" <= s then "S" + Folded(s[2..])
    else if "\U{E2}\U{84}\U{AA}" <= s then "K" + Folded(s[3..])
    else [UpperChar(s[0])] + Folded(s[1..])
  }

  type Headers = map<string, string>

  datatype Request = Request(verb: string, headers: Headers)

  const IDEMPOTENT_METHODS: set<string> := {"GET", "HEAD", "PUT", "DELETE", "OPTIONS", "TRACE"}

  predicate IsIdempotent(verb: string)
  {
    Upper(verb) in IDEMPOTENT_METHODS
  }

  /** The header entries that spell `Idempotency-Key`. */
  predicate Spells(k: string)
  {
    Folded(k) == "IDEMPOTENCY-KEY"
  }

  predicate IsRetrySafe(request: Request)
  {
    || IsIdempotent(request.verb)
    || exists k :: k in request.headers && Spells(k) && TrimSpace(request.headers[k]) != ""
  }

  /** The characters of a token in section 3.2.6 of RFC 7230. */
  predicate IsTokenChar(c: char)
  {
    '0' <= c <= '9' || 'a' <= c <= 'z' || 'A' <= c <= 'Z' || c in "!#$%&'*+-.^_`|~"
  }

  predicate IsToken(s: string)
  {
    forall i :: 0 <= i < |s| ==> IsTokenChar(s[i])
  }

  predicate IsFieldValue(s: string)
  {
    forall i :: 0 <= i < |s| ==> s[i] == '\t' || (' ' <= s[i] && s[i] != '\U{7F}')
  }

  /** What `net/http` agrees to send: the other requests fail before they reach the network. */
  predicate Sendable(request: Request)
  {
    && IsToken(request.verb)
    && forall k :: k in request.headers ==> k != "" && IsToken(k) && IsFieldValue(request.headers[k])
  }

  lemma {:induction false} FoldedAscii(k: string)
    requires forall i :: 0 <= i < |k| ==> k[i] < '\U{80}'
    ensures |Folded(k)| == |k| && forall i :: 0 <= i < |k| ==> Folded(k)[i] == UpperChar(k[i])
  {
    if k != "" {
      FoldedAscii(k[1..]);
      assert Folded(k) == [UpperChar(k[0])] + Folded(k[1..]);
    }
  }

  /** An ASCII header name spells the key exactly when it is Idempotency-Key in some mixture of cases. */
  lemma SpellsIff(k: string)
    requires forall i :: 0 <= i < |k| ==> k[i] < '\U{80}'
    ensures Spells(k) <==>
            |k| == 15 && forall i :: 0 <= i < 15 ==> k[i] == "idempotency-key"[i] || k[i] == "IDEMPOTENCY-KEY"[i]
  {
    FoldedAscii(k);
    hide Folded;
    KeyLetters(k);
    if |k| == 15 && (forall i :: 0 <= i < 15 ==> UpperChar(k[i]) == "IDEMPOTENCY-KEY"[i]) {
      assert Folded(k) == "IDEMPOTENCY-KEY";
    }
  }

  lemma KeyLetters(k: string)
    ensures |k| == 15 ==> forall i :: 0 <= i < 15 ==>
              (UpperChar(k[i]) == "IDEMPOTENCY-KEY"[i] <==>
               k[i] == "idempotency-key"[i] || k[i] == "IDEMPOTENCY-KEY"[i])
  {
  }

  /** The Kelvin sign. */
  const KELVIN: string := "\U{E2}\U{84}\U{AA}"

  lemma FoldedFirst(c: char, rest: string)
    requires c < '\U{80}'
    ensures Folded([c] + rest) == [UpperChar(c)] + Folded(rest)
  {
    assert ([c] + rest)[0] == c && ([c] + rest)[1..] == rest;
  }

  lemma KelvinFirst(rest: string)
    ensures Folded(KELVIN + rest) == "K" + Folded(rest)
  {
    var s := KELVIN + rest;
    assert s[0] == '\U{E2}' && s[..3] == KELVIN && s[3..] == rest;
  }

  lemma {:induction false} FoldedKelvin(x: string, y: string)
    requires forall i :: 0 <= i < |x| ==> x[i] < '\U{80}'
    ensures Folded(x + (KELVIN + y)) == Folded(x) + ("K" + Folded(y))
  {
    hide Folded;
    KelvinFirst(y);
    if x == "" {
      FoldedAscii(x);
      assert x + (KELVIN + y) == KELVIN + y && Folded(x) == "";
    } else {
      FoldedKelvin(x[1..], y);
      FoldedFirst(x[0], x[1..]);
      FoldedFirst(x[0], x[1..] + (KELVIN + y));
      assert x == [x[0]] + x[1..] && x + (KELVIN + y) == [x[0]] + (x[1..] + (KELVIN + y));
    }
  }

  /** With the Kelvin sign for its K, and only there, it is spelled too. */
  lemma KelvinSpells(x: string, y: string)
    requires forall i :: 0 <= i < |x| ==> x[i] < '\U{80}'
    ensures Spells(x + (KELVIN + y)) <==> Folded(x) == "IDEMPOTENCY-" && Folded(y) == "EY"
  {
    hide Folded;
    FoldedKelvin(x, y);
    AroundK("IDEMPOTENCY-KEY", Folded(x), Folded(y));
    OneK();
  }

  /** A text with one K, cut at it. */
  lemma AroundK(text: string, p: string, q: string)
    requires |text| == 15 && text[12] == 'K' && forall n :: 0 <= n < 15 && text[n] == 'K' ==> n == 12
    ensures p + ("K" + q) == text <==> p == text[..12] && q == text[13..]
  {
    var all := p + ("K" + q);
    if all == text {
      assert all[|p|] == 'K' && all[..|p|] == p && all[|p| + 1..] == q;
    }
    assert text == text[..12] + ("K" + text[13..]);
  }

  lemma OneK()
    ensures "IDEMPOTENCY-KEY"[..12] == "IDEMPOTENCY-" && "IDEMPOTENCY-KEY"[13..] == "EY"
  {
  }

  /** `v` is the word `w`, in any mixture of cases. */
  predicate Spelled(v: string, w: string)
  {
    |v| == |w| && forall i :: 0 <= i < |w| ==> 'A' <= w[i] <= 'Z' && (v[i] == w[i] || v[i] as int == w[i] as int + 32)
  }

  lemma {:induction false} UpperOf(v: string, w: string)
    requires Spelled(v, w)
    ensures Upper(v) == w
  {
    if v != "" {
      UpperOf(v[1..], w[1..]);
      assert v[0] < '\U{80}' && w == [w[0]] + w[1..];
    }
  }

  // ---------------------------------------------------------------- server and network

  datatype Response = Success | Error(error: ApiError)

  /** How often the operation took effect, and the response recorded under each key. */
  datatype Server = Server(applied: nat, recorded: map<string, Response>)

  /** What the server does with a request it has no record of. */
  datatype Decision = Apply(response: Response) | Refuse(error: ApiError)

  datatype Loss = ConnectionFailed | ContextOver

  /** What becomes of one attempt on the network. */
  datatype Fate =
    | RequestLost(loss: Loss)
    | Reached(decision: Decision, responseLost: Option<Loss>)

  datatype Attempt = Done | Failed(error: ApiError) | ContextError

  function Lost(loss: Loss): Attempt
  {
    if loss.ContextOver? then ContextError else Failed(Transport)
  }

  function AttemptOf(response: Response): Attempt
  {
    match response case Success => Done case Error(e) => Failed(e)
  }

  /** The server's rule: a blank key is no key; a known key gets its recorded response and has no effect. */
  function Serve(server: Server, key: Option<string>, decision: Decision): (Server, Response)
  {
    if key.Some? && key.value in server.recorded then (server, server.recorded[key.value])
    else
      match decision
      case Refuse(e) => (server, Error(e))
      case Apply(response) =>
        (Server(server.applied + 1,
                if key.Some? then server.recorded[key.value := response] else server.recorded), response)
  }

  function Send(server: Server, key: Option<string>, fate: Fate): (Server, Attempt)
  {
    match fate
    case RequestLost(loss) => (server, Lost(loss))
    case Reached(decision, responseLost) =>
      var (next, response) := Serve(server, key, decision);
      (next, if responseLost.Some? then Lost(responseLost.value) else AttemptOf(response))
  }

  /**
    Everything an attempt depends on besides the request. When several entries spell the key, the request
    carries whichever of them was set last; `spelling` is that choice.
   */
  datatype Env = Env(fate: nat -> Fate, spelling: nat -> string, cancelled: nat -> bool,
                     random: nat -> nat, platform: Platform)

  ghost predicate ChoosesSpelling(env: Env, headers: Headers)
  {
    (exists k :: k in headers && Spells(k)) ==>
      forall n :: env.spelling(n) in headers && Spells(env.spelling(n))
  }

  /** The key attempt `n` carries. */
  function KeySent(headers: Headers, env: Env, n: nat): Option<string>
  {
    var k := env.spelling(n);
    if k in headers && Spells(k) && TrimSpace(headers[k]) != "" then Some(TrimSpace(headers[k])) else None
  }

  /** Attempt `n`. */
  function Try(request: Request, env: Env, server: Server, n: nat): (Server, Attempt)
  {
    if Sendable(request) then Send(server, KeySent(request.headers, env, n), env.fate(n))
    else (server, Failed(Transport))
  }

  // ---------------------------------------------------------------- a run

  datatype Run = Run(outcome: Attempt, attempts: seq<Attempt>, sleeps: seq<int>, server: Server)

  predicate TriesAgain(a: Attempt)
  {
    a.Failed? && IsRetryable(a.error)
  }

  function SleepAfter(cfg: RetryConfig, env: Env, n: nat, error: ApiError): int
  {
    Delay(cfg, cfg.backoffMultiplier, n, RetryAfterOf(error), env.platform, env.random(n))
  }

  /** The retry loop from attempt `n` on. */
  function RunFrom(cfg: RetryConfig, request: Request, env: Env, server: Server, n: nat): Run
    decreases if n < cfg.maxRetries then cfg.maxRetries - n else 0
  {
    var (next, a) := Try(request, env, server, n);
    if !TriesAgain(a) || n >= cfg.maxRetries then Run(a, [a], [], next)
    else
      var sleep := SleepAfter(cfg, env, n, a.error);
      if env.cancelled(n) then Run(ContextError, [a], [sleep], next)
      else
        var rest := RunFrom(cfg, request, env, next, n + 1);
        Run(rest.outcome, [a] + rest.attempts, [sleep] + rest.sleeps, rest.server)
  }

  ghost function DoRun(request: Request, cfg: RetryConfig, env: Env, server: Server): Run
  {
    if IsRetrySafe(request) && !cfg.disabled then RunFrom(cfg, request, env, server, 0)
    else
      var (next, a) := Try(request, env, server, 0);
      Run(a, [a], [], next)
  }

  /** Whether one of the entries is a key with a value. */
  method HasKey(headers: Headers) returns (found: bool)
    ensures found <==> exists k :: k in headers && Spells(k) && TrimSpace(headers[k]) != ""
  {
    hide TrimSpace, Upper;
    var left := headers.Keys;
    while left != {}
      invariant left <= headers.Keys
      invariant forall k :: k in headers && k !in left ==> !(Spells(k) && TrimSpace(headers[k]) != "")
      decreases |left|
    {
      var k :| k in left;
      if Spells(k) && TrimSpace(headers[k]) != "" {
        return true;
      }
      left := left - {k};
    }
    found := false;
  }

  /** One turn of the loop. */
  lemma RunStep(cfg: RetryConfig, request: Request, env: Env, server: Server, n: nat)
    ensures var (next, a) := Try(request, env, server, n);
      RunFrom(cfg, request, env, server, n) ==
      if !TriesAgain(a) || n >= cfg.maxRetries then Run(a, [a], [], next)
      else if env.cancelled(n) then Run(ContextError, [a], [SleepAfter(cfg, env, n, a.error)], next)
      else
        var rest := RunFrom(cfg, request, env, next, n + 1);
        Run(rest.outcome, [a] + rest.attempts, [SleepAfter(cfg, env, n, a.error)] + rest.sleeps, rest.server)
  {
    hide Try, SleepAfter;
  }

  /** `rest` continues a run that has made these attempts and sleeps. */
  function After(attempts: seq<Attempt>, sleeps: seq<int>, rest: Run): Run
  {
    Run(rest.outcome, attempts + rest.attempts, sleeps + rest.sleeps, rest.server)
  }

  lemma AfterOne(attempts: seq<Attempt>, sleeps: seq<int>, a: Attempt, sleep: int, rest: Run)
    ensures After(attempts, sleeps, After([a], [sleep], rest)) == After(attempts + [a], sleeps + [sleep], rest)
    ensures After(attempts, sleeps, Run(a, [a], [], rest.server)) == Run(a, attempts + [a], sleeps, rest.server)
  {
    assert attempts + ([a] + rest.attempts) == attempts + [a] + rest.attempts;
    assert sleeps + ([sleep] + rest.sleeps) == sleeps + [sleep] + rest.sleeps;
    assert sleeps + [] == sleeps;
  }

  method Do(request: Request, cfg: RetryConfig, env: Env, start: Server) returns (run: Run)
    ensures run == DoRun(request, cfg, env, start)
  {
    hide TrimSpace, Spells, Upper, Delay, RunFrom, Try;
    var safe := IsIdempotent(request.verb);
    if !safe {
      safe := HasKey(request.headers);
    }
    if !safe || cfg.disabled {
      var (next, a) := Try(request, env, start, 0);
      return Run(a, [a], [], next);
    }
    var server, attempts, sleeps := start, [], [];
    var attempt := 0;
    ghost var whole := RunFrom(cfg, request, env, start, 0);
    assert After([], [], whole) == whole;
    while true
      invariant attempt <= if cfg.maxRetries > 0 then cfg.maxRetries else 0
      invariant whole == After(attempts, sleeps, RunFrom(cfg, request, env, server, attempt))
      decreases cfg.maxRetries - attempt
    {
      RunStep(cfg, request, env, server, attempt);
      var (next, a) := Try(request, env, server, attempt);
      if !TriesAgain(a) || attempt >= cfg.maxRetries {
        AfterOne(attempts, sleeps, a, 0, Run(a, [], [], next));
        return Run(a, attempts + [a], sleeps, next);
      }
      var sleep := NextDelay(cfg, cfg.backoffMultiplier, attempt, RetryAfterOf(a.error),
                             env.platform, env.random(attempt));
      if env.cancelled(attempt) {
        return Run(ContextError, attempts + [a], sleeps + [sleep], next);
      }
      AfterOne(attempts, sleeps, a, sleep, RunFrom(cfg, request, env, next, attempt + 1));
      server, attempts, sleeps := next, attempts + [a], sleeps + [sleep];
      attempt := attempt + 1;
    }
  }

  // ---------------------------------------------------------------- every attempt

  /** Attempt `i` of those from `n` on, if it can be sent, meets the server its predecessor left under its own key and fate. */
  ghost predicate Meets(request: Request, env: Env, states: seq<Server>, attempts: seq<Attempt>, n: nat, i: nat)
    requires i < |attempts| < |states|
  {
    (states[i + 1], attempts[i]) ==
    if Sendable(request) then Send(states[i], KeySent(request.headers, env, n + i), env.fate(n + i))
    else (states[i], Failed(Transport))
  }

  lemma MeetsIs(request: Request, env: Env, states: seq<Server>, attempts: seq<Attempt>, n: nat, i: nat)
    requires i < |attempts| < |states|
    ensures Meets(request, env, states, attempts, n, i) <==>
            Try(request, env, states[i], n + i) == (states[i + 1], attempts[i])
  {
    hide Sendable, Send, KeySent;
  }

  /** Sleep `i` is the delay for the failure just met, and is taken unless cancelled. */
  ghost predicate Waits(run: Run, cfg: RetryConfig, env: Env, n: nat, i: nat)
    requires i < |run.sleeps| && i < |run.attempts|
  {
    && run.attempts[i].Failed? && IsRetryable(run.attempts[i].error)
    && run.sleeps[i] == Delay(cfg, cfg.backoffMultiplier, n + i, RetryAfterOf(run.attempts[i].error),
                              env.platform, env.random(n + i))
    && (env.cancelled(n + i) <==> i == |run.attempts| - 1)
  }

  /**
    The run from attempt `n` on, attempt by attempt; `states` are the server before each one and after the last.
    It ends with the context's error if cancelled during a sleep, otherwise with its last attempt.
   */
  ghost predicate Traces(run: Run, cfg: RetryConfig, request: Request, env: Env, states: seq<Server>, n: nat)
  {
    && run.attempts != []
    && |states| == |run.attempts| + 1 && run.server == states[|run.attempts|]
    && |run.attempts| - 1 <= |run.sleeps| <= |run.attempts|
    && (forall i :: 0 <= i < |run.attempts| ==> Meets(request, env, states, run.attempts, n, i))
    && (forall i :: 0 <= i < |run.sleeps| ==> Waits(run, cfg, env, n, i))
    && run.outcome == if |run.sleeps| == |run.attempts| then ContextError else run.attempts[|run.attempts| - 1]
  }

  lemma {:induction false} RunFromTraces(cfg: RetryConfig, request: Request, env: Env, server: Server, n: nat)
      returns (states: seq<Server>)
    ensures Traces(RunFrom(cfg, request, env, server, n), cfg, request, env, states, n) && states[0] == server
    decreases RetriesLeft(cfg, n)
  {
    hide Try, Delay, RetryAfterOf, RunFrom;
    RunStep(cfg, request, env, server, n);
    var (next, a) := Try(request, env, server, n);
    if !TriesAgain(a) || n >= cfg.maxRetries || env.cancelled(n) {
      states := [server, next];
      MeetsIs(request, env, states, [a], n, 0);
      hide Meets;
    } else {
      var rest := RunFromTraces(cfg, request, env, next, n + 1);
      states := [server] + rest;
      TraceOneMore(cfg, request, env, server, n, rest);
    }
  }

  lemma TraceOneMore(cfg: RetryConfig, request: Request, env: Env, server: Server, n: nat, states: seq<Server>)
    requires var (next, a) := Try(request, env, server, n);
      && TriesAgain(a) && n < cfg.maxRetries && !env.cancelled(n)
      && Traces(RunFrom(cfg, request, env, next, n + 1), cfg, request, env, states, n + 1) && states[0] == next
    ensures Traces(RunFrom(cfg, request, env, server, n), cfg, request, env, [server] + states, n)
  {
    hide Try, Delay, RetryAfterOf, RunFrom;
    RunStep(cfg, request, env, server, n);
    var (next, a) := Try(request, env, server, n);
    var run, rest := RunFrom(cfg, request, env, server, n), RunFrom(cfg, request, env, next, n + 1);
    var all := [server] + states;
    hide Meets;
    forall i | 0 <= i < |run.attempts| ensures Meets(request, env, all, run.attempts, n, i) {
      MeetsIs(request, env, all, run.attempts, n, i);
      if i > 0 {
        MeetsIs(request, env, states, rest.attempts, n + 1, i - 1);
        assert Meets(request, env, states, rest.attempts, n + 1, i - 1);
        assert run.attempts[i] == rest.attempts[i - 1] && all[i] == states[i - 1] && all[i + 1] == states[i - 1 + 1];
        assert n + 1 + (i - 1) == n + i;
      }
    }
    forall i | 0 <= i < |run.sleeps| ensures Waits(run, cfg, env, n, i) {
      if i > 0 {
        assert Waits(rest, cfg, env, n + 1, i - 1);
        assert run.attempts[i] == rest.attempts[i - 1] && run.sleeps[i] == rest.sleeps[i - 1];
        assert n + 1 + (i - 1) == n + i;
      }
    }
    hide Waits;
  }

  /** Every run of `Do`, attempt by attempt. */
  lemma RunIsTraced(request: Request, cfg: RetryConfig, env: Env, server: Server) returns (states: seq<Server>)
    ensures Traces(DoRun(request, cfg, env, server), cfg, request, env, states, 0) && states[0] == server
  {
    if IsRetrySafe(request) && !cfg.disabled {
      hide Traces, RunFrom, IsRetrySafe;
      states := RunFromTraces(cfg, request, env, server, 0);
    } else {
      hide Try, Delay, RetryAfterOf, IsRetrySafe;
      var (next, a) := Try(request, env, server, 0);
      states := [server, next];
      MeetsIs(request, env, states, [a], 0, 0);
      hide Meets;
    }
  }

  // ---------------------------------------------------------------- what every run keeps

  function RetriesLeft(cfg: RetryConfig, n: nat): nat
  {
    if n < cfg.maxRetries then cfg.maxRetries - n else 0
  }

  function TotalSleep(sleeps: seq<int>): int
  {
    if sleeps == [] then 0 else sleeps[0] + TotalSleep(sleeps[1..])
  }

  /**
    The shape of every run: at most max(MaxRetries, 0) + 1 attempts; each but the last failed in a way worth
    retrying; the run ends at the first success or other error, at the limit or when cancelled; no sleep is
    longer than the effective maximum delay.
   */
  ghost predicate WellShaped(run: Run, cfg: RetryConfig, retries: nat)
  {
    && 1 <= |run.attempts| <= retries + 1 && |run.sleeps| <= retries
    && (forall i :: 0 <= i < |run.attempts| - 1 ==> TriesAgain(run.attempts[i]))
    && (|run.sleeps| == |run.attempts| - 1 ==>
          && run.outcome == Last(run.attempts)
          && (TriesAgain(run.outcome) ==> |run.attempts| == retries + 1))
    && (|run.sleeps| == |run.attempts| - 1 || (|run.sleeps| == |run.attempts| && run.outcome == ContextError))
    && (forall i :: 0 <= i < |run.sleeps| ==> 0 <= run.sleeps[i] <= MaxDelayOf(cfg))
  }

  lemma {:induction false} RunFromShape(cfg: RetryConfig, request: Request, env: Env, server: Server, n: nat)
    ensures WellShaped(RunFrom(cfg, request, env, server, n), cfg, RetriesLeft(cfg, n))
    decreases RetriesLeft(cfg, n)
  {
    hide Try, Delay, MaxDelayOf;
    var (next, a) := Try(request, env, server, n);
    if TriesAgain(a) && n < cfg.maxRetries {
      DelayBounds(cfg, cfg.backoffMultiplier, n, RetryAfterOf(a.error), env.platform, env.random(n));
      if !env.cancelled(n) {
        RunFromShape(cfg, request, env, next, n + 1);
      }
    }
  }

  lemma RunShape(request: Request, cfg: RetryConfig, env: Env, server: Server)
    ensures var run := DoRun(request, cfg, env, server);
      var retrying := IsRetrySafe(request) && !cfg.disabled;
      if retrying then WellShaped(run, cfg, RetriesLeft(cfg, 0))
      else |run.attempts| == 1 && run.outcome == run.attempts[0] && run.sleeps == []
  {
    hide RunFrom, IsRetrySafe, WellShaped;
    RunFromShape(cfg, request, env, server, 0);
  }

  lemma {:induction false} TotalIsBounded(sleeps: seq<int>, most: nat)
    requires forall i :: 0 <= i < |sleeps| ==> 0 <= sleeps[i] <= most
    ensures 0 <= TotalSleep(sleeps) <= |sleeps| * most
  {
    if sleeps != [] {
      TotalIsBounded(sleeps[1..], most);
      assert |sleeps| * most == (|sleeps| - 1) * most + most;
    }
  }

  lemma ProductGrows(x: nat, y: nat, z: nat)
    requires x <= y
    ensures x * z <= y * z
  {
  }

  /** The time a request spends waiting between attempts is bounded by the configuration alone. */
  lemma WaitIsBounded(request: Request, cfg: RetryConfig, env: Env, server: Server)
    ensures 0 <= TotalSleep(DoRun(request, cfg, env, server).sleeps) <= RetriesLeft(cfg, 0) * MaxDelayOf(cfg)
  {
    hide DoRun, IsRetrySafe, MaxDelayOf, TotalSleep, RetriesLeft;
    RunShape(request, cfg, env, server);
    var sleeps := DoRun(request, cfg, env, server).sleeps;
    TotalIsBounded(sleeps, MaxDelayOf(cfg));
    ProductGrows(|sleeps|, RetriesLeft(cfg, 0), MaxDelayOf(cfg));
  }

  /** The default policy: at most four attempts, and never more than half a minute of waiting in all. */
  lemma DefaultPolicyBounds(request: Request, env: Env, server: Server)
    ensures var run := DoRun(request, DEFAULT_RETRY, env, server);
      |run.attempts| <= 4 && 0 <= TotalSleep(run.sleeps) <= 30_000_000_000
    ensures var run := DoRun(request, DEFAULT_RETRY, env, server);
      IsRetrySafe(request) && |run.sleeps| < |run.attempts| && TriesAgain(run.outcome) ==> |run.attempts| == 4
  {
    RunShape(request, DEFAULT_RETRY, env, server);
    WaitIsBounded(request, DEFAULT_RETRY, env, server);
    hide DoRun, IsRetrySafe, TotalSleep;
  }

  // ---------------------------------------------------------------- which requests are retried

  /** Idempotent methods are retried after any failure worth it, without a key. */
  lemma IdempotentIsRetried(request: Request, cfg: RetryConfig, env: Env, server: Server)
    requires || Spelled(request.verb, "GET") || Spelled(request.verb, "HEAD") || Spelled(request.verb, "PUT")
             || Spelled(request.verb, "DELETE") || Spelled(request.verb, "OPTIONS") || Spelled(request.verb, "TRACE")
    requires !cfg.disabled && cfg.maxRetries > 0 && !env.cancelled(0)
    ensures TriesAgain(Try(request, env, server, 0).1) ==> |DoRun(request, cfg, env, server).attempts| >= 2
  {
    hide Upper, Try, SleepAfter;
    var w :| w in {"GET", "HEAD", "PUT", "DELETE", "OPTIONS", "TRACE"} && Spelled(request.verb, w);
    UpperOf(request.verb, w);
    RunStep(cfg, request, env, server, 0);
    RunFromShape(cfg, request, env, Try(request, env, server, 0).0, 1);
    hide RunFrom;
  }

  /** No entry that spells the key header has a value. */
  ghost predicate Keyless(headers: Headers)
  {
    forall k :: k in headers && Spells(k) ==> TrimSpace(headers[k]) == ""
  }

  /** A POST or PATCH without a key is sent exactly once, whatever becomes of it, and so is applied at most once. */
  lemma KeylessIsSentOnce(request: Request, cfg: RetryConfig, env: Env, server: Server)
    requires (Spelled(request.verb, "POST") || Spelled(request.verb, "PATCH")) && Keyless(request.headers)
    ensures var run := DoRun(request, cfg, env, server);
      |run.attempts| == 1 && run.sleeps == [] && run.outcome == run.attempts[0]
      && run.server.applied <= server.applied + 1
  {
    hide Upper, TrimSpace, Spells, Sendable, KeySent, RunFrom;
    UpperOf(request.verb, if Spelled(request.verb, "POST") then "POST" else "PATCH");
    assert !IsRetrySafe(request);
  }

  /** With a key, either is retried like an idempotent method. */
  lemma KeyedIsRetried(request: Request, k: string, cfg: RetryConfig, env: Env, server: Server)
    requires k in request.headers && Spells(k) && TrimSpace(request.headers[k]) != ""
    requires !cfg.disabled && cfg.maxRetries > 0 && !env.cancelled(0)
    ensures TriesAgain(Try(request, env, server, 0).1) ==> |DoRun(request, cfg, env, server).attempts| >= 2
  {
    hide Upper, Try, SleepAfter, TrimSpace, Spells;
    assert IsRetrySafe(request);
    RunStep(cfg, request, env, server, 0);
    RunFromShape(cfg, request, env, Try(request, env, server, 0).0, 1);
    hide RunFrom;
  }

  // ---------------------------------------------------------------- at most once

  /** All spellings of the key carry one value. */
  ghost predicate OneKey(headers: Headers)
  {
    forall j, k :: j in headers && k in headers && Spells(j) && Spells(k) ==>
      TrimSpace(headers[j]) == TrimSpace(headers[k])
  }

  lemma {:induction false} AppliedGrows(cfg: RetryConfig, request: Request, env: Env, server: Server, n: nat)
    ensures server.applied <= RunFrom(cfg, request, env, server, n).server.applied
    decreases RetriesLeft(cfg, n)
  {
    hide Sendable, KeySent, SleepAfter;
    var (next, a) := Try(request, env, server, n);
    if TriesAgain(a) && n < cfg.maxRetries && !env.cancelled(n) {
      AppliedGrows(cfg, request, env, next, n + 1);
    }
  }

  /** Under one key the operation takes effect at most once if the key is new, and not at all if it is recorded. */
  lemma {:induction false} KeyedRunAppliesAtMostOnce(cfg: RetryConfig, request: Request, env: Env, server: Server,
                                                     n: nat, key: string)
    requires forall i :: i >= n ==> KeySent(request.headers, env, i) == Some(key)
    ensures var end := RunFrom(cfg, request, env, server, n).server;
      end.applied <= server.applied + (if key in server.recorded then 0 else 1)
    decreases RetriesLeft(cfg, n)
  {
    hide Sendable, KeySent, SleepAfter;
    var (next, a) := Try(request, env, server, n);
    if TriesAgain(a) && n < cfg.maxRetries && !env.cancelled(n) {
      KeyedRunAppliesAtMostOnce(cfg, request, env, next, n + 1, key);
    }
  }

  lemma OneKeyIsSent(headers: Headers, env: Env, k: string, n: nat)
    requires OneKey(headers) && ChoosesSpelling(env, headers)
    requires k in headers && Spells(k) && TrimSpace(headers[k]) != ""
    ensures KeySent(headers, env, n) == Some(TrimSpace(headers[k]))
  {
    hide TrimSpace, Upper;
    assert env.spelling(n) in headers;
  }

  lemma {:induction false} UnsentAppliesNothing(cfg: RetryConfig, request: Request, env: Env, server: Server, n: nat)
    requires !Sendable(request)
    ensures RunFrom(cfg, request, env, server, n).server == server
    decreases RetriesLeft(cfg, n)
  {
    hide Sendable, Send, SleepAfter;
    if n < cfg.maxRetries && !env.cancelled(n) {
      UnsentAppliesNothing(cfg, request, env, server, n + 1);
    }
  }

  /** The requests that can reach the server under one key and then under another. */
  ghost predicate MayReachTwice(request: Request, cfg: RetryConfig)
  {
    && !cfg.disabled && cfg.maxRetries > 0
    && IsRetrySafe(request) && Sendable(request) && !OneKey(request.headers)
  }

  lemma OtherwiseAtMostOnce(request: Request, cfg: RetryConfig, env: Env, server: Server)
    requires !IsIdempotent(request.verb) && ChoosesSpelling(env, request.headers)
    requires !MayReachTwice(request, cfg)
    ensures DoRun(request, cfg, env, server).server.applied <= server.applied + 1
  {
    hide TrimSpace, Spells, IsIdempotent, RunFrom, KeySent, ChoosesSpelling, OneKey, Sendable, SleepAfter;
    var headers := request.headers;
    if IsRetrySafe(request) && !cfg.disabled {
      if !Sendable(request) {
        UnsentAppliesNothing(cfg, request, env, server, 0);
      } else if cfg.maxRetries <= 0 {
        RunStep(cfg, request, env, server, 0);
      } else {
        var k :| k in headers && Spells(k) && TrimSpace(headers[k]) != "";
        forall i: nat ensures KeySent(headers, env, i) == Some(TrimSpace(headers[k])) {
          OneKeyIsSent(headers, env, k, i);
        }
        KeyedRunAppliesAtMostOnce(cfg, request, env, server, 0, TrimSpace(headers[k]));
      }
    }
  }

  /** Two spellings with different values: an attempt under each, both applied, the first response lost. */
  lemma TwoKeysApplyTwice(request: Request, cfg: RetryConfig) returns (env: Env)
    requires MayReachTwice(request, cfg)
    ensures ChoosesSpelling(env, request.headers)
    ensures DoRun(request, cfg, env, Server(0, map[])).server.applied >= 2
  {
    hide TrimSpace, Spells, SleepAfter, IsRetrySafe, Sendable;
    var headers := request.headers;
    var j, k :| j in headers && k in headers && Spells(j) && Spells(k)
                && TrimSpace(headers[j]) != TrimSpace(headers[k]);
    var fate := Reached(Apply(Success), Some(ConnectionFailed));
    env := Env(n => fate, n => if n == 0 then j else k, n => false, n => 0, Platform(x => Finite(x), x => 0));
    var (first, a) := Try(request, env, Server(0, map[]), 0);
    var (second, b) := Try(request, env, first, 1);
    assert first.applied == 1 && a == Failed(Transport) && second.applied == 2;
    if TriesAgain(b) && 1 < cfg.maxRetries {
      AppliedGrows(cfg, request, env, second, 2);
    }
    assert RunFrom(cfg, request, env, first, 1).server.applied >= 2;
  }

  /**
    A request that is not idempotent by its method is applied at most once in every run, whatever is lost,
    exactly when it is not retried, cannot be sent, or all spellings of its key header agree.
   */
  lemma AppliedAtMostOnceIff(request: Request, cfg: RetryConfig)
    requires Upper(request.verb) !in {"GET", "HEAD", "PUT", "DELETE", "OPTIONS", "TRACE"}
    ensures
      (forall env: Env, server: Server :: ChoosesSpelling(env, request.headers) ==>
         DoRun(request, cfg, env, server).server.applied <= server.applied + 1)
      <==>
      || cfg.disabled || cfg.maxRetries <= 0
      || !IsRetrySafe(request) || !Sendable(request) || OneKey(request.headers)
  {
    assert !IsIdempotent(request.verb);
    hide DoRun, IsRetrySafe, Sendable, OneKey, ChoosesSpelling, IsIdempotent;
    if MayReachTwice(request, cfg) {
      var env := TwoKeysApplyTwice(request, cfg);
      assert DoRun(request, cfg, env, Server(0, map[])).server.applied > 0 + 1;
    } else {
      forall env: Env, server: Server | ChoosesSpelling(env, request.headers)
        ensures DoRun(request, cfg, env, server).server.applied <= server.applied + 1
      {
        OtherwiseAtMostOnce(request, cfg, env, server);
      }
    }
  }

  /** The headers the SDK's own calls add. */
  function CallHeaders(idempotencyKey: Option<string>, byokKey: Option<string>): Headers
  {
    var keyed := if idempotencyKey.Some? then map["Idempotency-Key" := idempotencyKey.value] else map[];
    if byokKey.Some? then keyed[BYOK_HEADER := byokKey.value] else keyed
  }

  const BYOK_HEADER: string := "x-byok-anthropic-api-key"

  lemma FoldedStart(k: string)
    requires k != "" && k[0] == 'x'
    ensures !Spells(k)
  {
    assert Folded(k)[0] == 'X';
  }

  lemma CallHeadersAgree(idempotencyKey: Option<string>, byokKey: Option<string>)
    ensures OneKey(CallHeaders(idempotencyKey, byokKey))
  {
    hide TrimSpace, Spells;
    FoldedStart(BYOK_HEADER);
  }

  /** They can be sent exactly when their values hold no control characters but tabs. */
  lemma CallsAreSendable(idempotencyKey: string, byokKey: string)
    ensures Sendable(Request("POST", CallHeaders(Some(idempotencyKey), Some(byokKey)))) <==>
            && (forall c :: c in idempotencyKey ==> c == '\t' || (c >= ' ' && c != '\U{7F}'))
            && (forall c :: c in byokKey ==> c == '\t' || (c >= ' ' && c != '\U{7F}'))
  {
    var headers := CallHeaders(Some(idempotencyKey), Some(byokKey));
    assert headers.Keys == {"Idempotency-Key", BYOK_HEADER};
    assert headers["Idempotency-Key"] == idempotencyKey && headers[BYOK_HEADER] == byokKey;
    NamesAreTokens();
    FieldValueIs(idempotencyKey);
    FieldValueIs(byokKey);
    hide IsToken, IsFieldValue, CallHeaders;
  }

  lemma NamesAreTokens()
    ensures IsToken("POST") && IsToken("PATCH") && IsToken("Idempotency-Key") && IsToken(BYOK_HEADER)
  {
  }

  lemma FieldValueIs(s: string)
    ensures IsFieldValue(s) <==> forall c :: c in s ==> c == '\t' || (c >= ' ' && c != '\U{7F}')
  {
    if IsFieldValue(s) {
      forall c | c in s ensures c == '\t' || (c >= ' ' && c != '\U{7F}') {
        var i :| 0 <= i < |s| && s[i] == c;
      }
    } else {
      var i :| 0 <= i < |s| && !(s[i] == '\t' || (' ' <= s[i] && s[i] != '\U{7F}'));
      assert s[i] in s;
    }
  }

  /** They have one spelling of the key, so no call of the SDK is applied twice. */
  lemma CallsApplyAtMostOnce(verb: string, idempotencyKey: Option<string>, byokKey: Option<string>,
                             cfg: RetryConfig, env: Env, server: Server)
    requires Spelled(verb, "POST") || Spelled(verb, "PATCH")
    requires ChoosesSpelling(env, CallHeaders(idempotencyKey, byokKey))
    ensures DoRun(Request(verb, CallHeaders(idempotencyKey, byokKey)), cfg, env, server).server.applied
            <= server.applied + 1
  {
    hide Upper;
    UpperOf(verb, if Spelled(verb, "POST") then "POST" else "PATCH");
    assert !IsIdempotent(verb);
    hide DoRun, IsRetrySafe, Sendable, ChoosesSpelling, IsIdempotent, TrimSpace, Spelled;
    hide OneKey, CallHeaders;
    CallHeadersAgree(idempotencyKey, byokKey);
    OtherwiseAtMostOnce(Request(verb, CallHeaders(idempotencyKey, byokKey)), cfg, env, server);
  }
}
