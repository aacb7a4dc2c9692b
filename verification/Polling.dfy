/**
 The polling helpers of the OpenAI client copy: three loops that ask for an object until its status
 decides, sleeping in between. The server and the context are a trace of what each round observes.
 */
module Polling {
  import opened Digits
  import opened Prelude

  // ---------------------------------------------------------------------------------------------
  // Integers as text
  // ---------------------------------------------------------------------------------------------

  const MAX_INT := 0x7fff_ffff_ffff_ffff
  const MIN_INT := -0x8000_0000_0000_0000

  predicate IsInt(n: int) { MIN_INT <= n <= MAX_INT }

  /** strconv.Atoi on a 64-bit machine: an optional sign and decimal digits, in range. */
  function Atoi(s: string): Option<int> {
    var signed := s != [] && (s[0] == '-' || s[0] == '+');
    var digits := if signed then s[1..] else s;
    if digits == [] || !AllDigits(digits) then None
    else
      var magnitude: int := Number(digits);
      var n := if signed && s[0] == '-' then -magnitude else magnitude;
      if IsInt(n) then Some(n) else None
  }

  /** What is read as n: its decimal digits, possibly with leading zeros and a sign, and nothing else. */
  ghost predicate Writes(s: string, n: int) {
    || (s != [] && AllDigits(s) && n == Number(s))
    || exists digits: string :: digits != [] && AllDigits(digits)
         && ((s == "+" + digits && n == Number(digits)) || (s == "-" + digits && n + Number(digits) == 0))
  }

  lemma AtoiReadsExactly(s: string, n: int)
    ensures Atoi(s) == Some(n) <==> IsInt(n) && Writes(s, n)
  {
    if s != [] && (s[0] == '-' || s[0] == '+') {
      assert s == [s[0]] + s[1..];
      assert !AllDigits(s) by {
        assert !IsDigit(s[0]);
      }
      forall digits: string | s == "+" + digits || s == "-" + digits ensures digits == s[1..] {}
      assert s[0] == '+' ==> s == "+" + s[1..];
      assert s[0] == '-' ==> s == "-" + s[1..];
    }
  }

  function DigitChar(d: nat): (c: char)
    requires d < 10
    ensures IsDigit(c) && Digit(c) == d
  {
    ('0' as int + d) as char
  }

  /** The decimal digits of a number, as "%d" prints it. */
  function Decimal(n: nat): (s: string)
    ensures s != [] && AllDigits(s) && Number(s) == n
  {
    if n < 10 then
      var s := [DigitChar(n)];
      assert s[..0] == [] && Number(s) == Number(s[..0]) * 10 + Digit(s[0]);
      s
    else
      var front := Decimal(n / 10);
      var s := front + [DigitChar(n % 10)];
      assert s[..|s| - 1] == front;
      s
  }

  function FormatInt(n: int): string {
    if n < 0 then "-" + Decimal(-n) else Decimal(n)
  }

  /** Reading back what was printed gives the number, for every 64-bit integer. */
  lemma AtoiReadsFormat(n: int)
    requires IsInt(n)
    ensures Atoi(FormatInt(n)) == Some(n)
  {
  }

  // ---------------------------------------------------------------------------------------------
  // Request options
  // ---------------------------------------------------------------------------------------------

  datatype RequestOption =
    | CallerOption(id: int)
    | WithHeader(key: string, value: string)
    | WithResponseInto

  datatype Kind = VectorStoreFile | VectorStoreFileBatch | Video

  const HELPER_HEADER := "X-Stainless-Poll-Helper"
  const INTERVAL_HEADER := "X-Stainless-Poll-Interval"

  function MkPollingOptions(pollIntervalMs: int): seq<RequestOption> {
    [WithHeader(HELPER_HEADER, "true")]
    + (if pollIntervalMs > 0 then [WithHeader(INTERVAL_HEADER, FormatInt(pollIntervalMs))] else [])
  }

  /** The options every Get of one poll is made with; the batch helper appends them in another order. */
  function PollOptions(kind: Kind, opts: seq<RequestOption>, pollIntervalMs: int): seq<RequestOption> {
    if kind.VectorStoreFileBatch? then opts + [WithResponseInto] + MkPollingOptions(pollIntervalMs)
    else opts + MkPollingOptions(pollIntervalMs) + [WithResponseInto]
  }

  /** Of the options the helper adds, one is an interval header exactly if the caller gave a positive
      interval, and it reads back as that interval. */
  lemma IntervalHeaderIsTheCallers(pollIntervalMs: int, o: RequestOption)
    requires IsInt(pollIntervalMs)
    ensures (o in MkPollingOptions(pollIntervalMs) && o.WithHeader? && o.key == INTERVAL_HEADER)
            <==> pollIntervalMs > 0 && o == WithHeader(INTERVAL_HEADER, FormatInt(pollIntervalMs))
    ensures o in MkPollingOptions(pollIntervalMs) && o.WithHeader? && o.key == INTERVAL_HEADER ==> Atoi(o.value) == Some(pollIntervalMs)
  {
    AtoiReadsFormat(pollIntervalMs);
    assert |HELPER_HEADER| != |INTERVAL_HEADER|;
  }

  /** All services ask with the caller's options first and then with the same ones, in some order, so
      that the header of the helper is always there. */
  lemma ServicesAskAlike(kind: Kind, other: Kind, opts: seq<RequestOption>, pollIntervalMs: int)
    ensures opts <= PollOptions(kind, opts, pollIntervalMs)
    ensures multiset(PollOptions(kind, opts, pollIntervalMs)) == multiset(PollOptions(other, opts, pollIntervalMs))
    ensures WithHeader(HELPER_HEADER, "true") in PollOptions(kind, opts, pollIntervalMs)
    ensures WithResponseInto in PollOptions(kind, opts, pollIntervalMs)
    ensures kind.VectorStoreFileBatch? ==> PollOptions(kind, opts, pollIntervalMs)[|opts|] == WithResponseInto
    ensures !kind.VectorStoreFileBatch? ==> PollOptions(kind, opts, pollIntervalMs)[|opts|] == WithHeader(HELPER_HEADER, "true")
  {
    var added := MkPollingOptions(pollIntervalMs);
    assert added[0] in added;
    assert multiset(opts + [WithResponseInto] + added) == multiset(opts + added + [WithResponseInto]);
  }

  // ---------------------------------------------------------------------------------------------
  // One round
  // ---------------------------------------------------------------------------------------------

  datatype Verdict = Pending | Terminal | Unknown

  function Classify(kind: Kind, status: string): Verdict {
    match kind
    case Video =>
      if status == "queued" || status == "in_progress" then Pending
      else if status == "completed" || status == "failed" then Terminal
      else Unknown
    case _ =>
      if status == "in_progress" then Pending
      else if status == "cancelled" || status == "completed" || status == "failed" then Terminal
      else Unknown
  }

  /** The status constants that the client declares for the kind of object. */
  function DeclaredStatuses(kind: Kind): set<string> {
    if kind.Video? then {"queued", "in_progress", "completed", "failed"}
    else {"in_progress", "completed", "cancelled", "failed"}
  }

  /** The switches are exhaustive: a status is invalid exactly if the client does not declare it, and of
      the declared ones exactly the queued and the running object are waited for. */
  lemma SwitchIsExhaustive(kind: Kind, status: string)
    ensures Classify(kind, status).Unknown? <==> status !in DeclaredStatuses(kind)
    ensures Classify(kind, status).Pending? <==> status in DeclaredStatuses(kind) && status in {"queued", "in_progress"}
  {
  }

  /** What Get returns: an error, or an object with its status and the polling hint in the headers. */
  datatype Reply = GetFailed(error: string) | Got(body: string, status: string, hint: string)

  /** A round: the reply, and whether the context is done when it is looked at after the sleep. */
  datatype Round = Round(reply: Reply, done: bool)

  datatype Outcome = Returned(body: string) | GetError(error: string) | InvalidStatus(status: string) | Cancelled

  function GetPollInterval(hint: string): int {
    match Atoi(hint)
    case Some(ms) => ms
    case None => 1000
  }

  /** A header that holds a printed 64-bit integer, even one that is not positive, is taken as it is; an
      absent or otherwise unreadable one means a second. */
  lemma HintIsReadBack(n: int, hint: string)
    requires IsInt(n)
    ensures GetPollInterval(FormatInt(n)) == n
    ensures GetPollInterval("") == 1000
    ensures Atoi(hint).None? ==> GetPollInterval(hint) == 1000
  {
    AtoiReadsFormat(n);
  }

  /** The nanoseconds that Sleep(Duration(ms) * Millisecond) sleeps: the product wraps around, and a
      negative duration is no sleep. */
  function SleepFor(ms: int): nat {
    var product := Wrap(ms * 1_000_000);
    if product < 0 then 0 else product
  }

  function Wrap(n: int): (w: int)
    ensures IsInt(w) && (w - n) % 0x1_0000_0000_0000_0000 == 0
  {
    (n - MIN_INT) % 0x1_0000_0000_0000_0000 + MIN_INT
  }

  /** A sleep is as long as asked exactly if the interval is not negative and its nanoseconds fit. */
  lemma SleepIsAsAsked(ms: int)
    requires IsInt(ms)
    ensures SleepFor(ms) == ms * 1_000_000 <==> 0 <= ms <= 9223372036854
    ensures -9223372036854 <= ms <= 0 ==> SleepFor(ms) == 0
  {
  }

  // ---------------------------------------------------------------------------------------------
  // What polling means
  // ---------------------------------------------------------------------------------------------

  predicate IsPending(kind: Kind, round: Round) {
    round.reply.Got? && Classify(kind, round.reply.status).Pending?
  }

  /** The round ends the loop. */
  predicate Decisive(kind: Kind, round: Round) { !IsPending(kind, round) || round.done }

  function Conclusion(verdict: Verdict, body: string, status: string): Outcome {
    match verdict
    case Terminal => Returned(body)
    case Unknown => InvalidStatus(status)
    case Pending => Cancelled
  }

  /** What a decisive round makes PollStatus return: a status that decides wins over cancellation. */
  function OutcomeOf(kind: Kind, round: Round): Outcome {
    match round.reply
    case GetFailed(error) => GetError(error)
    case Got(body, status, _) => Conclusion(Classify(kind, status), body, status)
  }

  /** The result of polling along a trace: that of its first decisive round, with its index, or none if
      the loop is still going on after all of it. */
  function FirstDecision(kind: Kind, trace: seq<Round>): Option<(nat, Outcome)> {
    if trace == [] then None
    else
      var n := |trace| - 1;
      var before := FirstDecision(kind, trace[..n]);
      if before.Some? then before
      else if Decisive(kind, trace[n]) then Some((n, OutcomeOf(kind, trace[n])))
      else None
  }

  /** Later rounds do not change a decision. */
  lemma {:induction false} DecisionStays(kind: Kind, trace: seq<Round>, n: nat)
    requires n <= |trace| && FirstDecision(kind, trace[..n]).Some?
    ensures FirstDecision(kind, trace) == FirstDecision(kind, trace[..n])
    decreases |trace|
  {
    if n < |trace| {
      var front := trace[..|trace| - 1];
      assert front[..n] == trace[..n];
      DecisionStays(kind, front, n);
    } else {
      assert trace[..n] == trace;
    }
  }

  lemma DecisiveRoundDecides(kind: Kind, trace: seq<Round>, n: nat)
    requires n < |trace| && FirstDecision(kind, trace[..n]).None?
    ensures Decisive(kind, trace[n]) ==> FirstDecision(kind, trace) == Some((n, OutcomeOf(kind, trace[n])))
    ensures !Decisive(kind, trace[n]) ==> FirstDecision(kind, trace[..n + 1]).None?
  {
    assert trace[..n + 1][..n] == trace[..n];
    if Decisive(kind, trace[n]) {
      DecisionStays(kind, trace, n + 1);
    }
  }

  /** The decision is that of the first decisive round. */
  lemma {:induction false} DecisionIsFirst(kind: Kind, trace: seq<Round>)
    requires FirstDecision(kind, trace).Some?
    ensures var i := FirstDecision(kind, trace).value.0;
            && i < |trace| && Decisive(kind, trace[i]) && (forall k :: 0 <= k < i ==> !Decisive(kind, trace[k]))
            && FirstDecision(kind, trace).value.1 == OutcomeOf(kind, trace[i])
  {
    var n, i := |trace| - 1, FirstDecision(kind, trace).value.0;
    if FirstDecision(kind, trace[..n]).Some? {
      DecisionIsFirst(kind, trace[..n]);
      assert trace[..n][i] == trace[i];
    } else {
      NoDecisionMeansUndecided(kind, trace[..n]);
    }
    forall k | 0 <= k < i ensures !Decisive(kind, trace[k]) {
      assert trace[..n][k] == trace[k];
    }
  }

  /** The object is one that the helper waits for: running, or a video that is still queued. */
  predicate IsUnfinished(kind: Kind, status: string) {
    status == "in_progress" || (kind.Video? && status == "queued")
  }

  /** The object has ended: completed, failed, or, unless it is a video, cancelled. */
  predicate HasEnded(kind: Kind, status: string) {
    status == "completed" || status == "failed" || (!kind.Video? && status == "cancelled")
  }

  /** The round got an unfinished object and left the context alive, so that the loop asks again. */
  ghost predicate GoesOn(kind: Kind, round: Round) {
    round.reply.Got? && IsUnfinished(kind, round.reply.status) && !round.done
  }

  /** What a round that does not go on makes the helper return. */
  ghost predicate IsOutcomeOf(kind: Kind, round: Round, outcome: Outcome) {
    match outcome
    case GetError(error) => round.reply == GetFailed(error)
    case Returned(body) => round.reply.Got? && round.reply.body == body && HasEnded(kind, round.reply.status)
    case InvalidStatus(status) =>
      round.reply.Got? && round.reply.status == status && !HasEnded(kind, status) && !IsUnfinished(kind, status)
    case Cancelled => round.reply.Got? && IsUnfinished(kind, round.reply.status) && round.done
  }

  lemma DecisiveMeansNotGoingOn(kind: Kind, round: Round)
    ensures Decisive(kind, round) <==> !GoesOn(kind, round)
    ensures Decisive(kind, round) ==> IsOutcomeOf(kind, round, OutcomeOf(kind, round))
  {
  }

  /** Polling in terms of the rounds themselves: it is still going on exactly if every round goes on;
      otherwise it ends in the first that does not, with what that round says. A status that has ended
      wins over a context that is done, and a done context ends polling of an unfinished object. */
  lemma DecisionByRounds(kind: Kind, trace: seq<Round>)
    ensures FirstDecision(kind, trace).None? <==> forall k :: 0 <= k < |trace| ==> GoesOn(kind, trace[k])
    ensures FirstDecision(kind, trace).Some? ==>
              var (i, outcome) := FirstDecision(kind, trace).value;
              i < |trace| && (forall k :: 0 <= k < i ==> GoesOn(kind, trace[k])) && !GoesOn(kind, trace[i])
              && IsOutcomeOf(kind, trace[i], outcome)
  {
    forall k | 0 <= k < |trace| ensures Decisive(kind, trace[k]) <==> !GoesOn(kind, trace[k]) {
      DecisiveMeansNotGoingOn(kind, trace[k]);
    }
    if FirstDecision(kind, trace).Some? {
      DecisionIsFirst(kind, trace);
      DecisiveMeansNotGoingOn(kind, trace[FirstDecision(kind, trace).value.0]);
    } else {
      NoDecisionMeansUndecided(kind, trace);
    }
  }

  lemma {:induction false} NoDecisionMeansUndecided(kind: Kind, trace: seq<Round>)
    requires FirstDecision(kind, trace).None?
    ensures forall k :: 0 <= k < |trace| ==> !Decisive(kind, trace[k])
  {
    if trace == [] {
    } else {
      var n := |trace| - 1;
      NoDecisionMeansUndecided(kind, trace[..n]);
      forall k | 0 <= k < |trace| ensures !Decisive(kind, trace[k]) {
        if k < n { assert trace[..n][k] == trace[k]; }
      }
    }
  }

  function HintOf(round: Round): int {
    match round.reply
    case Got(_, _, hint) => GetPollInterval(hint)
    case GetFailed(_) => 0
  }

  /** The hint of a round: the 64-bit integer that its header writes, and 1000 if it writes none. */
  lemma HintByHeader(round: Round, n: int)
    requires round.reply.Got?
    ensures IsInt(n) && Writes(round.reply.hint, n) ==> HintOf(round) == n
    ensures (forall m :: IsInt(m) ==> !Writes(round.reply.hint, m)) ==> HintOf(round) == 1000
  {
    AtoiReadsExactly(round.reply.hint, n);
    if Atoi(round.reply.hint).Some? {
      AtoiReadsExactly(round.reply.hint, Atoi(round.reply.hint).value);
    }
  }

  /** The interval variable after the first n rounds, all of them pending. */
  function IntervalAfter(trace: seq<Round>, pollIntervalMs: int, n: nat): int
    requires n <= |trace|
  {
    if n == 0 then pollIntervalMs
    else
      var before := IntervalAfter(trace, pollIntervalMs, n - 1);
      if before <= 0 then HintOf(trace[n - 1]) else before
  }

  /** The intervals of the first n sleeps. */
  function Intervals(trace: seq<Round>, pollIntervalMs: int, n: nat): (intervals: seq<int>)
    requires n <= |trace|
    ensures |intervals| == n
  {
    if n == 0 then [] else Intervals(trace, pollIntervalMs, n - 1) + [IntervalAfter(trace, pollIntervalMs, n)]
  }

  lemma {:induction false} IntervalsAt(trace: seq<Round>, pollIntervalMs: int, n: nat, i: nat)
    requires i < n <= |trace|
    ensures Intervals(trace, pollIntervalMs, n)[i] == IntervalAfter(trace, pollIntervalMs, i + 1)
    decreases n
  {
    if i == n - 1 {
    } else {
      IntervalsAt(trace, pollIntervalMs, n - 1, i);
    }
  }

  /** A positive interval sticks: the caller's if it is positive, and otherwise the first positive hint;
      until there is one, each sleep follows its own response. */
  lemma {:induction false} FirstPositiveIntervalSticks(trace: seq<Round>, pollIntervalMs: int, n: nat)
    requires 0 < n <= |trace|
    ensures pollIntervalMs > 0 ==> IntervalAfter(trace, pollIntervalMs, n) == pollIntervalMs
    ensures pollIntervalMs <= 0 && (forall i :: 0 <= i < n - 1 ==> HintOf(trace[i]) <= 0) ==>
              IntervalAfter(trace, pollIntervalMs, n) == HintOf(trace[n - 1])
    ensures pollIntervalMs <= 0 ==>
              forall k :: 0 <= k < n && HintOf(trace[k]) > 0 && (forall i :: 0 <= i < k ==> HintOf(trace[i]) <= 0) ==>
                IntervalAfter(trace, pollIntervalMs, n) == HintOf(trace[k])
    decreases n
  {
    if n == 1 {
    } else {
      FirstPositiveIntervalSticks(trace, pollIntervalMs, n - 1);
      if pollIntervalMs <= 0 && forall i :: 0 <= i < n - 1 ==> HintOf(trace[i]) <= 0 {
        assert HintOf(trace[n - 2]) <= 0;
      }
    }
  }

  /** The nanoseconds slept in all. */
  function TotalSleep(sleeps: seq<int>): nat {
    if sleeps == [] then 0 else TotalSleep(sleeps[..|sleeps| - 1]) + SleepFor(sleeps[|sleeps| - 1])
  }

  /** It is the sum over all sleeps, however they are grouped. */
  lemma {:induction false} TotalSleepAdds(a: seq<int>, b: seq<int>)
    ensures TotalSleep(a + b) == TotalSleep(a) + TotalSleep(b)
    ensures forall ms :: TotalSleep([ms]) == SleepFor(ms)
  {
    forall ms ensures TotalSleep([ms]) == SleepFor(ms) {
      assert [ms][..0] == [];
    }
    if b == [] {
      assert a + b == a;
    } else {
      var n := |b| - 1;
      TotalSleepAdds(a, b[..n]);
      assert (a + b)[..|a| + n] == a + b[..n];
    }
  }

  lemma {:induction false} TotalOfEqual(sleeps: seq<int>, p: int)
    requires 0 <= p <= 9223372036854 && forall i :: 0 <= i < |sleeps| ==> sleeps[i] == p
    ensures TotalSleep(sleeps) == p * 1_000_000 * |sleeps|
  {
    if sleeps == [] {
    } else {
      TotalOfEqual(sleeps[..|sleeps| - 1], p);
      SleepIsAsAsked(p);
    }
  }

  /** With a positive interval p whose nanoseconds fit, the whole sleep is p milliseconds for every round
      that reached its sleep. */
  lemma TotalSleepIsProportional(trace: seq<Round>, p: int, n: nat)
    requires 0 < p <= 9223372036854 && n <= |trace|
    ensures TotalSleep(Intervals(trace, p, n)) == p * 1_000_000 * n
  {
    forall i | 0 <= i < n ensures Intervals(trace, p, n)[i] == p {
      IntervalsAt(trace, p, n, i);
      FirstPositiveIntervalSticks(trace, p, i + 1);
    }
    TotalOfEqual(Intervals(trace, p, n), p);
  }

  /** PollStatus of any of the three services along a trace; they differ only in their switch. `sleeps`
      are the intervals it sleeps for, in milliseconds. */
  method PollStatus(kind: Kind, trace: seq<Round>, pollIntervalMs: int) returns (outcome: Option<Outcome>, gets: nat, sleeps: seq<int>)
    ensures outcome.Some? ==> FirstDecision(kind, trace) == Some((gets - 1, outcome.value))
    ensures outcome.None? ==> FirstDecision(kind, trace).None?
    ensures outcome.None? ==> gets == |trace| && forall k :: 0 <= k < |trace| ==> GoesOn(kind, trace[k])
    ensures outcome.Some? ==>
              && 0 < gets <= |trace| && (forall k :: 0 <= k < gets - 1 ==> GoesOn(kind, trace[k]))
              && !GoesOn(kind, trace[gets - 1]) && IsOutcomeOf(kind, trace[gets - 1], outcome.value)
    ensures |sleeps| == if outcome.Some? && !outcome.value.Cancelled? then gets - 1 else gets
    ensures sleeps == Intervals(trace, pollIntervalMs, |sleeps|)
  {
    DecisionByRounds(kind, trace);
    var interval := pollIntervalMs;
    gets, sleeps := 0, [];
    while gets < |trace|
      invariant gets <= |trace| && |sleeps| == gets
      invariant FirstDecision(kind, trace[..gets]).None?
      invariant interval == IntervalAfter(trace, pollIntervalMs, gets)
      invariant sleeps == Intervals(trace, pollIntervalMs, gets)
    {
      var round := trace[gets];
      DecisiveRoundDecides(kind, trace, gets);
      gets := gets + 1;
      if round.reply.GetFailed? {
        return Some(GetError(round.reply.error)), gets, sleeps;
      }
      match Classify(kind, round.reply.status) {
        case Pending =>
          if interval <= 0 {
            interval := GetPollInterval(round.reply.hint);
          }
          sleeps := sleeps + [interval];
        case Terminal =>
          return Some(Returned(round.reply.body)), gets, sleeps;
        case Unknown =>
          return Some(InvalidStatus(round.reply.status)), gets, sleeps;
      }
      if round.done {
        return Some(Cancelled), gets, sleeps;
      }
    }
    assert trace[..gets] == trace;
    outcome := None;
  }
}
