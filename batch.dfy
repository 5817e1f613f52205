/** The batch runner of `run_streak_bot`: every account in list order, up to
    `MaxRetries` attempts each, success and failure counters, and the pauses. */
module Batch {

  /** `MAX_RETRIES`. */
  const MaxRetries: nat := 3

  /** The number of the first attempt, as `range(MAX_RETRIES)` counts. */
  const FirstAttempt: nat := 0

  /** What the batch does, in order: each call of the per-account workflow with its
      outcome, the log line and fixed pause of a retry, the verdict logged for an
      account, and the randomised pause before the next account. */
  datatype Event =
    | Attempt(user: string, ok: bool)
    | Retry(user: string, attempt: nat)
    | Succeeded(user: string)
    | Failed(user: string)
    | Pause(user: string)

  /** What a run reports: nothing for an empty list, otherwise the two counters and
      the events of the run in order. */
  datatype Summary =
    | NoUsers
    | Completed(successCount: nat, failCount: nat, log: seq<Event>)

  // The workflow is an oracle: `delivered` is the set of pairs (i, a) such that
  // attempt a for the i-th entry of the list succeeds. The run is deterministic and
  // asks each (i, a) at most once, so every environment that answers from the history
  // so far is of this form.

  /** Attempts made for entry i from attempt a on: up to and including the first
      success, and never more than `MaxRetries`. */
  function AttemptsFrom(delivered: set<(nat, nat)>, i: nat, a: nat): (n: nat)
    requires a < MaxRetries
    ensures a < n <= MaxRetries
    ensures forall b :: a <= b < n - 1 ==> (i, b) !in delivered
    ensures (i, n - 1) in delivered || n == MaxRetries
    decreases MaxRetries - a
  {
    if (i, a) in delivered || a == MaxRetries - 1 then a + 1 else AttemptsFrom(delivered, i, a + 1)
  }

  function Attempts(delivered: set<(nat, nat)>, i: nat): nat {
    AttemptsFrom(delivered, i, FirstAttempt)
  }

  /** Entry i succeeds when one of its attempts from a on, below `MaxRetries`, does. */
  predicate SucceedsFrom(delivered: set<(nat, nat)>, i: nat, a: nat)
    decreases MaxRetries - a
  {
    a < MaxRetries && ((i, a) in delivered || SucceedsFrom(delivered, i, a + 1))
  }

  predicate Succeeds(delivered: set<(nat, nat)>, i: nat) {
    SucceedsFrom(delivered, i, FirstAttempt)
  }

  /** The events of entry i from attempt a on, as the inner `for` loop emits them. */
  function UserLog(user: string, delivered: set<(nat, nat)>, i: nat, a: nat): seq<Event>
    decreases MaxRetries - a
  {
    if a >= MaxRetries then []
    else if (i, a) in delivered then [Attempt(user, true), Succeeded(user)]
    else if a < MaxRetries - 1 then [Attempt(user, false), Retry(user, a + 1)] + UserLog(user, delivered, i, a + 1)
    else [Attempt(user, false), Failed(user)]
  }

  /** The events of entry i: its attempts, then the pause unless its name equals the
      name of the LAST entry. */
  function EntryLog(users: seq<string>, delivered: set<(nat, nat)>, i: nat): seq<Event>
    requires i < |users|
  {
    UserLog(users[i], delivered, i, FirstAttempt) + (if users[i] != users[|users| - 1] then [Pause(users[i])] else [])
  }

  /** The events of the first n entries. */
  function BatchLog(users: seq<string>, delivered: set<(nat, nat)>, n: nat): seq<Event>
    requires n <= |users|
  {
    if n == 0 then [] else BatchLog(users, delivered, n - 1) + EntryLog(users, delivered, n - 1)
  }

  /** The number of succeeding entries among the first n. */
  function SuccessCount(delivered: set<(nat, nat)>, n: nat): (count: nat)
    ensures count <= n
  {
    if n == 0 then 0 else SuccessCount(delivered, n - 1) + (if Succeeds(delivered, n - 1) then 1 else 0)
  }

  /** The inner `for attempt in range(MAX_RETRIES)` loop for entry i: calls the
      workflow until it succeeds, at most `MaxRetries` times, emitting the attempt,
      retry and verdict events; `succeeded` says which counter the entry increments. */
  method SendWithRetries(username: string, delivered: set<(nat, nat)>, i: nat)
    returns (succeeded: bool, events: seq<Event>)
    ensures succeeded == Succeeds(delivered, i)
    ensures events == UserLog(username, delivered, i, FirstAttempt)
  {
    events := [];
    succeeded := false;
    for attempt := 0 to MaxRetries
      invariant events + UserLog(username, delivered, i, attempt) == UserLog(username, delivered, i, FirstAttempt)
      invariant forall b :: 0 <= b < attempt ==> (i, b) !in delivered
      invariant !succeeded
    {
      var ok := (i, attempt) in delivered;
      if ok {
        succeeded := true;
        events := events + [Attempt(username, ok), Succeeded(username)];
        return;
      } else if attempt < MaxRetries - 1 {
        var round := [Attempt(username, ok), Retry(username, attempt + 1)];
        assert UserLog(username, delivered, i, attempt) == round + UserLog(username, delivered, i, attempt + 1);
        assert events + UserLog(username, delivered, i, attempt) == (events + round) + UserLog(username, delivered, i, attempt + 1);
        events := events + round;
      } else {
        events := events + [Attempt(username, ok), Failed(username)];
      }
    }
  }

  /** `run_streak_bot` from the moment the list is loaded: nothing when the list is
      empty, otherwise every entry in order with its retries, counters and pauses. */
  method RunStreakBot(users: seq<string>, delivered: set<(nat, nat)>) returns (summary: Summary)
    ensures users == [] <==> summary == NoUsers
    ensures summary.Completed? ==>
      && summary.successCount == SuccessCount(delivered, |users|)
      && summary.successCount + summary.failCount == |users|
      && summary.log == BatchLog(users, delivered, |users|)
    ensures summary.Completed? ==>
      && Count(summary.log, SucceededKind) == summary.successCount
      && Count(summary.log, FailedKind) == summary.failCount
  {
    if users == [] {
      return NoUsers;
    }
    var successCount, failCount := 0, 0;
    var log: seq<Event> := [];
    for i := 0 to |users|
      invariant log == BatchLog(users, delivered, i)
      invariant successCount == SuccessCount(delivered, i)
      invariant successCount + failCount == i
    {
      var username := users[i];
      var succeeded, events := SendWithRetries(username, delivered, i);
      if succeeded {
        successCount := successCount + 1;
      } else {
        failCount := failCount + 1;
      }
      if username != users[|users| - 1] {
        events := events + [Pause(username)];
      }
      log := log + events;
    }
    BatchLogVerdicts(users, delivered);
    return Completed(successCount, failCount, log);
  }

  // ---------------------------------------------------------------------------
  // Properties of the specification

  /** An entry succeeds exactly when its last attempt does; otherwise it used all
      `MaxRetries` attempts. The attempts before the last one all failed. */
  lemma AttemptsOutcome(delivered: set<(nat, nat)>, i: nat)
    ensures 1 <= Attempts(delivered, i) <= MaxRetries
    ensures Succeeds(delivered, i) <==> (i, Attempts(delivered, i) - 1) in delivered
    ensures !Succeeds(delivered, i) ==> Attempts(delivered, i) == MaxRetries
    ensures forall b :: 0 <= b < Attempts(delivered, i) - 1 ==> (i, b) !in delivered
  {
    SucceedsSpec(delivered, i, FirstAttempt);
    var n := Attempts(delivered, i);
    if Succeeds(delivered, i) {
      var a :| 0 <= a < MaxRetries && (i, a) in delivered;
      assert a >= n - 1;
    }
  }

  /** `SucceedsFrom` is "some attempt from a on, below `MaxRetries`, delivers". */
  lemma {:induction false} SucceedsSpec(delivered: set<(nat, nat)>, i: nat, a: nat)
    ensures SucceedsFrom(delivered, i, a) <==> exists b :: a <= b < MaxRetries && (i, b) in delivered
    decreases MaxRetries - a
  {
    if a < MaxRetries {
      SucceedsSpec(delivered, i, a + 1);
      if (exists b :: a <= b < MaxRetries && (i, b) in delivered) && (i, a) !in delivered {
        var b :| a <= b < MaxRetries && (i, b) in delivered;
        assert a + 1 <= b;
      }
    }
  }

  /** The verdict logged for an entry. */
  function Verdict(user: string, ok: bool): Event {
    if ok then Succeeded(user) else Failed(user)
  }

  /** Failed attempts from..to-1, each followed by its "Retry" line and pause. */
  function FailedRounds(user: string, from: nat, to: nat): seq<Event>
    requires from <= to
    decreases (to as int) - (from as int)
  {
    if from >= to then [] else [Attempt(user, false), Retry(user, from + 1)] + FailedRounds(user, from + 1, to)
  }

  /** The events of one entry, stated independently of the loop: the failed rounds,
      then the deciding attempt and the verdict. */
  lemma {:induction false} UserLogShape(user: string, delivered: set<(nat, nat)>, i: nat, a: nat)
    requires a < MaxRetries
    ensures var n := AttemptsFrom(delivered, i, a);
      UserLog(user, delivered, i, a) == FailedRounds(user, a, n - 1) + [Attempt(user, (i, n - 1) in delivered), Verdict(user, (i, n - 1) in delivered)]
    decreases MaxRetries - a
  {
    if (i, a) !in delivered && a < MaxRetries - 1 {
      UserLogShape(user, delivered, i, a + 1);
    }
  }

  /** The k-th failed round of `FailedRounds`. */
  lemma {:induction false} FailedRoundsAt(user: string, from: nat, to: nat, k: nat)
    requires from <= to
    ensures |FailedRounds(user, from, to)| == 2 * (to - from)
    ensures k < to - from ==>
      FailedRounds(user, from, to)[2 * k] == Attempt(user, false) &&
      FailedRounds(user, from, to)[2 * k + 1] == Retry(user, from + k + 1)
    decreases (to as int) - (from as int)
  {
    if from < to {
      FailedRoundsAt(user, from + 1, to, if k == 0 then 0 else k - 1);
    }
  }

  /** A retry pause happens only between two attempts of the same entry, right after
      a failed one, and never after the last attempt. */
  lemma RetryBetweenAttempts(user: string, delivered: set<(nat, nat)>, i: nat, j: nat)
    requires j < |UserLog(user, delivered, i, FirstAttempt)| && UserLog(user, delivered, i, FirstAttempt)[j].Retry?
    ensures 0 < j < |UserLog(user, delivered, i, FirstAttempt)| - 1
    ensures UserLog(user, delivered, i, FirstAttempt)[j - 1] == Attempt(user, false)
    ensures UserLog(user, delivered, i, FirstAttempt)[j + 1].Attempt?
  {
    var n := Attempts(delivered, i);
    UserLogShape(user, delivered, i, FirstAttempt);
    var rounds := FailedRounds(user, FirstAttempt, n - 1);
    var tail := [Attempt(user, (i, n - 1) in delivered), Verdict(user, (i, n - 1) in delivered)];
    var log := UserLog(user, delivered, i, FirstAttempt);
    assert log == rounds + tail;
    FailedRoundsAt(user, FirstAttempt, n - 1, j / 2);
    assert forall k :: |rounds| <= k < |log| ==> log[k] == tail[k - |rounds|];
    assert j < |rounds|;
    assert log[j] == rounds[j];
    assert j % 2 == 1;
    assert log[j - 1] == rounds[2 * (j / 2)];
    if j + 1 < |rounds| {
      FailedRoundsAt(user, FirstAttempt, n - 1, j / 2 + 1);
      assert log[j + 1] == rounds[2 * (j / 2 + 1)];
    } else {
      assert log[j + 1] == tail[0];
    }
  }

  /** The kind of an event, without its data. */
  datatype Kind = AttemptKind | RetryKind | SucceededKind | FailedKind | PauseKind

  function KindOf(e: Event): Kind {
    match e
    case Attempt(_, _) => AttemptKind
    case Retry(_, _) => RetryKind
    case Succeeded(_) => SucceededKind
    case Failed(_) => FailedKind
    case Pause(_) => PauseKind
  }

  /** How many events of a log are of the given kind. */
  function Count(log: seq<Event>, kind: Kind): nat {
    if log == [] then 0 else Count(log[..|log| - 1], kind) + (if KindOf(log[|log| - 1]) == kind then 1 else 0)
  }

  lemma {:induction false} CountAppend(a: seq<Event>, b: seq<Event>, kind: Kind)
    ensures Count(a + b, kind) == Count(a, kind) + Count(b, kind)
    decreases |b|
  {
    if b == [] {
      assert a + b == a;
    } else {
      assert (a + b)[..|a + b| - 1] == a + b[..|b| - 1];
      CountAppend(a, b[..|b| - 1], kind);
    }
  }

  lemma CountPair(x: Event, y: Event, kind: Kind)
    ensures Count([x, y], kind) == (if KindOf(x) == kind then 1 else 0) + (if KindOf(y) == kind then 1 else 0)
  {
    assert [x, y][..1] == [x];
    CountSingle(x, kind);
  }

  lemma CountSingle(x: Event, kind: Kind)
    ensures Count([x], kind) == (if KindOf(x) == kind then 1 else 0)
  {
    assert [x][..0] == [];
  }

  lemma {:induction false} CountFailedRounds(user: string, from: nat, to: nat)
    requires from <= to
    ensures Count(FailedRounds(user, from, to), AttemptKind) == to - from
    ensures Count(FailedRounds(user, from, to), SucceededKind) == 0
    ensures Count(FailedRounds(user, from, to), FailedKind) == 0
    ensures Count(FailedRounds(user, from, to), PauseKind) == 0
    decreases (to as int) - (from as int)
  {
    if from < to {
      var head: seq<Event> := [Attempt(user, false), Retry(user, from + 1)];
      CountPair(head[0], head[1], AttemptKind);
      CountPair(head[0], head[1], SucceededKind);
      CountPair(head[0], head[1], FailedKind);
      CountPair(head[0], head[1], PauseKind);
      CountFailedRounds(user, from + 1, to);
      CountAppend(head, FailedRounds(user, from + 1, to), AttemptKind);
      CountAppend(head, FailedRounds(user, from + 1, to), SucceededKind);
      CountAppend(head, FailedRounds(user, from + 1, to), FailedKind);
      CountAppend(head, FailedRounds(user, from + 1, to), PauseKind);
    }
  }

  /** The events of one entry: as many attempts as `Attempts`, exactly one verdict,
      and it is a success exactly when the entry succeeds. */
  lemma UserLogCounts(user: string, delivered: set<(nat, nat)>, i: nat)
    ensures Count(UserLog(user, delivered, i, FirstAttempt), AttemptKind) == Attempts(delivered, i)
    ensures Count(UserLog(user, delivered, i, FirstAttempt), SucceededKind) == (if Succeeds(delivered, i) then 1 else 0)
    ensures Count(UserLog(user, delivered, i, FirstAttempt), FailedKind) == (if Succeeds(delivered, i) then 0 else 1)
    ensures Count(UserLog(user, delivered, i, FirstAttempt), PauseKind) == 0
  {
    var n := Attempts(delivered, i);
    AttemptsOutcome(delivered, i);
    UserLogShape(user, delivered, i, FirstAttempt);
    CountFailedRounds(user, FirstAttempt, n - 1);
    var last: seq<Event> := [Attempt(user, (i, n - 1) in delivered), Verdict(user, (i, n - 1) in delivered)];
    CountPair(last[0], last[1], AttemptKind);
    CountPair(last[0], last[1], SucceededKind);
    CountPair(last[0], last[1], FailedKind);
    CountPair(last[0], last[1], PauseKind);
    CountAppend(FailedRounds(user, FirstAttempt, n - 1), last, AttemptKind);
    CountAppend(FailedRounds(user, FirstAttempt, n - 1), last, SucceededKind);
    CountAppend(FailedRounds(user, FirstAttempt, n - 1), last, FailedKind);
    CountAppend(FailedRounds(user, FirstAttempt, n - 1), last, PauseKind);
  }

  /** The events of one entry together with its pause. */
  lemma EntryLogCounts(users: seq<string>, delivered: set<(nat, nat)>, i: nat)
    requires i < |users|
    ensures 1 <= Count(EntryLog(users, delivered, i), AttemptKind) <= MaxRetries
    ensures Count(EntryLog(users, delivered, i), SucceededKind) == (if Succeeds(delivered, i) then 1 else 0)
    ensures Count(EntryLog(users, delivered, i), FailedKind) == (if Succeeds(delivered, i) then 0 else 1)
    ensures Count(EntryLog(users, delivered, i), PauseKind) == (if users[i] != users[|users| - 1] then 1 else 0)
  {
    UserLogCounts(users[i], delivered, i);
    AttemptsOutcome(delivered, i);
    var pause: seq<Event> := if users[i] != users[|users| - 1] then [Pause(users[i])] else [];
    if pause != [] {
      CountSingle(Pause(users[i]), PauseKind);
      CountSingle(Pause(users[i]), AttemptKind);
      CountSingle(Pause(users[i]), SucceededKind);
      CountSingle(Pause(users[i]), FailedKind);
    }
    var ul := UserLog(users[i], delivered, i, FirstAttempt);
    CountAppend(ul, pause, AttemptKind);
    CountAppend(ul, pause, SucceededKind);
    CountAppend(ul, pause, FailedKind);
    CountAppend(ul, pause, PauseKind);
  }

  /** No pause follows the last entry: the log of a whole batch ends with the last
      entry's verdict. */
  lemma BatchLogEnds(users: seq<string>, delivered: set<(nat, nat)>)
    requires users != []
    ensures var log := BatchLog(users, delivered, |users|);
      log != [] && log[|log| - 1] == Verdict(users[|users| - 1], Succeeds(delivered, |users| - 1))
  {
    var i := |users| - 1;
    UserLogShape(users[i], delivered, i, FirstAttempt);
    AttemptsOutcome(delivered, i);
  }

  /** An entry carrying the same name as the last entry is never followed by a pause. */
  lemma NoPauseAfterNameOfLast(users: seq<string>, delivered: set<(nat, nat)>, i: nat)
    requires i < |users| && users[i] == users[|users| - 1]
    ensures EntryLog(users, delivered, i) == UserLog(users[i], delivered, i, FirstAttempt)
    ensures Count(EntryLog(users, delivered, i), PauseKind) == 0
  {
    assert UserLog(users[i], delivered, i, FirstAttempt) + [] == UserLog(users[i], delivered, i, FirstAttempt);
    UserLogCounts(users[i], delivered, i);
  }

  /** The number of entries among the first n whose name differs from the last
      entry's name: the entries followed by the inter-user pause. */
  function PausedEntries(users: seq<string>, n: nat): (count: nat)
    requires n <= |users|
    ensures count <= n
  {
    if n == 0 then 0 else PausedEntries(users, n - 1) + (if users[n - 1] != users[|users| - 1] then 1 else 0)
  }

  /** Among pairwise distinct names, every entry before the last differs from the last. */
  lemma {:induction false} PausedEntriesDistinct(users: seq<string>, n: nat)
    requires n < |users|
    requires forall i, j :: 0 <= i < j < |users| ==> users[i] != users[j]
    ensures PausedEntries(users, n) == n
  {
    if n > 0 {
      PausedEntriesDistinct(users, n - 1);
    }
  }

  /** A list without repeated names gets a pause between every two entries and none
      after the last. */
  lemma DistinctUsersPauses(users: seq<string>)
    requires users != []
    requires forall i, j :: 0 <= i < j < |users| ==> users[i] != users[j]
    ensures PausedEntries(users, |users|) == |users| - 1
  {
    PausedEntriesDistinct(users, |users| - 1);
  }

  /** The pause count of one entry, on its own. */
  lemma EntryPauses(users: seq<string>, delivered: set<(nat, nat)>, i: nat)
    requires i < |users|
    ensures Count(EntryLog(users, delivered, i), PauseKind) == (if users[i] != users[|users| - 1] then 1 else 0)
  {
    EntryLogCounts(users, delivered, i);
  }

  /** The attempt count of one entry, on its own. */
  lemma EntryAttempts(users: seq<string>, delivered: set<(nat, nat)>, i: nat)
    requires i < |users|
    ensures 1 <= Count(EntryLog(users, delivered, i), AttemptKind) <= MaxRetries
  {
    EntryLogCounts(users, delivered, i);
  }

  /** The verdict counts of one entry, on their own. */
  lemma EntryVerdicts(users: seq<string>, delivered: set<(nat, nat)>, i: nat)
    requires i < |users|
    ensures Count(EntryLog(users, delivered, i), SucceededKind) == (if Succeeds(delivered, i) then 1 else 0)
    ensures Count(EntryLog(users, delivered, i), FailedKind) == (if Succeeds(delivered, i) then 0 else 1)
  {
    EntryLogCounts(users, delivered, i);
  }

  /** The logs of a sequence of entries, one after the other. */
  function Flatten(logs: seq<seq<Event>>): seq<Event> {
    if logs == [] then [] else Flatten(logs[..|logs| - 1]) + logs[|logs| - 1]
  }

  /** The sum of a sequence of numbers. */
  function Total(xs: seq<nat>): nat {
    if xs == [] then 0 else Total(xs[..|xs| - 1]) + xs[|xs| - 1]
  }

  /** Counting a flattened log sums the counts of its parts. */
  lemma {:induction false} CountFlatten(logs: seq<seq<Event>>, kind: Kind, xs: seq<nat>)
    requires |xs| == |logs|
    requires forall i :: 0 <= i < |logs| ==> Count(logs[i], kind) == xs[i]
    ensures Count(Flatten(logs), kind) == Total(xs)
  {
    if logs != [] {
      var m := |logs| - 1;
      CountFlatten(logs[..m], kind, xs[..m]);
      CountAppend(Flatten(logs[..m]), logs[m], kind);
    }
  }

  /** A sum of numbers each between 1 and `MaxRetries`. */
  lemma {:induction false} TotalBounds(xs: seq<nat>)
    requires forall i :: 0 <= i < |xs| ==> 1 <= xs[i] <= MaxRetries
    ensures |xs| <= Total(xs) <= MaxRetries * |xs|
  {
    if xs != [] {
      var m := |xs| - 1;
      TotalBounds(xs[..m]);
    }
  }

  /** The logs of the first n entries. */
  function EntryLogs(users: seq<string>, delivered: set<(nat, nat)>, n: nat): seq<seq<Event>>
    requires n <= |users|
  {
    seq(n, i requires 0 <= i < n => EntryLog(users, delivered, i))
  }

  /** The batch log is the entries' logs one after the other. */
  lemma {:induction false} BatchLogFlat(users: seq<string>, delivered: set<(nat, nat)>, n: nat)
    requires n <= |users|
    ensures BatchLog(users, delivered, n) == Flatten(EntryLogs(users, delivered, n))
  {
    if n > 0 {
      BatchLogFlat(users, delivered, n - 1);
      assert EntryLogs(users, delivered, n)[..n - 1] == EntryLogs(users, delivered, n - 1);
    }
  }

  /** 1 for each succeeding entry among the first n, 0 for each failing one. */
  function SuccessFlags(delivered: set<(nat, nat)>, n: nat): seq<nat> {
    seq<nat>(n, i requires 0 <= i < n => if Succeeds(delivered, i) then 1 else 0)
  }

  function FailureFlags(delivered: set<(nat, nat)>, n: nat): seq<nat> {
    seq<nat>(n, i requires 0 <= i < n => if Succeeds(delivered, i) then 0 else 1)
  }

  function PauseFlags(users: seq<string>, n: nat): seq<nat>
    requires n <= |users|
  {
    seq<nat>(n, i requires 0 <= i < n => if users[i] != users[|users| - 1] then 1 else 0)
  }

  lemma {:induction false} SuccessTotal(delivered: set<(nat, nat)>, n: nat)
    ensures Total(SuccessFlags(delivered, n)) == SuccessCount(delivered, n)
    ensures Total(FailureFlags(delivered, n)) == n - SuccessCount(delivered, n)
  {
    if n > 0 {
      SuccessTotal(delivered, n - 1);
      assert SuccessFlags(delivered, n)[..n - 1] == SuccessFlags(delivered, n - 1);
      assert FailureFlags(delivered, n)[..n - 1] == FailureFlags(delivered, n - 1);
    }
  }

  lemma {:induction false} PauseTotal(users: seq<string>, n: nat)
    requires n <= |users|
    ensures Total(PauseFlags(users, n)) == PausedEntries(users, n)
  {
    if n > 0 {
      PauseTotal(users, n - 1);
      assert PauseFlags(users, n)[..n - 1] == PauseFlags(users, n - 1);
    }
  }

  /** Over the whole log: one SUCCESS line per succeeding entry and one FAILED line
      per failing one. */
  lemma BatchLogVerdicts(users: seq<string>, delivered: set<(nat, nat)>)
    ensures Count(BatchLog(users, delivered, |users|), SucceededKind) == SuccessCount(delivered, |users|)
    ensures Count(BatchLog(users, delivered, |users|), FailedKind) == |users| - SuccessCount(delivered, |users|)
  {
    var n := |users|;
    var logs := EntryLogs(users, delivered, n);
    BatchLogFlat(users, delivered, n);
    forall i | 0 <= i < n
      ensures Count(logs[i], SucceededKind) == SuccessFlags(delivered, n)[i]
      ensures Count(logs[i], FailedKind) == FailureFlags(delivered, n)[i]
    {
      EntryVerdicts(users, delivered, i);
    }
    CountFlatten(logs, SucceededKind, SuccessFlags(delivered, n));
    CountFlatten(logs, FailedKind, FailureFlags(delivered, n));
    SuccessTotal(delivered, n);
  }

  /** Over the whole log: a pause per entry whose name is not the last entry's. */
  lemma BatchLogPauses(users: seq<string>, delivered: set<(nat, nat)>)
    ensures Count(BatchLog(users, delivered, |users|), PauseKind) == PausedEntries(users, |users|)
  {
    var n := |users|;
    var logs := EntryLogs(users, delivered, n);
    BatchLogFlat(users, delivered, n);
    forall i | 0 <= i < n
      ensures Count(logs[i], PauseKind) == PauseFlags(users, n)[i]
    {
      EntryPauses(users, delivered, i);
    }
    CountFlatten(logs, PauseKind, PauseFlags(users, n));
    PauseTotal(users, n);
  }

  /** Over the whole log: between one and `MaxRetries` attempts per entry. */
  lemma BatchLogAttempts(users: seq<string>, delivered: set<(nat, nat)>)
    ensures |users| <= Count(BatchLog(users, delivered, |users|), AttemptKind) <= MaxRetries * |users|
  {
    var n := |users|;
    var logs := EntryLogs(users, delivered, n);
    BatchLogFlat(users, delivered, n);
    var attempts := seq<nat>(n, i requires 0 <= i < n => Count(logs[i], AttemptKind));
    forall i | 0 <= i < n
      ensures 1 <= attempts[i] <= MaxRetries
    {
      EntryAttempts(users, delivered, i);
    }
    CountFlatten(logs, AttemptKind, attempts);
    TotalBounds(attempts);
  }
}
