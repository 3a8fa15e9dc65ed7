/** Counting requests in windows of time, with forgotten windows cleaned up now and then. */
module RateLimiter {
  import opened Wrappers

  /** How many requests a window has seen, and when it ends. */
  datatype Entry = Entry(count: nat, reset: int)

  type Entries = map<string, Entry>

  // --- A limiter that never forgets ----------------------------------------------------

  /** The window a request at this time falls into. */
  function Current(entries: Entries, key: string, now: int, window: int): Entry {
    if key in entries && entries[key].reset > now then entries[key] else Entry(0, now + window)
  }

  function Counted(entries: Entries, key: string, now: int, window: int): Entries {
    var current := Current(entries, key, now, window);
    entries[key := current.(count := current.count + 1)]
  }

  predicate Allowed(entries: Entries, key: string, now: int, window: int, limit: int) {
    Current(entries, key, now, window).count + 1 <= limit
  }

  // --- The limiter with cleanup --------------------------------------------------------

  predicate CleanupDue(last: Option<int>, now: int, window: int) {
    last.None? || now - last.value >= window
  }

  /** Without the windows that are over. */
  function Cleaned(entries: Entries, now: int): Entries {
    map key | key in entries && entries[key].reset > now :: entries[key]
  }

  function Tidied(entries: Entries, last: Option<int>, now: int, window: int): Entries {
    if CleanupDue(last, now, window) then Cleaned(entries, now) else entries
  }

  class WindowLimiter {
    const limit: int
    const window: int
    var entries: Entries
    var lastCleanup: Option<int>

    constructor (limit: int, window: int)
      ensures this.limit == limit && this.window == window && entries == map[] && lastCleanup == None
    {
      this.limit := limit;
      this.window := window;
      entries := map[];
      lastCleanup := None;
    }

    /** Deletes the windows that are over, one by one. */
    method Cleanup(now: int)
      modifies this`entries
      ensures entries == Cleaned(old(entries), now)
    {
      var keys := entries.Keys;
      ghost var before := entries;
      while keys != {}
        invariant keys <= before.Keys && entries.Keys <= before.Keys
        invariant forall key | key in entries :: entries[key] == before[key]
        invariant forall key | key in before :: key in entries <==> key in keys || before[key].reset > now
        decreases |keys|
      {
        var key :| key in keys;
        if entries[key].reset <= now {
          entries := entries - {key};
        }
        keys := keys - {key};
      }
    }

    /** Counts a request and says whether it is within the limit, and how long the window lasts. */
    method Allow(key: string, now: int) returns (ok: bool, wait: int)
      modifies this
      ensures var tidied := Tidied(old(entries), old(lastCleanup), now, window);
              && entries == Counted(tidied, key, now, window)
              && ok == Allowed(tidied, key, now, window, limit)
              && wait == entries[key].reset - now
      ensures lastCleanup == if CleanupDue(old(lastCleanup), now, window) then Some(now) else old(lastCleanup)
    {
      if lastCleanup.None? || now - lastCleanup.value >= window {
        Cleanup(now);
        lastCleanup := Some(now);
      }
      var entry := Entry(0, now + window);
      if key in entries && entries[key].reset > now {
        entry := entries[key];
      }
      entry := entry.(count := entry.count + 1);
      entries := entries[key := entry];
      ok := entry.count <= limit;
      wait := entry.reset - now;
    }
  }

  // --- Cleanup is invisible ------------------------------------------------------------

  datatype Call = Call(key: string, time: int)

  predicate InOrder(calls: seq<Call>) {
    forall i, k | 0 <= i < k < |calls| :: calls[i].time <= calls[k].time
  }

  /** The answers of the limiter with cleanup. */
  function Answers(entries: Entries, last: Option<int>, calls: seq<Call>, window: int, limit: int): (answers: seq<bool>)
    ensures |answers| == |calls|
    decreases |calls|
  {
    if calls == [] then []
    else
      var c := calls[0];
      var tidied := Tidied(entries, last, c.time, window);
      [Allowed(tidied, c.key, c.time, window, limit)]
      + Answers(Counted(tidied, c.key, c.time, window), if CleanupDue(last, c.time, window) then Some(c.time) else last, calls[1..], window, limit)
  }

  /** The answers of the limiter that never forgets. */
  function PlainAnswers(entries: Entries, calls: seq<Call>, window: int, limit: int): (answers: seq<bool>)
    ensures |answers| == |calls|
    decreases |calls|
  {
    if calls == [] then []
    else
      var c := calls[0];
      [Allowed(entries, c.key, c.time, window, limit)] + PlainAnswers(Counted(entries, c.key, c.time, window), calls[1..], window, limit)
  }

  /** The limiters hold the same windows but for some that are over. */
  predicate Agree(a: Entries, b: Entries, now: int) {
    && (forall key | key in a :: key in b && b[key] == a[key])
    && (forall key | key in b && b[key].reset > now :: key in a)
  }

  lemma {:induction false} SameAnswers(a: Entries, b: Entries, last: Option<int>, calls: seq<Call>, window: int, limit: int)
    requires InOrder(calls) && (calls != [] ==> Agree(a, b, calls[0].time))
    ensures Answers(a, last, calls, window, limit) == PlainAnswers(b, calls, window, limit)
    decreases |calls|
  {
    if calls != [] {
      var c := calls[0];
      var tidied := Tidied(a, last, c.time, window);
      assert Agree(tidied, b, c.time);
      var a1, b1 := Counted(tidied, c.key, c.time, window), Counted(b, c.key, c.time, window);
      assert Agree(a1, b1, c.time);
      assert |calls| > 1 ==> c.time <= calls[1].time;
      SameAnswers(a1, b1, if CleanupDue(last, c.time, window) then Some(c.time) else last, calls[1..], window, limit);
    }
  }

  /** From the start, for calls in order of time, nobody can tell the limiters apart. */
  lemma CleanupIsInvisible(calls: seq<Call>, window: int, limit: int)
    requires InOrder(calls)
    ensures Answers(map[], None, calls, window, limit) == PlainAnswers(map[], calls, window, limit)
  {
    SameAnswers(map[], map[], None, calls, window, limit);
  }

  // --- Windows -------------------------------------------------------------------------

  /** A call opens a window if every window that an earlier call with its key has opened is over. */
  predicate Opens(calls: seq<Call>, i: nat, window: int)
    requires i < |calls|
    decreases i
  {
    forall k | 0 <= k < i && calls[k].key == calls[i].key && Opens(calls, k, window) :: calls[k].time + window <= calls[i].time
  }

  /** How many calls with a key there are from one place to before another. */
  function CallsWith(calls: seq<Call>, key: string, start: nat, end: nat): nat
    requires end <= |calls|
    decreases end
  {
    if end <= start then 0 else CallsWith(calls, key, start, end - 1) + if calls[end - 1].key == key then 1 else 0
  }

  /** The windows after some calls. */
  function After(entries: Entries, calls: seq<Call>, n: nat, window: int): Entries
    requires n <= |calls|
  {
    if n == 0 then entries else Counted(After(entries, calls, n - 1, window), calls[n - 1].key, calls[n - 1].time, window)
  }

  lemma {:induction false} AfterFirst(entries: Entries, calls: seq<Call>, n: nat, window: int)
    requires 0 < n <= |calls|
    ensures After(entries, calls, n, window) == After(Counted(entries, calls[0].key, calls[0].time, window), calls[1..], n - 1, window)
  {
    hide Counted;
    if n > 1 {
      AfterFirst(entries, calls, n - 1, window);
    }
  }

  lemma {:induction false} AnswerAt(entries: Entries, calls: seq<Call>, i: nat, window: int, limit: int)
    requires i < |calls|
    ensures PlainAnswers(entries, calls, window, limit)[i] == Allowed(After(entries, calls, i, window), calls[i].key, calls[i].time, window, limit)
    decreases i
  {
    hide Counted, Allowed;
    if i > 0 {
      AnswerAt(Counted(entries, calls[0].key, calls[0].time, window), calls[1..], i - 1, window, limit);
      AfterFirst(entries, calls, i, window);
    }
  }

  /** The last window before call n that a call with the key has opened. */
  predicate LastWindow(calls: seq<Call>, key: string, first: nat, n: nat, window: int) {
    && first < n <= |calls| && calls[first].key == key && Opens(calls, first, window)
    && forall k | first < k < n && calls[k].key == key :: calls[k].time < calls[first].time + window
  }

  lemma NoneSince(calls: seq<Call>, key: string, first: nat, n: nat, window: int, k: nat)
    requires LastWindow(calls, key, first, n, window) && k < n && calls[k].key == key && Opens(calls, k, window)
    ensures k <= first
  {
  }

  /** After the last window the next call with the key opens one exactly if that window is over. */
  lemma OpensNext(calls: seq<Call>, first: nat, i: nat, window: int)
    requires InOrder(calls) && i < |calls| && LastWindow(calls, calls[i].key, first, i, window)
    ensures Opens(calls, i, window) <==> calls[first].time + window <= calls[i].time
  {
    if calls[first].time + window <= calls[i].time {
      forall k | 0 <= k < i && calls[k].key == calls[i].key && Opens(calls, k, window)
        ensures calls[k].time + window <= calls[i].time
      {
        NoneSince(calls, calls[i].key, first, i, window, k);
      }
    }
  }

  /** What the limiter remembers of a key is the last window that was opened, and the calls since. */
  lemma {:induction false} Remembered(calls: seq<Call>, key: string, n: nat, window: int) returns (first: nat)
    requires InOrder(calls) && n <= |calls| && window > 0
    ensures var entries := After(map[], calls, n, window);
            if key in entries
            then LastWindow(calls, key, first, n, window) && entries[key] == Entry(CallsWith(calls, key, first, n), calls[first].time + window)
            else forall k | 0 <= k < n :: calls[k].key != key
    decreases n
  {
    hide Opens, CallsWith, InOrder;
    first := 0;
    if n > 0 {
      var last := n - 1;
      first := Remembered(calls, key, last, window);
      CallsStep(calls, key, first, n);
      CallsStep(calls, key, last, n);
      var before := After(map[], calls, last, window);
      if calls[last].key == key && key in before {
        OpensNext(calls, first, last, window);
      }
      if calls[last].key == key && (key !in before || before[key].reset <= calls[last].time) {
        if key !in before {
          OpensFirst(calls, last, window);
        }
        first := last;
      }
    }
  }

  lemma OpensFirst(calls: seq<Call>, i: nat, window: int)
    requires i < |calls| && forall k | 0 <= k < i :: calls[k].key != calls[i].key
    ensures Opens(calls, i, window)
  {
  }

  lemma CallsStep(calls: seq<Call>, key: string, start: nat, end: nat)
    requires 0 < end <= |calls|
    ensures start < end ==> CallsWith(calls, key, start, end) == CallsWith(calls, key, start, end - 1) + if calls[end - 1].key == key then 1 else 0
    ensures CallsWith(calls, key, end - 1, end - 1) == 0
  {
  }

  /** What decides about a call: the window it falls into was opened by some call with its key and lasts from then on, whatever was refused in it; the call is allowed as long as the calls of the window, with those refused, are within the limit. */
  lemma WindowDecides(calls: seq<Call>, i: nat, window: int, limit: int) returns (first: nat)
    requires InOrder(calls) && i < |calls| && window > 0
    ensures first <= i && calls[first].key == calls[i].key && Opens(calls, first, window) && calls[i].time < calls[first].time + window
    ensures first == i <==> Opens(calls, i, window)
    ensures Answers(map[], None, calls, window, limit)[i] <==> CallsWith(calls, calls[i].key, first, i + 1) <= limit
  {
    hide Opens, CallsWith, InOrder, Answers, PlainAnswers;
    CleanupIsInvisible(calls, window, limit);
    AnswerAt(map[], calls, i, window, limit);
    var key := calls[i].key;
    first := Remembered(calls, key, i, window);
    CallsStep(calls, key, first, i + 1);
    CallsStep(calls, key, i, i + 1);
    var before := After(map[], calls, i, window);
    if key !in before {
      OpensFirst(calls, i, window);
      first := i;
    } else {
      OpensNext(calls, first, i, window);
      if before[key].reset <= calls[i].time {
        first := i;
      }
    }
  }

  /** A call that comes when the last window is over is allowed again, whatever was refused before. */
  lemma AllowedAgain(calls: seq<Call>, first: nat, i: nat, window: int, limit: int)
    requires InOrder(calls) && first < i < |calls| && window > 0 && limit >= 1
    requires calls[first].key == calls[i].key && Opens(calls, first, window) && calls[first].time + window <= calls[i].time
    requires forall k | first < k < i && calls[k].key == calls[i].key :: calls[k].time < calls[first].time + window
    ensures Answers(map[], None, calls, window, limit)[i]
  {
    hide Opens, CallsWith, InOrder, Answers;
    OpensNext(calls, first, i, window);
    var opener := WindowDecides(calls, i, window, limit);
    CallsStep(calls, calls[i].key, i, i + 1);
  }

  // --- What the limit means ------------------------------------------------------------

  /** How many calls with a key were allowed from a time on, for one window length. */
  function AllowedWithin(calls: seq<Call>, answers: seq<bool>, key: string, start: int, window: int): nat
    requires |answers| == |calls|
  {
    if calls == [] then 0
    else (if calls[0].key == key && start <= calls[0].time < start + window && answers[0] then 1 else 0)
         + AllowedWithin(calls[1..], answers[1..], key, start, window)
  }

  function Least(a: int, b: int): int { if a < b then a else b }

  /** Every window has been opened by a call. */
  predicate Opened(entries: Entries) {
    forall key | key in entries :: entries[key].count >= 1
  }

  /** How many more calls can be allowed from the start on: what is left of a window that began before, and a full one, unless that has begun. */
  function Budget(entries: Entries, key: string, start: int, window: int, limit: nat): int {
    if key in entries then
      if entries[key].reset - window >= start then limit - Least(entries[key].count, limit)
      else limit - Least(entries[key].count, limit) + limit
    else limit
  }

  lemma {:induction false} BudgetHolds(entries: Entries, calls: seq<Call>, key: string, start: int, window: int, limit: nat)
    requires InOrder(calls) && window > 0 && (calls != [] ==> start <= calls[0].time)
    ensures AllowedWithin(calls, PlainAnswers(entries, calls, window, limit), key, start, window) <= Budget(entries, key, start, window, limit)
    decreases |calls|
  {
    if calls != [] {
      var c := calls[0];
      var next := Counted(entries, c.key, c.time, window);
      assert |calls| > 1 ==> c.time <= calls[1].time;
      BudgetHolds(next, calls[1..], key, start, window, limit);
      if c.time >= start + window {
        NothingLater(calls, PlainAnswers(entries, calls, window, limit), key, start, window);
      }
    }
  }

  lemma {:induction false} NothingLater(calls: seq<Call>, answers: seq<bool>, key: string, start: int, window: int)
    requires InOrder(calls) && |answers| == |calls| && (calls != [] ==> calls[0].time >= start + window)
    ensures AllowedWithin(calls, answers, key, start, window) == 0
    decreases |calls|
  {
    if calls != [] {
      assert |calls| > 1 ==> calls[0].time <= calls[1].time;
      NothingLater(calls[1..], answers[1..], key, start, window);
    }
  }

  /** The most calls allowed in one window length: twice the limit, less the call that opened the window before. */
  function Most(limit: nat): nat {
    if limit == 0 then 0 else 2 * limit - 1
  }

  /** Calls before the start only matter through the window they leave. */
  lemma {:induction false} MostHolds(entries: Entries, calls: seq<Call>, key: string, start: int, window: int, limit: nat)
    requires InOrder(calls) && window > 0 && Opened(entries)
    ensures AllowedWithin(calls, PlainAnswers(entries, calls, window, limit), key, start, window) <= Most(limit)
    decreases |calls|
  {
    if calls != [] && calls[0].time < start {
      MostHolds(Counted(entries, calls[0].key, calls[0].time, window), calls[1..], key, start, window, limit);
    } else {
      BudgetHolds(entries, calls, key, start, window, limit);
    }
  }

  /** In any stretch of time as long as a window, less than twice the limit is allowed for a key. */
  lemma LessThanTwiceTheLimit(calls: seq<Call>, key: string, start: int, window: int, limit: nat)
    requires InOrder(calls) && window > 0
    ensures AllowedWithin(calls, Answers(map[], None, calls, window, limit), key, start, window) <= Most(limit)
  {
    CleanupIsInvisible(calls, window, limit);
    MostHolds(map[], calls, key, start, window, limit);
  }

  /** So many calls with a key at one time, and then others. */
  function Burst(n: nat, key: string, time: int, later: seq<Call>): seq<Call> {
    if n == 0 then later else [Call(key, time)] + Burst(n - 1, key, time, later)
  }

  lemma {:induction false} BurstInOrder(n: nat, key: string, time: int, later: seq<Call>)
    requires InOrder(later) && (later != [] ==> time <= later[0].time)
    ensures InOrder(Burst(n, key, time, later))
    ensures n > 0 ==> Burst(n, key, time, later)[0].time == time
    ensures n == 0 ==> Burst(n, key, time, later) == later
  {
    if n > 0 {
      BurstInOrder(n - 1, key, time, later);
      var rest := Burst(n - 1, key, time, later);
      assert forall i | 0 <= i < |rest| :: time <= rest[i].time;
    }
  }

  /** A burst within the limit is allowed as a whole. */
  lemma {:induction false} BurstAllowed(entries: Entries, n: nat, key: string, time: int, later: seq<Call>, start: int, window: int, limit: nat)
    requires window > 0 && n > 0 && Current(entries, key, time, window).count + n <= limit
    ensures var current := Current(entries, key, time, window);
            var calls := Burst(n, key, time, later);
            var after := entries[key := Entry(current.count + n, current.reset)];
            AllowedWithin(calls, PlainAnswers(entries, calls, window, limit), key, start, window)
            == (if start <= time < start + window then n else 0)
               + AllowedWithin(later, PlainAnswers(after, later, window, limit), key, start, window)
    decreases n
  {
    hide PlainAnswers, AllowedWithin, Burst;
    var calls := Burst(n - 1, key, time, later);
    var current := Current(entries, key, time, window);
    var next := Counted(entries, key, time, window);
    OneMore(entries, Call(key, time), calls, key, start, window, limit);
    BurstUnfolds(n, key, time, later);
    if n > 1 {
      BurstAllowed(next, n - 1, key, time, later, start, window, limit);
      assert next[key := Entry(current.count + n, current.reset)] == entries[key := Entry(current.count + n, current.reset)];
    } else {
      assert calls == later by {
        BurstOfNone(key, time, later);
      }
    }
  }

  lemma BurstUnfolds(n: nat, key: string, time: int, later: seq<Call>)
    requires n > 0
    ensures Burst(n, key, time, later) == [Call(key, time)] + Burst(n - 1, key, time, later)
  {
  }

  lemma BurstOfNone(key: string, time: int, later: seq<Call>)
    ensures Burst(0, key, time, later) == later
  {
  }

  lemma OneMore(entries: Entries, c: Call, later: seq<Call>, key: string, start: int, window: int, limit: nat)
    ensures AllowedWithin([c] + later, PlainAnswers(entries, [c] + later, window, limit), key, start, window)
         == (if c.key == key && start <= c.time < start + window && Allowed(entries, c.key, c.time, window, limit) then 1 else 0)
            + AllowedWithin(later, PlainAnswers(Counted(entries, c.key, c.time, window), later, window, limit), key, start, window)
  {
    hide Counted, Allowed;
    var calls := [c] + later;
    assert calls[1..] == later;
    var answers := PlainAnswers(entries, calls, window, limit);
    assert answers[1..] == PlainAnswers(Counted(entries, c.key, c.time, window), later, window, limit);
  }

  /** The calls that use the limit up: one opens a window, the rest come at its end, and as many as the limit right after it. */
  function Busiest(key: string, window: int, limit: nat): seq<Call>
    requires limit >= 1
  {
    Burst(1, key, 0, Burst(limit - 1, key, window - 1, Burst(limit, key, window, [])))
  }

  /** The bound is reached, for every limit and every window of at least two units. */
  lemma MostIsReached(key: string, window: int, limit: nat)
    requires limit >= 1 && window >= 2
    ensures InOrder(Busiest(key, window, limit))
    ensures var calls := Busiest(key, window, limit);
            AllowedWithin(calls, Answers(map[], None, calls, window, limit), key, 1, window) == Most(limit)
  {
    hide PlainAnswers, AllowedWithin, Answers, Burst;
    var third := Burst(limit, key, window, []);
    var second := Burst(limit - 1, key, window - 1, third);
    var calls := Busiest(key, window, limit);
    BurstInOrder(limit, key, window, []);
    BurstInOrder(limit - 1, key, window - 1, third);
    BurstInOrder(1, key, 0, second);
    CleanupIsInvisible(calls, window, limit);
    BurstAllowed(map[], 1, key, 0, second, 1, window, limit);
    var begun: Entries := map[key := Entry(1, window)];
    var none: Entries := map[];
    assert none[key := Entry(1, window)] == begun;
    var full: Entries := map[key := Entry(limit, window)];
    assert begun[key := Entry(limit, window)] == full;
    if limit > 1 {
      BurstAllowed(begun, limit - 1, key, window - 1, third, 1, window, limit);
    } else {
      BurstOfNone(key, window - 1, third);
    }
    BurstAllowed(full, limit, key, window, [], 1, window, limit);
    NothingAllowed(full[key := Entry(limit, window + window)], key, 1, window, limit);
  }

  lemma NothingAllowed(entries: Entries, key: string, start: int, window: int, limit: int)
    ensures AllowedWithin([], PlainAnswers(entries, [], window, limit), key, start, window) == 0
  {
  }
}
