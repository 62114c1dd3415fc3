/** The daily quota of pages/api/commit.js as a pure state machine over the
    module-level record `dailyCommits = { date, count }`. The class that holds
    the record and updates it in place (`CommitApi.CommitRoute`) is specified
    by the functions here. */
module RateLimit {
  import opened Wrappers

  /** At most this many granted calls per UTC day. */
  const MaxPerDay := 7

  /** `dailyCommits`: the day key `YYYY-MM-DD` it counts for (`null` before the
      first call) and the calls granted on that day. */
  datatype Counter = Counter(date: Option<string>, count: int)

  /** What `checkRateLimit` returns. */
  datatype RateCheck = Granted(remaining: int) | Denied(count: int)

  predicate ValidCounter(c: Counter) {
    0 <= c.count <= MaxPerDay
  }

  /** The counter after the day check of `checkRateLimit`: kept on the same
      day, restarted at 0 for a new one. */
  function ForDay(c: Counter, today: string): Counter {
    if c.date != Some(today) then Counter(Some(today), 0) else c
  }

  /** `checkRateLimit()` on UTC day `today`: the new counter and the answer. */
  function Acquire(c: Counter, today: string): (r: (Counter, RateCheck))
    ensures c.date != Some(today) ==> r == (Counter(Some(today), 1), Granted(MaxPerDay - 1))
    ensures c.date == Some(today) && c.count >= MaxPerDay ==> r == (c, Denied(c.count))
    ensures r.1.Granted? ==> r.0.date == Some(today) && r.0.count == ForDay(c, today).count + 1
    ensures r.1.Granted? ==> r.1.remaining == MaxPerDay - r.0.count
    ensures ValidCounter(c) ==> ValidCounter(r.0)
    ensures ValidCounter(c) && r.1.Granted? ==> 0 <= r.1.remaining < MaxPerDay
    ensures ValidCounter(c) && r.1.Granted? ==> Release(r.0) == ForDay(c, today)
  {
    var d := ForDay(c, today);
    if d.count >= MaxPerDay then (d, Denied(d.count))
    else
      var n := Counter(d.date, d.count + 1);
      (n, Granted(MaxPerDay - n.count))
  }

  /** The rollback of the catch path: one less, never below zero. */
  function Release(c: Counter): (r: Counter)
    ensures r.date == c.date
    ensures c.count > 0 ==> r.count == c.count - 1
    ensures c.count <= 0 ==> r == c
  {
    if c.count > 0 then Counter(c.date, c.count - 1) else c
  }

  /** `n` calls of `checkRateLimit` on the same day: the final counter and
      each answer. */
  function AcquireRepeatedly(c: Counter, today: string, n: nat): (Counter, seq<RateCheck>)
    decreases n
  {
    if n == 0 then (c, [])
    else
      var first := Acquire(c, today);
      var rest := AcquireRepeatedly(first.0, today, n - 1);
      (rest.0, [first.1] + rest.1)
  }

  function Min(a: int, b: int): int {
    if a <= b then a else b
  }

  /** On one day, call number i (from 0) is granted exactly when fewer than 7
      calls were granted before it that day, so 7 calls are granted and the
      eighth and later are denied; the counter ends at min(used + n, 7). */
  lemma {:induction false} QuotaPerDay(c: Counter, today: string, n: nat)
    requires ValidCounter(c)
    ensures var used := ForDay(c, today).count;
            var (final, checks) := AcquireRepeatedly(c, today, n);
            |checks| == n &&
            (forall i :: 0 <= i < n ==> (checks[i].Granted? <==> used + i < MaxPerDay)) &&
            (forall i :: 0 <= i < n && !checks[i].Granted? ==> checks[i] == Denied(MaxPerDay)) &&
            (n > 0 ==> final == Counter(Some(today), Min(used + n, MaxPerDay)))
    decreases n
  {
    if n > 0 {
      var used := ForDay(c, today).count;
      var first := Acquire(c, today);
      QuotaPerDay(first.0, today, n - 1);
      var rest := AcquireRepeatedly(first.0, today, n - 1);
      var checks := [first.1] + rest.1;
      assert ForDay(first.0, today).count == Min(used + 1, MaxPerDay);
      forall i | 0 <= i < n
        ensures checks[i].Granted? <==> used + i < MaxPerDay
        ensures !checks[i].Granted? ==> checks[i] == Denied(MaxPerDay)
      {
        if i > 0 {
          assert checks[i] == rest.1[i - 1];
        }
      }
    }
  }

  /** The scenario of a fresh day: seven grants, then a denial. */
  lemma EighthCallDenied(c: Counter, today: string)
    requires ValidCounter(c) && c.date != Some(today)
    ensures var (final, checks) := AcquireRepeatedly(c, today, 8);
            (forall i :: 0 <= i < 7 ==> checks[i].Granted?) && checks[7] == Denied(7) &&
            final == Counter(Some(today), 7)
  {
    QuotaPerDay(c, today, 8);
  }

  /** An operation on the counter: a `checkRateLimit` call on some day, or the
      rollback of the catch path. */
  datatype Op = AcquireOn(today: string) | Rollback

  function Run(c: Counter, ops: seq<Op>): Counter
    decreases |ops|
  {
    if ops == [] then c
    else
      var next := match ops[0]
        case AcquireOn(today) => Acquire(c, today).0
        case Rollback => Release(c);
      Run(next, ops[1..])
  }

  /** Whatever the interleaving of calls, days and rollbacks, the count stays
      between 0 and 7. */
  lemma {:induction false} CountStaysInRange(c: Counter, ops: seq<Op>)
    requires ValidCounter(c)
    ensures ValidCounter(Run(c, ops))
    decreases |ops|
  {
    if ops != [] {
      var next := match ops[0]
        case AcquireOn(today) => Acquire(c, today).0
        case Rollback => Release(c);
      CountStaysInRange(next, ops[1..]);
    }
  }
}
