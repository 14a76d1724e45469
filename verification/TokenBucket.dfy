/** The byte-rate limiter: one second of tokens, refilled continuously. Time and
    tokens are reals. In the specification the clock counts tokens: a reading of `t`
    seconds is `t * rate`, so that what flows in is a difference of readings. */
module TokenBucket {

  /** A clock reading of `t` seconds, in tokens. */
  ghost function Reading(t: real, rate: real): real {
    t * rate
  }

  /** One turn of the loop in `consume`: the clock read and the need left. */
  datatype Poll = Poll(now: real, need: real)

  datatype Bucket = Bucket(tokens: real, last: real)

  function Min(a: real, b: real): real {
    if a <= b then a else b
  }

  /** `(tokens + elapsed * rate).min(rate)` */
  function Refill(b: Bucket, rate: real, now: real): real {
    Min(b.tokens + (now - b.last), rate)
  }

  /** What a turn takes: the need, or all there is. */
  function TakenBy(b: Bucket, rate: real, p: Poll): real {
    Min(Refill(b, rate, p.now), p.need)
  }

  function Turn(b: Bucket, rate: real, p: Poll): Bucket {
    Bucket(Refill(b, rate, p.now) - TakenBy(b, rate, p), p.now)
  }

  /** The bucket after a run of turns. */
  function After(b: Bucket, rate: real, run: seq<Poll>): Bucket {
    if run == [] then b else Turn(After(b, rate, run[..|run| - 1]), rate, run[|run| - 1])
  }

  /** Tokens taken by turns `i .. j` of the run. */
  function Taken(b: Bucket, rate: real, run: seq<Poll>, i: nat, j: nat): real
    requires i <= j <= |run|
  {
    if i == j then 0.0
    else Taken(b, rate, run, i, j - 1) + TakenBy(After(b, rate, run[..j - 1]), rate, run[j - 1])
  }

  /** The clock does not go back and needs are not negative. */
  predicate Timely(b: Bucket, run: seq<Poll>) {
    && (forall i :: 0 <= i < |run| ==> b.last <= run[i].now && run[i].need >= 0.0)
    && forall i, j :: 0 <= i < j < |run| ==> run[i].now <= run[j].now
  }

  predicate Within(b: Bucket, rate: real) {
    0.0 <= b.tokens <= rate
  }

  lemma AfterLast(b: Bucket, rate: real, run: seq<Poll>)
    ensures After(b, rate, run).last == if run == [] then b.last else run[|run| - 1].now
  {
  }

  /** Tokens stay between nothing and one second's worth. */
  lemma {:induction false} TokensInRange(b: Bucket, rate: real, run: seq<Poll>)
    requires Within(b, rate) && Timely(b, run)
    ensures Within(After(b, rate, run), rate)
  {
    if run != [] {
      var front := run[..|run| - 1];
      TokensInRange(b, rate, front);
      AfterLast(b, rate, front);
    }
  }

  /** What turns `i .. j` take and leave was there after the first refill, or has
      flowed in since. */
  lemma {:induction false} Balance(b: Bucket, rate: real, run: seq<Poll>, i: nat, j: nat)
    requires i < j <= |run|
    ensures After(b, rate, run[..j]).tokens + Taken(b, rate, run, i, j) <= rate + (run[j - 1].now - run[i].now)
  {
    assert run[..j][..j - 1] == run[..j - 1];
    if i == j - 1 {
      assert Taken(b, rate, run, i, i) == 0.0;
    } else {
      Balance(b, rate, run, i, j - 1);
      AfterLast(b, rate, run[..j - 1]);
    }
  }

  /** Over any run, the turns between two moments `s <= t` (in seconds) take at most
      one second's worth plus what flows in between. */
  lemma Window(b: Bucket, rate: real, run: seq<Poll>, i: nat, j: nat, s: real, t: real)
    requires Within(b, rate) && Timely(b, run) && i < j <= |run|
    requires Reading(s, rate) <= run[i].now && run[j - 1].now <= Reading(t, rate)
    ensures Taken(b, rate, run, i, j) <= rate + rate * (t - s)
  {
    Balance(b, rate, run, i, j);
    TokensInRange(b, rate, run[..j]);
    Scaled(s, t, rate);
  }

  /** Turn `k` finds room for all that has flowed in. */
  predicate Holds(b: Bucket, rate: real, run: seq<Poll>, k: nat)
    requires k < |run|
  {
    var before := After(b, rate, run[..k]);
    before.tokens + (run[k].now - before.last) <= rate
  }

  /** As long as the bucket does not overflow no token is lost: what was there and what
      has flowed in is what was taken and what is left. */
  lemma {:induction false} Conserved(b: Bucket, rate: real, run: seq<Poll>, n: nat)
    requires n <= |run| && forall k :: 0 <= k < n ==> Holds(b, rate, run, k)
    ensures var after := After(b, rate, run[..n]);
            b.tokens + (after.last - b.last) == Taken(b, rate, run, 0, n) + after.tokens
  {
    if n > 0 {
      Conserved(b, rate, run, n - 1);
      assert run[..n][..n - 1] == run[..n - 1];
      assert Holds(b, rate, run, n - 1);
    }
  }

  lemma Scaled(s: real, t: real, rate: real)
    ensures rate * (t - s) == (t - s) * rate == Reading(t, rate) - Reading(s, rate)
  {
  }

  lemma ReadingGrows(s: real, t: real, rate: real)
    requires s <= t && rate >= 0.0
    ensures Reading(s, rate) <= Reading(t, rate)
  {
    assert (t - s) * rate >= 0.0;
    Scaled(s, t, rate);
  }

  // ----- the limiter

  lemma {:induction false} TakenOfLonger(b: Bucket, rate: real, run: seq<Poll>, p: Poll, i: nat, j: nat)
    requires i <= j <= |run|
    ensures Taken(b, rate, run + [p], i, j) == Taken(b, rate, run, i, j)
  {
    if i < j {
      TakenOfLonger(b, rate, run, p, i, j - 1);
      assert (run + [p])[..j - 1] == run[..j - 1];
    }
  }

  lemma RunSnoc(b: Bucket, rate: real, run: seq<Poll>, p: Poll, i: nat)
    requires i <= |run|
    ensures After(b, rate, run + [p]) == Turn(After(b, rate, run), rate, p)
    ensures Taken(b, rate, run + [p], i, |run| + 1) ==
            Taken(b, rate, run, i, |run|) + TakenBy(After(b, rate, run), rate, p)
    ensures Timely(b, run) && p.now >= After(b, rate, run).last && p.need >= 0.0 ==> Timely(b, run + [p])
  {
    assert (run + [p])[..|run|] == run;
    TakenOfLonger(b, rate, run, p, i, |run|);
    AfterLast(b, rate, run);
  }

  /** `k` seconds' worth. */
  function Seconds(k: nat, rate: real): real {
    if k == 0 then 0.0 else Seconds(k - 1, rate) + rate
  }

  lemma {:induction false} SecondsIsProduct(k: nat, rate: real)
    ensures Seconds(k, rate) == k as real * rate
  {
    if k > 0 { SecondsIsProduct(k - 1, rate); }
  }

  lemma {:induction false} EnoughSeconds(n: nat, rate: real)
    requires rate >= 1.0
    ensures Seconds(n, rate) >= n as real
  {
    if n > 0 { EnoughSeconds(n - 1, rate); }
  }

  lemma {:induction false} SecondsOrder(j: nat, k: nat, rate: real)
    requires rate > 0.0 && Seconds(j, rate) < Seconds(k, rate)
    ensures j < k
  {
    if j > 0 && k > 0 {
      SecondsOrder(j - 1, k - 1, rate);
    } else if k == 0 {
      SecondsIsProduct(j, rate);
    }
  }

  /** A sleep of the length asked for brings in what it was asked for. */
  lemma SleptEnough(need: real, rate: real, slept: real)
    requires need > 0.0 && rate > 0.0 && slept >= Min(need / rate, 1.0)
    ensures slept * rate >= Min(need, rate)
  {
    var asked := Min(need / rate, 1.0);
    assert asked * rate >= Min(need, rate);
    assert (slept - asked) * rate >= 0.0;
    assert (slept - asked) * rate == slept * rate - asked * rate;
  }

  /** `k` is the least number of seconds whose inflow, with `avail`, reaches `n`. */
  predicate Least(k: nat, avail: real, rate: real, n: nat) {
    && avail + Seconds(k, rate) >= n as real
    && (k > 0 ==> avail + Seconds(k - 1, rate) < n as real)
  }

  /** No more sleeps than whole seconds' worth in `n`, rounded up. */
  lemma LeastBounded(k: nat, avail: real, rate: real, n: nat, m: nat)
    requires Least(k, avail, rate, n) && avail >= 0.0 && rate > 0.0 && m as real * rate >= n as real
    ensures k <= m
  {
    SecondsIsProduct(m, rate);
    if k > 0 { SecondsOrder(k - 1, m, rate); }
  }

  /** Where the loop stands before a turn that finds `refill` tokens. */
  ghost predicate Progress(sleeps: nat, n: nat, avail: real, rate: real, need: real, refill: real) {
    && sleeps <= n && need >= 0.0 && refill <= rate
    && (sleeps == 0 ==> need == n as real && refill == avail)
    && (sleeps > 0 ==>
          need > 0.0 && need == n as real - avail - Seconds(sleeps - 1, rate) && refill >= Min(need, rate))
  }

  lemma Slept(sleeps: nat, n: nat, avail: real, rate: real, left: real, refill: real, refill': real)
    requires rate >= 1.0 && avail >= 0.0 && left > 0.0 && Min(left, rate) <= refill' <= rate
    requires Progress(sleeps, n, avail, rate, left + refill, refill)
    ensures sleeps < n && Progress(sleeps + 1, n, avail, rate, left, refill')
  {
    assert left == n as real - avail - Seconds(sleeps, rate);
    EnoughSeconds(n, rate);
    SecondsOrder(sleeps, n, rate);
  }

  class TokenBucket {
    const rate: real
    var tokens: real
    var last: real
    ghost const origin: Bucket
    /** The last reading of the clock, in tokens. */
    ghost var mark: real
    ghost var run: seq<Poll>

    ghost function State(): Bucket
      reads this
    {
      Bucket(tokens, mark)
    }

    /** The fields are what the run so far leaves of a full bucket. */
    ghost predicate Valid()
      reads this
    {
      && (rate == 0.0 || rate >= 1.0) && origin.tokens == rate && mark == Reading(last, rate)
      && Timely(origin, run) && State() == After(origin, rate, run)
    }

    constructor (rate: nat, now: real)
      ensures Valid() && this.rate == rate as real && tokens == this.rate && last == now && run == []
    {
      this.rate, tokens, last := rate as real, rate as real, now;
      mark, origin, run := Reading(now, rate as real), Bucket(rate as real, Reading(now, rate as real)), [];
    }

    /** `elapsed * rate` */
    method Inflow(now: real, ghost at: real) returns (x: real)
      requires mark == Reading(last, rate) && at == Reading(now, rate)
      ensures x == at - mark
    {
      Scaled(last, now, rate);
      x := (now - last) * rate;
    }

    /** The new balance and what is left of the need. */
    method Draw(inflow: real, need: real, ghost at: real) returns (balance: real, left: real)
      requires inflow == at - mark
      ensures Bucket(balance, at) == Turn(State(), rate, Poll(at, need))
      ensures left == need - TakenBy(State(), rate, Poll(at, need)) && (left > 0.0 ==> balance == 0.0)
    {
      var refilled := Min(tokens + inflow, rate);
      if refilled >= need {
        balance, left := refilled - need, 0.0;
      } else {
        balance, left := 0.0, need - refilled;
      }
    }

    /** Tokens taken from turn `from` on, and the need still open. */
    ghost function Account(from: nat, need: real): real
      reads this
      requires from <= |run|
    {
      Taken(origin, rate, run, from, |run|) + need
    }

    /** One turn of the loop. */
    method Attempt(now: real, need: real, ghost at: real, ghost from: nat) returns (left: real)
      requires Valid() && at == Reading(now, rate) && at >= mark && need >= 0.0 && from <= |run|
      modifies `tokens, `last, `mark, `run
      ensures Valid() && run == old(run) + [Poll(at, need)] && last == now && mark == at
      ensures left == need - TakenBy(old(State()), rate, Poll(at, need))
      ensures left > 0.0 ==> tokens == 0.0
      ensures Account(from, left) == old(Account(from, need))
    {
      ghost var run' := run + [Poll(at, need)];
      RunSnoc(origin, rate, run, Poll(at, need), from);
      var inflow := Inflow(now, at);
      var balance;
      balance, left := Draw(inflow, need, at);
      assert Bucket(balance, at) == After(origin, rate, run') && Timely(origin, run');
      tokens, last, mark, run := balance, now, at, run';
    }

    /** A sleep as long as asked for. */
    method Sleep(need: real, done: real, late: real, ghost reading: real) returns (wake: real, ghost reading': real)
      requires rate > 0.0 && need > 0.0 && late >= 0.0 && reading == Reading(done, rate)
      ensures reading' == Reading(wake, rate) && reading' >= reading + Min(need, rate)
    {
      var asked := Min(need / rate, 1.0);
      Wakes(done, asked + late, need);
      wake := done + (asked + late);
      reading' := Reading(wake, rate);
    }

    /** The next reading of the clock, after a sleep of `slept` seconds. */
    lemma Wakes(now: real, slept: real, need: real)
      requires rate > 0.0 && need > 0.0 && slept >= Min(need / rate, 1.0)
      ensures Reading(now + slept, rate) >= Reading(now, rate) + Min(need, rate)
    {
      SleptEnough(need, rate, slept);
      Scaled(now, now + slept, rate);
    }

    /** Where the loop stands, `before` turns into the run. */
    ghost predicate Standing(before: nat, sleeps: nat, n: nat, avail: real, need: real, reading: real)
      reads this
    {
      && Valid() && rate > 0.0 && reading >= mark && |run| == before + sleeps
      && Account(before, need) == n as real && avail >= 0.0
      && Progress(sleeps, n, avail, rate, need, Refill(State(), rate, reading))
    }

    /** Attempt, and sleep if that was not enough. */
    method AttemptOrSleep(sleeps: nat, n: nat, need: real, done: real, late: real,
                          ghost before: nat, ghost avail: real, ghost reading: real)
        returns (left: real, wake: real, ghost reading': real)
      requires Standing(before, sleeps, n, avail, need, reading) && reading == Reading(done, rate) && late >= 0.0
      modifies `tokens, `last, `mark, `run
      ensures old(run) <= run
      ensures left == 0.0 ==>
                && Valid() && |run| == before + sleeps + 1 && Account(before, 0.0) == n as real
                && Least(sleeps, avail, rate, n)
      ensures left != 0.0 ==>
                sleeps < n && Standing(before, sleeps + 1, n, avail, left, reading') && reading' == Reading(wake, rate)
    {
      ghost var refill := Refill(State(), rate, reading);
      left := Attempt(done, need, reading, before);
      wake, reading' := done, reading;
      if left != 0.0 {
        wake, reading' := Sleep(left, done, late, reading);
        Slept(sleeps, n, avail, rate, left, refill, Refill(State(), rate, reading'));
      }
    }

    /** Take exactly `n` tokens. The clock reads `now` first, and each sleep ends
        `late` after the time asked for. The number of sleeps is the least that can
        supply `n`, however late they end. */
    method Consume(n: nat, now: real, late: nat -> real) returns (sleeps: nat)
      requires Valid() && now >= last && forall k :: late(k) >= 0.0
      modifies `tokens, `last, `mark, `run
      ensures Valid()
      ensures rate == 0.0 ==> sleeps == 0 && run == old(run) && State() == old(State())
      ensures rate > 0.0 ==>
                && |run| == |old(run)| + sleeps + 1 && old(run) <= run
                && Taken(origin, rate, run, |old(run)|, |run|) == n as real
                && Least(sleeps, Refill(old(State()), rate, Reading(now, rate)), rate, n)
    {
      sleeps := 0;
      if rate <= 0.0 { return; }
      var need, done := n as real, now;
      ghost var reading, before := Reading(now, rate), run;
      ghost var avail := Refill(State(), rate, reading);
      TokensInRange(origin, rate, run);
      ReadingGrows(last, now, rate);
      while true
        invariant before <= run && reading == Reading(done, rate)
        invariant Standing(|before|, sleeps, n, avail, need, reading)
        decreases n - sleeps
      {
        need, done, reading := AttemptOrSleep(sleeps, n, need, done, late(sleeps), |before|, avail, reading);
        if need == 0.0 { return; }
        sleeps := sleeps + 1;
      }
    }
  }
}
