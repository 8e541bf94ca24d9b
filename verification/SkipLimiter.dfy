/** How often songs of a station may be skipped (src/support.c:551-617). */
module SkipLimiter {
  const MAX_SKIPS := 6
  const SKIP_PERIOD := 3600

  datatype Skip = Skip(station: string, when: int)

  // ---------------------------------------------------------------- grants in chronological order

  /** How many of these are for a station and lie in `(after, upto]`. */
  function CountIn(grants: seq<Skip>, station: string, after: int, upto: int): (n: nat)
    ensures n <= |grants|
  {
    if grants == [] then 0
    else
      var last := grants[|grants| - 1];
      CountIn(grants[..|grants| - 1], station, after, upto)
      + if last.station == station && after < last.when <= upto then 1 else 0
  }

  /** How many lie in the period that ends at `t`. */
  function InPeriod(grants: seq<Skip>, station: string, t: int): nat {
    CountIn(grants, station, t - SKIP_PERIOD, t)
  }

  /** When the first grant for a station after some time was; `none` if there is none. */
  function FirstAfter(grants: seq<Skip>, station: string, after: int, none: int): int {
    if grants == [] then none
    else if grants[0].station == station && grants[0].when > after then grants[0].when
    else FirstAfter(grants[1..], station, after, none)
  }

  ghost predicate Chronological(grants: seq<Skip>, now: int) {
    && (forall i, j :: 0 <= i < j < |grants| ==> grants[i].when <= grants[j].when)
    && (forall i :: 0 <= i < |grants| ==> grants[i].when <= now)
  }

  /** No window of the period's length holds more grants than are allowed. */
  ghost predicate Limited(grants: seq<Skip>) {
    forall station, t :: InPeriod(grants, station, t) <= MAX_SKIPS
  }

  lemma CountStep(grants: seq<Skip>, g: Skip, station: string, after: int, upto: int)
    ensures CountIn(grants + [g], station, after, upto)
         == CountIn(grants, station, after, upto) + if g.station == station && after < g.when <= upto then 1 else 0
  {
    assert (grants + [g])[..|grants|] == grants;
  }

  /** A window opening later and closing after everything has no more in it. */
  lemma {:induction false} CountLater(grants: seq<Skip>, station: string, after: int, after': int, now: int, upto: int)
    requires Chronological(grants, now) && after <= after' && now <= upto
    ensures CountIn(grants, station, after', upto) <= CountIn(grants, station, after, now)
  {
    if grants != [] {
      CountLater(grants[..|grants| - 1], station, after, after', now, upto);
    }
  }

  /** One more grant, where there were too few in the period before it, keeps every window within limits. */
  lemma GrantKeepsLimit(grants: seq<Skip>, station: string, now: int)
    requires Chronological(grants, now) && Limited(grants)
    requires InPeriod(grants, station, now) < MAX_SKIPS
    ensures Limited(grants + [Skip(station, now)])
  {
    forall s, t ensures InPeriod(grants + [Skip(station, now)], s, t) <= MAX_SKIPS {
      CountStep(grants, Skip(station, now), s, t - SKIP_PERIOD, t);
      if s == station && now <= t {
        CountLater(grants, s, now - SKIP_PERIOD, t - SKIP_PERIOD, now, t);
      } else {
        assert InPeriod(grants, s, t) <= MAX_SKIPS;
      }
    }
  }

  // ---------------------------------------------------------------- the history kept, most recent first

  /** The history holds the grants from some point on, and those before are past. */
  ghost predicate Records(history: seq<Skip>, grants: seq<Skip>, valid: int) {
    && |history| <= |grants|
    && (forall i :: 0 <= i < |history| ==> history[i] == grants[|grants| - 1 - i])
    && (forall j :: 0 <= j < |grants| - |history| ==> grants[j].when <= valid)
  }

  predicate AllAfter(history: seq<Skip>, valid: int) {
    forall i :: 0 <= i < |history| ==> history[i].when > valid
  }

  /** What is past does not count. */
  lemma {:induction false} CountPast(grants: seq<Skip>, station: string, valid: int, now: int, none: int)
    requires forall j :: 0 <= j < |grants| ==> grants[j].when <= valid
    ensures CountIn(grants, station, valid, now) == 0 && FirstAfter(grants, station, valid, none) == none
  {
    if grants != [] {
      CountPast(grants[..|grants| - 1], station, valid, now, none);
      FirstStep(grants[..|grants| - 1], grants[|grants| - 1], station, valid, none);
      assert grants[..|grants| - 1] + [grants[|grants| - 1]] == grants;
    }
  }

  lemma {:induction false} FirstStep(grants: seq<Skip>, g: Skip, station: string, after: int, none: int)
    ensures FirstAfter(grants + [g], station, after, none)
         == FirstAfter(grants, station, after, if g.station == station && g.when > after then g.when else none)
  {
    if grants != [] {
      FirstStep(grants[1..], g, station, after, none);
      assert (grants + [g])[1..] == grants[1..] + [g];
    }
  }

  /** The grants of a station in the hour that ends at `t`. */
  ghost function LastHour(grants: seq<Skip>, station: string, t: int): set<nat> {
    set i | 0 <= i < |grants| && grants[i].station == station && t - 3600 < grants[i].when <= t
  }

  lemma LastHourStep(grants: seq<Skip>, station: string, t: int)
    requires grants != []
    ensures var front, last := LastHour(grants[..|grants| - 1], station, t), |grants| - 1;
            && last !in front
            && LastHour(grants, station, t)
            == if grants[last].station == station && t - 3600 < grants[last].when <= t then front + {last} else front
  {
  }

  /** Counting them one by one counts them. */
  lemma {:induction false} CountsLastHour(grants: seq<Skip>, station: string, t: int)
    ensures InPeriod(grants, station, t) == |LastHour(grants, station, t)|
    decreases |grants|
  {
    if grants != [] {
      CountsLastHour(grants[..|grants| - 1], station, t);
      LastHourStep(grants, station, t);
      hide LastHour;
    }
  }

  /** The first grant of a station after some time is before all others there are. */
  lemma {:induction false} FirstIsFirst(grants: seq<Skip>, station: string, after: int, none: int) returns (i: nat)
    ensures i <= |grants| && forall j :: 0 <= j < i ==> grants[j].station != station || grants[j].when <= after
    ensures if i < |grants| then grants[i].station == station && grants[i].when == FirstAfter(grants, station, after, none) > after
            else FirstAfter(grants, station, after, none) == none
  {
    i := 0;
    if grants != [] && (grants[0].station != station || grants[0].when <= after) {
      i := FirstIsFirst(grants[1..], station, after, none);
      i := i + 1;
    }
  }

  class Limiter {
    /** skip_history */
    var history: seq<Skip>
    /** Every skip granted so far, and the time it was last asked for one. */
    ghost var granted: seq<Skip>
    ghost var clock: int

    ghost predicate Valid()
      reads this
    {
      Chronological(granted, clock) && Records(history, granted, clock - SKIP_PERIOD) && Limited(granted)
    }

    constructor (now: int)
      ensures Valid() && granted == [] && clock == now
    {
      history, granted, clock := [], [], now;
      assert forall s, t :: InPeriod([], s, t) == 0;
    }

    /** The scan of skips_are_available, which forgets what is past. */
    method CountRecent(station: string, now: int) returns (count: nat, first: int)
      requires Valid() && clock <= now
      modifies this`history
      ensures Records(history, granted, now - SKIP_PERIOD)
      ensures count == InPeriod(granted, station, now) && first == FirstAfter(granted, station, now - SKIP_PERIOD, now)
      ensures AllAfter(history, now - SKIP_PERIOD)
    {
      hide CountIn, Limited, FirstAfter;
      var validSince := now - SKIP_PERIOD;
      first := now;
      count := 0;
      var i := 0;
      assert granted[..|granted| - i] == granted;
      while i < |history| && history[i].when > validSince
        invariant i <= |history|
        invariant forall k :: 0 <= k < i ==> history[k].when > validSince
        invariant count + CountIn(granted[..|granted| - i], station, validSince, now) == CountIn(granted, station, validSince, now)
        invariant FirstAfter(granted[..|granted| - i], station, validSince, first) == FirstAfter(granted, station, validSince, now)
        modifies {}
      {
        assert granted[..|granted| - i] == granted[..|granted| - (i + 1)] + [history[i]];
        CountStep(granted[..|granted| - (i + 1)], history[i], station, validSince, now);
        FirstStep(granted[..|granted| - (i + 1)], history[i], station, validSince, first);
        if history[i].station == station {
          first := history[i].when;
          count := count + 1;
        }
        i := i + 1;
      }
      RestIsPast(history, granted, clock - SKIP_PERIOD, validSince, i);
      CountPast(granted[..|granted| - i], station, validSince, now, first);
      history := history[..i];
    }

    /** The part of it that grants a skip. */
    method Grant(station: string, now: int)
      requires Chronological(granted, now) && Records(history, granted, now - SKIP_PERIOD) && Limited(granted)
      requires AllAfter(history, now - SKIP_PERIOD) && InPeriod(granted, station, now) < MAX_SKIPS
      modifies this`history, this`granted
      ensures Chronological(granted, now) && Records(history, granted, now - SKIP_PERIOD) && Limited(granted)
      ensures AllAfter(history, now - SKIP_PERIOD) && granted == old(granted) + [Skip(station, now)]
      ensures InPeriod(granted, station, now) == InPeriod(old(granted), station, now) + 1
    {
      GrantKeepsLimit(granted, station, now);
      OneMore(granted, station, now);
      RecordsMore(history, granted, Skip(station, now), now - SKIP_PERIOD);
      hide *;
      history := [Skip(station, now)] + history;
      granted := granted + [Skip(station, now)];
    }

    /** What skips_are_available does, told by the count it keeps. */
    method Ask(station: string, now: int) returns (available: bool, used: nat, firstExpires: int)
      requires Valid() && clock <= now
      modifies this
      ensures Valid() && clock == now
      ensures InPeriod(old(granted), station, now) <= MAX_SKIPS
      ensures available <==> InPeriod(old(granted), station, now) < MAX_SKIPS
      ensures granted == if available then old(granted) + [Skip(station, now)] else old(granted)
      ensures used == InPeriod(granted, station, now)
      ensures firstExpires == FirstAfter(old(granted), station, now - SKIP_PERIOD, now) + SKIP_PERIOD - now
      ensures AllAfter(history, now - SKIP_PERIOD)
    {
      var first;
      used, first := CountRecent(station, now);
      LimitAt(granted, station, now);
      TimePasses(granted, clock, now);
      hide CountIn, Limited, FirstAfter, Records, Chronological, InPeriod, AllAfter;
      clock := now;
      available := used < MAX_SKIPS;
      if available {
        Grant(station, now);
        used := used + 1;
      }
      firstExpires := SKIP_PERIOD - (now - first);
    }

    /** skips_are_available, asked at a time not before the last. `used` and `firstExpires` are the
        numbers it reports. */
    method SkipsAreAvailable(station: string, now: int) returns (available: bool, used: nat, firstExpires: int)
      requires Valid() && clock <= now
      modifies this
      ensures Valid() && clock == now
      ensures available <==> |LastHour(old(granted), station, now)| < 6
      ensures !available ==> |LastHour(old(granted), station, now)| == 6
      ensures granted == if available then old(granted) + [Skip(station, now)] else old(granted)
      ensures used == |LastHour(granted, station, now)|
      ensures firstExpires == FirstAfter(old(granted), station, now - SKIP_PERIOD, now) + SKIP_PERIOD - now
      ensures AllAfter(history, now - SKIP_PERIOD)
    {
      hide CountIn, Limited, FirstAfter, Records, Chronological, InPeriod, AllAfter, LastHour, Limiter.Valid;
      CountsLastHour(granted, station, now);
      available, used, firstExpires := Ask(station, now);
      CountsLastHour(granted, station, now);
    }

    /** Over a whole run: in every hour at most six skips of a station, and a skip is refused only when
        six of the hour before are still held against it. */
    lemma NeverMoreThanSix(station: string, t: int)
      requires Valid()
      ensures |LastHour(granted, station, t)| <= 6
    {
      CountsLastHour(granted, station, t);
    }
  }

  lemma TimePasses(grants: seq<Skip>, before: int, now: int)
    requires Chronological(grants, before) && before <= now
    ensures Chronological(grants, now)
  {
  }

  lemma RecordsMore(history: seq<Skip>, grants: seq<Skip>, g: Skip, valid: int)
    requires Records(history, grants, valid) && Chronological(grants, g.when) && AllAfter(history, valid) && g.when > valid
    ensures Records([g] + history, grants + [g], valid) && AllAfter([g] + history, valid) && Chronological(grants + [g], g.when)
  {
  }

  lemma OneMore(grants: seq<Skip>, station: string, now: int)
    ensures InPeriod(grants + [Skip(station, now)], station, now) == InPeriod(grants, station, now) + 1
  {
    CountStep(grants, Skip(station, now), station, now - SKIP_PERIOD, now);
  }

  lemma LimitAt(grants: seq<Skip>, station: string, t: int)
    requires Limited(grants)
    ensures InPeriod(grants, station, t) <= MAX_SKIPS
  {
  }

  /** Nothing unexpired is behind an expired entry. */
  lemma RestIsPast(history: seq<Skip>, grants: seq<Skip>, valid: int, valid': int, i: nat)
    requires Records(history, grants, valid) && valid <= valid' && i <= |history|
    requires forall j, k :: 0 <= j < k < |grants| ==> grants[j].when <= grants[k].when
    requires i < |history| ==> history[i].when <= valid'
    ensures Records(history[..i], grants, valid')
    ensures forall j :: 0 <= j < |grants| - i ==> grants[j].when <= valid'
  {
    if i < |history| {
      assert grants[|grants| - 1 - i] == history[i];
    }
  }
}
