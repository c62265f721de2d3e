/** The in-process sliding-window limiter. */
module RateLimiter {
  import opened Common

  /** Admission times in the closed interval from lo to hi. */
  function CountBetween(h: seq<int>, lo: int, hi: int): nat {
    if |h| == 0 then 0 else
      CountBetween(h[..|h| - 1], lo, hi) + if lo <= h[|h| - 1] <= hi then 1 else 0
  }

  ghost predicate Sorted(h: seq<int>) {
    forall i, j | 0 <= i < j < |h| :: h[i] <= h[j]
  }

  /** limit + 1 consecutive admissions never fit into one window. */
  ghost predicate Spaced(h: seq<int>, limit: nat, window: int) {
    forall i | limit <= i < |h| :: h[i] - h[i - limit] > window
  }

  lemma {:induction false} ManyAreConsecutive(h: seq<int>, lo: int, hi: int, n: nat) returns (i: nat)
    requires Sorted(h) && CountBetween(h, lo, hi) > n
    ensures i + n < |h| && lo <= h[i] && h[i + n] <= hi
  {
    var init, last := h[..|h| - 1], h[|h| - 1];
    if lo <= last <= hi && n > 0 {
      i := ManyAreConsecutive(init, lo, hi, n - 1);
      i := |h| - 1 - n;
      LastOnes(init, lo, hi, n);
    } else if lo <= last <= hi {
      i := |h| - 1;
    } else {
      i := ManyAreConsecutive(init, lo, hi, n);
    }
  }

  /** Of n admissions no earlier than lo, the n-th from the end is no earlier than lo. */
  lemma {:induction false} LastOnes(h: seq<int>, lo: int, hi: int, n: nat)
    requires Sorted(h) && CountBetween(h, lo, hi) >= n > 0
    ensures n <= |h| && h[|h| - n] >= lo
  {
    var init, last := h[..|h| - 1], h[|h| - 1];
    if lo <= last <= hi {
      if n > 1 { LastOnes(init, lo, hi, n - 1); }
    } else {
      LastOnes(init, lo, hi, n);
    }
  }

  lemma {:induction false} ConsecutiveCount(h: seq<int>, lo: int, hi: int, i: nat, j: nat)
    requires Sorted(h) && i <= j < |h| && lo <= h[i] && h[j] <= hi
    ensures CountBetween(h, lo, hi) >= j - i + 1
  {
    var init := h[..|h| - 1];
    if j < |h| - 1 {
      ConsecutiveCount(init, lo, hi, i, j);
    } else if i < j {
      ConsecutiveCount(init, lo, hi, i, j - 1);
    }
  }

  /** Admissions in the closed interval of one window that starts at a. */
  function InWindow(h: seq<int>, a: int, window: int): nat {
    CountBetween(h, a, a + window)
  }

  lemma TooClose(h: seq<int>, limit: nat, window: int, i: nat)
    requires Sorted(h) && limit <= i < |h| && h[i] - h[i - limit] <= window
    ensures InWindow(h, h[i - limit], window) > limit
  {
    hide CountBetween;
    ConsecutiveCount(h, h[i - limit], h[i - limit] + window, i - limit, i);
  }

  /** Every closed interval of one window holds at most limit admissions exactly when the history is spaced. */
  lemma WindowBoundExactly(h: seq<int>, limit: nat, window: int)
    requires Sorted(h)
    ensures (forall a :: InWindow(h, a, window) <= limit) <==> Spaced(h, limit, window)
  {
    hide InWindow, Sorted;
    if Spaced(h, limit, window) {
      forall a ensures InWindow(h, a, window) <= limit { SpacedBound(h, limit, window, a); }
    } else {
      var i :| limit <= i < |h| && h[i] - h[i - limit] <= window;
      TooClose(h, limit, window, i);
    }
  }

  lemma SpacedBound(h: seq<int>, limit: nat, window: int, a: int)
    requires Sorted(h) && Spaced(h, limit, window)
    ensures InWindow(h, a, window) <= limit
  {
    if InWindow(h, a, window) > limit { TooMany(h, limit, window, a); }
  }

  lemma TooMany(h: seq<int>, limit: nat, window: int, a: int)
    requires Sorted(h) && InWindow(h, a, window) > limit
    ensures !Spaced(h, limit, window)
  {
    var i := ManyAreConsecutive(h, a, a + window, limit);
    var j := i + limit;
    assert h[j] - h[j - limit] <= window;
  }

  /** The bucket is what is left of the history after dropping admissions older than the window. */
  ghost predicate Recent(bucket: seq<int>, h: seq<int>, now: int, window: int) {
    && |bucket| <= |h| && bucket == h[|h| - |bucket|..]
    && forall i | 0 <= i < |h| - |bucket| :: now - h[i] > window
  }

  lemma {:induction false} CountAll(h: seq<int>, lo: int, hi: int)
    requires forall i | 0 <= i < |h| :: lo <= h[i] <= hi
    ensures CountBetween(h, lo, hi) == |h|
  {
    if |h| > 0 { CountAll(h[..|h| - 1], lo, hi); }
  }

  lemma {:induction false} CountSuffix(h: seq<int>, k: nat, lo: int, hi: int)
    requires k <= |h| && forall i | 0 <= i < k :: h[i] < lo
    ensures CountBetween(h, lo, hi) == CountBetween(h[k..], lo, hi)
  {
    if |h| > 0 {
      if k < |h| {
        CountSuffix(h[..|h| - 1], k, lo, hi);
        assert h[k..][..|h| - k - 1] == h[..|h| - 1][k..];
      } else {
        CountSuffix(h[..|h| - 1], k - 1, lo, hi);
        assert h[..|h| - 1][k - 1..] == [];
      }
    }
  }

  /** A bucket and the history it stands for, at the time of the key's last call. */
  ghost predicate Tracks(bucket: seq<int>, h: seq<int>, now: int, limit: nat, window: int) {
    && Recent(bucket, h, now, window)
    && Sorted(h) && (forall t | t in h :: t <= now)
    && Spaced(h, limit, window)
  }

  ghost predicate TracksAll(hits: map<string, seq<int>>, admitted: map<string, seq<int>>, clock: map<string, int>,
                            limit: nat, window: int) {
    && hits.Keys == admitted.Keys == clock.Keys
    && forall key | key in hits :: Tracks(hits[key], admitted[key], clock[key], limit, window)
  }

  lemma TracksUpdated(hits: map<string, seq<int>>, admitted: map<string, seq<int>>, clock: map<string, int>, limit: nat,
                      window: int, key: string, bucket: seq<int>, h: seq<int>, now: int)
    requires TracksAll(hits, admitted, clock, limit, window) && Tracks(bucket, h, now, limit, window)
    ensures TracksAll(hits[key := bucket], admitted[key := h], clock[key := now], limit, window)
  {
  }

  lemma TracksOne(hits: map<string, seq<int>>, admitted: map<string, seq<int>>, clock: map<string, int>, limit: nat,
                  window: int, key: string, now: int)
    requires TracksAll(hits, admitted, clock, limit, window) && (key in clock ==> clock[key] <= now)
    ensures key in hits <==> key in admitted
    ensures Tracks(if key in hits then hits[key] else [], if key in admitted then admitted[key]
            else [], now, limit, window)
  {
  }

  /** Once nothing old is left in the bucket, its size is the count over the whole history. */
  lemma RecentCount(bucket: seq<int>, h: seq<int>, now: int, limit: nat, window: int)
    requires Tracks(bucket, h, now, limit, window)
    requires |bucket| > 0 ==> now - bucket[0] <= window
    ensures |bucket| == InWindow(h, now - window, window) <= limit
  {
    var k := |h| - |bucket|;
    CountSuffix(h, k, now - window, now);
    forall i | 0 <= i < |bucket| ensures now - window <= bucket[i] <= now {
      assert bucket[i] == h[k + i] && bucket[0] == h[k] && h[k + i] in h;
    }
    CountAll(bucket, now - window, now);
    SpacedBound(h, limit, window, now - window);
  }

  lemma AdmitKeeps(bucket: seq<int>, h: seq<int>, now: int, limit: nat, window: int)
    requires Tracks(bucket, h, now, limit, window) && |bucket| < limit
    ensures Tracks(bucket + [now], h + [now], now, limit, window)
  {
    forall i | 0 <= i < |h| ensures h[i] <= now { assert h[i] in h; }
  }

  class LocalRateLimiter {
    var hits: map<string, seq<int>>
    /** Every admission of a key since its last reset, and the time of its last call. */
    ghost var admitted: map<string, seq<int>>
    ghost var clock: map<string, int>

    ghost predicate Valid(limit: nat, window: int)
      reads this
    {
      TracksAll(hits, admitted, clock, limit, window)
    }

    ghost function History(key: string): seq<int>
      reads this
    {
      if key in admitted then admitted[key] else []
    }

    constructor (limit: nat, window: int)
      ensures Valid(limit, window) && admitted == map[]
    {
      hits, admitted, clock := map[], map[], map[];
    }

    /**
     Admit a request unless limit admissions lie in the window that ends now: the answer is the one a count over
     the whole history gives, although only recent admissions are kept.
    */
    method Allow(key: string, now: int, limit: nat, window: int) returns (allowed: bool)
      requires Valid(limit, window) && window >= 0
      requires key in clock ==> clock[key] <= now
      modifies this
      ensures Valid(limit, window)
      ensures allowed <==> InWindow(old(History(key)), now - window, window) < limit
      ensures !allowed ==> InWindow(old(History(key)), now - window, window) == limit
      ensures admitted == old(admitted)[key := old(History(key)) + if allowed then [now] else []]
      ensures key in hits && hits == old(hits)[key := hits[key]] && clock == old(clock)[key := now]
    {
      ghost var h := History(key);
      var bucket := if key in hits then hits[key] else [];
      TracksOne(hits, admitted, clock, limit, window, key, now);
      hide Tracks, TracksAll, InWindow;
      allowed, bucket := Admit(bucket, h, now, limit, window);
      ghost var h' := h + if allowed then [now] else [];
      TracksUpdated(hits, admitted, clock, limit, window, key, bucket, h', now);
      hits, admitted, clock := hits[key := bucket], admitted[key := h'], clock[key := now];
    }

    /** The decision on one key's bucket, and the bucket afterwards. */
    method Admit(bucket0: seq<int>, ghost h: seq<int>, now: int, limit: nat, window: int)
      returns (allowed: bool, bucket: seq<int>)
      requires Tracks(bucket0, h, now, limit, window)
      ensures allowed <==> InWindow(h, now - window, window) < limit
      ensures !allowed ==> InWindow(h, now - window, window) == limit
      ensures Tracks(bucket, h + if allowed then [now] else [], now, limit, window)
    {
      hide Tracks, InWindow;
      bucket := DropOld(bucket0, h, now, limit, window);
      RecentCount(bucket, h, now, limit, window);
      allowed := |bucket| < limit;
      if allowed {
        AdmitKeeps(bucket, h, now, limit, window);
        bucket := bucket + [now];
      } else {
        assert h + [] == h;
      }
    }

    method DropOld(bucket0: seq<int>, ghost h: seq<int>, now: int, ghost limit: nat,
                   window: int) returns (bucket: seq<int>)
      requires Tracks(bucket0, h, now, limit, window)
      ensures Tracks(bucket, h, now, limit, window)
      ensures |bucket| > 0 ==> now - bucket[0] <= window
    {
      bucket := bucket0;
      while |bucket| > 0 && now - bucket[0] > window
        invariant Tracks(bucket, h, now, limit, window)
      {
        assert bucket[0] == h[|h| - |bucket|];
        bucket := bucket[1..];
      }
    }

    /** Forget one key, or all of them. */
    method Reset(key: Option<string>, limit: nat, window: int)
      requires Valid(limit, window)
      modifies this
      ensures Valid(limit, window)
      ensures forall k :: History(k) == if key.None? || k == key.value then [] else old(History(k))
      ensures hits == if key.None? then map[] else old(hits) - {key.value}
    {
      if key.None? {
        hits, admitted, clock := map[], map[], map[];
      } else {
        hits, admitted, clock := hits - {key.value}, admitted - {key.value}, clock - {key.value};
      }
    }
  }

  /** In a valid limiter every window of every key's history holds at most limit admissions. */
  lemma AdmissionsBounded(limiter: LocalRateLimiter, key: string, limit: nat, window: int, a: int)
    requires limiter.Valid(limit, window) && key in limiter.admitted
    ensures InWindow(limiter.admitted[key], a, window) <= limit
  {
    assert key in limiter.hits;
    SpacedBound(limiter.admitted[key], limit, window, a);
  }
}
