/** Schedules whose next run is kept as ISO text and compared as text. */
module Scheduler {
  import opened Common
  import opened IsoTime
  import opened Sorting
  import opened Text
  import RateLimiter

  datatype Schedule = Schedule(org: string, interval: int, enabled: bool, nextRun: string)

  /** Microseconds between two runs: the interval, but at least a second. */
  function Step(s: Schedule): (step: int)
    ensures step >= 1000000
  {
    (if s.interval < 1 then 1 else s.interval) * 1000000
  }

  /** The larger of an interval and one second. */
  function Seconds(interval: int): (seconds: int)
    ensures seconds >= 1 && seconds >= interval && (seconds == 1 || seconds == interval)
  {
    if interval > 1 then interval else 1
  }

  lemma StepIs(s: Schedule)
    ensures Step(s) == Seconds(s.interval) * 1000000
  {
  }

  method AddMicros(t: DateTime, micros: int) returns (u: DateTime)
    requires Proper(t) && Representable(Instant(t) + micros)
    ensures Proper(u) && Instant(u) == Instant(t) + micros
  {
    u := AtInstant(Instant(t) + micros);
    InstantRoundTrip(Instant(t) + micros);
  }

  ghost predicate Spaced(runs: seq<int>, step: int) {
    forall i, j | 0 <= i < j < |runs| :: runs[i] + step <= runs[j]
  }

  /** The stored text stands for the time due, which is one step after the last of the runs so far. */
  ghost predicate Tracks(s: Schedule, due: DateTime, runs: seq<int>) {
    && Proper(due) && s.nextRun == Iso(due)
    && Spaced(runs, Step(s))
    && (|runs| > 0 ==> Instant(due) == runs[|runs| - 1] + Step(s))
  }

  predicate Due(s: Schedule, nowIso: string) {
    s.enabled && AtMost(s.nextRun, nowIso)
  }

  /** Due now, in time rather than in text. */
  ghost predicate DueAt(s: Schedule, due: DateTime, now: DateTime) {
    s.enabled && Instant(due) <= Instant(now)
  }

  /** The time a step after now is still a date. */
  predicate CanMark(s: Schedule, now: DateTime) {
    Representable(Instant(now) + Step(s))
  }

  /** The schedule's interval after now, or a second if that is longer, is still a date. */
  ghost predicate InCalendar(s: Schedule, now: DateTime) {
    Representable(Instant(now) + Seconds(s.interval) * 1000000)
  }

  /** What a run at now makes of a schedule: only its next run moves, to its interval after now, at least a second. */
  ghost predicate RanAt(now: DateTime, s0: Schedule, r0: seq<int>, s: Schedule, due: DateTime, r: seq<int>) {
    && Proper(due) && Instant(due) == Instant(now) + Seconds(s0.interval) * 1000000
    && s == s0.(nextRun := Iso(due)) && r == r0 + [Instant(now)]
  }

  /** The schedules in ids ran at now; nothing else changed. */
  ghost predicate Ticked(s0: map<string, Schedule>, d0: map<string, DateTime>, r0: map<string, seq<int>>,
                         s: map<string, Schedule>, d: map<string, DateTime>, r: map<string, seq<int>>, ids: seq<string>,
                         now: DateTime) {
    && s0.Keys == d0.Keys == r0.Keys == s.Keys == d.Keys == r.Keys
    && forall id | id in s ::
         if id in ids then RanAt(now, s0[id], r0[id], s[id], d[id], r[id])
         else s[id] == s0[id] && d[id] == d0[id] && r[id] == r0[id]
  }

  ghost predicate TracksAll(s: map<string, Schedule>, d: map<string, DateTime>, r: map<string, seq<int>>) {
    && s.Keys == d.Keys == r.Keys
    && forall id | id in s :: Tracks(s[id], d[id], r[id])
  }

  lemma RunKeeps(now: DateTime, s0: Schedule, d0: DateTime, r0: seq<int>, s: Schedule, due: DateTime, r: seq<int>)
    requires Tracks(s0, d0, r0) && Instant(d0) <= Instant(now) && RanAt(now, s0, r0, s, due, r)
    ensures Tracks(s, due, r)
  {
    StepIs(s0);
    hide Instant, Iso, Proper;
  }

  lemma DueIsDueAt(s: Schedule, due: DateTime, runs: seq<int>, now: DateTime)
    requires Tracks(s, due, runs) && Proper(now)
    ensures Due(s, Iso(now)) <==> DueAt(s, due, now)
  {
    hide Instant, Iso, Proper;
    IsoOrderIsTimeOrder(due, now);
  }

  lemma DueInTime(s: map<string, Schedule>, d: map<string, DateTime>, r: map<string, seq<int>>, now: DateTime)
    requires TracksAll(s, d, r) && Proper(now)
    ensures forall id | id in s ::
              && (s[id].enabled && AtMost(s[id].nextRun, Iso(now)) <==> DueAt(s[id], d[id], now))
              && (CanMark(s[id], now) <==> InCalendar(s[id], now))
  {
    hide Instant, Iso, Proper, AtMost;
    forall id | id in s
      ensures s[id].enabled && AtMost(s[id].nextRun, Iso(now)) <==> DueAt(s[id], d[id], now)
      ensures CanMark(s[id], now) <==> InCalendar(s[id], now)
    {
      DueIsDueAt(s[id], d[id], r[id], now);
      StepIs(s[id]);
    }
  }

  lemma TickedOne(s0: map<string, Schedule>, d0: map<string, DateTime>, r0: map<string, seq<int>>,
                  s: map<string, Schedule>, d: map<string, DateTime>, r: map<string, seq<int>>, ids: seq<string>,
                  now: DateTime, id: string, row: Schedule, due: DateTime, runs: seq<int>)
    requires Ticked(s0, d0, r0, s, d, r, ids, now) && TracksAll(s, d, r)
    requires id in s && id !in ids && Instant(d[id]) <= Instant(now) && RanAt(now, s[id], r[id], row, due, runs)
    ensures Ticked(s0, d0, r0, s[id := row], d[id := due], r[id := runs], ids + [id], now)
    ensures TracksAll(s[id := row], d[id := due], r[id := runs])
  {
    hide RanAt, Tracks, Instant, Iso, Proper, Step;
    RunKeeps(now, s[id], d[id], r[id], row, due, runs);
  }

  lemma CreateKeeps(s: map<string, Schedule>, d: map<string, DateTime>, r: map<string, seq<int>>, id: string,
                    row: Schedule, due: DateTime)
    requires TracksAll(s, d, r) && Proper(due) && row.nextRun == Iso(due)
    ensures TracksAll(s[id := row], d[id := due], r[id := []])
  {
    hide Instant, Iso, Proper;
    assert Tracks(row, due, []);
    hide Tracks;
  }

  class SavedQueryStore {
    var schedules: map<string, Schedule>
    /** When each schedule is due, and the instants of the runs it was marked with. */
    ghost var due: map<string, DateTime>
    ghost var runs: map<string, seq<int>>

    ghost predicate Valid()
      reads this
    {
      TracksAll(schedules, due, runs)
    }

    constructor ()
      ensures Valid() && schedules == map[]
    {
      schedules, due, runs := map[], map[], map[];
    }

    method CreateSchedule(id: string, org: string, interval: int, enabled: bool,
                          now: DateTime) returns (res: Result<()>)
      requires Valid() && Proper(now)
      modifies this
      ensures Valid()
      ensures res == if !Representable(Instant(now) + interval * 1000000) then Err(Overflow)
                     else if id in old(schedules) then Err(Conflict) else Ok(())
      ensures res.Err? ==> schedules == old(schedules) && due == old(due) && runs == old(runs)
      ensures res.Ok? ==>
        && id in due && Instant(due[id]) == Instant(now) + interval * 1000000
        && schedules == old(schedules)[id := Schedule(org, interval, enabled, Iso(due[id]))]
        && due == old(due)[id := due[id]] && runs == old(runs)[id := []]
    {
      if !Representable(Instant(now) + interval * 1000000) {
        return Err(Overflow);
      }
      hide Instant, Iso, Proper, Step, Tracks, Representable;
      var next := AddMicros(now, interval * 1000000);
      if id in schedules {
        return Err(Conflict);
      }
      CreateKeeps(schedules, due, runs, id, Schedule(org, interval, enabled, Iso(next)), next);
      schedules := schedules[id := Schedule(org, interval, enabled, Iso(next))];
      due, runs := due[id := next], runs[id := []];
      res := Ok(());
    }

    method DeleteSchedule(id: string, org: string)
      requires Valid()
      modifies this
      ensures Valid()
      ensures schedules == if id in old(schedules) && old(schedules)[id].org == org then old(schedules) - {id}
              else old(schedules)
      ensures forall x | x in schedules :: due[x] == old(due)[x] && runs[x] == old(runs)[x]
    {
      hide Tracks;
      if id in schedules && schedules[id].org == org {
        schedules, due, runs := schedules - {id}, due - {id}, runs - {id};
      }
    }

    /** `due_schedules`: the enabled schedules whose stored text is at most the given text, in text order. */
    method DueSchedules(nowIso: string) returns (ids: seq<string>)
      ensures NoDuplicates(ids)
      ensures forall id :: id in ids <==>
                id in schedules && schedules[id].enabled && AtMost(schedules[id].nextRun, nowIso)
      ensures forall i, j | 0 <= i < j < |ids| :: AtMost(schedules[ids[i]].nextRun, schedules[ids[j]].nextRun)
    {
      var found: seq<string> := [];
      var todo := schedules.Keys;
      while todo != {}
        invariant todo <= schedules.Keys && NoDuplicates(found)
        invariant forall id :: id in found <==> id in schedules && id !in todo && Due(schedules[id], nowIso)
        decreases todo
      {
        var id :| id in todo;
        todo := todo - {id};
        if Due(schedules[id], nowIso) {
          found := found + [id];
        }
      }
      var rows := schedules;
      var key := (id: string) => if id in rows then rows[id].nextRun else "";
      ids := SortBy(found, key);
      SortByMembers(found, key);
      DistinctRearranged(found, ids);
      forall i, j | 0 <= i < j < |ids| ensures AtMost(schedules[ids[i]].nextRun, schedules[ids[j]].nextRun) {
        assert ids[i] in found && ids[j] in found;
        assert AtMost(key(ids[i]), key(ids[j]));
      }
    }

    /**
     `tick`: run exactly the enabled schedules that are due at now, each once, and set each one's next run at
     least a second later. Nothing is asked of the clock: a tick may see an earlier time than the one before. It
     raises at the first due schedule whose next run is past the last date, and leaves that one and the rest due.
    */
    method Tick(now: DateTime) returns (res: Result<seq<string>>, ghost marked: seq<string>)
      requires Valid() && Proper(now)
      modifies this
      ensures Valid()
      ensures res.Ok? <==> forall id | id in old(schedules) && DueAt(old(schedules)[id], old(due)[id], now) ::
                InCalendar(old(schedules)[id], now)
      ensures res == if res.Ok? then Ok(marked) else Err(Overflow)
      ensures NoDuplicates(marked) && forall id | id in marked ::
                id in old(schedules) && DueAt(old(schedules)[id], old(due)[id], now)
                && InCalendar(old(schedules)[id], now)
      ensures res.Ok? ==>
                forall id | id in old(schedules) && DueAt(old(schedules)[id], old(due)[id], now) :: id in marked
      ensures Ticked(old(schedules), old(due), old(runs), schedules, due, runs, marked, now)
    {
      ghost var s0, d0, r0 := schedules, due, runs;
      assert TracksAll(s0, d0, r0);
      hide *;
      DueInTime(s0, d0, r0, now);
      var ids := DueSchedules(Iso(now));
      res, marked := MarkAll(ids, now);
    }

    /** The loop of `tick`: the listed schedules are marked in turn, up to one whose next run is past the last date. */
    method MarkAll(ids: seq<string>, now: DateTime) returns (res: Result<seq<string>>, ghost marked: seq<string>)
      requires Valid() && Proper(now) && NoDuplicates(ids)
      requires forall id | id in ids :: id in schedules && DueAt(schedules[id], due[id], now)
      modifies this
      ensures Valid()
      ensures res.Ok? <==> forall id | id in ids :: CanMark(old(schedules)[id], now)
      ensures res == (if res.Ok? then Ok(ids) else Err(Overflow)) && (res.Ok? ==> marked == ids)
      ensures NoDuplicates(marked) && forall id | id in marked :: id in ids && CanMark(old(schedules)[id], now)
      ensures Ticked(old(schedules), old(due), old(runs), schedules, due, runs, marked, now)
    {
      ghost var s0, d0, r0 := schedules, due, runs;
      hide Instant, Iso, Proper, Step, Tracks, RanAt, CanMark, DueAt;
      for i := 0 to |ids|
        invariant Valid() && Ticked(s0, d0, r0, schedules, due, runs, ids[..i], now)
        invariant forall id | id in ids[..i] :: CanMark(s0[id], now)
      {
        var id := ids[i];
        assert id in ids && id !in ids[..i];
        assert ids[..i + 1] == ids[..i] + [id];
        if !CanMark(schedules[id], now) {
          return Err(Overflow), ids[..i];
        }
        MarkRun(s0, d0, r0, ids[..i], now, id);
      }
      assert ids[..|ids|] == ids;
      res, marked := Ok(ids), ids;
    }

    /** `mark_schedule_run` */
    method MarkRun(ghost s0: map<string, Schedule>, ghost d0: map<string, DateTime>, ghost r0: map<string, seq<int>>,
                   ghost done: seq<string>, now: DateTime, id: string)
      requires Valid() && Proper(now) && Ticked(s0, d0, r0, schedules, due, runs, done, now)
      requires id in schedules && id !in done && DueAt(schedules[id], due[id], now) && CanMark(schedules[id], now)
      modifies this
      ensures Valid() && Ticked(s0, d0, r0, schedules, due, runs, done + [id], now)
    {
      hide Instant, Iso, Proper, Step, Tracks, RanAt, Representable, Ticked;
      var next := AddMicros(now, Step(schedules[id]));
      ghost var ranThen := runs[id] + [Instant(now)];
      var row := schedules[id].(nextRun := Iso(next));
      RowRan(now, schedules[id], runs[id], row, next, ranThen);
      TickedOne(s0, d0, r0, schedules, due, runs, done, now, id, row, next, ranThen);
      schedules := schedules[id := row];
      due, runs := due[id := next], runs[id := ranThen];
    }
  }

  lemma RowRan(now: DateTime, s0: Schedule, r0: seq<int>, s: Schedule, due: DateTime, r: seq<int>)
    requires Proper(due) && Instant(due) == Instant(now) + Step(s0) && s == s0.(nextRun := Iso(due))
             && r == r0 + [Instant(now)]
    ensures RanAt(now, s0, r0, s, due, r)
  {
    StepIs(s0);
    hide Proper, Instant, Step, Iso;
  }

  lemma {:induction false} SpacedApart(runs: seq<int>, step: int, i: nat, j: nat)
    requires Spaced(runs, step) && i <= j < |runs|
    ensures runs[i] + (j - i) * step <= runs[j]
  {
    if i < j {
      SpacedApart(runs, step, i, j - 1);
      assert runs[j - 1] + step <= runs[j];
      assert (j - i) * step == (j - 1 - i) * step + step;
    }
  }

  /** Any two runs of one schedule are a step apart, and a span of the given length holds at most length / step + 1. */
  lemma RunsSpaced(store: SavedQueryStore, id: string, from: int, length: nat)
    requires store.Valid() && id in store.schedules
    ensures forall i, j | 0 <= i < j < |store.runs[id]| ::
              store.runs[id][i] + Seconds(store.schedules[id].interval) * 1000000 <= store.runs[id][j]
    ensures RateLimiter.CountBetween(store.runs[id], from, from + length) <=
            length / (Seconds(store.schedules[id].interval) * 1000000) + 1
  {
    StepIs(store.schedules[id]);
    var runs, step := store.runs[id], Step(store.schedules[id]);
    assert Tracks(store.schedules[id], store.due[id], runs);
    SpanBound(runs, step, from, length);
  }

  lemma SpanBound(runs: seq<int>, step: int, from: int, length: nat)
    requires Spaced(runs, step) && step > 0
    ensures RateLimiter.CountBetween(runs, from, from + length) <= length / step + 1
  {
    var n := length / step + 1;
    assert n * step > length;
    if RateLimiter.CountBetween(runs, from, from + length) > n {
      var i := RateLimiter.ManyAreConsecutive(runs, from, from + length, n);
      SpacedApart(runs, step, i, i + n);
    }
  }
}
