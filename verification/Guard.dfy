/** The kernel guard's Oops-storm table: 32 slots of tumbling-window counters. */
module Guard {
  const SLOTS: nat := 32
  const WINDOW_MS: int := 300000
  const THRESHOLD: nat := 8

  datatype Rec = Rec(pid: int, count: nat, windowStart: int)

  // ktime_to_ms: nanoseconds to milliseconds, towards zero.
  function ToMs(ns: int): int {
    if ns >= 0 then ns / 1000000 else -((-ns) / 1000000)
  }

  /** The first slot of pid, or |recs|. */
  function Match(recs: seq<Rec>, pid: int): (i: nat)
    ensures i <= |recs|
    ensures i < |recs| ==> recs[i].pid == pid
    ensures forall j :: 0 <= j < i ==> recs[j].pid != pid
  {
    if |recs| == 0 then 0
    else if recs[0].pid == pid then 0
    else
      var i := Match(recs[1..], pid);
      assert forall j :: 1 <= j < i + 1 ==> recs[j] == recs[1..][j - 1];
      i + 1
  }

  /** The first of the slots whose window started earliest. */
  function Oldest(recs: seq<Rec>): (i: nat)
    requires |recs| > 0
    ensures i < |recs|
    ensures forall j :: 0 <= j < |recs| ==> recs[i].windowStart <= recs[j].windowStart
    ensures forall j :: 0 <= j < i ==> recs[i].windowStart < recs[j].windowStart
  {
    var n := |recs| - 1;
    if n == 0 then 0
    else
      var i := Oldest(recs[..n]);
      if recs[n].windowStart < recs[i].windowStart then n else i
  }

  /** One note in its slot: maybe a new window, count, maybe a storm. */
  function Tick(r: Rec, now: int): (Rec, bool) {
    var w := if ToMs(now - r.windowStart) > WINDOW_MS then Rec(r.pid, 0, now) else r;
    if w.count + 1 >= THRESHOLD then (w.(count := 0), true) else (w.(count := w.count + 1), false)
  }

  function Note(recs: seq<Rec>, pid: int, now: int): (r: (seq<Rec>, bool))
    requires |recs| > 0
    ensures |r.0| == |recs|
  {
    var i := Match(recs, pid);
    if i < |recs| then
      var (rec, storm) := Tick(recs[i], now);
      (recs[i := rec], storm)
    else
      var (rec, storm) := Tick(Rec(pid, 0, now), now);
      (recs[Oldest(recs) := rec], storm)
  }

  class OopsTable {
    const slots: array<Rec>
    var mode: int

    ghost predicate Valid()
      reads this
    {
      slots.Length == SLOTS
    }

    constructor ()
      ensures Valid() && fresh(slots)
      ensures slots[..] == Empty() && mode == 1
    {
      slots := new Rec[SLOTS](_ => Rec(0, 0, 0));
      mode := 1;
      new;
      assert slots[..] == Empty();
    }

    /** Counts one Oops of pid. `taskFound` is whether the pid names a task now. */
    method NoteOops(pid: int, now: int, taskFound: bool) returns (storm: bool, killed: bool)
      requires Valid()
      modifies slots
      ensures Valid()
      ensures (slots[..], storm) == Note(old(slots[..]), pid, now)
      ensures killed <==> storm && mode >= 1 && taskFound
    {
      hide Match, Oldest;
      ghost var recs := slots[..];
      var i, oldest := 0, -1;
      while i < SLOTS && slots[i].pid != pid
        invariant 0 <= i <= SLOTS && slots[..] == recs
        invariant forall j :: 0 <= j < i ==> recs[j].pid != pid
        invariant if i == 0 then oldest == -1 else oldest == Oldest(recs[..i])
      {
        OldestSnoc(recs, i);
        if oldest < 0 || slots[i].windowStart < slots[oldest].windowStart {
          oldest := i;
        }
        i := i + 1;
      }
      var rec: Rec;
      var at: nat;
      if i < SLOTS {
        at, rec := i, slots[i];
      } else {
        assert recs[..SLOTS] == recs;
        at := oldest;
        rec := Rec(pid, 0, now);
      }
      if ToMs(now - rec.windowStart) > WINDOW_MS {
        rec := rec.(count := 0, windowStart := now);
      }
      rec := rec.(count := rec.count + 1);
      storm, killed := false, false;
      if rec.count >= THRESHOLD {
        storm := true;
        killed := mode >= 1 && taskFound;
        rec := rec.(count := 0);
      }
      slots[at] := rec;
      assert slots[..] == recs[at := rec];
    }
  }

  lemma OldestSnoc(recs: seq<Rec>, i: nat)
    requires i < |recs|
    ensures i == 0 ==> Oldest(recs[..1]) == 0
    ensures i > 0 ==>
              Oldest(recs[..i + 1]) == if recs[i].windowStart < recs[Oldest(recs[..i])].windowStart then i else Oldest(recs[..i])
  {
  }

  function Empty(): (recs: seq<Rec>)
    ensures |recs| == SLOTS
  {
    seq(SLOTS, _ => Rec(0, 0, 0))
  }

  // ----- Runs -----

  datatype Oops = Oops(pid: int, time: int)

  function Run(log: seq<Oops>): (recs: seq<Rec>)
    ensures |recs| == SLOTS
  {
    if |log| == 0 then Empty() else Note(Run(log[..|log| - 1]), log[|log| - 1].pid, log[|log| - 1].time).0
  }

  /** Whether the last note of a run fires the storm branch. */
  predicate Fires(log: seq<Oops>)
    requires |log| > 0
  {
    Note(Run(log[..|log| - 1]), log[|log| - 1].pid, log[|log| - 1].time).1
  }

  ghost predicate Monotone(log: seq<Oops>) {
    && (forall i :: 0 <= i < |log| ==> log[i].time >= 0)
    && (forall i, j :: 0 <= i < j < |log| ==> log[i].time <= log[j].time)
  }

  /** The notes of pid no earlier than `from`. */
  function CountSince(log: seq<Oops>, pid: int, from: int): nat {
    if |log| == 0 then 0
    else CountSince(log[..|log| - 1], pid, from)
         + (if log[|log| - 1].pid == pid && log[|log| - 1].time >= from then 1 else 0)
  }

  /** The notes of pid at most a window before `now`, in whole milliseconds. */
  function CountRecent(log: seq<Oops>, pid: int, now: int): nat {
    if |log| == 0 then 0
    else CountRecent(log[..|log| - 1], pid, now)
         + (if log[|log| - 1].pid == pid && ToMs(now - log[|log| - 1].time) <= WINDOW_MS then 1 else 0)
  }

  /** Every count is below the threshold and backed by real notes of its pid since
      the slot's window began. */
  ghost predicate Backed(recs: seq<Rec>, log: seq<Oops>) {
    forall i :: 0 <= i < |recs| ==>
      && recs[i].count < THRESHOLD
      && recs[i].count <= CountSince(log, recs[i].pid, recs[i].windowStart)
      && 0 <= recs[i].windowStart && (recs[i].windowStart > 0 ==> |log| > 0 && recs[i].windowStart <= log[|log| - 1].time)
  }

  lemma {:induction false} RunBacked(log: seq<Oops>)
    requires Monotone(log)
    ensures Backed(Run(log), log)
  {
    hide Match, Oldest, CountSince;
    if |log| > 0 {
      var n := |log| - 1;
      var before, pid, now := Run(log[..n]), log[n].pid, log[n].time;
      RunBacked(log[..n]);
      forall i | 0 <= i < SLOTS
        ensures Run(log)[i].count < THRESHOLD
        ensures Run(log)[i].count <= CountSince(log, Run(log)[i].pid, Run(log)[i].windowStart)
        ensures 0 <= Run(log)[i].windowStart <= now
      {
        CountSnoc(log, Run(log)[i].pid, Run(log)[i].windowStart);
      }
    }
  }

  lemma CountSnoc(log: seq<Oops>, pid: int, from: int)
    requires |log| > 0
    ensures CountSince(log, pid, from) == CountSince(log[..|log| - 1], pid, from)
            + (if log[|log| - 1].pid == pid && log[|log| - 1].time >= from then 1 else 0)
  {
  }

  lemma {:induction false} SinceIsRecent(log: seq<Oops>, pid: int, from: int, now: int)
    requires ToMs(now - from) <= WINDOW_MS && forall i :: 0 <= i < |log| ==> log[i].time <= now
    ensures CountSince(log, pid, from) <= CountRecent(log, pid, now)
  {
    if |log| > 0 {
      SinceIsRecent(log[..|log| - 1], pid, from, now);
      var t := log[|log| - 1].time;
      if t >= from {
        assert (now - t) / 1000000 <= (now - from) / 1000000;
      }
    }
  }

  /** Soundness: a storm is reported only for a pid that really had 8 Oopses inside
      one window, whatever other pids did and whatever was evicted. */
  lemma {:induction false} StormIsReal(log: seq<Oops>)
    requires |log| > 0 && Monotone(log) && Fires(log)
    ensures CountRecent(log, log[|log| - 1].pid, log[|log| - 1].time) >= THRESHOLD
  {
    hide Oldest, CountSince, CountRecent;
    var n := |log| - 1;
    var recs, pid, now := Run(log[..n]), log[n].pid, log[n].time;
    RunBacked(log[..n]);
    var i := Match(recs, pid);
    var from := recs[i].windowStart;
    CountSnoc(log, pid, from);
    SinceIsRecent(log, pid, from, now);
  }

  ghost predicate Unique(recs: seq<Rec>) {
    forall i, j :: 0 <= i < j < |recs| && recs[i].pid != 0 ==> recs[i].pid != recs[j].pid
  }

  lemma NoteUnique(recs: seq<Rec>, pid: int, now: int)
    requires |recs| > 0 && Unique(recs)
    ensures Unique(Note(recs, pid, now).0)
  {
  }

  /** Non-zero pids never hold two slots. */
  lemma {:induction false} SlotsUnique(log: seq<Oops>)
    ensures Unique(Run(log))
  {
    if |log| > 0 {
      var n := |log| - 1;
      SlotsUnique(log[..n]);
      NoteUnique(Run(log[..n]), log[n].pid, log[n].time);
    }
  }

  // ----- Completeness -----

  /** Whether a slot that receives these notes, in order, ever fires. */
  function Storms(r: Rec, times: seq<int>): bool
    decreases times
  {
    |times| > 0 && (Tick(r, times[0]).1 || Storms(Tick(r, times[0]).0, times[1..]))
  }

  /** Inside one counting window every note counts. */
  lemma {:induction false} QuietWithinWindow(r: Rec, times: seq<int>)
    requires r.count < THRESHOLD && !Storms(r, times)
    requires forall i :: 0 <= i < |times| ==> ToMs(times[i] - r.windowStart) <= WINDOW_MS
    ensures r.count + |times| < THRESHOLD
    decreases times
  {
    if |times| > 0 {
      QuietWithinWindow(Tick(r, times[0]).0, times[1..]);
    }
  }

  /** Within 300 seconds at most one window ends, so a quiet slot takes fewer than
      fifteen notes, those already counted included. */
  lemma {:induction false} QuietAcrossWindows(r: Rec, times: seq<int>, first: int)
    requires r.count < THRESHOLD && !Storms(r, times)
    requires forall i :: 0 <= i < |times| ==> times[i] >= first && ToMs(times[i] - first) <= WINDOW_MS
    ensures r.count + |times| <= 2 * (THRESHOLD - 1)
    decreases times
  {
    if |times| > 0 {
      var r', rest := Tick(r, times[0]).0, times[1..];
      if ToMs(times[0] - r.windowStart) > WINDOW_MS {
        forall i | 0 <= i < |rest|
          ensures ToMs(rest[i] - r'.windowStart) <= WINDOW_MS
        {
          assert rest[i] == times[i + 1];
          ToMsMonotone(times[i + 1] - times[0], times[i + 1] - first);
        }
        QuietWithinWindow(r', rest);
      } else {
        QuietAcrossWindows(r', rest, first);
      }
    }
  }

  lemma ToMsMonotone(x: int, y: int)
    requires x <= y
    ensures ToMs(x) <= ToMs(y)
  {
  }

  predicate Present(recs: seq<Rec>, p: int) {
    Match(recs, p) < |recs|
  }

  /** None of these notes evicts p: once it has a slot it keeps it. */
  ghost predicate Kept(recs: seq<Rec>, notes: seq<Oops>, p: int)
    requires |recs| > 0
    decreases notes
  {
    |notes| > 0 ==>
      var recs' := Note(recs, notes[0].pid, notes[0].time).0;
      (Present(recs, p) ==> Present(recs', p)) && Kept(recs', notes[1..], p)
  }

  ghost predicate FiresFor(recs: seq<Rec>, notes: seq<Oops>, p: int)
    requires |recs| > 0
    decreases notes
  {
    |notes| > 0
    && ((notes[0].pid == p && Note(recs, p, notes[0].time).1)
        || FiresFor(Note(recs, notes[0].pid, notes[0].time).0, notes[1..], p))
  }

  function TimesOf(notes: seq<Oops>, p: int): seq<int> {
    if |notes| == 0 then []
    else (if notes[0].pid == p then [notes[0].time] else []) + TimesOf(notes[1..], p)
  }

  lemma OwnNote(recs: seq<Rec>, p: int, now: int)
    requires Present(recs, p)
    ensures var (recs', storm) := Note(recs, p, now);
      var (r', storm') := Tick(recs[Match(recs, p)], now);
      storm == storm' && Match(recs', p) == Match(recs, p) && recs'[Match(recs, p)] == r'
  {
  }

  lemma OtherNote(recs: seq<Rec>, p: int, q: int, now: int)
    requires p != 0 && Unique(recs) && Present(recs, p) && q != p && Present(Note(recs, q, now).0, p)
    ensures Note(recs, q, now).0[Match(Note(recs, q, now).0, p)] == recs[Match(recs, p)]
  {
  }

  /** As long as p keeps its slot, other pids do not disturb its counting. */
  lemma {:induction false} QuietRunIsQuietSlot(recs: seq<Rec>, notes: seq<Oops>, p: int)
    requires p != 0 && Unique(recs) && Present(recs, p) && Kept(recs, notes, p) && !FiresFor(recs, notes, p)
    ensures !Storms(recs[Match(recs, p)], TimesOf(notes, p))
    decreases notes
  {
    hide Tick, Match, Oldest;
    if |notes| > 0 {
      var ev, rest := notes[0], notes[1..];
      var recs' := Note(recs, ev.pid, ev.time).0;
      NoteUnique(recs, ev.pid, ev.time);
      QuietRunIsQuietSlot(recs', rest, p);
      if ev.pid == p {
        OwnNote(recs, p, ev.time);
        assert TimesOf(notes, p)[1..] == TimesOf(rest, p);
      } else {
        OtherNote(recs, p, ev.pid, ev.time);
        assert TimesOf(notes, p) == TimesOf(rest, p);
      }
    }
  }

  /** The first note of a pid without a slot counts in a fresh one. */
  lemma FirstNote(recs: seq<Rec>, p: int, now: int)
    requires |recs| > 0 && !Present(recs, p)
    ensures var (recs', storm) := Note(recs, p, now);
      var (r', storm') := Tick(Rec(p, 0, now), now);
      storm == storm' && Present(recs', p) && recs'[Match(recs', p)] == r'
  {
    hide Oldest, Tick;
    var recs', o := Note(recs, p, now).0, Oldest(recs);
    TickKeepsPid(Rec(p, 0, now), now);
    assert recs'[o].pid == p;
  }

  lemma TickKeepsPid(r: Rec, now: int)
    ensures Tick(r, now).0.pid == r.pid
  {
  }

  /** The slot that the first of these times would count in. */
  function SlotFor(recs: seq<Rec>, p: int, times: seq<int>): Rec {
    if Present(recs, p) then recs[Match(recs, p)] else Rec(p, 0, if |times| == 0 then 0 else times[0])
  }

  /** The same from before p has a slot. */
  lemma {:induction false} QuietRunIsQuietCounting(recs: seq<Rec>, notes: seq<Oops>, p: int)
    requires |recs| > 0 && p != 0 && Unique(recs) && Kept(recs, notes, p) && !FiresFor(recs, notes, p)
    ensures !Storms(SlotFor(recs, p, TimesOf(notes, p)), TimesOf(notes, p))
    decreases notes
  {
    hide Tick, Match, Oldest;
    if Present(recs, p) {
      QuietRunIsQuietSlot(recs, notes, p);
    } else if |notes| > 0 {
      var ev, rest := notes[0], notes[1..];
      var recs' := Note(recs, ev.pid, ev.time).0;
      NoteUnique(recs, ev.pid, ev.time);
      if ev.pid == p {
        FirstNote(recs, p, ev.time);
        QuietRunIsQuietSlot(recs', rest, p);
        assert TimesOf(notes, p)[1..] == TimesOf(rest, p);
      } else {
        StillAbsent(recs, p, ev.pid, ev.time);
        QuietRunIsQuietCounting(recs', rest, p);
        assert TimesOf(notes, p) == TimesOf(rest, p);
      }
    }
  }

  lemma StillAbsent(recs: seq<Rec>, p: int, q: int, now: int)
    requires |recs| > 0 && !Present(recs, p) && q != p
    ensures !Present(Note(recs, q, now).0, p)
  {
  }

  /** Completeness: after any history, fifteen notes of a pid within one window fire
      a storm for it, unless it is evicted in between. */
  lemma FifteenAreEnough(log: seq<Oops>, notes: seq<Oops>, p: int, first: int)
    requires p != 0 && Kept(Run(log), notes, p)
    requires forall i :: 0 <= i < |notes| ==> notes[i].time >= first && ToMs(notes[i].time - first) <= WINDOW_MS
    requires |TimesOf(notes, p)| >= 15
    ensures FiresFor(Run(log), notes, p)
  {
    if !FiresFor(Run(log), notes, p) {
      SlotsUnique(log);
      CountsBounded(log);
      QuietRunIsQuietCounting(Run(log), notes, p);
      TimesAmong(notes, p, first);
      QuietAcrossWindows(SlotFor(Run(log), p, TimesOf(notes, p)), TimesOf(notes, p), first);
    }
  }

  lemma {:induction false} CountsBounded(log: seq<Oops>)
    ensures forall i :: 0 <= i < SLOTS ==> Run(log)[i].count < THRESHOLD
  {
    hide Match, Oldest;
    if |log| > 0 {
      CountsBounded(log[..|log| - 1]);
    }
  }

  function Repeat(t: int, n: nat): seq<int> {
    if n == 0 then [] else [t] + Repeat(t, n - 1)
  }

  /** n notes of p at one time. */
  function Burst(p: int, t: int, n: nat): (notes: seq<Oops>)
    ensures |notes| == n
  {
    seq(n, _ => Oops(p, t))
  }

  lemma TickCounts(r: Rec, t: int)
    requires ToMs(t - r.windowStart) <= WINDOW_MS && r.count + 1 < THRESHOLD
    ensures Tick(r, t) == (r.(count := r.count + 1), false)
  {
  }

  lemma {:induction false} CountUp(r: Rec, t: int, n: nat, rest: seq<int>)
    requires ToMs(t - r.windowStart) <= WINDOW_MS && r.count + n < THRESHOLD
    ensures Storms(r, Repeat(t, n) + rest) == Storms(r.(count := r.count + n), rest)
    decreases n
  {
    hide Tick, ToMs;
    if n == 0 {
      assert Repeat(t, n) + rest == rest;
    } else {
      TickCounts(r, t);
      CountUp(r.(count := r.count + 1), t, n - 1, rest);
      assert (Repeat(t, n) + rest)[1..] == Repeat(t, n - 1) + rest;
    }
  }

  /** After a storm a slot can stay quiet through fourteen notes two milliseconds
      apart, seven on each side of its window's end. */
  lemma FourteenInASlot(p: int, t: int)
    ensures !Storms(Rec(p, 0, t), Repeat(t + 299_999_000_000, 7) + Repeat(t + 300_001_000_000, 7))
  {
    var early, late := t + 299_999_000_000, t + 300_001_000_000;
    CountUp(Rec(p, 0, t), early, 7, Repeat(late, 7));
    assert Tick(Rec(p, 7, t), late) == (Rec(p, 1, late), false);
    assert Repeat(late, 7)[1..] == Repeat(late, 6) == Repeat(late, 6) + [];
    CountUp(Rec(p, 1, late), late, 6, []);
  }

  lemma TickAtStart(p: int, t: int, c: nat)
    requires c < THRESHOLD
    ensures Tick(Rec(p, c, t), t).0 == Rec(p, (c + 1) % THRESHOLD, t)
  {
  }

  /** What eight notes at once leave behind: a slot that has just fired. */
  lemma {:induction false} AfterBurst(p: int, t: int, n: nat)
    requires p != 0 && 0 < n <= THRESHOLD
    ensures Present(Run(Burst(p, t, n)), p)
    ensures Run(Burst(p, t, n))[Match(Run(Burst(p, t, n)), p)] == Rec(p, n % THRESHOLD, t)
  {
    hide Match, Oldest, Tick;
    TickAtStart(p, t, n - 1);
    var log := Burst(p, t, n);
    assert log[..n - 1] == Burst(p, t, n - 1);
    if n == 1 {
      assert log[..0] == [];
      NotInEmpty(p);
      FirstNote(Empty(), p, t);
    } else {
      AfterBurst(p, t, n - 1);
      OwnNote(Run(log[..n - 1]), p, t);
    }
  }

  lemma NotInEmpty(p: int)
    requires p != 0
    ensures !Present(Empty(), p)
  {
    assert Empty()[Match(Empty(), p) % SLOTS].pid == 0;
  }

  /** While only p is noted its slot is kept, and the run is that slot's counting. */
  lemma {:induction false} OnlyOwnNotes(recs: seq<Rec>, notes: seq<Oops>, p: int)
    requires |recs| > 0 && Present(recs, p) && forall i :: 0 <= i < |notes| ==> notes[i].pid == p
    ensures Kept(recs, notes, p) && |TimesOf(notes, p)| == |notes|
    ensures FiresFor(recs, notes, p) <==> Storms(recs[Match(recs, p)], TimesOf(notes, p))
    decreases notes
  {
    hide Tick, Match, Oldest;
    if |notes| > 0 {
      OwnNote(recs, p, notes[0].time);
      OnlyOwnNotes(Note(recs, p, notes[0].time).0, notes[1..], p);
      assert TimesOf(notes, p)[1..] == TimesOf(notes[1..], p);
    }
  }

  lemma {:induction false} BurstTimes(p: int, t: int, n: nat, rest: seq<Oops>)
    ensures TimesOf(Burst(p, t, n) + rest, p) == Repeat(t, n) + TimesOf(rest, p)
  {
    var notes := Burst(p, t, n) + rest;
    if n == 0 {
      assert notes == rest;
    } else {
      assert notes[1..] == Burst(p, t, n - 1) + rest;
      BurstTimes(p, t, n - 1, rest);
    }
  }

  /** Fifteen is the least such number: from the booted table, eight notes of p at
      time t and fourteen more around the end of their window, two milliseconds
      apart, keep p's slot and leave the fourteen without a storm. */
  lemma FourteenMayBeQuiet(p: int, t: int)
    requires p != 0
    ensures var early, late := t + 299_999_000_000, t + 300_001_000_000;
      var log, notes := Burst(p, t, 8), Burst(p, early, 7) + Burst(p, late, 7);
      && |TimesOf(notes, p)| == 14
      && (forall i :: 0 <= i < |notes| ==> notes[i].time >= early && ToMs(notes[i].time - early) <= 2)
      && Kept(Run(log), notes, p) && !FiresFor(Run(log), notes, p)
  {
    hide Run, Match, Kept, FiresFor, Storms, Tick, Repeat, TimesOf;
    var early, late := t + 299_999_000_000, t + 300_001_000_000;
    var log, notes := Burst(p, t, 8), Burst(p, early, 7) + Burst(p, late, 7);
    AfterBurst(p, t, 8);
    OnlyOwnNotes(Run(log), notes, p);
    BurstTimes(p, early, 7, Burst(p, late, 7));
    BurstTimes(p, late, 7, []);
    assert Burst(p, late, 7) + [] == Burst(p, late, 7);
    NoTimes(p);
    assert TimesOf(notes, p) == Repeat(early, 7) + Repeat(late, 7);
    FourteenInASlot(p, t);
  }

  lemma NoTimes(p: int)
    ensures TimesOf([], p) == []
  {
  }

  lemma {:induction false} TimesAmong(notes: seq<Oops>, p: int, first: int)
    requires forall i :: 0 <= i < |notes| ==> notes[i].time >= first && ToMs(notes[i].time - first) <= WINDOW_MS
    ensures forall i :: 0 <= i < |TimesOf(notes, p)| ==>
              TimesOf(notes, p)[i] >= first && ToMs(TimesOf(notes, p)[i] - first) <= WINDOW_MS
    decreases notes
  {
    if |notes| > 0 {
      TimesAmong(notes[1..], p, first);
    }
  }

  // ----- Eviction -----

  /** Slot i, the first of those whose window started earliest, is given to p. */
  ghost predicate GivenAway(recs: seq<Rec>, recs': seq<Rec>, i: nat, p: int, now: int) {
    && i < |recs| && recs' == recs[i := Rec(p, 1, now)]
    && (forall j :: 0 <= j < |recs| ==> recs[i].windowStart <= recs[j].windowStart)
    && (forall j :: 0 <= j < i ==> recs[i].windowStart < recs[j].windowStart)
  }

  /** A pid without a slot takes the oldest one, changes no other, and fires nothing. */
  lemma NewcomerTakesOldest(recs: seq<Rec>, p: int, now: int)
    requires |recs| > 0 && !Present(recs, p)
    ensures !Note(recs, p, now).1
    ensures exists i: nat :: GivenAway(recs, Note(recs, p, now).0, i, p, now)
  {
    hide Match;
    assert GivenAway(recs, Note(recs, p, now).0, Oldest(recs), p, now);
  }

  ghost function Pids(log: seq<Oops>): set<int> {
    set i | 0 <= i < |log| :: log[i].pid
  }

  ghost predicate Timed(log: seq<Oops>) {
    forall i :: 0 <= i < |log| ==> log[i].time > 0
  }

  /** What holds while at most 32 pids have been seen: a slot is either used by one of
      them or as it was at the start, up to one slot that counts pid 0. */
  ghost predicate Roomy(recs: seq<Rec>, seen: set<int>) {
    && Unique(recs)
    && (forall i :: 0 <= i < |recs| ==>
          if recs[i].windowStart == 0 then recs[i].pid == 0 else recs[i].pid in seen && recs[i].windowStart > 0)
    && (forall i, j :: 0 <= i < j < |recs| && recs[i].pid == 0 && recs[j].pid == 0 ==> recs[j].windowStart == 0)
  }

  lemma {:induction false} DistinctPids(recs: seq<Rec>, n: nat)
    requires n <= |recs| && forall i, j :: 0 <= i < j < |recs| ==> recs[i].pid != recs[j].pid
    ensures |set i | 0 <= i < n :: recs[i].pid| == n
  {
    if n > 0 {
      DistinctPids(recs, n - 1);
      var before := set i | 0 <= i < n - 1 :: recs[i].pid;
      assert recs[n - 1].pid !in before;
      assert (set i | 0 <= i < n :: recs[i].pid) == before + {recs[n - 1].pid};
    }
  }

  lemma SubsetSize(a: set<int>, b: set<int>)
    requires a <= b
    ensures |a| <= |b|
  {
    assert b == a + (b - a);
  }

  /** With room for one more pid there is an unused slot. */
  lemma UnusedSlot(recs: seq<Rec>, seen: set<int>, q: int)
    requires |recs| == SLOTS && Roomy(recs, seen) && !Present(recs, q) && |seen + {q}| <= SLOTS
    ensures exists i :: 0 <= i < SLOTS && recs[i].windowStart == 0
  {
    hide Match;
    if forall i :: 0 <= i < SLOTS ==> recs[i].windowStart != 0 {
      var held := set i | 0 <= i < SLOTS :: recs[i].pid;
      DistinctPids(recs, SLOTS);
      assert q !in held;
      SubsetSize(held + {q}, seen + {q});
    }
  }

  lemma NoteKeepsRoomy(recs: seq<Rec>, seen: set<int>, q: int, now: int)
    requires |recs| == SLOTS && Roomy(recs, seen) && now > 0 && |seen + {q}| <= SLOTS
    ensures Roomy(Note(recs, q, now).0, seen + {q})
    ensures forall p :: p != 0 && Present(recs, p) ==> Present(Note(recs, q, now).0, p)
  {
    hide Match, Tick;
    var recs' := Note(recs, q, now).0;
    NoteUnique(recs, q, now);
    if Present(recs, q) {
      var i := Match(recs, q);
      TickKeeps(recs[i], now);
    } else {
      var i := Oldest(recs);
      UnusedSlot(recs, seen, q);
      assert recs[i].windowStart == 0;
      TickKeeps(Rec(q, 0, now), now);
    }
    forall p | p != 0 && Present(recs, p)
      ensures Present(recs', p)
    {
      assert recs'[Match(recs, p)].pid == p;
    }
  }

  lemma TickKeeps(r: Rec, now: int)
    ensures Tick(r, now).0.pid == r.pid
    ensures Tick(r, now).0.windowStart == r.windowStart || Tick(r, now).0.windowStart == now
  {
  }

  lemma PidsSnoc(log: seq<Oops>)
    requires |log| > 0
    ensures Pids(log) == Pids(log[..|log| - 1]) + {log[|log| - 1].pid}
  {
    var n := |log| - 1;
    assert forall i :: 0 <= i < n ==> log[..n][i] == log[i];
  }

  lemma PidsFront(notes: seq<Oops>)
    requires |notes| > 0
    ensures Pids(notes) == {notes[0].pid} + Pids(notes[1..])
  {
    forall q | q in Pids(notes)
      ensures q in {notes[0].pid} + Pids(notes[1..])
    {
      var i :| 0 <= i < |notes| && notes[i].pid == q;
      assert i > 0 ==> notes[1..][i - 1].pid == q;
    }
  }

  lemma {:induction false} RunRoomy(log: seq<Oops>)
    requires Timed(log) && |Pids(log)| <= SLOTS
    ensures Roomy(Run(log), Pids(log))
  {
    hide Match, Oldest, Tick, Note, Roomy;
    if |log| > 0 {
      var n := |log| - 1;
      PidsSnoc(log);
      SubsetSize(Pids(log[..n]), Pids(log));
      RunRoomy(log[..n]);
      NoteKeepsRoomy(Run(log[..n]), Pids(log[..n]), log[n].pid, log[n].time);
    } else {
      EmptyRoomy();
      assert Pids(log) == {};
    }
  }

  lemma EmptyRoomy()
    ensures Roomy(Empty(), {})
  {
  }

  lemma {:induction false} RoomyKeeps(recs: seq<Rec>, seen: set<int>, notes: seq<Oops>, p: int)
    requires |recs| == SLOTS && Roomy(recs, seen) && p != 0 && Timed(notes) && |seen + Pids(notes)| <= SLOTS
    ensures Kept(recs, notes, p)
    decreases notes
  {
    hide Match, Oldest, Tick, Note, Roomy;
    if |notes| > 0 {
      var q := notes[0].pid;
      PidsFront(notes);
      assert seen + Pids(notes) == seen + {q} + Pids(notes[1..]);
      SubsetSize(seen + {q}, seen + Pids(notes));
      NoteKeepsRoomy(recs, seen, q, notes[0].time);
      RoomyKeeps(Note(recs, q, notes[0].time).0, seen + {q}, notes[1..], p);
    }
  }

  /** Nobody is ever evicted as long as the log holds at most 32 pids, pid 0 counted. */
  lemma NoEviction(log: seq<Oops>, notes: seq<Oops>, p: int)
    requires p != 0 && Timed(log) && Timed(notes) && |Pids(log) + Pids(notes)| <= SLOTS
    ensures Kept(Run(log), notes, p)
  {
    hide Roomy;
    SubsetSize(Pids(log), Pids(log) + Pids(notes));
    RunRoomy(log);
    RoomyKeeps(Run(log), Pids(log), notes, p);
  }

  /** So fifteen notes within one window then always fire. */
  lemma FifteenFire(log: seq<Oops>, notes: seq<Oops>, p: int, first: int)
    requires p != 0 && Timed(log) && Timed(notes) && |Pids(log) + Pids(notes)| <= SLOTS
    requires forall i :: 0 <= i < |notes| ==> notes[i].time >= first && ToMs(notes[i].time - first) <= WINDOW_MS
    requires |TimesOf(notes, p)| >= 15
    ensures FiresFor(Run(log), notes, p)
  {
    NoEviction(log, notes, p);
    FifteenAreEnough(log, notes, p, first);
  }

  // ----- Exactly when a storm fires -----

  /** The window of a pid: when it started, and how many notes it has had. */
  datatype Window = Window(start: int, notes: nat)

  /** p's window after a log. A note later than five minutes after the start, or the
      first of all, opens the next one. Storms do not come into it. */
  function WindowOf(log: seq<Oops>, p: int): Window {
    if |log| == 0 then Window(0, 0)
    else
      var w, last := WindowOf(log[..|log| - 1], p), log[|log| - 1];
      if last.pid != p then w
      else if w.notes == 0 || ToMs(last.time - w.start) > 300_000 then Window(last.time, 1)
      else w.(notes := w.notes + 1)
  }

  ghost predicate Counts(recs: seq<Rec>, log: seq<Oops>, p: int) {
    && (Present(recs, p) <==> WindowOf(log, p).notes > 0)
    && (Present(recs, p) ==>
          recs[Match(recs, p)] == Rec(p, WindowOf(log, p).notes % 8, WindowOf(log, p).start))
  }

  lemma TickCountsModulo(w: Window, p: int, now: int)
    requires w.notes > 0
    ensures var w' := if ToMs(now - w.start) > 300_000 then Window(now, 1) else w.(notes := w.notes + 1);
      Tick(Rec(p, w.notes % 8, w.start), now) == (Rec(p, w'.notes % 8, w'.start), w'.notes % 8 == 0)
  {
  }

  /** What a note of q does to p's slot while nobody is evicted. */
  lemma NoteCounts(log: seq<Oops>, p: int)
    requires |log| > 0 && p != 0
    requires var before := Run(log[..|log| - 1]);
      Unique(before) && Counts(before, log[..|log| - 1], p) && (Present(before, p) ==> Present(Run(log), p))
    ensures Counts(Run(log), log, p)
    ensures log[|log| - 1].pid == p ==> (Fires(log) <==> WindowOf(log, p).notes % 8 == 0)
  {
    hide Match, Oldest, Tick, Note, ToMs;
    var n := |log| - 1;
    var before, q, now := Run(log[..n]), log[n].pid, log[n].time;
    if q == p {
      if Present(before, p) {
        OwnNote(before, p, now);
        TickCountsModulo(WindowOf(log[..n], p), p, now);
      } else {
        FirstNote(before, p, now);
        FirstTick(p, now);
      }
    } else if Present(before, p) {
      OtherNote(before, p, q, now);
    } else {
      StillAbsent(before, p, q, now);
    }
  }

  lemma FirstTick(p: int, now: int)
    ensures Tick(Rec(p, 0, now), now) == (Rec(p, 1, now), false)
  {
  }

  lemma NothingCounted(p: int)
    requires p != 0
    ensures Counts(Run([]), [], p)
  {
    NotInEmpty(p);
  }

  /** While nobody is evicted a slot holds its pid's window start, and the number of
      notes in the window modulo 8. */
  lemma {:induction false} CountsAreNotes(log: seq<Oops>, p: int)
    requires p != 0 && Timed(log) && |Pids(log)| <= SLOTS
    ensures Counts(Run(log), log, p)
    ensures |log| > 0 && log[|log| - 1].pid == p ==> (Fires(log) <==> WindowOf(log, p).notes % 8 == 0)
  {
    hide Match, Oldest, Tick, Note, ToMs, Roomy, Counts;
    if |log| == 0 {
      NothingCounted(p);
    } else {
      var n := |log| - 1;
      PidsSnoc(log);
      SubsetSize(Pids(log[..n]), Pids(log));
      RunRoomy(log[..n]);
      SlotsUnique(log[..n]);
      NoteKeepsRoomy(Run(log[..n]), Pids(log[..n]), log[n].pid, log[n].time);
      CountsAreNotes(log[..n], p);
      NoteCounts(log, p);
    }
  }

  /** Exactly when a storm fires, over every run that notes at most 32 pids: at every
      eighth note of a pid within its window, and at no other. */
  lemma EveryEighth(log: seq<Oops>)
    requires |log| > 0 && Timed(log) && |Pids(log)| <= SLOTS && log[|log| - 1].pid != 0
    ensures Fires(log) <==> WindowOf(log, log[|log| - 1].pid).notes % 8 == 0
  {
    hide Match, Note, Run, WindowOf, Fires;
    CountsAreNotes(log, log[|log| - 1].pid);
  }

  // ----- One pid too many -----

  /** 33 pids noted in turn, n notes in all. */
  function Robin(n: nat): (log: seq<Oops>)
    ensures |log| == n
  {
    seq(n, k requires 0 <= k < n => Oops(k % 33 + 1, k + 1))
  }

  /** The last of the first n notes that went to slot j: those whose number is j
      modulo 32. */
  function LastNote(n: nat, j: nat): nat
    requires j < n && j < 32
  {
    n - 1 - (n - 1 - j) % 32
  }

  ghost predicate InTurn(recs: seq<Rec>, n: nat) {
    |recs| == SLOTS && forall j :: 0 <= j < SLOTS ==>
      recs[j] == if n <= j then Rec(0, 0, 0) else Rec(LastNote(n, j) % 33 + 1, 1, LastNote(n, j) + 1)
  }

  lemma LastNoteIs(n: nat, j: nat, k: int)
    requires j < n && j < 32
    ensures n - 32 <= LastNote(n, j) < n && LastNote(n, j) % 32 == j
    ensures n - 32 <= k < n && k % 32 == j ==> k == LastNote(n, j)
  {
    var l, d := LastNote(n, j), n - 1 - j;
    ModUniqueFor32(l, d / 32, j);
  }

  lemma ModUniqueFor32(l: int, q: int, j: nat)
    requires l == 32 * q + j && j < 32
    ensures l % 32 == j
  {
  }

  lemma NextLast(n: nat, j: nat)
    requires j < 32 && j <= n
    ensures LastNote(n + 1, j) == if j == n % 32 then n else LastNote(n, j)
  {
    LastNoteIs(n + 1, j, n);
    if j < n {
      LastNoteIs(n, j, n);
      LastNoteIs(n + 1, j, LastNote(n, j));
    }
  }

  lemma SlotInTurn(recs: seq<Rec>, n: nat, j: nat) returns (k: int)
    requires InTurn(recs, n) && j < SLOTS
    ensures recs[j].windowStart == k + 1
    ensures if n <= j then k == -1 else n - 32 <= k < n && k % 32 == j && (n >= 32 && j == n % 32 ==> k == n - 32)
  {
    k := recs[j].windowStart - 1;
    if n > j {
      LastNoteIs(n, j, n - 32);
    }
  }

  lemma OldestInTurn(recs: seq<Rec>, n: nat, i: nat)
    requires InTurn(recs, n) && i < SLOTS
    requires forall j :: 0 <= j < SLOTS ==> recs[i].windowStart <= recs[j].windowStart
    requires forall j :: 0 <= j < i ==> recs[i].windowStart < recs[j].windowStart
    ensures i == n % 32
  {
    hide InTurn;
    var o := n % 32;
    var k := SlotInTurn(recs, n, i);
    var l := SlotInTurn(recs, n, o);
    assert k <= l && (o < i ==> k < l);
  }

  lemma Evicted(recs: seq<Rec>, n: nat)
    requires InTurn(recs, n)
    ensures !Present(recs, n % 33 + 1)
  {
    hide LastNote;
    var j := Match(recs, n % 33 + 1);
    if j < SLOTS && j < n {
      LastNoteIs(n, j, 0);
    }
  }

  /** Every note finds its pid just evicted, and evicts the next one. */
  lemma TurnStep(recs: seq<Rec>, n: nat)
    requires InTurn(recs, n)
    ensures InTurn(Note(recs, n % 33 + 1, n + 1).0, n + 1) && !Note(recs, n % 33 + 1, n + 1).1
  {
    hide Match, Oldest, Tick, LastNote;
    var p, now := n % 33 + 1, n + 1;
    Evicted(recs, n);
    NewcomerTakesOldest(recs, p, now);
    var recs' := Note(recs, p, now).0;
    var i: nat :| GivenAway(recs, recs', i, p, now);
    OldestInTurn(recs, n, i);
    forall j | 0 <= j < SLOTS && j <= n
      ensures recs'[j] == Rec(LastNote(n + 1, j) % 33 + 1, 1, LastNote(n + 1, j) + 1)
    {
      NextLast(n, j);
    }
  }

  /** With 33 pids in turn the table is always one slot short: no storm ever fires,
      however many notes each of them gets in however short a time. */
  lemma {:induction false} RobinNeverStorms(n: nat)
    ensures InTurn(Run(Robin(n)), n)
    ensures n > 0 ==> !Fires(Robin(n))
  {
    hide InTurn, Note;
    if n == 0 {
      NoTurns();
    } else {
      assert Robin(n)[..n - 1] == Robin(n - 1);
      RobinNeverStorms(n - 1);
      TurnStep(Run(Robin(n - 1)), n - 1);
    }
  }

  lemma NoTurns()
    ensures InTurn(Run(Robin(0)), 0)
  {
  }
}
