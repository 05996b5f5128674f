/** The snapshot statistics of the lagometer: a time-pruned window of samples with a running sum. */
module Lagometer {
  const LAG_SAMPLES: nat := 1024
  const LAG_PERIOD: nat := 5000

  lemma Limits()
    ensures LAG_SAMPLES == 1024 && LAG_PERIOD == 5000
  {
  }

  datatype Sample = Sample(elapsed: int, time: int)

  /** sampledStat without its average: the samples in use, the time of the last one and the running sum. */
  datatype Stat = Stat(samples: seq<Sample>, last: int, total: int)

  const EMPTY := Stat([], 0, 0)

  function Sum(s: seq<Sample>): int
  {
    if s == [] then 0 else s[0].elapsed + Sum(s[1..])
  }

  /** How many samples at the front are too old. */
  function Stale(s: seq<Sample>, oldest: int): (k: nat)
    ensures k <= |s|
    ensures forall i :: 0 <= i < k ==> s[i].time <= oldest
    ensures k < |s| ==> s[k].time > oldest
  {
    if s == [] || s[0].time > oldest then 0 else 1 + Stale(s[1..], oldest)
  }

  // ---------------------------------------------------------------- what one snapshot does

  /** A server time in the past restarts the statistics. */
  function Restart(st: Stat, t: int): Stat
  {
    if t < st.last then EMPTY else st
  }

  function NewSample(st: Stat, t: int): Sample
  {
    Sample(if t - st.last > 0 then t - st.last else 0, t)
  }

  /** The sample goes to the end, or over the last one when the buffer is full. */
  function Insert(s: seq<Sample>, x: Sample): (r: seq<Sample>)
    requires |s| <= LAG_SAMPLES
    ensures 0 < |r| <= LAG_SAMPLES && r[|r| - 1] == x
  {
    if |s| < LAG_SAMPLES then s + [x] else s[..LAG_SAMPLES - 1] + [x]
  }

  function Snapshot(st: Stat, t: int): Stat
    requires |st.samples| <= LAG_SAMPLES
  {
    var from := Restart(st, t);
    var x := NewSample(from, t);
    var all := Insert(from.samples, x);
    var k := Stale(all, t - LAG_PERIOD);
    Stat(all[k..], t, from.total + x.elapsed - Sum(all[..k]))
  }

  class SampledStat {
    var count: nat
    var lastSampleTime: int
    var samplesTotalElapsed: int
    const samples: array<Sample>

    constructor ()
      ensures Valid() && Value() == EMPTY && fresh(samples)
    {
      samples := new Sample[LAG_SAMPLES](_ => Sample(0, 0));
      count, lastSampleTime, samplesTotalElapsed := 0, 0, 0;
    }

    ghost predicate Valid()
      reads this
    {
      samples.Length == LAG_SAMPLES && count <= LAG_SAMPLES
    }

    ghost function Value(): Stat
      requires Valid()
      reads this, samples
    {
      Stat(samples[..count], lastSampleTime, samplesTotalElapsed)
    }

    // The restart: every field and sample is zeroed.
    method Clear()
      requires Valid()
      modifies this, samples
      ensures Valid() && Value() == EMPTY
    {
      count, lastSampleTime, samplesTotalElapsed := 0, 0, 0;
      forall i | 0 <= i < samples.Length {
        samples[i] := Sample(0, 0);
      }
    }

    /** The statistics part of CG_AddLagometerSnapshotInfo, for a snapshot that was received. */
    method AddSnapshot(serverTime: int)
      requires Valid()
      modifies this, samples
      ensures Valid() && Value() == Snapshot(old(Value()), serverTime)
    {
      hide Sum, Stale, Insert, NewSample;
      if serverTime < lastSampleTime {
        Clear();
      }
      assert Value() == Restart(old(Value()), serverTime);
      Store(serverTime);
      Prune(serverTime - LAG_PERIOD);
    }

    /** The loop over the samples that are too old, and the move of the others to the front. */
    method Prune(oldest: int)
      requires Valid()
      modifies this`count, this`samplesTotalElapsed, samples
      ensures Valid()
      ensures var all := old(samples[..count]);
              var k := Stale(all, oldest);
              samples[..count] == all[k..] && samplesTotalElapsed == old(samplesTotalElapsed) - Sum(all[..k])
    {
      ghost var all := samples[..count];
      var index := 0;
      assert all[0..] == all;
      while index < count
        invariant Valid() && index <= count == |all| && samples[..count] == all
        invariant Stale(all, oldest) == index + Stale(all[index..], oldest)
        invariant samplesTotalElapsed == old(samplesTotalElapsed) - Sum(all[..index])
        decreases count - index
      {
        if samples[index].time > oldest {
          break;
        }
        assert all[index..][1..] == all[index + 1..];
        SumAppend(all[..index], all[index]);
        assert all[..index + 1] == all[..index] + [all[index]];
        samplesTotalElapsed := samplesTotalElapsed - samples[index].elapsed;
        index := index + 1;
      }
      if index != 0 {
        MoveDown(index);
      }
    }

    /** Writing the new sample; the running sum grows by it even when it replaces the last one. */
    method Store(serverTime: int)
      requires Valid()
      modifies this, samples
      ensures Valid() && lastSampleTime == serverTime
      ensures samples[..count] == Insert(old(samples[..count]), NewSample(old(Value()), serverTime))
      ensures samplesTotalElapsed == old(samplesTotalElapsed) + NewSample(old(Value()), serverTime).elapsed
    {
      var index := count;
      if count < LAG_SAMPLES {
        count := count + 1;
      } else {
        index := index - 1;
      }
      var elapsed := serverTime - lastSampleTime;
      elapsed := if elapsed > 0 then elapsed else 0;
      samples[index] := Sample(elapsed, serverTime);
      lastSampleTime := serverTime;
      samplesTotalElapsed := samplesTotalElapsed + samples[index].elapsed;
    }

    // The move of the samples that stay to the front of the buffer.
    method MoveDown(index: nat)
      requires Valid() && index <= count
      modifies this`count, samples
      ensures Valid() && samples[..count] == old(samples[index..count])
    {
      forall i | 0 <= i < count - index {
        samples[i] := samples[i + index];
      }
      count := count - index;
    }
  }

  // ---------------------------------------------------------------- sums and filters

  lemma {:induction false} SumAppend(s: seq<Sample>, x: Sample)
    ensures Sum(s + [x]) == Sum(s) + x.elapsed
  {
    if s == [] {
      assert [x][1..] == [] && s + [x] == [x];
    } else {
      assert (s + [x])[1..] == s[1..] + [x];
      SumAppend(s[1..], x);
    }
  }

  lemma {:induction false} SumSplit(s: seq<Sample>, k: nat)
    requires k <= |s|
    ensures Sum(s) == Sum(s[..k]) + Sum(s[k..])
    decreases k
  {
    if k == 0 {
      assert s[0..] == s && s[..0] == [];
    } else {
      assert s[..k][1..] == s[1..][..k - 1] && s[1..][k - 1..] == s[k..];
      SumSplit(s[1..], k - 1);
    }
  }

  /** The samples of the history inside the period. */
  function Recent(s: seq<Sample>, oldest: int): seq<Sample>
  {
    if s == [] then [] else (if s[0].time > oldest then [s[0]] else []) + Recent(s[1..], oldest)
  }

  ghost predicate Ordered(s: seq<Sample>)
  {
    forall i, j :: 0 <= i < j < |s| ==> s[i].time <= s[j].time
  }

  /** On samples in time order, dropping the stale front is the filter. */
  lemma {:induction false} PruneIsFilter(s: seq<Sample>, oldest: int)
    requires Ordered(s)
    ensures s[Stale(s, oldest)..] == Recent(s, oldest)
  {
    if s != [] {
      PruneIsFilter(s[1..], oldest);
      if s[0].time > oldest {
        AllRecent(s[1..], oldest);
      } else {
        assert s[Stale(s, oldest)..] == s[1..][Stale(s[1..], oldest)..];
      }
    }
  }

  lemma {:induction false} AllRecent(s: seq<Sample>, oldest: int)
    requires forall i :: 0 <= i < |s| ==> s[i].time > oldest
    ensures Recent(s, oldest) == s
  {
    if s != [] {
      AllRecent(s[1..], oldest);
    }
  }

  lemma {:induction false} RecentAppend(s: seq<Sample>, x: Sample, oldest: int)
    ensures Recent(s + [x], oldest) == Recent(s, oldest) + (if x.time > oldest then [x] else [])
  {
    if s == [] {
      assert s + [x] == [x] && [x][1..] == [];
    } else {
      assert (s + [x])[1..] == s[1..] + [x];
      RecentAppend(s[1..], x, oldest);
    }
  }

  /** A later cut of an earlier cut is the later cut. */
  lemma {:induction false} RecentTwice(s: seq<Sample>, a: int, b: int)
    requires a <= b
    ensures Recent(Recent(s, a), b) == Recent(s, b)
  {
    if s != [] {
      RecentTwice(s[1..], a, b);
      if s[0].time > a {
        assert Recent(s, a)[0] == s[0] && Recent(s, a)[1..] == Recent(s[1..], a);
      } else {
        assert Recent(s, a) == Recent(s[1..], a);
      }
    }
  }

  // ---------------------------------------------------------------- runs

  function LastTime(times: seq<int>): int
  {
    if times == [] then 0 else times[|times| - 1]
  }

  /** The state after snapshots at the given server times. */
  function Run(times: seq<int>): (st: Stat)
    ensures |st.samples| <= LAG_SAMPLES && st.last == LastTime(times)
    decreases |times|
  {
    if times == [] then EMPTY else Snapshot(Run(times[..|times| - 1]), times[|times| - 1])
  }

  /** Every sample since the last time the statistics were restarted. */
  function History(times: seq<int>): (h: seq<Sample>)
    ensures times != [] ==> h != []
    decreases |times|
  {
    if times == [] then []
    else
      var front, t := times[..|times| - 1], times[|times| - 1];
      if t < LastTime(front) then [Sample(if t > 0 then t else 0, t)]
      else History(front) + [Sample(t - LastTime(front), t)]
  }

  /** How many snapshots since the last restart came after `oldest`. */
  function Crowd(times: seq<int>, oldest: int): nat
    decreases |times|
  {
    if times == [] then 0
    else
      var front, t := times[..|times| - 1], times[|times| - 1];
      (if t < LastTime(front) then 0 else Crowd(front, oldest)) + (if t > oldest then 1 else 0)
  }

  /** Before every snapshot that does not restart, fewer than 1024 came in the five seconds up to the one before. */
  ghost predicate NeverCrowded(times: seq<int>)
  {
    forall k :: 0 <= k < |times| ==> Roomy(times[..k], times[k])
  }

  predicate Roomy(front: seq<int>, t: int)
  {
    t < LastTime(front) || Crowd(front, LastTime(front) - 5000) < 1024
  }

  /** No snapshot finds the buffer full. */
  predicate NeverFull(times: seq<int>)
    decreases |times|
  {
    times == []
    || (var front, t := times[..|times| - 1], times[|times| - 1];
        NeverFull(front) && |Restart(Run(front), t).samples| < LAG_SAMPLES)
  }

  lemma {:induction false} HistoryOrdered(times: seq<int>)
    ensures Ordered(History(times)) && forall x :: x in History(times) ==> x.time <= LastTime(times)
    decreases |times|
  {
    if times != [] {
      HistoryOrdered(times[..|times| - 1]);
    }
  }

  /** As long as no snapshot finds the buffer full, the window is exactly the history of the last five seconds, in
      order, and the running sum is exact. */
  lemma {:induction false} WindowIsFilter(times: seq<int>)
    requires NeverFull(times)
    ensures Run(times).samples == Recent(History(times), LastTime(times) - 5000)
    ensures Run(times).total == Sum(Run(times).samples)
    decreases |times|
  {
    Limits();
    hide *;
    if times == [] {
      EmptyRun();
    } else {
      var front, t := times[..|times| - 1], times[|times| - 1];
      assert front + [t] == times;
      NeverFullStep(front, t);
      RunStep(front, t);
      WindowIsFilter(front);
      HistoryOrdered(front);
      HistoryStep(front, t);
      WindowNext(Run(front), History(front), t);
    }
  }

  /** Whether the buffer is ever found full can be told from the times. */
  lemma {:induction false} NeverFullExactly(times: seq<int>)
    ensures NeverFull(times) <==> NeverCrowded(times)
    decreases |times|
  {
    hide *;
    Limits();
    if times == [] {
      NothingYet();
    } else {
      var front, t := times[..|times| - 1], times[|times| - 1];
      assert front + [t] == times;
      NeverFullExactly(front);
      NeverFullSplit(front, t);
      NeverCrowdedSplit(front, t);
      if NeverFull(front) {
        WindowIsFilter(front);
        CrowdIsRecent(front, LastTime(front) - LAG_PERIOD);
        RestartSize(front, t);
      }
    }
  }

  lemma NothingYet()
    ensures NeverFull([]) && NeverCrowded([])
  {
  }

  lemma NeverFullSplit(front: seq<int>, t: int)
    ensures NeverFull(front + [t]) <==> NeverFull(front) && |Restart(Run(front), t).samples| < LAG_SAMPLES
  {
    hide Run, Restart;
    assert (front + [t])[..|front|] == front;
  }

  lemma NeverCrowdedSplit(front: seq<int>, t: int)
    ensures NeverCrowded(front + [t]) <==> NeverCrowded(front) && Roomy(front, t)
  {
    hide Roomy;
    var times := front + [t];
    assert times[..|front|] == front && times[|front|] == t;
    assert forall k :: 0 <= k < |front| ==> times[..k] == front[..k] && times[k] == front[k];
  }

  lemma RestartSize(front: seq<int>, t: int)
    requires |Run(front).samples| == Crowd(front, LastTime(front) - LAG_PERIOD)
    ensures |Restart(Run(front), t).samples| < LAG_SAMPLES <==> Roomy(front, t)
  {
    hide Run, Crowd;
  }

  lemma {:induction false} CrowdIsRecent(times: seq<int>, oldest: int)
    ensures |Recent(History(times), oldest)| == Crowd(times, oldest)
    decreases |times|
  {
    if times != [] {
      var front, t := times[..|times| - 1], times[|times| - 1];
      CrowdIsRecent(front, oldest);
      if t >= LastTime(front) {
        RecentAppend(History(front), Sample(t - LastTime(front), t), oldest);
      } else {
        RecentAppend([], Sample(if t > 0 then t else 0, t), oldest);
        assert [] + History(times) == History(times);
      }
    }
  }

  // ---------------------------------------------------------------- exactly the runs that keep the window

  /** After every snapshot the window is the history of the last five seconds. */
  ghost predicate AlwaysFiltered(times: seq<int>)
  {
    forall k :: 0 <= k <= |times| ==> Filtered(times[..k])
  }

  ghost predicate Filtered(times: seq<int>)
  {
    Run(times).samples == Recent(History(times), LastTime(times) - 5000)
  }

  /** Every snapshot restarts, comes after fewer than 1024 in five seconds, or comes five seconds after the one
      before. */
  ghost predicate NeverLossy(times: seq<int>)
  {
    forall k :: 0 <= k < |times| ==> Lossless(times[..k], times[k])
  }

  predicate Lossless(front: seq<int>, t: int)
  {
    Roomy(front, t) || LastTime(front) <= t - 5000
  }

  /** The window is right all along exactly on the runs that never lose a sample they should keep. */
  lemma {:induction false} AlwaysFilteredExactly(times: seq<int>)
    ensures AlwaysFiltered(times) <==> NeverLossy(times)
    decreases |times|
  {
    hide *;
    if times == [] {
      EmptyRun();
      FilteredAtFirst();
    } else {
      var front, t := times[..|times| - 1], times[|times| - 1];
      assert front + [t] == times;
      AlwaysFilteredExactly(front);
      AlwaysSplit(front, t);
      if AlwaysFiltered(front) {
        FilteredStep(front, t);
      }
    }
  }

  lemma FilteredAtFirst()
    ensures AlwaysFiltered([]) && NeverLossy([])
  {
  }

  lemma AlwaysSplit(front: seq<int>, t: int)
    ensures AlwaysFiltered(front + [t]) <==> AlwaysFiltered(front) && Filtered(front + [t])
    ensures NeverLossy(front + [t]) <==> NeverLossy(front) && Lossless(front, t)
    ensures AlwaysFiltered(front) ==> Filtered(front)
  {
    hide Filtered, Lossless;
    var times := front + [t];
    assert times[..|front|] == front && times[|front|] == t && times[..|times|] == times && front[..|front|] == front;
    assert forall k :: 0 <= k <= |front| ==> times[..k] == front[..k];
  }

  lemma FilteredStep(front: seq<int>, t: int)
    requires Filtered(front)
    ensures Filtered(front + [t]) <==> Lossless(front, t)
  {
    hide *;
    Limits();
    FilteredIs(front);
    FilteredIs(front + [t]);
    RunStep(front, t);
    HistoryOrdered(front);
    HistoryStep(front, t);
    WindowKeptExactly(Run(front), History(front), t);
    CrowdIsRecent(front, LastTime(front) - LAG_PERIOD);
    Newest(front);
    LosslessIs(front, t);
  }

  lemma FilteredIs(times: seq<int>)
    ensures Filtered(times) <==> Run(times).samples == Recent(History(times), LastTime(times) - LAG_PERIOD)
    ensures times != [] ==> LastTime(times) == times[|times| - 1]
  {
    hide Run, Recent, History;
  }

  lemma LosslessIs(front: seq<int>, t: int)
    requires |Run(front).samples| == Crowd(front, LastTime(front) - LAG_PERIOD)
    requires front != [] ==>
             Run(front).samples != [] && Run(front).samples[|Run(front).samples| - 1].time == LastTime(front)
    ensures var s := Restart(Run(front), t).samples;
            Lossless(front, t) <==> |s| < LAG_SAMPLES || s[LAG_SAMPLES - 1].time <= t - LAG_PERIOD
  {
    hide Snapshot, Crowd;
    assert front == [] ==> Run(front).samples == [];
  }

  /** The newest sample in the window is the newest of the history. */
  lemma Newest(times: seq<int>)
    ensures times == [] ==> Run(times).samples == []
    ensures times != [] ==>
            var s, h := Run(times).samples, History(times);
            s != [] && s[|s| - 1] == h[|h| - 1] && s[|s| - 1].time == LastTime(times) && s[|s| - 1].elapsed >= 0
  {
    if times != [] {
      hide Snapshot, Run, Restart, History;
      var front, t := times[..|times| - 1], times[|times| - 1];
      assert times == front + [t];
      RunStep(front, t);
      NewestOfSnapshot(Run(front), t);
      HistoryStep(front, t);
    }
  }

  lemma NewestOfSnapshot(st: Stat, t: int)
    requires |st.samples| <= LAG_SAMPLES
    ensures var s := Snapshot(st, t).samples;
            s != [] && s[|s| - 1] == NewSample(Restart(st, t), t)
  {
    hide Sum;
    var all := Insert(Restart(st, t).samples, NewSample(Restart(st, t), t));
    assert all[|all| - 1].time > t - LAG_PERIOD;
  }

  lemma EmptyRun()
    ensures Run([]).samples == [] && Run([]).total == 0 && History([]) == [] && Sum([]) == 0
    ensures forall oldest :: Recent([], oldest) == []
  {
  }

  lemma NeverFullStep(front: seq<int>, t: int)
    requires NeverFull(front + [t])
    ensures NeverFull(front) && |Restart(Run(front), t).samples| < LAG_SAMPLES && LastTime(front + [t]) == t
  {
    hide Snapshot, Run;
    assert (front + [t])[..|front|] == front;
  }

  lemma RunStep(front: seq<int>, t: int)
    ensures Run(front + [t]) == Snapshot(Run(front), t)
  {
    hide Snapshot;
    assert (front + [t])[..|front|] == front;
  }

  /** One snapshot on a window that is the filtered history. */
  lemma WindowNext(st: Stat, h: seq<Sample>, t: int)
    requires st.samples == Recent(h, st.last - LAG_PERIOD) && st.total == Sum(st.samples) && |st.samples| <= LAG_SAMPLES
    requires Ordered(h) && (forall y :: y in h ==> y.time <= st.last) && |Restart(st, t).samples| < LAG_SAMPLES
    ensures var kept := (if t < st.last then [] else h) + [NewSample(Restart(st, t), t)];
            Snapshot(st, t).samples == Recent(kept, t - LAG_PERIOD)
              && Snapshot(st, t).total == Sum(Snapshot(st, t).samples)
  {
    hide Snapshot, Recent, Stale, Ordered;
    var from := Restart(st, t);
    var x := NewSample(from, t);
    SnapshotUnfilled(st, t);
    WindowUnfilled(st, h, t);
    SumStep(from.samples, x, Stale(from.samples + [x], t - LAG_PERIOD));
  }

  lemma SnapshotUnfilled(st: Stat, t: int)
    requires |Restart(st, t).samples| < LAG_SAMPLES && |st.samples| <= LAG_SAMPLES
    ensures var from := Restart(st, t);
            var all := from.samples + [NewSample(from, t)];
            var k := Stale(all, t - LAG_PERIOD);
            Snapshot(st, t) == Stat(all[k..], t, from.total + NewSample(from, t).elapsed - Sum(all[..k]))
            && (t < st.last ==> from.samples == [] && from.total == 0)
    ensures forall oldest :: Recent([], oldest) == []
    ensures Ordered([])
  {
  }

  lemma HistoryStep(front: seq<int>, t: int)
    ensures History(front + [t]) ==
            (if t < LastTime(front) then [] else History(front)) + [NewSample(Restart(Run(front), t), t)]
  {
    hide Snapshot, Run;
    assert (front + [t])[..|front|] == front;
  }

  lemma WindowCase(h: seq<Sample>, cut: int, s: seq<Sample>, x: Sample, oldest: int)
    requires s == Recent(h, cut) && Ordered(h) && (forall y :: y in h ==> y.time <= x.time) && cut <= oldest
    ensures (s + [x])[Stale(s + [x], oldest)..] == Recent(h + [x], oldest)
  {
    hide Recent, Stale;
    RecentOrdered(h, cut);
    WindowStep(s, x, oldest);
    RecentAppend(h, x, oldest);
    RecentTwice(h, cut, oldest);
  }

  lemma {:induction false} RecentOrdered(s: seq<Sample>, oldest: int)
    requires Ordered(s)
    ensures Ordered(Recent(s, oldest)) && forall x :: x in Recent(s, oldest) ==> x in s
  {
    if s != [] {
      RecentOrdered(s[1..], oldest);
      assert forall x :: x in s[1..] ==> x in s && s[0].time <= x.time;
    }
  }

  lemma WindowStep(s: seq<Sample>, x: Sample, oldest: int)
    requires Ordered(s) && forall y :: y in s ==> y.time <= x.time
    ensures (s + [x])[Stale(s + [x], oldest)..] == Recent(s, oldest) + (if x.time > oldest then [x] else [])
  {
    PruneIsFilter(s + [x], oldest);
    RecentAppend(s, x, oldest);
  }

  lemma SumStep(s: seq<Sample>, x: Sample, k: nat)
    requires k <= |s| + 1
    ensures Sum(s) + x.elapsed - Sum((s + [x])[..k]) == Sum((s + [x])[k..])
  {
    SumAppend(s, x);
    SumSplit(s + [x], k);
  }

  /** On every run the window holds 1 to 1024 samples after a snapshot, the newest being the last. */
  lemma CountBounds(times: seq<int>)
    requires times != []
    ensures 1 <= |Run(times).samples| <= 1024
    ensures Run(times).samples[|Run(times).samples| - 1].time == LastTime(times)
  {
    Limits();
    hide Run, LastTime, History;
    Newest(times);
  }

  /** A snapshot keeps the running sum exact exactly when it does not find the buffer full, or overwrites a sample with
      no elapsed time. */
  lemma SumKeptExactly(st: Stat, t: int)
    requires |st.samples| <= LAG_SAMPLES && st.total == Sum(st.samples)
    ensures var from := Restart(st, t);
            var st' := Snapshot(st, t);
            st'.total == Sum(st'.samples) <==>
              |from.samples| < 1024 || from.samples[1023].elapsed == 0
  {
    Drift(st, t);
    assert Restart(st, t).total == Sum(Restart(st, t).samples);
  }

  /** How far one snapshot moves the running sum away from the samples: by the elapsed time that was overwritten. */
  lemma Drift(st: Stat, t: int)
    requires |st.samples| <= LAG_SAMPLES
    ensures var from := Restart(st, t);
            var st' := Snapshot(st, t);
            st'.total - Sum(st'.samples) ==
            from.total - Sum(from.samples)
            + if |from.samples| == LAG_SAMPLES then from.samples[LAG_SAMPLES - 1].elapsed else 0
  {
    var from := Restart(st, t);
    var x := NewSample(from, t);
    var s := from.samples;
    var all := Insert(s, x);
    SumSplit(all, Stale(all, t - LAG_PERIOD));
    if |s| < LAG_SAMPLES {
      SumAppend(s, x);
    } else {
      var front := s[..LAG_SAMPLES - 1];
      SumAppend(front, x);
      SumAppend(front, s[LAG_SAMPLES - 1]);
      assert s == front + [s[LAG_SAMPLES - 1]];
    }
  }

  /** The elapsed times that were overwritten since the last restart. */
  function Overwritten(times: seq<int>): int
    decreases |times|
  {
    if times == [] then 0
    else
      var front, t := times[..|times| - 1], times[|times| - 1];
      if t < LastTime(front) then 0
      else
        Overwritten(front)
        + if |Run(front).samples| == 1024 then History(front)[|History(front)| - 1].elapsed else 0
  }

  /** On every run the running sum is off by exactly what was overwritten since the last restart. */
  lemma {:induction false} SumOfRun(times: seq<int>)
    ensures Run(times).total == Sum(Run(times).samples) + Overwritten(times)
    ensures Overwritten(times) >= 0
    decreases |times|
  {
    hide Run, History, Overwritten, Sum, Snapshot, Restart;
    if times == [] {
      EmptyRun();
      OverwrittenAtFirst();
    } else {
      var front, t := times[..|times| - 1], times[|times| - 1];
      assert front + [t] == times;
      SumOfRun(front);
      RunStep(front, t);
      Drift(Run(front), t);
      Newest(front);
      OverwrittenStep(front, t);
    }
  }

  lemma OverwrittenAtFirst()
    ensures Overwritten([]) == 0
  {
  }

  lemma OverwrittenStep(front: seq<int>, t: int)
    requires |Run(front).samples| == LAG_SAMPLES ==>
               front != [] && 0 <= Run(front).samples[LAG_SAMPLES - 1].elapsed
                 && Run(front).samples[LAG_SAMPLES - 1] == History(front)[|History(front)| - 1]
    ensures Overwritten(front) >= 0 ==> Overwritten(front + [t]) >= 0
    ensures var from := Restart(Run(front), t);
            Overwritten(front + [t]) ==
            (if t < LastTime(front) then 0 else Overwritten(front))
            + if |from.samples| == LAG_SAMPLES then from.samples[LAG_SAMPLES - 1].elapsed else 0
    ensures var from := Restart(Run(front), t);
            from.total - Sum(from.samples) == if t < LastTime(front) then 0
              else Run(front).total - Sum(Run(front).samples)
  {
    hide Run, History;
    assert (front + [t])[..|front|] == front;
  }

  /** A snapshot keeps the window equal to the filtered history exactly when it does not find the buffer full, or
      overwrites a sample that would have been dropped anyway. */
  lemma WindowKeptExactly(st: Stat, h: seq<Sample>, t: int)
    requires st.samples == Recent(h, st.last - LAG_PERIOD) && |st.samples| <= LAG_SAMPLES
    requires Ordered(h) && forall y :: y in h ==> y.time <= st.last
    ensures var s := Restart(st, t).samples;
            var kept := (if t < st.last then [] else h) + [NewSample(Restart(st, t), t)];
            Snapshot(st, t).samples == Recent(kept, t - 5000)
            <==> |s| < 1024 || s[1023].time <= t - 5000
  {
    Limits();
    hide Recent, Stale, Ordered, Snapshot, NewSample;
    if |Restart(st, t).samples| < LAG_SAMPLES {
      hide Restart;
      WindowUnfilled(st, h, t);
    } else {
      SnapshotFull(st, t);
      NewSampleTime(st, t);
      WindowFull(h, st.last - LAG_PERIOD, st.samples[..LAG_SAMPLES - 1], st.samples[LAG_SAMPLES - 1], NewSample(st, t),
                 t - LAG_PERIOD);
    }
  }

  lemma NewSampleTime(st: Stat, t: int)
    ensures NewSample(st, t).time == t
  {
  }

  lemma WindowUnfilled(st: Stat, h: seq<Sample>, t: int)
    requires st.samples == Recent(h, st.last - LAG_PERIOD) && |st.samples| <= LAG_SAMPLES
             && |Restart(st, t).samples| < LAG_SAMPLES
    requires Ordered(h) && forall y :: y in h ==> y.time <= st.last
    ensures var kept := (if t < st.last then [] else h) + [NewSample(Restart(st, t), t)];
            Snapshot(st, t).samples == Recent(kept, t - LAG_PERIOD)
  {
    hide Recent, Stale, Ordered, Snapshot;
    var reset := t < st.last;
    SnapshotUnfilled(st, t);
    WindowCase(if reset then [] else h, if reset then t - LAG_PERIOD else st.last - LAG_PERIOD,
               Restart(st, t).samples, NewSample(Restart(st, t), t), t - LAG_PERIOD);
  }

  // The same for a window in which the new sample takes the place of the last one.
  lemma WindowFull(h: seq<Sample>, cut: int, front: seq<Sample>, last: Sample, x: Sample, oldest: int)
    requires front + [last] == Recent(h, cut) && Ordered(h) && (forall y :: y in h ==> y.time <= x.time)
             && cut <= oldest
    ensures (front + [x])[Stale(front + [x], oldest)..] == Recent(h + [x], oldest) <==> last.time <= oldest
  {
    hide Recent, Stale, Ordered;
    RecentOrdered(h, cut);
    OrderedFront(front, last);
    WindowStep(front, x, oldest) by {
      forall y | y in front ensures y in h && y.time <= x.time {
        assert y in front + [last];
      }
    }
    RecentAppend(front, last, oldest);
    RecentAppend(h, x, oldest);
    RecentTwice(h, cut, oldest);
  }

  lemma SnapshotFull(st: Stat, t: int)
    requires |st.samples| == LAG_SAMPLES && t >= st.last
    ensures var all := st.samples[..LAG_SAMPLES - 1] + [NewSample(st, t)];
            Snapshot(st, t).samples == all[Stale(all, t - LAG_PERIOD)..]
  {
  }

  lemma OrderedFront(front: seq<Sample>, last: Sample)
    requires Ordered(front + [last])
    ensures Ordered(front)
  {
    forall i, j | 0 <= i < j < |front| ensures front[i].time <= front[j].time {
      assert (front + [last])[i] == front[i] && (front + [last])[j] == front[j];
    }
  }

  // ---------------------------------------------------------------- a run that fills the buffer

  /** Snapshots at the times 1, 2, ... n. */
  function Ticks(n: nat): (times: seq<int>)
    ensures |times| == n && LastTime(times) == n
  {
    if n == 0 then [] else Ticks(n - 1) + [n as int]
  }

  lemma {:induction false} TicksFill(n: nat)
    requires n <= LAG_SAMPLES
    ensures Run(Ticks(n)) == Stat(TickSamples(n), n, n)
  {
    hide Snapshot, Run, TickSamples;
    if n == 0 {
      EmptyRun();
      TickSamplesNext(0);
    } else {
      TicksFill(n - 1);
      RunStep(Ticks(n - 1), n);
      TickSamplesNext(n);
      TickSamplesNext(n - 1);
      TickSnapshot(TickSamples(n - 1), n);
    }
  }

  /** The samples of the snapshots at the times 1, 2, ... n. */
  function TickSamples(n: nat): seq<Sample> { seq(n, i => Sample(1, i + 1)) }

  lemma TickSamplesNext(n: nat)
    ensures |TickSamples(n)| == n
            && (n > 0 ==> TickSamples(n)[0].time == 1 && TickSamples(n) == TickSamples(n - 1) + [Sample(1, n)])
  {
  }

  /** One more tick, while there is room and no sample is stale. */
  lemma TickSnapshot(s: seq<Sample>, n: nat)
    requires |s| == n - 1 < LAG_SAMPLES && (s != [] ==> s[0].time == 1)
    ensures Snapshot(Stat(s, n - 1, n - 1), n) == Stat(s + [Sample(1, n)], n, n)
  {
    hide Snapshot, Stale;
    SnapshotUnfilled(Stat(s, n - 1, n - 1), n);
    var all := s + [Sample(1, n)];
    assert all[0..] == all && all[..0] == [];
    FreshStale(all, n - LAG_PERIOD);
  }

  lemma FreshStale(s: seq<Sample>, oldest: int)
    requires s != [] && s[0].time > oldest
    ensures Stale(s, oldest) == 0
  {
  }

  /** With one snapshot more than there is room for, the running sum has lost touch with the samples. */
  lemma FullBufferDrifts()
    ensures var st := Run(Ticks(1025)); st.total == Sum(st.samples) + 1
  {
    Limits();
    hide Snapshot, Run, TickSamples, Sum;
    TicksFill(LAG_SAMPLES);
    RunStep(Ticks(LAG_SAMPLES), LAG_SAMPLES + 1);
    Drift(Run(Ticks(LAG_SAMPLES)), LAG_SAMPLES + 1);
    TickSamplesNext(LAG_SAMPLES);
    SumOnes(LAG_SAMPLES);
  }

  lemma {:induction false} SumOnes(n: nat)
    ensures Sum(TickSamples(n)) == n
  {
    TickSamplesNext(n);
    if n > 0 {
      hide TickSamples, Sum;
      SumOnes(n - 1);
      SumAppend(TickSamples(n - 1), Sample(1, n));
    }
  }
}
