/**
 * The derived statistics: the reference fold over the whole document
 * (`StatsOf`), how each level's sum changes when one entry is stored or
 * removed, and the recomputation as the source performs it, a loop over
 * sessions, exercises and sets.
 */
module Stats {
  import opened Model
  import opened Folds
  import opened Wrappers

  function Min(a: int, b: int): (r: int)
    ensures r <= a && r <= b
    ensures r == a || r == b
  {
    if a <= b then a else b
  }

  /** Python's `int()` on a number: rounds toward zero. */
  function Trunc(x: real): (r: int)
    ensures 0.0 <= x ==> 0 <= r && r as real <= x < r as real + 1.0
    ensures x < 0.0 ==> r <= 0 && x <= r as real && r as real - 1.0 < x
  {
    if x >= 0.0 then x.Floor else -((-x).Floor)
  }

  /** A whole number passes through `Trunc` unchanged. */
  lemma TruncOfInt(n: int)
    ensures Trunc(n as real) == n
  {
  }

  ghost function SetVolumes(sets: map<string, SetRec>): map<string, real> {
    map k | k in sets :: sets[k].volume
  }

  /** The summed volume of one exercise's sets. */
  ghost function SetsVolume(sets: map<string, SetRec>): real {
    SumReal(SetVolumes(sets))
  }

  ghost function ExerciseVolumes(exs: map<string, Exercise>): map<string, real> {
    map k | k in exs :: SetsVolume(exs[k].sets)
  }

  /** The summed volume of every set of every exercise of one session. */
  ghost function ExercisesVolume(exs: map<string, Exercise>): real {
    SumReal(ExerciseVolumes(exs))
  }

  ghost function SessionVolumes(ss: map<string, Session>): map<string, real> {
    map k | k in ss :: ExercisesVolume(ss[k].exercises)
  }

  /** The exact (untruncated) volume of every set in the store. */
  ghost function TotalVolume(ss: map<string, Session>): real {
    SumReal(SessionVolumes(ss))
  }

  ghost function ExerciseCounts(ss: map<string, Session>): map<string, int> {
    map k | k in ss :: |ss[k].exercises|
  }

  /** The number of exercises over all sessions. */
  ghost function TotalExercises(ss: map<string, Session>): int {
    SumInt(ExerciseCounts(ss))
  }

  /** The statistics a full re-scan of `ss` yields. */
  ghost function StatsOf(ss: map<string, Session>): AppStats {
    AppStats(TotalExercises(ss), |ss|, Trunc(TotalVolume(ss)), Min(|ss|, 7))
  }

  /** The statistics recorded in `d` are those of its sessions. */
  ghost predicate Consistent(d: Document) {
    Ready(d) && d.appStats == Some(StatsOf(Sessions(d)))
  }

  // Emptiness

  lemma SetsVolumeEmpty()
    ensures SetsVolume(map[]) == 0.0
  {
    assert SetVolumes(map[]) == map[];
  }

  lemma ExercisesVolumeEmpty()
    ensures ExercisesVolume(map[]) == 0.0
  {
    assert ExerciseVolumes(map[]) == map[];
  }

  /** An empty store has all-zero statistics. */
  lemma StatsOfEmpty()
    ensures TotalVolume(map[]) == 0.0 && TotalExercises(map[]) == 0
    ensures StatsOf(map[]) == ZeroStats
  {
    assert SessionVolumes(map[]) == map[];
    assert ExerciseCounts(map[]) == map[];
  }

  // Storing one entry

  lemma SetsVolumePut(sets: map<string, SetRec>, k: string, r: SetRec)
    ensures SetsVolume(sets[k := r]) == SetsVolume(sets) - (if k in sets then sets[k].volume else 0.0) + r.volume
  {
    var a, b := SetVolumes(sets[k := r]), SetVolumes(sets);
    assert a.Keys == b.Keys + {k};
    forall j | j in b && j != k
      ensures a[j] == b[j]
    {
      assert sets[k := r][j] == sets[j];
    }
    PutEquals(a, b, k, r.volume);
    SumRealPut(b, k, r.volume);
    assert k in b ==> b[k] == sets[k].volume;
  }

  lemma ExercisesVolumePut(exs: map<string, Exercise>, k: string, e: Exercise)
    ensures ExercisesVolume(exs[k := e])
         == ExercisesVolume(exs) - (if k in exs then SetsVolume(exs[k].sets) else 0.0) + SetsVolume(e.sets)
  {
    var a, b := ExerciseVolumes(exs[k := e]), ExerciseVolumes(exs);
    assert a.Keys == b.Keys + {k};
    forall j | j in b && j != k
      ensures a[j] == b[j]
    {
      assert exs[k := e][j] == exs[j];
    }
    PutEquals(a, b, k, SetsVolume(e.sets));
    SumRealPut(b, k, SetsVolume(e.sets));
    assert k in b ==> b[k] == SetsVolume(exs[k].sets);
  }

  lemma TotalVolumePut(ss: map<string, Session>, k: string, s: Session)
    ensures TotalVolume(ss[k := s])
         == TotalVolume(ss) - (if k in ss then ExercisesVolume(ss[k].exercises) else 0.0) + ExercisesVolume(s.exercises)
  {
    var a, b := SessionVolumes(ss[k := s]), SessionVolumes(ss);
    assert a.Keys == b.Keys + {k};
    forall j | j in b && j != k
      ensures a[j] == b[j]
    {
      assert ss[k := s][j] == ss[j];
    }
    PutEquals(a, b, k, ExercisesVolume(s.exercises));
    SumRealPut(b, k, ExercisesVolume(s.exercises));
    assert k in b ==> b[k] == ExercisesVolume(ss[k].exercises);
  }

  lemma TotalExercisesPut(ss: map<string, Session>, k: string, s: Session)
    ensures TotalExercises(ss[k := s])
         == TotalExercises(ss) - (if k in ss then |ss[k].exercises| else 0) + |s.exercises|
  {
    var a, b := ExerciseCounts(ss[k := s]), ExerciseCounts(ss);
    assert a.Keys == b.Keys + {k};
    forall j | j in b && j != k
      ensures a[j] == b[j]
    {
      assert ss[k := s][j] == ss[j];
    }
    PutEquals(a, b, k, |s.exercises|);
    SumIntPut(b, k, |s.exercises|);
    assert k in b ==> b[k] == |ss[k].exercises|;
  }

  // Removing one entry

  lemma SetsVolumeRemove(sets: map<string, SetRec>, k: string)
    requires k in sets
    ensures SetsVolume(sets - {k}) == SetsVolume(sets) - sets[k].volume
  {
    assert SetVolumes(sets - {k}) == SetVolumes(sets) - {k};
    SumRealRemove(SetVolumes(sets), k);
  }

  lemma ExercisesVolumeRemove(exs: map<string, Exercise>, k: string)
    requires k in exs
    ensures ExercisesVolume(exs - {k}) == ExercisesVolume(exs) - SetsVolume(exs[k].sets)
  {
    assert ExerciseVolumes(exs - {k}) == ExerciseVolumes(exs) - {k};
    SumRealRemove(ExerciseVolumes(exs), k);
  }

  lemma TotalVolumeRemove(ss: map<string, Session>, k: string)
    requires k in ss
    ensures TotalVolume(ss - {k}) == TotalVolume(ss) - ExercisesVolume(ss[k].exercises)
  {
    assert SessionVolumes(ss - {k}) == SessionVolumes(ss) - {k};
    SumRealRemove(SessionVolumes(ss), k);
  }

  lemma TotalExercisesRemove(ss: map<string, Session>, k: string)
    requires k in ss
    ensures TotalExercises(ss - {k}) == TotalExercises(ss) - |ss[k].exercises|
  {
    assert ExerciseCounts(ss - {k}) == ExerciseCounts(ss) - {k};
    SumIntRemove(ExerciseCounts(ss), k);
  }

  // The recomputation as a loop

  /** Adds up the volumes of one exercise's sets, visiting them in any order. */
  method SumSetVolumes(sets: map<string, SetRec>) returns (v: real)
    ensures v == SetsVolume(sets)
  {
    v := 0.0;
    var rest := sets.Keys;
    ghost var seen: map<string, SetRec> := map[];
    SetsVolumeEmpty();
    while rest != {}
      invariant rest <= sets.Keys
      invariant seen.Keys == sets.Keys - rest
      invariant forall k | k in seen :: seen[k] == sets[k]
      invariant v == SetsVolume(seen)
      decreases rest
    {
      var k :| k in rest;
      VisitStep(sets, seen, rest, k);
      SetsVolumePut(seen, k, sets[k]);
      v := v + sets[k].volume;
      seen := seen[k := sets[k]];
      rest := rest - {k};
    }
    AgreeEquals(seen, sets);
  }

  /** Adds up the volumes of every set of every exercise of one session. */
  method SumExerciseVolumes(exs: map<string, Exercise>) returns (v: real)
    ensures v == ExercisesVolume(exs)
  {
    v := 0.0;
    var rest := exs.Keys;
    ghost var seen: map<string, Exercise> := map[];
    ExercisesVolumeEmpty();
    while rest != {}
      invariant rest <= exs.Keys
      invariant seen.Keys == exs.Keys - rest
      invariant forall k | k in seen :: seen[k] == exs[k]
      invariant v == ExercisesVolume(seen)
      decreases rest
    {
      var k :| k in rest;
      var setsVolume := SumSetVolumes(exs[k].sets);
      VisitStep(exs, seen, rest, k);
      ExercisesVolumePut(seen, k, exs[k]);
      v := v + setsVolume;
      seen := seen[k := exs[k]];
      rest := rest - {k};
    }
    AgreeEquals(seen, exs);
  }

  /**
   * `update_stats`: one pass over the sessions counting exercises and
   * summing set volumes, then the truncated total and the capped weekly
   * count.  The result is the fold `StatsOf`, whatever order the maps are
   * visited in.
   */
  method UpdateStats(ss: map<string, Session>) returns (stats: AppStats)
    ensures stats == StatsOf(ss)
    ensures stats.totalSessions == |ss| && stats.weeklyWorkouts == Min(|ss|, 7)
  {
    var totalExercises := 0;
    var totalVolume := 0.0;
    var rest := ss.Keys;
    ghost var seen: map<string, Session> := map[];
    StatsOfEmpty();
    while rest != {}
      invariant rest <= ss.Keys
      invariant seen.Keys == ss.Keys - rest
      invariant forall k | k in seen :: seen[k] == ss[k]
      invariant totalExercises == TotalExercises(seen)
      invariant totalVolume == TotalVolume(seen)
      decreases rest
    {
      var k :| k in rest;
      var sessionVolume := SumExerciseVolumes(ss[k].exercises);
      VisitStep(ss, seen, rest, k);
      TotalExercisesPut(seen, k, ss[k]);
      TotalVolumePut(seen, k, ss[k]);
      totalExercises := totalExercises + |ss[k].exercises|;
      totalVolume := totalVolume + sessionVolume;
      seen := seen[k := ss[k]];
      rest := rest - {k};
    }
    AgreeEquals(seen, ss);
    stats := AppStats(totalExercises, |ss|, Trunc(totalVolume), Min(|ss|, 7));
  }
}
