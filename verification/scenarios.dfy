/**
 * Two complete histories starting from an empty document: the "Leg Day"
 * session with two equal sets, and the set-key collision that follows a
 * deletion of a set other than the last.
 */
module Scenarios {
  import opened Wrappers
  import opened Model
  import opened Stats
  import opened Store
  import opened StoreLemmas

  /** A document holding one session `sid` with one exercise `eid` whose sets are `sets`, with consistent statistics. */
  ghost predicate OneExercise(d: Document, sid: string, eid: string, sets: map<string, SetRec>) {
    && Consistent(d)
    && Sessions(d).Keys == {sid}
    && Sessions(d)[sid].exercises.Keys == {eid}
    && SetsAt(d, sid, eid) == sets
  }

  lemma OnlyNewKey(before: set<string>, after: set<string>, k: string)
    requires before == {} && after == before + {k}
    ensures after == {k}
  {
  }

  /** `add_exercise` into the only session of a document, which has no exercises yet. */
  lemma AddFirstExercise(d: Document, sid: string, eid: string, name: string, muscleGroup: string, createdAt: string)
    requires Consistent(d) && Sessions(d).Keys == {sid} && Sessions(d)[sid].exercises == map[]
    ensures
      var r := AddExercise(d, sid, eid, name, muscleGroup, createdAt);
      && r.value == Some(eid)
      && OneExercise(r.doc, sid, eid, map[])
  {
    var r := AddExercise(d, sid, eid, name, muscleGroup, createdAt);
    var exs2 := Sessions(r.doc)[sid].exercises;
    OnlyNewKey(Sessions(d)[sid].exercises.Keys, exs2.Keys, eid);
  }

  /** A fresh document with one new session and one new exercise in it. */
  lemma StartOneExercise(sid: string, eid: string)
    ensures
      var d0 := CreateTables(EmptyDocument);
      var r1 := CreateWorkoutSession(d0, sid, "Workout", DefaultWorkoutType, "2024-05-01", "18:30");
      var r2 := AddExercise(r1.doc, sid, eid, "Exercise", DefaultMuscleGroup, "18:31");
      && r1.value == sid
      && r2.value == Some(eid)
      && OneExercise(r2.doc, sid, eid, map[])
  {
    var d0 := CreateTables(EmptyDocument);
    var r1 := CreateWorkoutSession(d0, sid, "Workout", DefaultWorkoutType, "2024-05-01", "18:30");
    OnlyNewKey(Sessions(d0).Keys, Sessions(r1.doc).Keys, sid);
    AddFirstExercise(r1.doc, sid, eid, "Exercise", DefaultMuscleGroup, "18:31");
  }

  /** One `add_set` on a one-exercise document: the set lands under the key its number gives. */
  lemma AddSetOne(
    d: Document, sid: string, eid: string, sets: map<string, SetRec>,
    weight: real, reps: int, createdAt: string, n: nat, key: string, after: map<string, SetRec>)
    requires OneExercise(d, sid, eid, sets)
    requires n == |sets| + 1 && key == SetId(n)
    requires after == sets[key := SetRec(n, weight, reps, weight * reps as real, createdAt)]
    ensures
      var r := AddSet(d, sid, eid, weight, reps, createdAt);
      && r.value == Some(key)
      && OneExercise(r.doc, sid, eid, after)
  {
    assert Sessions(AddSet(d, sid, eid, weight, reps, createdAt).doc) == WithSets(Sessions(d), sid, eid, after);
  }

  /** One `delete_set` of an existing set on a one-exercise document. */
  lemma DeleteSetOne(d: Document, sid: string, eid: string, sets: map<string, SetRec>, setId: string, after: map<string, SetRec>)
    requires OneExercise(d, sid, eid, sets) && setId in sets
    requires after == sets - {setId}
    ensures
      var r := DeleteSet(d, sid, eid, setId);
      && r.value
      && OneExercise(r.doc, sid, eid, after)
  {
    assert Sessions(DeleteSet(d, sid, eid, setId).doc) == WithSets(Sessions(d), sid, eid, after);
  }

  /** The statistics of a one-exercise document: one of each, and the volume of its sets. */
  lemma OneExerciseStats(d: Document, sid: string, eid: string, sets: map<string, SetRec>)
    requires OneExercise(d, sid, eid, sets)
    ensures GetAppStats(d) == AppStats(1, 1, Trunc(SetsVolume(sets)), 1)
  {
    var ss := Sessions(d);
    var exs := ss[sid].exercises;
    ExercisesVolumeRemove(exs, eid);
    assert exs - {eid} == map[];
    ExercisesVolumeEmpty();
    TotalVolumeRemove(ss, sid);
    TotalExercisesRemove(ss, sid);
    assert ss - {sid} == map[];
    StatsOfEmpty();
    assert |ss| == 1 && |exs| == 1;
  }

  lemma SingletonSize(k: string, v: SetRec)
    ensures |map[k := v]| == 1
  {
  }

  lemma RemoveFirstOfTwo(k1: string, v1: SetRec, k2: string, v2: SetRec)
    requires k1 != k2
    ensures map[k1 := v1, k2 := v2] - {k1} == map[k2 := v2]
  {
  }

  lemma OverwriteSingleton(k: string, v1: SetRec, v2: SetRec)
    ensures map[k := v1][k := v2] == map[k := v2]
  {
  }

  lemma SingletonVolume(k: string, v: SetRec)
    ensures SetsVolume(map[k := v]) == v.volume
  {
    SetsVolumeEmpty();
    SetsVolumePut(map[], k, v);
  }

  /** The volume of a set map built up from empty by storing two sets under distinct keys. */
  lemma TwoSetsVolume(k1: string, s1: SetRec, k2: string, s2: SetRec)
    requires k1 != k2
    ensures SetsVolume(map[k1 := s1][k2 := s2]) == s1.volume + s2.volume
  {
    SetsVolumeEmpty();
    SetsVolumePut(map[], k1, s1);
    SetsVolumePut(map[k1 := s1], k2, s2);
  }

  /** The statistics of one exercise holding two sets under distinct keys. */
  lemma TwoSetsStats(d: Document, sid: string, eid: string, s1: SetRec, s2: SetRec)
    requires OneExercise(d, sid, eid, map["set_1" := s1, "set_2" := s2])
    ensures GetAppStats(d) == AppStats(1, 1, Trunc(s1.volume + s2.volume), 1)
  {
    TwoSetsVolume("set_1", s1, "set_2", s2);
    OneExerciseStats(d, sid, eid, map["set_1" := s1, "set_2" := s2]);
  }

  /**
   * Two sets added to an exercise with no sets are keyed "set_1" and
   * "set_2", numbered 1 and 2, and the total volume is the sum of their
   * weight times reps.
   */
  lemma AddTwoSets(
    d: Document, sid: string, eid: string,
    w1: real, n1: int, c1: string, w2: real, n2: int, c2: string, s1: SetRec, s2: SetRec)
    requires OneExercise(d, sid, eid, map[])
    requires s1 == SetRec(1, w1, n1, w1 * n1 as real, c1) && s2 == SetRec(2, w2, n2, w2 * n2 as real, c2)
    ensures
      var r3 := AddSet(d, sid, eid, w1, n1, c1);
      var r4 := AddSet(r3.doc, sid, eid, w2, n2, c2);
      && r3.value == Some("set_1")
      && r4.value == Some("set_2")
      && OneExercise(r4.doc, sid, eid, map["set_1" := s1, "set_2" := s2])
      && GetAppStats(r4.doc) == AppStats(1, 1, Trunc(s1.volume + s2.volume), 1)
  {
    var m1 := map["set_1" := s1];
    FirstSetIds();
    SingletonSize("set_1", s1);
    AddSetOne(d, sid, eid, map[], w1, n1, c1, 1, "set_1", m1);
    var r3 := AddSet(d, sid, eid, w1, n1, c1);
    AddSetOne(r3.doc, sid, eid, m1, w2, n2, c2, 2, "set_2", m1["set_2" := s2]);
    var r4 := AddSet(r3.doc, sid, eid, w2, n2, c2);
    TwoSetsStats(r4.doc, sid, eid, s1, s2);
  }

  /**
   * Two sets of 100 kg for 5 reps: each has volume 500, and the statistics
   * read one exercise, one session, volume 1000 and one weekly workout.
   */
  lemma TwoEqualSets(d: Document, sid: string, eid: string)
    requires OneExercise(d, sid, eid, map[])
    ensures
      var r3 := AddSet(d, sid, eid, 100.0, 5, "18:32");
      var r4 := AddSet(r3.doc, sid, eid, 100.0, 5, "18:35");
      var s1, s2 := SetRec(1, 100.0, 5, 500.0, "18:32"), SetRec(2, 100.0, 5, 500.0, "18:35");
      && OneExercise(r4.doc, sid, eid, map["set_1" := s1, "set_2" := s2])
      && GetAppStats(r4.doc) == AppStats(1, 1, 1000, 1)
  {
    var s1, s2 := SetRec(1, 100.0, 5, 500.0, "18:32"), SetRec(2, 100.0, 5, 500.0, "18:35");
    assert 100.0 * 5 as real == 500.0;
    AddTwoSets(d, sid, eid, 100.0, 5, "18:32", 100.0, 5, "18:35", s1, s2);
    TruncOfInt(1000);
  }

  /**
   * Deleting the first of two sets ("set_1") leaves the second one under
   * its own key "set_2": set ids are not renumbered after a delete.
   */
  lemma DeleteFirstOfTwo(d: Document, sid: string, eid: string, s1: SetRec, s2: SetRec)
    requires OneExercise(d, sid, eid, map["set_1" := s1, "set_2" := s2])
    ensures
      var r := DeleteSet(d, sid, eid, "set_1");
      r.value && OneExercise(r.doc, sid, eid, map["set_2" := s2])
  {
    RemoveFirstOfTwo("set_1", s1, "set_2", s2);
    DeleteSetOne(d, sid, eid, map["set_1" := s1, "set_2" := s2], "set_1", map["set_2" := s2]);
  }

  /**
   * The collision itself: an exercise whose only set is keyed "set_2" (as
   * after `DeleteFirstOfTwo`) gets its next set numbered 2 and keyed
   * "set_2" too.  The surviving set is silently replaced, the exercise
   * still has one set, and the total volume is that of the new set alone.
   */
  lemma AddAfterDeleteOverwrites(
    d: Document, sid: string, eid: string, survivor: SetRec, weight: real, reps: nat, createdAt: string)
    requires OneExercise(d, sid, eid, map["set_2" := survivor])
    ensures
      var r := AddSet(d, sid, eid, weight, reps, createdAt);
      var replacement := SetRec(2, weight, reps, weight * reps as real, createdAt);
      && r.value == Some("set_2")
      && OneExercise(r.doc, sid, eid, map["set_2" := replacement])
      && GetAppStats(r.doc).totalVolume == Trunc(weight * reps as real)
  {
    var replacement := SetRec(2, weight, reps, weight * reps as real, createdAt);
    FirstSetIds();
    SingletonSize("set_2", survivor);
    OverwriteSingleton("set_2", survivor, replacement);
    AddSetOne(d, sid, eid, map["set_2" := survivor], weight, reps, createdAt, 2, "set_2", map["set_2" := replacement]);
    var r := AddSet(d, sid, eid, weight, reps, createdAt);
    SingletonVolume("set_2", replacement);
    OneExerciseStats(r.doc, sid, eid, map["set_2" := replacement]);
  }
}
