/**
 * What each store operation does to the statistics, the set-numbering
 * behaviour of `add_set`, and two worked histories.
 */
module StoreLemmas {
  import opened Wrappers
  import opened Model
  import opened Stats
  import opened Store

  // How a change at one level moves the whole-store sums

  lemma TotalsWithExercises(ss: map<string, Session>, sid: string, exs: map<string, Exercise>)
    requires sid in ss
    ensures TotalExercises(WithExercises(ss, sid, exs))
         == TotalExercises(ss) - |ss[sid].exercises| + |exs|
    ensures TotalVolume(WithExercises(ss, sid, exs))
         == TotalVolume(ss) - ExercisesVolume(ss[sid].exercises) + ExercisesVolume(exs)
    ensures |WithExercises(ss, sid, exs)| == |ss|
  {
    var s2 := ss[sid].(exercises := exs);
    TotalExercisesPut(ss, sid, s2);
    TotalVolumePut(ss, sid, s2);
    assert WithExercises(ss, sid, exs).Keys == ss.Keys;
  }

  lemma TotalsWithSets(ss: map<string, Session>, sid: string, eid: string, sets: map<string, SetRec>)
    requires sid in ss && eid in ss[sid].exercises
    ensures TotalExercises(WithSets(ss, sid, eid, sets)) == TotalExercises(ss)
    ensures TotalVolume(WithSets(ss, sid, eid, sets))
         == TotalVolume(ss) - SetsVolume(ss[sid].exercises[eid].sets) + SetsVolume(sets)
    ensures |WithSets(ss, sid, eid, sets)| == |ss|
  {
    var exs := ss[sid].exercises;
    var exs2 := exs[eid := exs[eid].(sets := sets)];
    assert exs2.Keys == exs.Keys;
    ExercisesVolumePut(exs, eid, exs[eid].(sets := sets));
    TotalsWithExercises(ss, sid, exs2);
  }

  // Statistics after each operation

  /** A new session adds one to the session count and nothing to the exercise count or the volume. */
  lemma CreateSessionStats(d: Document, id: string, name: string, workoutType: string, date: string, time: string)
    requires Ready(d) && id !in Sessions(d)
    ensures var ss, ss2 := Sessions(d), Sessions(CreateWorkoutSession(d, id, name, workoutType, date, time).doc);
      && |ss2| == |ss| + 1
      && TotalExercises(ss2) == TotalExercises(ss)
      && TotalVolume(ss2) == TotalVolume(ss)
  {
    var ss := Sessions(d);
    var s := Session(id, name, date, time, workoutType, map[], ActiveStatus);
    TotalExercisesPut(ss, id, s);
    TotalVolumePut(ss, id, s);
    ExercisesVolumeEmpty();
  }

  /** Deleting a session removes its exercises from the count and its sets from the volume. */
  lemma DeleteSessionStats(d: Document, id: string)
    requires Ready(d) && id in Sessions(d)
    ensures var ss, ss2 := Sessions(d), Sessions(DeleteWorkoutSession(d, id).doc);
      && |ss2| == |ss| - 1
      && TotalExercises(ss2) == TotalExercises(ss) - |ss[id].exercises|
      && TotalVolume(ss2) == TotalVolume(ss) - ExercisesVolume(ss[id].exercises)
  {
    TotalExercisesRemove(Sessions(d), id);
    TotalVolumeRemove(Sessions(d), id);
  }

  /** A new exercise adds one to the exercise count and nothing to the volume. */
  lemma AddExerciseStats(d: Document, sid: string, eid: string, name: string, muscleGroup: string, createdAt: string)
    requires Ready(d) && sid in Sessions(d) && eid !in Sessions(d)[sid].exercises
    ensures var ss, ss2 := Sessions(d), Sessions(AddExercise(d, sid, eid, name, muscleGroup, createdAt).doc);
      && |ss2| == |ss|
      && TotalExercises(ss2) == TotalExercises(ss) + 1
      && TotalVolume(ss2) == TotalVolume(ss)
  {
    var exs := Sessions(d)[sid].exercises;
    var e := Exercise(eid, name, muscleGroup, map[], createdAt);
    ExercisesVolumePut(exs, eid, e);
    SetsVolumeEmpty();
    TotalsWithExercises(Sessions(d), sid, exs[eid := e]);
  }

  /** Deleting an exercise removes it from the count and its sets from the volume. */
  lemma DeleteExerciseStats(d: Document, sid: string, eid: string)
    requires Ready(d) && HasExercise(d, sid, eid)
    ensures var ss, ss2 := Sessions(d), Sessions(DeleteExercise(d, sid, eid).doc);
      && |ss2| == |ss|
      && TotalExercises(ss2) == TotalExercises(ss) - 1
      && TotalVolume(ss2) == TotalVolume(ss) - SetsVolume(ss[sid].exercises[eid].sets)
  {
    var exs := Sessions(d)[sid].exercises;
    ExercisesVolumeRemove(exs, eid);
    assert |exs - {eid}| == |exs| - 1 by {
      assert (exs - {eid}).Keys == exs.Keys - {eid};
    }
    TotalsWithExercises(Sessions(d), sid, exs - {eid});
  }

  /**
   * A new set adds its weight times reps to the volume; when it replaces a
   * surviving set under the same key, that set's volume is lost.
   */
  lemma AddSetStats(d: Document, sid: string, eid: string, weight: real, reps: int, createdAt: string)
    requires Ready(d) && HasExercise(d, sid, eid)
    ensures var sets := SetsAt(d, sid, eid);
      var key := SetId(|sets| + 1);
      var ss, ss2 := Sessions(d), Sessions(AddSet(d, sid, eid, weight, reps, createdAt).doc);
      && |ss2| == |ss|
      && TotalExercises(ss2) == TotalExercises(ss)
      && TotalVolume(ss2)
         == TotalVolume(ss) - (if key in sets then sets[key].volume else 0.0) + weight * reps as real
  {
    var sets := SetsAt(d, sid, eid);
    var n := |sets| + 1;
    var rec := SetRec(n, weight, reps, weight * reps as real, createdAt);
    SetsVolumePut(sets, SetId(n), rec);
    TotalsWithSets(Sessions(d), sid, eid, sets[SetId(n) := rec]);
  }

  /** Updating a set replaces its old volume by the volume of the updated weight and reps. */
  lemma UpdateSetStats(d: Document, sid: string, eid: string, setId: string, weight: Option<real>, reps: Option<int>)
    requires Ready(d) && HasSet(d, sid, eid, setId)
    ensures var prev := SetsAt(d, sid, eid)[setId];
      var ss, ss2 := Sessions(d), Sessions(UpdateSet(d, sid, eid, setId, weight, reps).doc);
      && |ss2| == |ss|
      && TotalExercises(ss2) == TotalExercises(ss)
      && TotalVolume(ss2) == TotalVolume(ss) - prev.volume + ApplyUpdate(prev, weight, reps).volume
  {
    var sets := SetsAt(d, sid, eid);
    var prev := sets[setId];
    var rec := ApplyUpdate(prev, weight, reps);
    SetsVolumePut(sets, setId, rec);
    TotalsWithSets(Sessions(d), sid, eid, sets[setId := rec]);
  }

  /** Deleting a set takes its volume out of the total. */
  lemma DeleteSetStats(d: Document, sid: string, eid: string, setId: string)
    requires Ready(d) && HasSet(d, sid, eid, setId)
    ensures var sets := SetsAt(d, sid, eid);
      var ss, ss2 := Sessions(d), Sessions(DeleteSet(d, sid, eid, setId).doc);
      && |ss2| == |ss|
      && TotalExercises(ss2) == TotalExercises(ss)
      && TotalVolume(ss2) == TotalVolume(ss) - sets[setId].volume
  {
    var sets := SetsAt(d, sid, eid);
    SetsVolumeRemove(sets, setId);
    TotalsWithSets(Sessions(d), sid, eid, sets - {setId});
  }

  // Stored volumes stay weight times reps

  /** A session-level change keeps every volume exact when the sessions it leaves behind were exact. */
  lemma ExactAfterSessionsChange(ss: map<string, Session>, ss2: map<string, Session>, id: string)
    requires AllExact(ss) && ss2.Keys <= ss.Keys + {id}
    requires forall k | k in ss2 && k != id :: k in ss && ss2[k] == ss[k]
    requires id in ss2 ==> SessionExact(ss2[id])
    ensures AllExact(ss2)
  {
  }

  /** A new session has no sets, so the volumes stay exact. */
  lemma CreateSessionKeepsExact(d: Document, id: string, name: string, workoutType: string, date: string, time: string)
    requires Ready(d) && id !in Sessions(d)
    ensures AllExact(Sessions(d)) ==> AllExact(Sessions(CreateWorkoutSession(d, id, name, workoutType, date, time).doc))
  {
    if AllExact(Sessions(d)) {
      var ss2 := Sessions(CreateWorkoutSession(d, id, name, workoutType, date, time).doc);
      ExactAfterSessionsChange(Sessions(d), ss2, id);
    }
  }

  lemma DeleteSessionKeepsExact(d: Document, id: string)
    requires Ready(d)
    ensures AllExact(Sessions(d)) ==> AllExact(Sessions(DeleteWorkoutSession(d, id).doc))
  {
    if AllExact(Sessions(d)) && id in Sessions(d) {
      ExactAfterSessionsChange(Sessions(d), Sessions(DeleteWorkoutSession(d, id).doc), id);
    }
  }

  lemma AddExerciseKeepsExact(d: Document, sid: string, eid: string, name: string, muscleGroup: string, createdAt: string)
    requires Ready(d)
    requires sid in Sessions(d) ==> eid !in Sessions(d)[sid].exercises
    ensures AllExact(Sessions(d)) ==> AllExact(Sessions(AddExercise(d, sid, eid, name, muscleGroup, createdAt).doc))
  {
    if AllExact(Sessions(d)) && sid in Sessions(d) {
      var ss, ss2 := Sessions(d), Sessions(AddExercise(d, sid, eid, name, muscleGroup, createdAt).doc);
      assert SessionExact(ss[sid]);
      assert SessionExact(ss2[sid]);
      ExactAfterExercisesChange(ss, ss2, sid);
    }
  }

  lemma DeleteExerciseKeepsExact(d: Document, sid: string, eid: string)
    requires Ready(d)
    ensures AllExact(Sessions(d)) ==> AllExact(Sessions(DeleteExercise(d, sid, eid).doc))
  {
    if AllExact(Sessions(d)) && HasExercise(d, sid, eid) {
      var ss, ss2 := Sessions(d), Sessions(DeleteExercise(d, sid, eid).doc);
      assert SessionExact(ss[sid]);
      assert SessionExact(ss2[sid]);
      ExactAfterExercisesChange(ss, ss2, sid);
    }
  }

  /** The new set's volume is computed from its own weight and reps. */
  lemma AddSetKeepsExact(d: Document, sid: string, eid: string, weight: real, reps: int, createdAt: string)
    requires Ready(d)
    ensures AllExact(Sessions(d)) ==> AllExact(Sessions(AddSet(d, sid, eid, weight, reps, createdAt).doc))
  {
    if AllExact(Sessions(d)) && HasExercise(d, sid, eid) {
      var ss, ss2 := Sessions(d), Sessions(AddSet(d, sid, eid, weight, reps, createdAt).doc);
      assert SessionExact(ss[sid]);
      assert ExerciseExact(ss[sid].exercises[eid]);
      assert ExerciseExact(ss2[sid].exercises[eid]);
      ExactAfterSetsChange(ss, ss2, sid, eid);
    }
  }

  /** `update_set` recomputes the volume, so a partial update cannot leave it stale. */
  lemma UpdateSetKeepsExact(d: Document, sid: string, eid: string, setId: string, weight: Option<real>, reps: Option<int>)
    requires Ready(d)
    ensures AllExact(Sessions(d)) ==> AllExact(Sessions(UpdateSet(d, sid, eid, setId, weight, reps).doc))
  {
    if AllExact(Sessions(d)) && HasSet(d, sid, eid, setId) {
      var ss, ss2 := Sessions(d), Sessions(UpdateSet(d, sid, eid, setId, weight, reps).doc);
      assert SessionExact(ss[sid]);
      assert ExerciseExact(ss[sid].exercises[eid]);
      assert ExerciseExact(ss2[sid].exercises[eid]);
      ExactAfterSetsChange(ss, ss2, sid, eid);
    }
  }

  lemma DeleteSetKeepsExact(d: Document, sid: string, eid: string, setId: string)
    requires Ready(d)
    ensures AllExact(Sessions(d)) ==> AllExact(Sessions(DeleteSet(d, sid, eid, setId).doc))
  {
    if AllExact(Sessions(d)) && HasSet(d, sid, eid, setId) {
      var ss, ss2 := Sessions(d), Sessions(DeleteSet(d, sid, eid, setId).doc);
      assert SessionExact(ss[sid]);
      assert ExerciseExact(ss[sid].exercises[eid]);
      assert ExerciseExact(ss2[sid].exercises[eid]);
      ExactAfterSetsChange(ss, ss2, sid, eid);
    }
  }

  // Set numbering

  /** Every set key is "set_<i>" for some i between 1 and the number of sets. */
  ghost predicate DenseSetIds(sets: map<string, SetRec>) {
    forall k | k in sets :: exists i :: 1 <= i <= |sets| && k == SetId(i)
  }

  /** Under dense keys the next key is unused, and storing a set under it keeps the keys dense. */
  lemma DensePutNext(sets: map<string, SetRec>, rec: SetRec)
    requires DenseSetIds(sets)
    ensures SetId(|sets| + 1) !in sets
    ensures |sets[SetId(|sets| + 1) := rec]| == |sets| + 1
    ensures DenseSetIds(sets[SetId(|sets| + 1) := rec])
  {
    var n := |sets| + 1;
    if SetId(n) in sets {
      var i :| 1 <= i <= |sets| && SetId(n) == SetId(i);
      SetIdInjective(n, i);
      assert false;
    }
    var sets2 := sets[SetId(n) := rec];
    assert |sets2| == n;
    forall k | k in sets2
      ensures exists i :: 1 <= i <= |sets2| && k == SetId(i)
    {
      if k == SetId(n) {
        assert 1 <= n <= |sets2| && k == SetId(n);
      } else {
        var i :| 1 <= i <= |sets| && k == SetId(i);
        assert 1 <= i <= |sets2| && k == SetId(i);
      }
    }
  }

  /** Under dense keys, removing the key of the highest number keeps the keys dense. */
  lemma DenseRemoveLast(sets: map<string, SetRec>)
    requires DenseSetIds(sets)
    ensures DenseSetIds(sets - {SetId(|sets|)})
  {
    var n := |sets|;
    var key := SetId(n);
    var sets2 := sets - {key};
    RemoveOne(sets, key);
    forall k | k in sets2
      ensures exists i :: 1 <= i <= |sets2| && k == SetId(i)
    {
      var i :| 1 <= i <= n && k == SetId(i);
      if key in sets {
        assert i != n;
      }
      assert 1 <= i <= |sets2| && k == SetId(i);
    }
  }

  /**
   * While the set keys are dense, `add_set` picks a key no set has: the
   * count grows by one, every existing set is kept, and the keys stay dense.
   */
  lemma AddSetToDenseKeepsAll(d: Document, sid: string, eid: string, weight: real, reps: int, createdAt: string)
    requires Ready(d) && HasExercise(d, sid, eid)
    requires DenseSetIds(SetsAt(d, sid, eid))
    ensures var sets := SetsAt(d, sid, eid);
      var r := AddSet(d, sid, eid, weight, reps, createdAt);
      && SetId(|sets| + 1) !in sets
      && Ready(r.doc) && HasExercise(r.doc, sid, eid)
      && |SetsAt(r.doc, sid, eid)| == |sets| + 1
      && (forall k | k in sets :: k in SetsAt(r.doc, sid, eid) && SetsAt(r.doc, sid, eid)[k] == sets[k])
      && DenseSetIds(SetsAt(r.doc, sid, eid))
  {
    var sets := SetsAt(d, sid, eid);
    var n := |sets| + 1;
    var rec := SetRec(n, weight, reps, weight * reps as real, createdAt);
    DensePutNext(sets, rec);
    var r := AddSet(d, sid, eid, weight, reps, createdAt);
    assert SetsAt(r.doc, sid, eid) == sets[SetId(n) := rec];
  }

  /** Deleting the highest-numbered set keeps dense keys dense. */
  lemma DeleteLastSetKeepsDense(d: Document, sid: string, eid: string)
    requires Ready(d) && HasExercise(d, sid, eid)
    requires DenseSetIds(SetsAt(d, sid, eid))
    ensures var r := DeleteSet(d, sid, eid, SetId(|SetsAt(d, sid, eid)|));
      Ready(r.doc) && HasExercise(r.doc, sid, eid) && DenseSetIds(SetsAt(r.doc, sid, eid))
  {
    var sets := SetsAt(d, sid, eid);
    DenseRemoveLast(sets);
    var r := DeleteSet(d, sid, eid, SetId(|sets|));
    if HasSet(d, sid, eid, SetId(|sets|)) {
      assert Sessions(r.doc) == WithSets(Sessions(d), sid, eid, sets - {SetId(|sets|)});
    } else {
      assert sets - {SetId(|sets|)} == sets;
    }
  }

  /**
   * `add_set` on an exercise with `n - 1` sets, one of them already keyed
   * "set_<n>": the new set replaces it and the count stays at `n - 1`.
   */
  lemma AddSetOverKey(d: Document, sid: string, eid: string, n: nat, weight: real, reps: int, createdAt: string)
    requires Ready(d) && HasExercise(d, sid, eid)
    requires |SetsAt(d, sid, eid)| + 1 == n && SetId(n) in SetsAt(d, sid, eid)
    ensures var r := AddSet(d, sid, eid, weight, reps, createdAt);
      && r.value == Some(SetId(n))
      && Ready(r.doc) && HasExercise(r.doc, sid, eid)
      && |SetsAt(r.doc, sid, eid)| == n - 1
      && SetsAt(r.doc, sid, eid)[SetId(n)] == SetRec(n, weight, reps, weight * reps as real, createdAt)
  {
  }

  /**
   * The collision in general: when set `i` is deleted while a higher
   * number `n` (the count) is still in use, the next `add_set` numbers its
   * set `n` again and stores it over the surviving set "set_<n>".  The
   * count does not grow back, and the survivor's record is gone.
   */
  lemma AddAfterInteriorDeleteOverwrites(
    d: Document, sid: string, eid: string, i: nat, weight: real, reps: int, createdAt: string)
    requires Ready(d) && HasExercise(d, sid, eid)
    requires var sets := SetsAt(d, sid, eid);
      1 <= i < |sets| && SetId(i) in sets && SetId(|sets|) in sets
    ensures var sets := SetsAt(d, sid, eid);
      var n := |sets|;
      var d2 := DeleteSet(d, sid, eid, SetId(i)).doc;
      var r := AddSet(d2, sid, eid, weight, reps, createdAt);
      && Ready(d2) && HasExercise(d2, sid, eid)
      && SetId(n) in SetsAt(d2, sid, eid)
      && r.value == Some(SetId(n))
      && Ready(r.doc) && HasExercise(r.doc, sid, eid)
      && |SetsAt(r.doc, sid, eid)| == n - 1
      && SetsAt(r.doc, sid, eid)[SetId(n)] == SetRec(n, weight, reps, weight * reps as real, createdAt)
  {
    var sets := SetsAt(d, sid, eid);
    var n := |sets|;
    SetIdInjective(i, n);
    var key := SetId(i);
    assert HasSet(d, sid, eid, key);
    var d2 := DeleteSet(d, sid, eid, key).doc;
    var sets2 := SetsAt(d2, sid, eid);
    assert sets2.Keys == sets.Keys - {key};
    OneKeyFewer(sets, sets2, key);
    AddSetOverKey(d2, sid, eid, n, weight, reps, createdAt);
  }
}
