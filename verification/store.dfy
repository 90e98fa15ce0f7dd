/**
 * The store operations of `DatabaseManager`.  Each one takes the document
 * and returns the document after the call with the call's answer.  A call
 * whose ids are not found answers false or None and hands the document
 * back unchanged; a call that succeeds changes one level of the nested
 * maps and then recomputes the statistics from the whole document
 * (`Commit`).  Writing the document to storage after each call does not
 * change it and is not modelled.  Fresh session and exercise ids and the
 * date and time stamps are parameters.
 */
module Store {
  import opened Wrappers
  import opened Model
  import opened Stats

  /** `update_stats` after a mutation: the new sessions with the statistics recomputed from them. */
  ghost function Commit(d: Document, ss: map<string, Session>): (r: Document)
    ensures Consistent(r) && Sessions(r) == ss
    ensures r.userSettings == d.userSettings
  {
    d.(workoutSessions := Some(ss), appStats := Some(StatsOf(ss)))
  }

  predicate HasExercise(d: Document, sid: string, eid: string)
    requires Ready(d)
  {
    sid in Sessions(d) && eid in Sessions(d)[sid].exercises
  }

  predicate HasSet(d: Document, sid: string, eid: string, setId: string)
    requires Ready(d)
  {
    HasExercise(d, sid, eid) && setId in Sessions(d)[sid].exercises[eid].sets
  }

  function SetsAt(d: Document, sid: string, eid: string): map<string, SetRec>
    requires Ready(d) && HasExercise(d, sid, eid)
  {
    Sessions(d)[sid].exercises[eid].sets
  }

  /** `ss` with the exercise map of session `sid` replaced. */
  function WithExercises(ss: map<string, Session>, sid: string, exs: map<string, Exercise>): (r: map<string, Session>)
    requires sid in ss
    ensures OnlyExercisesOf(ss, r, sid) && r[sid].exercises == exs
  {
    ss[sid := ss[sid].(exercises := exs)]
  }

  /** `ss` with the set map of exercise `eid` of session `sid` replaced. */
  function WithSets(ss: map<string, Session>, sid: string, eid: string, sets: map<string, SetRec>): (r: map<string, Session>)
    requires sid in ss && eid in ss[sid].exercises
    ensures OnlySetsOf(ss, r, sid, eid) && r[sid].exercises[eid].sets == sets
  {
    var exs := ss[sid].exercises;
    WithExercises(ss, sid, exs[eid := exs[eid].(sets := sets)])
  }

  /** `create_tables`: fills in an empty document and leaves any other alone. */
  function CreateTables(d: Document): (r: Document)
    ensures d != EmptyDocument ==> r == d
    ensures d == EmptyDocument ==>
      && Consistent(r)
      && Sessions(r) == map[]
      && r.userSettings == Some(DefaultSettings)
  {
    StatsOfEmpty();
    if d == EmptyDocument then Document(Some(ZeroStats), Some(map[]), Some(DefaultSettings))
    else d
  }

  /** `get_app_stats`: the recorded statistics, or all zeros when there are none. */
  function GetAppStats(d: Document): (r: AppStats)
    ensures d.appStats.Some? ==> r == d.appStats.value
    ensures Consistent(d) ==> r == StatsOf(Sessions(d))
    ensures d.appStats.None? ==> r == StatsOf(map[])
  {
    StatsOfEmpty();
    d.appStats.GetOr(ZeroStats)
  }

  /** `get_workout_sessions`: all sessions, or none when the document has no session map. */
  function GetWorkoutSessions(d: Document): (r: map<string, Session>)
    ensures Ready(d) ==> r == Sessions(d)
    ensures !Ready(d) ==> r == map[]
    ensures Consistent(d) ==> |r| == GetAppStats(d).totalSessions
  {
    d.workoutSessions.GetOr(map[])
  }

  /** `get_workout_session`: the session under `id`, if there is one. */
  function GetWorkoutSession(d: Document, id: string): (r: Option<Session>)
    requires Ready(d)
    ensures r.Some? <==> id in Sessions(d)
    ensures r.Some? ==> r.value == Sessions(d)[id]
  {
    if id in Sessions(d) then Some(Sessions(d)[id]) else None
  }

  /** `create_workout_session`: a new active session with no exercises under a fresh id. */
  ghost function CreateWorkoutSession(
    d: Document, id: string, name: string, workoutType: string, date: string, time: string): (r: Reply<string>)
    requires Ready(d) && id !in Sessions(d)
    ensures r.value == id
    ensures Consistent(r.doc) && r.doc.userSettings == d.userSettings
    ensures Sessions(r.doc).Keys == Sessions(d).Keys + {id}
    ensures AgreeExcept(Sessions(d), Sessions(r.doc), id)
    ensures Sessions(r.doc)[id] == Session(id, name, date, time, workoutType, map[], ActiveStatus)
  {
    var s := Session(id, name, date, time, workoutType, map[], ActiveStatus);
    PutOne(Sessions(d), id, s);
    Reply(Commit(d, Sessions(d)[id := s]), id)
  }

  /** `delete_workout_session`: drops the session, and with it all its exercises and sets. */
  ghost function DeleteWorkoutSession(d: Document, id: string): (r: Reply<bool>)
    requires Ready(d)
    ensures Ready(r.doc)
    ensures id !in Sessions(d) ==> r == Reply(d, false)
    ensures id in Sessions(d) ==>
      && r.value
      && Consistent(r.doc) && r.doc.userSettings == d.userSettings
      && Sessions(r.doc).Keys == Sessions(d).Keys - {id}
      && AgreeExcept(Sessions(d), Sessions(r.doc), id)
  {
    RemoveOne(Sessions(d), id);
    if id in Sessions(d) then Reply(Commit(d, Sessions(d) - {id}), true)
    else Reply(d, false)
  }

  /** `add_exercise`: a new exercise with no sets under a fresh id in an existing session. */
  ghost function AddExercise(
    d: Document, sid: string, eid: string, name: string, muscleGroup: string, createdAt: string): (r: Reply<Option<string>>)
    requires Ready(d)
    requires sid in Sessions(d) ==> eid !in Sessions(d)[sid].exercises
    ensures Ready(r.doc)
    ensures sid !in Sessions(d) ==> r == Reply(d, None)
    ensures sid in Sessions(d) ==>
      && r.value == Some(eid)
      && Consistent(r.doc) && r.doc.userSettings == d.userSettings
      && OnlyExercisesOf(Sessions(d), Sessions(r.doc), sid)
      && var exs, exs2 := Sessions(d)[sid].exercises, Sessions(r.doc)[sid].exercises;
      && exs2.Keys == exs.Keys + {eid}
      && AgreeExcept(exs, exs2, eid)
      && exs2[eid] == Exercise(eid, name, muscleGroup, map[], createdAt)
  {
    if sid !in Sessions(d) then Reply(d, None)
    else
      var exs := Sessions(d)[sid].exercises;
      var e := Exercise(eid, name, muscleGroup, map[], createdAt);
      var ss2 := WithExercises(Sessions(d), sid, exs[eid := e]);
      PutOne(exs, eid, e);
      Reply(Commit(d, ss2), Some(eid))
  }

  /** `delete_exercise`: drops one exercise, and its sets, from one session. */
  ghost function DeleteExercise(d: Document, sid: string, eid: string): (r: Reply<bool>)
    requires Ready(d)
    ensures Ready(r.doc)
    ensures !HasExercise(d, sid, eid) ==> r == Reply(d, false)
    ensures HasExercise(d, sid, eid) ==>
      && r.value
      && Consistent(r.doc) && r.doc.userSettings == d.userSettings
      && OnlyExercisesOf(Sessions(d), Sessions(r.doc), sid)
      && var exs, exs2 := Sessions(d)[sid].exercises, Sessions(r.doc)[sid].exercises;
      && exs2.Keys == exs.Keys - {eid}
      && AgreeExcept(exs, exs2, eid)
  {
    if HasExercise(d, sid, eid) then
      var exs := Sessions(d)[sid].exercises;
      RemoveOne(exs, eid);
      Reply(Commit(d, WithExercises(Sessions(d), sid, exs - {eid})), true)
    else Reply(d, false)
  }

  /**
   * `add_set`: numbers the new set one past the current number of sets and
   * stores it under "set_<number>".  When a set with that key survives an
   * earlier deletion, the new set replaces it and the count does not grow.
   */
  ghost function AddSet(
    d: Document, sid: string, eid: string, weight: real, reps: int, createdAt: string): (r: Reply<Option<string>>)
    requires Ready(d)
    ensures Ready(r.doc)
    ensures !HasExercise(d, sid, eid) ==> r == Reply(d, None)
    ensures HasExercise(d, sid, eid) ==>
      var sets := SetsAt(d, sid, eid);
      var n := |sets| + 1;
      var key := SetId(n);
      && r.value == Some(key)
      && Consistent(r.doc) && r.doc.userSettings == d.userSettings
      && OnlySetsOf(Sessions(d), Sessions(r.doc), sid, eid)
      && var sets2 := SetsAt(r.doc, sid, eid);
      && sets2.Keys == sets.Keys + {key}
      && AgreeExcept(sets, sets2, key)
      && sets2[key].setNumber == n
      && sets2[key].weight == weight && sets2[key].reps == reps
      && sets2[key].volume == weight * reps as real
      && sets2[key].createdAt == createdAt
      && (key in sets ==> |sets2| == |sets|)
      && (key !in sets ==> |sets2| == |sets| + 1)
  {
    if !HasExercise(d, sid, eid) then Reply(d, None)
    else
      var sets := SetsAt(d, sid, eid);
      var n := |sets| + 1;
      var key := SetId(n);
      var rec := SetRec(n, weight, reps, weight * reps as real, createdAt);
      var ss2 := WithSets(Sessions(d), sid, eid, sets[key := rec]);
      PutOne(sets, key, rec);
      Reply(Commit(d, ss2), Some(key))
  }

  /**
   * The record `update_set` writes back: a field passed as None keeps its
   * old value, and the volume is recomputed from the resulting weight and
   * reps.
   */
  function ApplyUpdate(prev: SetRec, weight: Option<real>, reps: Option<int>): (next: SetRec)
    ensures weight.None? ==> next.weight == prev.weight
    ensures weight.Some? ==> next.weight == weight.value
    ensures reps.None? ==> next.reps == prev.reps
    ensures reps.Some? ==> next.reps == reps.value
    ensures ExactVolume(next)
    ensures next.setNumber == prev.setNumber && next.createdAt == prev.createdAt
  {
    var w := weight.GetOr(prev.weight);
    var n := reps.GetOr(prev.reps);
    prev.(weight := w, reps := n, volume := w * n as real)
  }

  /**
   * `update_set`: a partial update.  A field passed as None keeps its old
   * value, and the volume is recomputed from the resulting weight and reps.
   */
  ghost function UpdateSet(
    d: Document, sid: string, eid: string, setId: string, weight: Option<real>, reps: Option<int>): (r: Reply<bool>)
    requires Ready(d)
    ensures Ready(r.doc)
    ensures !HasSet(d, sid, eid, setId) ==> r == Reply(d, false)
    ensures HasSet(d, sid, eid, setId) ==>
      var sets := SetsAt(d, sid, eid);
      var prev := sets[setId];
      && r.value
      && Consistent(r.doc) && r.doc.userSettings == d.userSettings
      && OnlySetsOf(Sessions(d), Sessions(r.doc), sid, eid)
      && var sets2 := SetsAt(r.doc, sid, eid);
      && sets2.Keys == sets.Keys
      && AgreeExcept(sets, sets2, setId)
      && sets2[setId] == ApplyUpdate(prev, weight, reps)
  {
    if !HasSet(d, sid, eid, setId) then Reply(d, false)
    else
      var sets := SetsAt(d, sid, eid);
      var rec := ApplyUpdate(sets[setId], weight, reps);
      PutOne(sets, setId, rec);
      Reply(Commit(d, WithSets(Sessions(d), sid, eid, sets[setId := rec])), true)
  }

  /** `delete_set`: drops one set; the remaining sets keep their numbers and keys. */
  ghost function DeleteSet(d: Document, sid: string, eid: string, setId: string): (r: Reply<bool>)
    requires Ready(d)
    ensures Ready(r.doc)
    ensures !HasSet(d, sid, eid, setId) ==> r == Reply(d, false)
    ensures HasSet(d, sid, eid, setId) ==>
      var sets := SetsAt(d, sid, eid);
      && r.value
      && Consistent(r.doc) && r.doc.userSettings == d.userSettings
      && OnlySetsOf(Sessions(d), Sessions(r.doc), sid, eid)
      && var sets2 := SetsAt(r.doc, sid, eid);
      && sets2.Keys == sets.Keys - {setId}
      && AgreeExcept(sets, sets2, setId)
  {
    if !HasSet(d, sid, eid, setId) then Reply(d, false)
    else
      var sets := SetsAt(d, sid, eid);
      RemoveOne(sets, setId);
      Reply(Commit(d, WithSets(Sessions(d), sid, eid, sets - {setId})), true)
  }
}
