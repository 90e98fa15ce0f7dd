/**
 * The persisted document of the workout store: sessions hold exercises,
 * exercises hold sets, every level keyed by a string id, plus the derived
 * statistics and the user settings.
 */
module Model {
  import opened Wrappers
  import Decimal

  /** One recorded set; `volume` is stored alongside the weight and reps it derives from. */
  datatype SetRec = SetRec(setNumber: int, weight: real, reps: int, volume: real, createdAt: string)

  datatype Exercise = Exercise(
    id: string,
    name: string,
    muscleGroup: string,
    sets: map<string, SetRec>,
    createdAt: string)

  datatype Session = Session(
    id: string,
    name: string,
    date: string,
    time: string,
    workoutType: string,
    exercises: map<string, Exercise>,
    status: string)

  datatype AppStats = AppStats(totalExercises: int, totalSessions: int, totalVolume: int, weeklyWorkouts: int)

  datatype UserSettings = UserSettings(name: string, weightUnit: string, theme: string)

  /**
   * The whole document.  A document read from storage may lack any of its
   * three top-level entries, so each is optional.
   */
  datatype Document = Document(
    appStats: Option<AppStats>,
    workoutSessions: Option<map<string, Session>>,
    userSettings: Option<UserSettings>)

  /** What the result of every store call carries: the document after the call and the call's answer. */
  datatype Reply<T> = Reply(doc: Document, value: T)

  const ZeroStats := AppStats(0, 0, 0, 0)
  const DefaultSettings := UserSettings("BellaajMohsen7", "kg", "dark")
  const ActiveStatus := "active"
  /** The callers' defaults for an omitted workout type and muscle group. */
  const DefaultWorkoutType := "Custom"
  const DefaultMuscleGroup := "General"

  /** The document nothing has been loaded into. */
  const EmptyDocument := Document(None, None, None)

  /** The store operations index `workout_sessions` directly, so they need it present. */
  predicate Ready(d: Document) {
    d.workoutSessions.Some?
  }

  function Sessions(d: Document): map<string, Session>
    requires Ready(d)
  {
    d.workoutSessions.value
  }

  /** The key a set is stored under: "set_" followed by its number in decimal. */
  function SetId(n: nat): (id: string)
    ensures |id| > 4 && id[..4] == "set_"
    ensures Decimal.AllDigits(id[4..])
  {
    "set_" + Decimal.NatToString(n)
  }

  /** The first two set keys, spelled out. */
  lemma FirstSetIds()
    ensures SetId(1) == "set_1" && SetId(2) == "set_2"
  {
  }

  /** Set keys of different numbers never coincide. */
  lemma SetIdInjective(a: nat, b: nat)
    ensures SetId(a) == SetId(b) ==> a == b
  {
    if SetId(a) == SetId(b) {
      assert SetId(a)[4..] == Decimal.NatToString(a);
      assert SetId(b)[4..] == Decimal.NatToString(b);
      Decimal.NatToStringInjective(a, b);
    }
  }

  /** A set's stored volume is its weight times its reps. */
  predicate ExactVolume(s: SetRec) {
    s.volume == s.weight * s.reps as real
  }

  predicate ExerciseExact(e: Exercise) {
    forall k | k in e.sets :: ExactVolume(e.sets[k])
  }

  predicate SessionExact(s: Session) {
    forall k | k in s.exercises :: ExerciseExact(s.exercises[k])
  }

  /** Every set in the store has the volume its weight and reps give. */
  predicate AllExact(ss: map<string, Session>) {
    forall k | k in ss :: SessionExact(ss[k])
  }

  /** `m` and `m2` have the same keys and values everywhere except, possibly, at `k`. */
  ghost predicate AgreeExcept<V>(m: map<string, V>, m2: map<string, V>, k: string) {
    forall j :: j != k ==> (j in m <==> j in m2) && (j in m ==> m[j] == m2[j])
  }

  /** Writing one key: the key set grows by that key, and only when it was new. */
  lemma PutOne<V>(m: map<string, V>, k: string, v: V)
    ensures m[k := v].Keys == m.Keys + {k}
    ensures AgreeExcept(m, m[k := v], k)
    ensures k in m ==> |m[k := v]| == |m|
    ensures k !in m ==> |m[k := v]| == |m| + 1
  {
    assert m[k := v].Keys == m.Keys + {k};
  }

  /** Removing one key: the key set loses that key, and shrinks only when it was there. */
  lemma RemoveOne<V>(m: map<string, V>, k: string)
    ensures (m - {k}).Keys == m.Keys - {k}
    ensures AgreeExcept(m, m - {k}, k)
    ensures k in m ==> |m - {k}| == |m| - 1
    ensures k !in m ==> |m - {k}| == |m|
  {
    assert (m - {k}).Keys == m.Keys - {k};
  }

  /** A map whose keys are those of `m` less one key of `m` has one entry fewer. */
  lemma OneKeyFewer<V>(m: map<string, V>, m2: map<string, V>, k: string)
    requires k in m && m2.Keys == m.Keys - {k}
    ensures |m2| == |m| - 1
  {
    assert |m2.Keys| == |m.Keys - {k}|;
  }

  /**
   * Only the exercise map of session `sid` differs between `ss` and `ss2`:
   * the same sessions exist, every other session is identical, and that
   * session keeps its own fields.
   */
  ghost predicate OnlyExercisesOf(ss: map<string, Session>, ss2: map<string, Session>, sid: string) {
    && sid in ss && sid in ss2
    && ss2.Keys == ss.Keys
    && AgreeExcept(ss, ss2, sid)
    && ss2[sid].(exercises := ss[sid].exercises) == ss[sid]
  }

  /**
   * Only the set map of exercise `eid` of session `sid` differs: the same
   * exercises exist in that session, every other exercise is identical,
   * and that exercise keeps its own fields.
   */
  ghost predicate OnlySetsOf(ss: map<string, Session>, ss2: map<string, Session>, sid: string, eid: string) {
    && OnlyExercisesOf(ss, ss2, sid)
    && var exs, exs2 := ss[sid].exercises, ss2[sid].exercises;
    && eid in exs && eid in exs2
    && exs2.Keys == exs.Keys
    && AgreeExcept(exs, exs2, eid)
    && exs2[eid].(sets := exs[eid].sets) == exs[eid]
  }

  /** Exact volumes survive a change to one session's exercises that keeps that session exact. */
  lemma ExactAfterExercisesChange(ss: map<string, Session>, ss2: map<string, Session>, sid: string)
    requires OnlyExercisesOf(ss, ss2, sid)
    ensures AllExact(ss) && SessionExact(ss2[sid]) ==> AllExact(ss2)
  {
  }

  /** Exact volumes survive a change to one exercise's sets that keeps that exercise exact. */
  lemma ExactAfterSetsChange(ss: map<string, Session>, ss2: map<string, Session>, sid: string, eid: string)
    requires OnlySetsOf(ss, ss2, sid, eid)
    ensures AllExact(ss) && ExerciseExact(ss2[sid].exercises[eid]) ==> AllExact(ss2)
  {
    if AllExact(ss) && ExerciseExact(ss2[sid].exercises[eid]) {
      assert SessionExact(ss[sid]);
      assert SessionExact(ss2[sid]);
    }
  }
}
