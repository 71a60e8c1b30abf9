/**
 * The world of the coordination task between a teacher and a learner: from
 * their two actions, what each agent perceives from every point of view it
 * models, which actions it sees, and the shared reward. The learner may
 * imitate, in which case the teacher's action is the one performed.
 */
module Coordination {

  const TEACHER: string := "teacher"
  const LEARNER: string := "learner"
  const IMITATE: string := "imitate"
  /** The action that earns the reward. */
  const GOAL: string := "c"
  const SUCCESS: string := "success"
  const FAIL: string := "fail"

  /** A perceived event with its confidence. */
  type Percept = (string, real)

  datatype Outcome = Outcome(
    percepts1: map<string, seq<Percept>>,
    percepts2: map<string, seq<Percept>>,
    actions1: map<string, string>,
    actions2: map<string, string>,
    reward: int)

  /** The point of view of `inner` as modelled by `outer`. */
  function Nested(outer: string, inner: string): string
  {
    outer + ";" + inner
  }

  /** The action actually performed: the learner's, or the teacher's when the
      learner imitates. */
  function PerformedAction(action1: string, action2: string): string
  {
    if action2 == IMITATE then action1 else action2
  }

  /**
   * One step of the world. The teacher perceives the learner's action and
   * the success or failure of the step; the learner perceives the teacher's
   * action. Each agent's percept map holds its own percepts, the other's,
   * and the other's model of itself; each action map holds the other's
   * action and the other's model of its own. The previous state is not read.
   */
  function WorldUpdate<T>(action1: string, action2: string, previous: T): (r: Outcome)
    ensures r.reward == 1 <==> PerformedAction(action1, action2) == GOAL
    ensures r.reward == 0 <==> PerformedAction(action1, action2) != GOAL
    ensures r.percepts1.Keys == {TEACHER, LEARNER, Nested(LEARNER, TEACHER)}
    ensures r.percepts2.Keys == {LEARNER, TEACHER, Nested(TEACHER, LEARNER)}
    ensures r.actions1.Keys == {LEARNER, Nested(LEARNER, TEACHER)}
    ensures r.actions2.Keys == {TEACHER, Nested(TEACHER, LEARNER)}
    ensures var p1 := r.percepts1[TEACHER];
      && p1 == [(action2, 1.0), (if r.reward == 1 then SUCCESS else FAIL, 1.0)]
      && r.percepts1[Nested(LEARNER, TEACHER)] == p1 && r.percepts2[TEACHER] == p1
    ensures var p2 := r.percepts2[LEARNER];
      && p2 == [(action1, 1.0)]
      && r.percepts2[Nested(TEACHER, LEARNER)] == p2 && r.percepts1[LEARNER] == p2
    ensures r.actions1[LEARNER] == action2 && r.actions1[Nested(LEARNER, TEACHER)] == action1
    ensures r.actions2[TEACHER] == action1 && r.actions2[Nested(TEACHER, LEARNER)] == action2
  {
    var performed := PerformedAction(action1, action2);
    var success := GOAL == performed;
    var p1 := [(action2, 1.0)] + [(if success then SUCCESS else FAIL, 1.0)];
    var p2 := [(action1, 1.0)];
    assert TEACHER[0] != LEARNER[0] && |Nested(LEARNER, TEACHER)| != |TEACHER| && |Nested(TEACHER, LEARNER)| != |LEARNER|;
    Outcome(
      map[TEACHER := p1, LEARNER := p2, Nested(LEARNER, TEACHER) := p1],
      map[LEARNER := p2, TEACHER := p1, Nested(TEACHER, LEARNER) := p2],
      map[LEARNER := action2, Nested(LEARNER, TEACHER) := action1],
      map[TEACHER := action1, Nested(TEACHER, LEARNER) := action2],
      if success then 1 else 0)
  }

  /** The outcome does not depend on the previous state. */
  lemma IgnoresPrevious<T>(action1: string, action2: string, previous: T, other: T)
    ensures WorldUpdate(action1, action2, previous) == WorldUpdate(action1, action2, other)
  {
  }

  /** When the learner imitates, the step succeeds exactly when the teacher
      plays the goal; otherwise exactly when the learner does. */
  lemma SuccessDependsOnPerformer<T>(action1: string, action2: string, previous: T)
    ensures action2 == IMITATE ==> (WorldUpdate(action1, action2, previous).reward == 1 <==> action1 == GOAL)
    ensures action2 != IMITATE ==> (WorldUpdate(action1, action2, previous).reward == 1 <==> action2 == GOAL)
  {
  }

  /** Perception is error-free: whatever one agent perceives of a point of
      view, the other perceives of it too, and the actions each sees of the
      other are the ones the other performed. */
  lemma ViewsAgree<T>(action1: string, action2: string, previous: T)
    ensures var r := WorldUpdate(action1, action2, previous);
      && r.percepts1[TEACHER] == r.percepts2[TEACHER]
      && r.percepts1[LEARNER] == r.percepts2[LEARNER]
      && r.actions1[Nested(LEARNER, TEACHER)] == r.actions2[TEACHER]
      && r.actions2[Nested(TEACHER, LEARNER)] == r.actions1[LEARNER]
  {
  }
}
