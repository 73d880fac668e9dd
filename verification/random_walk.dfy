/**
 The scripted random-walk explorer `generate_key_press_random`: each call picks
 the next key from the module-level globals and the current frame, keeping the
 agent inside a room or a rectangular region by reversing its last key when it
 leaves, and answers a one-hot key vector.
 */
module RandomWalk {
  import opened Wrappers
  import opened Geometry
  import opened Actions

  /** The module-level globals previous_action, next_action, rotation_counter and reverse_action_taken. */
  datatype ExplorerState = ExplorerState(
    previousAction: Option<int>,
    nextAction: Option<int>,
    rotationCounter: int,
    reverseActionTaken: bool)

  /** The globals as the module loads: both actions 0, counter 0, no reversal yet. */
  const Initial := ExplorerState(Some(0), Some(0), 0, false)

  /**
   The arguments of one call. An empty `confineToRoom` means no room
   confinement; `roomBounds` is None for the source's empty dictionary.
   */
  datatype Frame = Frame(
    hasCollided: bool,
    rotation: bool,
    confineToRoom: string,
    currentRoom: string,
    roomBounds: Option<Region>,
    currentPosition: Position)

  /** The draw fits the range `get_random_action` asks `randint` for. */
  predicate DrawFits(f: Frame, draw: int) {
    0 <= draw <= LastDraw(f.rotation)
  }

  /** The agent is in a room other than the one it is confined to. */
  predicate LeftRoom(f: Frame) {
    f.confineToRoom != "" && f.currentRoom != f.confineToRoom
  }

  /** The agent's known position lies outside the confining region. */
  predicate LeftRegion(f: Frame) {
    f.roomBounds.Some? && f.currentPosition != Origin && !IsWithinRegion(f.currentPosition, f.roomBounds.value)
  }

  /** Either confinement is violated; both are handled alike. */
  predicate Outside(f: Frame) {
    LeftRoom(f) || LeftRegion(f)
  }

  /** Neither outside nor collided: the agent keeps to its plan. */
  predicate Quiet(f: Frame) {
    !Outside(f) && !f.hasCollided
  }

  /** `reverse_action` applied to a global that may hold None: None has no opposite. */
  function Opposite(a: Option<int>): Option<int> {
    match a
    case None => None
    case Some(c) => ReverseAction(c)
  }

  predicate IsRotationKey(a: Option<int>) {
    a.Some? && IsRotation(a.value)
  }

  /** One of the six codes. */
  predicate IsActionKey(a: Option<int>) {
    a.Some? && IsAction(a.value)
  }

  /**
   What the globals can hold: the counter is never negative, the action is None,
   the initial 0 or one of the six codes, and a reversal is never pending on the
   initial 0.
   */
  predicate Valid(s: ExplorerState) {
    && s.rotationCounter >= 0
    && (s.nextAction.None? || s.nextAction == Some(0) || IsActionKey(s.nextAction))
    && (s.nextAction == Some(0) ==> !s.reverseActionTaken)
  }

  /** The new globals of one call and the key vector it answers. */
  datatype Step = Step(state: ExplorerState, keys: Keys)

  /**
   `generate_key_press_random`. The previous action becomes the last call's
   action; then, in order of priority: outside the room or region, the first
   step reverses that action and later steps repeat it; on collision a random
   action is drawn; otherwise the first step goes forward, a rotation whose
   counter is even ends its run with a fresh draw, and anything else repeats.
   The counter grows by one whenever the chosen action is a rotation.
   */
  function GenerateKeyPressRandom(s: ExplorerState, f: Frame, draw: int): (r: Step)
    requires DrawFits(f, draw)
    ensures r.state.previousAction == s.nextAction
    ensures r.state.reverseActionTaken <==> Outside(f)
    ensures r.keys == KeyVector(r.state.nextAction)
    // the action is kept, reversed, the opening forward move or a fresh allowed draw
    ensures || r.state.nextAction == s.nextAction
            || r.state.nextAction == Opposite(s.nextAction)
            || r.state.nextAction == Some(Forward)
            || (r.state.nextAction.Some? && r.state.nextAction.value in AllowedActions(f.rotation))
    ensures Valid(s) ==> Valid(r.state) && r.state.nextAction != Some(0)
  {
    var previous := s.nextAction;
    var (next, counter, taken) :=
      if Outside(f) then
        if !s.reverseActionTaken then (Opposite(previous), s.rotationCounter, true)
        else (previous, s.rotationCounter, true)
      else if f.hasCollided then (Some(RandomAction(f.rotation, draw)), s.rotationCounter, false)
      else if previous == Some(0) then (Some(Forward), s.rotationCounter, false)
      // Python's % and Dafny's agree here: the divisor is positive
      else if IsRotationKey(previous) && s.rotationCounter % 2 == 0 then
        (Some(RandomAction(f.rotation, draw)), 0, false)
      else (previous, s.rotationCounter, false);
    var counter' := if IsRotationKey(next) then counter + 1 else counter;
    Step(ExplorerState(previous, next, counter', taken), KeyVector(next))
  }

  /**
   Leaving the room or region: the first step outside presses the opposite of
   the last key, every later step outside presses that key again, and the
   reversal stays marked as taken.
   */
  lemma ExitReversesThenHolds(s: ExplorerState, f: Frame, draw: int)
    requires DrawFits(f, draw) && Outside(f)
    ensures
      var r := GenerateKeyPressRandom(s, f, draw).state;
      && r.nextAction == (if s.reverseActionTaken then s.nextAction else Opposite(s.nextAction))
      && r.reverseActionTaken
  {
  }

  /** A collision inside the room draws a random action and clears the reversal mark. */
  lemma CollisionDrawsRandom(s: ExplorerState, f: Frame, draw: int)
    requires DrawFits(f, draw) && !Outside(f) && f.hasCollided
    ensures
      var r := GenerateKeyPressRandom(s, f, draw).state;
      r.nextAction == Some(RandomAction(f.rotation, draw)) && !r.reverseActionTaken
  {
  }

  /**
   Inside and free: the very first action is forward; a rotation with an even
   counter resets the counter and draws afresh; any other action repeats.
   */
  lemma QuietStep(s: ExplorerState, f: Frame, draw: int)
    requires DrawFits(f, draw) && Quiet(f)
    ensures
      var r := GenerateKeyPressRandom(s, f, draw).state;
      && !r.reverseActionTaken
      && (s.nextAction == Some(0) ==> r.nextAction == Some(Forward))
      && (IsRotationKey(s.nextAction) && s.rotationCounter % 2 == 0 ==>
            r.nextAction == Some(RandomAction(f.rotation, draw))
            && r.rotationCounter == (if IsRotation(RandomAction(f.rotation, draw)) then 1 else 0))
      && (s.nextAction != Some(0) && !(IsRotationKey(s.nextAction) && s.rotationCounter % 2 == 0) ==>
            r.nextAction == s.nextAction)
  {
  }

  /**
   The rotation counter grows by one exactly when the chosen action is a
   rotation, after being reset to 0 when a rotation run ends.
   */
  lemma CounterRule(s: ExplorerState, f: Frame, draw: int)
    requires DrawFits(f, draw)
    ensures
      var r := GenerateKeyPressRandom(s, f, draw).state;
      var reset := Quiet(f) && IsRotationKey(s.nextAction) && s.rotationCounter % 2 == 0;
      r.rotationCounter == (if reset then 0 else s.rotationCounter) + (if IsRotationKey(r.nextAction) then 1 else 0)
  {
  }

  /**
   The answered vector has 323 entries. When the action is one of the six codes
   it presses that key alone; the only other action a valid state can reach is
   None (reversing the initial 0), which presses every key.
   */
  lemma KeysOneHot(s: ExplorerState, f: Frame, draw: int)
    requires DrawFits(f, draw) && Valid(s)
    ensures
      var r := GenerateKeyPressRandom(s, f, draw);
      && r.keys.Pressed? && |r.keys.keys| == KeyCount
      && (IsActionKey(r.state.nextAction) ==> IsOneHot(r.keys.keys, r.state.nextAction.value))
      && (!IsActionKey(r.state.nextAction) ==>
            r.state.nextAction.None? && forall i :: 0 <= i < KeyCount ==> r.keys.keys[i] == 1)
  {
    var r := GenerateKeyPressRandom(s, f, draw);
    if IsActionKey(r.state.nextAction) {
      ActionKeyIsOneHot(r.state.nextAction.value);
    }
  }

  /**
   Once the action is one of the six codes it stays one: None can only arise
   by reversing the initial 0, on a first call made outside the room.
   */
  lemma ActionKeysClosed(s: ExplorerState, f: Frame, draw: int)
    requires DrawFits(f, draw) && IsActionKey(s.nextAction)
    ensures IsActionKey(GenerateKeyPressRandom(s, f, draw).state.nextAction)
  {
  }

  /**
   The exploration loop calls the step with the current room as both the room
   to keep to and the room the agent is in, and with no region bounds: such a
   frame is never outside, so only collisions and rotation runs steer the walk.
   */
  lemma CallerNeverConfines(s: ExplorerState, f: Frame, draw: int)
    requires DrawFits(f, draw) && f.confineToRoom == f.currentRoom && f.roomBounds.None?
    ensures !Outside(f) && !GenerateKeyPressRandom(s, f, draw).state.reverseActionTaken
  {
  }

  /** A collision inside the room or region: the one event that draws a fresh action. */
  predicate CollidesInside(f: Frame) {
    !Outside(f) && f.hasCollided
  }

  /**
   With no action (None) a call keeps None, except that a collision inside the
   room draws one of the six codes.
   */
  lemma NoActionPersists(s: ExplorerState, f: Frame, draw: int)
    requires DrawFits(f, draw) && s.nextAction.None?
    ensures
      var a := GenerateKeyPressRandom(s, f, draw).state.nextAction;
      (IsActionKey(a) <==> CollidesInside(f)) && (a.None? <==> !CollidesInside(f))
  {
  }

  /**
   The k-th call of a walk from the loaded globals has one of the six codes:
   the first frame was inside, or some frame up to k collided inside.
   */
  predicate Recovered(frames: seq<Frame>, k: int)
    requires 0 <= k < |frames|
  {
    !Outside(frames[0]) || exists j :: 0 <= j <= k && CollidesInside(frames[j])
  }

  /**
   A rotation carried with an odd counter is pressed once more, and the quiet
   call after that ends the run with a fresh draw.
   */
  lemma RotationComesInPairs(s: ExplorerState, f1: Frame, d1: int, f2: Frame, d2: int)
    requires DrawFits(f1, d1) && DrawFits(f2, d2) && Quiet(f1) && Quiet(f2)
    requires IsRotationKey(s.nextAction) && s.rotationCounter % 2 == 1
    ensures
      var r1 := GenerateKeyPressRandom(s, f1, d1).state;
      var r2 := GenerateKeyPressRandom(r1, f2, d2).state;
      && r1.nextAction == s.nextAction
      && r1.rotationCounter == s.rotationCounter + 1
      && r2.nextAction == Some(RandomAction(f2.rotation, d2))
      && r2.rotationCounter == (if IsRotation(RandomAction(f2.rotation, d2)) then 1 else 0)
  {
  }

  /**
   A collision draw does not reset the counter: a rotation drawn on a collision
   while the counter is odd leaves it even, so the next quiet call already draws
   afresh and the rotation is pressed only once.
   */
  lemma CollisionRotationPressedOnce(s: ExplorerState, f1: Frame, d1: int, f2: Frame, d2: int)
    requires DrawFits(f1, d1) && DrawFits(f2, d2) && CollidesInside(f1) && Quiet(f2)
    requires IsRotation(RandomAction(f1.rotation, d1)) && s.rotationCounter % 2 == 1
    ensures
      var r1 := GenerateKeyPressRandom(s, f1, d1).state;
      var r2 := GenerateKeyPressRandom(r1, f2, d2).state;
      && r1.nextAction == Some(RandomAction(f1.rotation, d1))
      && r1.rotationCounter == s.rotationCounter + 1
      && r2.nextAction == Some(RandomAction(f2.rotation, d2))
      && r2.rotationCounter == (if IsRotation(RandomAction(f2.rotation, d2)) then 1 else 0)
  {
  }

  /**
   Repeated calls, one per frame, from the globals as loaded: the actions taken
   and the key vectors answered. Every vector has 323 entries and presses the
   action's key alone. The action is one of the six codes exactly when the walk
   has recovered (the first frame was inside, or a collision inside has
   happened since); before that it is None and every key is pressed.
   */
  method Explore(frames: seq<Frame>, draws: seq<int>) returns (s: ExplorerState, actions: seq<Option<int>>, presses: seq<Keys>)
    requires |draws| == |frames|
    requires forall k :: 0 <= k < |frames| ==> DrawFits(frames[k], draws[k])
    ensures |actions| == |frames| && |presses| == |frames|
    ensures Valid(s)
    ensures forall k :: 0 <= k < |frames| ==>
      && presses[k].Pressed? && |presses[k].keys| == KeyCount
      && (IsActionKey(actions[k]) ==> IsOneHot(presses[k].keys, actions[k].value))
      && (actions[k].None? ==> forall n :: 0 <= n < KeyCount ==> presses[k].keys[n] == 1)
    ensures forall k :: 0 <= k < |frames| ==>
      (IsActionKey(actions[k]) <==> Recovered(frames, k)) && (actions[k].None? <==> !Recovered(frames, k))
  {
    s := Initial;
    actions := [];
    presses := [];
    var i := 0;
    while i < |frames|
      invariant 0 <= i <= |frames|
      invariant |actions| == i && |presses| == i
      invariant Valid(s)
      invariant i > 0 ==> s.nextAction == actions[i - 1]
      invariant i == 0 ==> s == Initial
      invariant forall k :: 0 <= k < i ==>
        && presses[k].Pressed? && |presses[k].keys| == KeyCount
        && (IsActionKey(actions[k]) ==> IsOneHot(presses[k].keys, actions[k].value))
        && (actions[k].None? ==> forall n :: 0 <= n < KeyCount ==> presses[k].keys[n] == 1)
      invariant forall k :: 0 <= k < i ==>
        (IsActionKey(actions[k]) <==> Recovered(frames, k)) && (actions[k].None? <==> !Recovered(frames, k))
    {
      var step := GenerateKeyPressRandom(s, frames[i], draws[i]);
      KeysOneHot(s, frames[i], draws[i]);
      if i == 0 {
        assert IsActionKey(step.state.nextAction) <==> !Outside(frames[0]);
      } else if IsActionKey(s.nextAction) {
        ActionKeysClosed(s, frames[i], draws[i]);
        assert Recovered(frames, i - 1);
        if Outside(frames[0]) {
          var j :| 0 <= j <= i - 1 && CollidesInside(frames[j]);
          assert Recovered(frames, i);
        }
      } else {
        NoActionPersists(s, frames[i], draws[i]);
        assert !Recovered(frames, i - 1);
        if CollidesInside(frames[i]) {
          assert Recovered(frames, i);
        }
      }
      s := step.state;
      actions := actions + [s.nextAction];
      presses := presses + [step.keys];
      i := i + 1;
    }
  }
}
