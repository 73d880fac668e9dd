/**
 The explorer's six key codes, their opposites (`reverse_action`), the random
 pick among them (`get_random_action`) and the 323-entry key vector built from
 a chosen code.
 */
module Actions {
  import opened Wrappers

  const Forward := 119
  const Backward := 115
  const Left := 97
  const Right := 100
  const CounterClockwise := 276
  const Clockwise := 275

  /** The action list in the source's order: four moves, then the two rotations. */
  const ActionList: seq<int> := [Forward, Backward, Left, Right, CounterClockwise, Clockwise]

  predicate IsAction(c: int) {
    c in ActionList
  }

  predicate IsRotation(c: int) {
    c == CounterClockwise || c == Clockwise
  }

  /** The codes the random pick may return: the four moves, plus the rotations when allowed. */
  function AllowedActions(rotation: bool): set<int> {
    if rotation then {Forward, Backward, Left, Right, CounterClockwise, Clockwise}
    else {Forward, Backward, Left, Right}
  }

  /**
   `reverse_action`: the opposite key of each of the six codes, None for every
   other code (including the explorer's initial 0).
   */
  function ReverseAction(c: int): (r: Option<int>)
    ensures r.Some? <==> IsAction(c)
    ensures r.Some? ==> IsAction(r.value) && r.value != c && (IsRotation(r.value) <==> IsRotation(c))
  {
    if c == Forward then Some(Backward)
    else if c == Backward then Some(Forward)
    else if c == Left then Some(Right)
    else if c == Right then Some(Left)
    else if c == CounterClockwise then Some(Clockwise)
    else if c == Clockwise then Some(CounterClockwise)
    else None
  }

  /** Reversing twice gives back the code: `reverse_action` is an involution on the six codes. */
  lemma ReverseInvolution(c: int)
    requires IsAction(c)
    ensures ReverseAction(c).Some? && ReverseAction(ReverseAction(c).value) == Some(c)
  {
  }

  /**
   The opposite of the code at position i of the action list is its partner in
   the same pair of the list: positions 0-1, 2-3 and 4-5.
   */
  lemma ReversePairs(i: int)
    requires 0 <= i < |ActionList|
    ensures ReverseAction(ActionList[i]) == Some(ActionList[if i % 2 == 0 then i + 1 else i - 1])
  {
  }

  /** The largest value `randint` may draw: 5 with rotation, 3 without. */
  function LastDraw(rotation: bool): nat {
    if rotation then 5 else 3
  }

  /**
   `get_random_action` given the value `random.randint(0, LastDraw(rotation))`
   drew: the action at that position of the list. The fallback after an
   IndexError cannot be reached, since the draw is always a valid position.
   */
  function RandomAction(rotation: bool, draw: int): (a: int)
    requires 0 <= draw <= LastDraw(rotation)
    ensures a in AllowedActions(rotation)
    ensures IsAction(a) && (IsRotation(a) ==> rotation)
  {
    ActionList[draw]
  }

  /**
   Every allowed code is drawn by exactly one value of the range, so a uniform
   draw yields a uniform action.
   */
  lemma RandomActionBijective(rotation: bool, a: int)
    requires a in AllowedActions(rotation)
    ensures exists d :: 0 <= d <= LastDraw(rotation) && RandomAction(rotation, d) == a
    ensures forall d, d' ::
      (0 <= d <= LastDraw(rotation) && 0 <= d' <= LastDraw(rotation)
       && RandomAction(rotation, d) == RandomAction(rotation, d')) ==> d == d'
  {
    var d :=
      if a == Forward then 0 else if a == Backward then 1 else if a == Left then 2
      else if a == Right then 3 else if a == CounterClockwise then 4 else 5;
    assert RandomAction(rotation, d) == a;
  }

  /** Length of the key-state vector (pygame's key count). */
  const KeyCount := 323

  /** The outcome of writing 1 into a zero vector at the chosen index. */
  datatype Keys = Pressed(keys: seq<int>) | IndexError

  /** The index, in 0 .. KeyCount-1, that numpy writes for an integer index c, counting negative c from the end. */
  function Slot(c: int): int {
    if c < 0 then KeyCount + c else c
  }

  /**
   `np.zeros(323)` with 1 written at index `next_action`. A code in range marks
   exactly its own entry (a negative one counts from the end); a code out of
   range raises IndexError. Python's None indexes as numpy's new axis, so the
   write broadcasts and every entry becomes 1.
   */
  function KeyVector(a: Option<int>): (k: Keys)
    ensures a.None? ==> k.Pressed? && |k.keys| == KeyCount && forall i :: 0 <= i < KeyCount ==> k.keys[i] == 1
    ensures a.Some? ==> (k.Pressed? <==> -KeyCount <= a.value < KeyCount)
    ensures a.Some? && k.Pressed? ==>
      && |k.keys| == KeyCount && 0 <= Slot(a.value) < KeyCount
      && k.keys[Slot(a.value)] == 1
      && forall i :: 0 <= i < KeyCount && i != Slot(a.value) ==> k.keys[i] == 0
  {
    match a
    case None => Pressed(seq(KeyCount, i => 1))
    case Some(c) =>
      if -KeyCount <= c < KeyCount then
        Pressed(seq(KeyCount, i => if i == Slot(c) then 1 else 0))
      else IndexError
  }

  /** A vector of KeyCount entries with a single 1, at index c. */
  predicate IsOneHot(v: seq<int>, c: int) {
    |v| == KeyCount && 0 <= c < KeyCount && v[c] == 1
    && forall i :: 0 <= i < KeyCount && i != c ==> v[i] == 0
  }

  /** The key vector of any of the six codes presses that key and no other. */
  lemma ActionKeyIsOneHot(c: int)
    requires IsAction(c)
    ensures KeyVector(Some(c)).Pressed? && IsOneHot(KeyVector(Some(c)).keys, c)
  {
  }
}
