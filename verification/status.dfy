/**
 * Status codes of the group operations and the running minimum that the
 * identity-wide join and leave fold them into.
 */
module Status {
  import opened Wrappers

  /**
   * The outcome of `_leaveGroup`: 0 when the handle left, 1 when the group
   * does not exist, 2 for a null handle, and no return value at all (PHP
   * null) when the group exists but the handle is not a member.
   */
  datatype LeaveStatus = Left | NoGroup | NoConnection | NotMember

  /** The numeric code of a leave outcome; `None` is the missing return value. */
  function Code(s: LeaveStatus): (c: Option<nat>)
    ensures c.Some? ==> c.value <= 2
    ensures c == Some(0) <==> s == Left
    ensures c == Some(1) <==> s == NoGroup
    ensures c == Some(2) <==> s == NoConnection
    ensures c.None? <==> s == NotMember
  {
    match s
    case Left => Some(0)
    case NoGroup => Some(1)
    case NoConnection => Some(2)
    case NotMember => None
  }

  /**
   * One step of the running minimum that `leaveGroupById` evidently means:
   * a lower code replaces the state, and an outcome without a code leaves
   * the state alone.
   */
  function LeaveStep(state: nat, s: LeaveStatus): (r: nat)
    ensures r <= state
    ensures Code(s).Some? ==> r <= Code(s).value
    ensures r == state || Some(r) == Code(s)
    ensures r == 0 <==> state == 0 || s == Left
  {
    match Code(s)
    case Some(k) => if k < state then k else state
    case None => state
  }

  /** The running minimum over the outcomes `ss`, in order, starting from `state`. */
  function LeaveFold(state: nat, ss: seq<LeaveStatus>): nat
    decreases |ss|
  {
    if ss == [] then state else LeaveFold(LeaveStep(state, ss[0]), ss[1..])
  }

  /** The aggregate reports success exactly when some single leave succeeded. */
  lemma {:induction false} LeaveFoldZero(state: nat, ss: seq<LeaveStatus>)
    ensures LeaveFold(state, ss) == 0 <==> state == 0 || Left in ss
    decreases |ss|
  {
    if ss != [] {
      LeaveFoldZero(LeaveStep(state, ss[0]), ss[1..]);
      assert ss == [ss[0]] + ss[1..];
    }
  }

  /** The aggregate never rises above its starting state. */
  lemma {:induction false} LeaveFoldBound(state: nat, ss: seq<LeaveStatus>)
    ensures LeaveFold(state, ss) <= state
    decreases |ss|
  {
    if ss != [] {
      LeaveFoldBound(LeaveStep(state, ss[0]), ss[1..]);
    }
  }

  /** A PHP value that the source's running minimum can hold: an integer code or null. */
  datatype PhpValue = PhpInt(n: nat) | PhpNull

  /**
   * PHP's `<` between integers and null: two integers compare as numbers;
   * when null is involved both sides are converted to booleans first
   * (null and 0 are false, every other integer is true).
   */
  predicate PhpLess(a: PhpValue, b: PhpValue): (r: bool)
    ensures b.PhpNull? ==> !r
    ensures a.PhpNull? && b.PhpInt? ==> (r <==> b.n != 0)
    ensures a.PhpInt? && b.PhpInt? ==> (r <==> a.n < b.n)
  {
    match (a, b)
    case (PhpInt(x), PhpInt(y)) => x < y
    case (PhpNull, PhpInt(y)) => y != 0
    case (PhpInt(_), PhpNull) => false
    case (PhpNull, PhpNull) => false
  }

  /** One step of `leaveGroupById`'s loop as written: `if ($_state < $state) $state = $_state;`. */
  function LeaveStepAsWritten(state: PhpValue, s: LeaveStatus): (r: PhpValue)
    ensures state.PhpInt? && s != NotMember ==> r == PhpInt(LeaveStep(state.n, s))
    ensures s == NotMember && state != PhpInt(0) ==> r == PhpNull
    ensures s == NotMember && state == PhpInt(0) ==> r == state
  {
    var v := match Code(s) case Some(k) => PhpInt(k) case None => PhpNull;
    if PhpLess(v, state) then v else state
  }

  /** `leaveGroupById`'s running minimum as written, over the outcomes `ss` in order. */
  function LeaveFoldAsWritten(state: PhpValue, ss: seq<LeaveStatus>): (r: PhpValue)
    ensures state.PhpInt? && NotMember !in ss ==> r == PhpInt(LeaveFold(state.n, ss))
    decreases |ss|
  {
    if ss == [] then state else LeaveFoldAsWritten(LeaveStepAsWritten(state, ss[0]), ss[1..])
  }

  /** Once the state is null nothing replaces it: no code is below null. */
  lemma {:induction false} LeaveFoldAsWrittenNullSticks(ss: seq<LeaveStatus>)
    ensures LeaveFoldAsWritten(PhpNull, ss) == PhpNull
    decreases |ss|
  {
    if ss != [] {
      LeaveFoldAsWrittenNullSticks(ss[1..]);
    }
  }

  /**
   * As written, a first pair whose handle is not a member of an existing
   * group turns the result into null, and a later successful leave cannot
   * bring it back to 0; the intended aggregate reports 0 for the same
   * outcomes.
   */
  lemma {:induction false} LeaveAsWrittenMasksSuccess(ss: seq<LeaveStatus>)
    requires Left in ss
    ensures LeaveFoldAsWritten(PhpInt(2), [NotMember] + ss) == PhpNull
    ensures LeaveFold(2, [NotMember] + ss) == 0
  {
    assert ([NotMember] + ss)[1..] == ss;
    LeaveFoldAsWrittenNullSticks(ss);
    LeaveFoldZero(2, [NotMember] + ss);
  }
}
