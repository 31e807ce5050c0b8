/**
 * The hero typing effect (`typeRole`): a cursor over a fixed list of role
 * strings that types one character per tick, waits for a pause timer, then
 * deletes one character per tick and moves on to the next role.
 *
 * The two timers are abstract events: a tick (`Next` and `Shown`, the
 * method `TypingEffect.Tick`) and the firing of the pause timer that a tick arms
 * (`Pause`, the method `TypingEffect.PauseElapsed`). Ticks keep running
 * while the pause is pending, so the character index overshoots the role's
 * length; `substring` clamping keeps the full role on screen meanwhile.
 */
module Typing {
  import opened JsText

  /** The roles the hero section cycles through, in order. */
  const Roles: seq<string> := [
    "Computer Science Student",
    "Data Science Researcher",
    "AI Developer",
    "Tech Consultant"
  ]

  /** Milliseconds before the next tick while typing, and while deleting. */
  const TypeDelay: nat := 80
  const DeleteDelay: nat := 35

  /**
   * The module-level cursor `roleIdx`, `charIdx`, `deleting`, plus whether a
   * pause timer has been armed and has not fired yet.
   */
  datatype State = State(roleIdx: int, charIdx: int, deleting: bool, pausePending: bool)

  /** The cursor the script starts from. */
  const Initial: State := State(0, 0, false, false)

  /** The cursor at the start of role `r`: nothing typed yet, typing. */
  function Start(r: int): State
  {
    State(r, 0, false, false)
  }

  /**
   * The invariant every reachable cursor satisfies: the role index is a
   * valid index, the character index is never negative and is positive while
   * deleting, and a pending pause means the role is completely typed.
   */
  predicate Invariant(s: State)
  {
    && 0 <= s.roleIdx < |Roles|
    && 0 <= s.charIdx
    && (s.deleting ==> 1 <= s.charIdx)
    && (s.pausePending ==> !s.deleting && |Roles[s.roleIdx]| <= s.charIdx)
  }

  /** No role is empty, which is what lets the cursor ever reach deletion. */
  lemma RolesNonEmpty(r: int)
    requires 0 <= r < |Roles|
    ensures |Roles[r]| > 0
  {
    assert |Roles[0]| == 24 && |Roles[1]| == 23 && |Roles[2]| == 12 && |Roles[3]| == 15;
  }

  /**
   * The text one call of `typeRole` displays: `substring(0, charIdx - 1)`
   * while deleting, `substring(0, charIdx + 1)` while typing. It is always
   * a prefix of the current role, and while the index overshoots the role
   * (ticks that run during the pause) it is the whole role.
   */
  function Shown(s: State): (t: string)
    requires Invariant(s)
    ensures t <= Roles[s.roleIdx]
    ensures |t| == ClampIndex(if s.deleting then s.charIdx - 1 else s.charIdx + 1, |Roles[s.roleIdx]|)
    ensures s.charIdx > |Roles[s.roleIdx]| ==> t == Roles[s.roleIdx]
  {
    var current := Roles[s.roleIdx];
    var end := if s.deleting then s.charIdx - 1 else s.charIdx + 1;
    SubstringFromZero(current, end);
    Substring(current, 0, end)
  }

  /** Whether this tick arms the pause timer: typing, and the index reaches the role's length. */
  predicate ArmsPause(s: State)
    requires 0 <= s.roleIdx < |Roles|
  {
    !s.deleting && s.charIdx + 1 == |Roles[s.roleIdx]|
  }

  /**
   * The cursor after one call of `typeRole`. The character index moves by
   * exactly one; the role changes exactly when deletion reaches index 0, to
   * the next role modulo the list, and typing resumes on that same tick; a
   * tick never starts deleting; and the pause is armed exactly on the tick
   * that finishes typing the role, never while another one is pending.
   */
  function Next(s: State): (t: State)
    requires Invariant(s)
    ensures Invariant(t)
    ensures t.charIdx == if s.deleting then s.charIdx - 1 else s.charIdx + 1
    ensures t.roleIdx != s.roleIdx <==> s.deleting && t.charIdx == 0
    ensures t.roleIdx != s.roleIdx ==> t.roleIdx == (s.roleIdx + 1) % |Roles|
    ensures t.deleting <==> s.deleting && t.charIdx != 0
    ensures t.pausePending <==> s.pausePending || ArmsPause(s)
    ensures ArmsPause(s) ==> !s.pausePending
  {
    RolesNonEmpty(s.roleIdx);
    var c := if s.deleting then s.charIdx - 1 else s.charIdx + 1;
    if !s.deleting && c == |Roles[s.roleIdx]| then s.(charIdx := c, pausePending := true)
    else if s.deleting && c == 0 then State((s.roleIdx + 1) % |Roles|, c, false, s.pausePending)
    else s.(charIdx := c)
  }

  /** The delay `typeRole` schedules itself at, read after the cursor has moved. */
  function Delay(next: State): nat
  {
    if next.deleting then DeleteDelay else TypeDelay
  }

  /**
   * The pause timer fires: `deleting` becomes true. This is the only way
   * deletion starts, and it starts from a fully typed role.
   */
  function Pause(s: State): (t: State)
    requires Invariant(s) && s.pausePending
    ensures Invariant(t)
    ensures t.deleting && !t.pausePending
    ensures t.roleIdx == s.roleIdx && t.charIdx == s.charIdx
    ensures t.charIdx >= |Roles[t.roleIdx]|
  {
    RolesNonEmpty(s.roleIdx);
    s.(deleting := true, pausePending := false)
  }

  /** The cursor after `n` ticks with no pause firing in between. */
  function Ticks(s: State, n: nat): (t: State)
    requires Invariant(s)
    ensures Invariant(t)
    ensures t.roleIdx == s.roleIdx || s.deleting
    decreases n
  {
    if n == 0 then s else Ticks(Next(s), n - 1)
  }

  /**
   * Typing `n` ticks from index `c` reaches index `c + n` of the same role,
   * still typing, with the pause armed iff the role's length was crossed.
   */
  lemma {:induction false} TypingRun(r: int, c: int, pending: bool, n: nat)
    requires Invariant(State(r, c, false, pending))
    ensures Ticks(State(r, c, false, pending), n)
         == State(r, c + n, false, pending || (c < |Roles[r]| <= c + n))
    decreases n
  {
    if n > 0 {
      var s := State(r, c, false, pending);
      var next := Next(s);
      assert next.roleIdx == r && !next.deleting && next.charIdx == c + 1;
      assert next.pausePending == (pending || c + 1 == |Roles[r]|);
      TypingRun(r, c + 1, pending || c + 1 == |Roles[r]|, n - 1);
    }
  }

  /**
   * Deleting from index `c` takes exactly `c` ticks to empty the role; the
   * tick that empties it moves to the next role and resumes typing.
   */
  lemma {:induction false} DeletingRun(r: int, c: int, n: nat)
    requires Invariant(State(r, c, true, false))
    requires n <= c
    ensures Ticks(State(r, c, true, false), n)
         == if n < c then State(r, c - n, true, false) else Start((r + 1) % |Roles|)
    decreases n
  {
    if n > 0 {
      var s := State(r, c, true, false);
      if c == 1 {
        assert Next(s) == Start((r + 1) % |Roles|);
      } else {
        assert Next(s) == State(r, c - 1, true, false);
        DeletingRun(r, c - 1, n - 1);
      }
    }
  }

  /**
   * One role's whole cycle, from its start: type it and then `overshoot`
   * more ticks while the pause is pending, let the pause fire, then tick
   * until deletion has emptied it. Whatever the overshoot, the cycle ends at
   * the start of the next role.
   */
  function RoleCycle(r: int, overshoot: nat): (s: State)
    requires 0 <= r < |Roles|
    ensures s == Start((r + 1) % |Roles|)
  {
    var n := |Roles[r]| + overshoot;
    RolesNonEmpty(r);
    TypingRun(r, 0, false, n);
    DeletingRun(r, n, n);
    Ticks(Pause(Ticks(Start(r), n)), n)
  }

  /** Consecutive role cycles from the start of role `r`, one overshoot each. */
  function Cycles(r: int, overshoots: seq<nat>): State
    requires 0 <= r < |Roles|
    decreases |overshoots|
  {
    if overshoots == [] then Start(r)
    else
      Cycles(RoleCycle(r, overshoots[0]).roleIdx, overshoots[1..])
  }

  /** The role index `k` role changes after role `r`, one `% roles.length` step at a time. */
  function RoleAfter(r: int, k: nat): int
    requires 0 <= r < |Roles|
    decreases k
  {
    if k == 0 then r else RoleAfter((r + 1) % |Roles|, k - 1)
  }

  /** `k` single wrapping steps from role `r` land on role `(r + k) % roles.length`. */
  lemma {:induction false} RoleAfterIsModulo(r: int, k: nat)
    requires 0 <= r < |Roles|
    ensures RoleAfter(r, k) == (r + k) % |Roles|
    decreases k
  {
    assert |Roles| == 4;
    if k > 0 {
      RoleAfterIsModulo((r + 1) % |Roles|, k - 1);
    }
  }

  /** After `k` role cycles the cursor is at the start of the role `k` places on. */
  lemma {:induction false} CyclesAdvance(r: int, overshoots: seq<nat>)
    requires 0 <= r < |Roles|
    ensures Cycles(r, overshoots) == Start(RoleAfter(r, |overshoots|))
    decreases |overshoots|
  {
    if overshoots != [] {
      CyclesAdvance((r + 1) % |Roles|, overshoots[1..]);
    }
  }

  /** One cycle through all the roles brings the cursor back to where the script started. */
  lemma FullCycleReturnsToInitial(overshoots: seq<nat>)
    requires |overshoots| == |Roles|
    ensures Cycles(0, overshoots) == Initial
  {
    CyclesAdvance(0, overshoots);
    RoleAfterIsModulo(0, |overshoots|);
  }

  /**
   * The typing effect as the script holds it: the cursor variables and the
   * text of the typing element, updated in place by the two timer events.
   */
  class TypingEffect {
    var roleIdx: int
    var charIdx: int
    var deleting: bool
    var pausePending: bool
    var text: string

    function Cursor(): State
      reads this
    {
      State(roleIdx, charIdx, deleting, pausePending)
    }

    predicate Valid()
      reads this
    {
      Invariant(Cursor())
    }

    /** The state of the script once loaded: first role, nothing typed, typing. */
    constructor (initialText: string)
      ensures Valid() && Cursor() == Initial && text == initialText
    {
      roleIdx, charIdx, deleting, pausePending := 0, 0, false, false;
      text := initialText;
    }

    /** One tick of `typeRole`; returns the delay before the next tick. */
    method Tick() returns (delay: nat)
      requires Valid()
      modifies this
      ensures Valid()
      ensures Cursor() == Next(old(Cursor()))
      ensures text == Shown(old(Cursor()))
      ensures delay == Delay(Cursor())
    {
      RolesNonEmpty(roleIdx);
      var current := Roles[roleIdx];
      text := if deleting then Substring(current, 0, charIdx - 1) else Substring(current, 0, charIdx + 1);
      if deleting {
        charIdx := charIdx - 1;
      } else {
        charIdx := charIdx + 1;
      }
      if !deleting && charIdx == |current| {
        pausePending := true;
      } else if deleting && charIdx == 0 {
        deleting := false;
        roleIdx := (roleIdx + 1) % |Roles|;
      }
      delay := if deleting then DeleteDelay else TypeDelay;
    }

    /** The pause timer armed by an earlier tick fires. */
    method PauseElapsed()
      requires Valid() && pausePending
      modifies this
      ensures Valid()
      ensures Cursor() == Pause(old(Cursor()))
      ensures text == old(text)
    {
      RolesNonEmpty(roleIdx);
      deleting := true;
      pausePending := false;
    }
  }
}
