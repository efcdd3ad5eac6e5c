/** The typist terminal (animations/time/t_typist.py): a line
    "[SYSTEM] Time: HH:MM:SS" is typed one character per step, waits,
    and when the time changes the seconds are backspaced and retyped.
    The state machine has three modes, typing, waiting and backspacing,
    and advances at most fifteen times a second. The clock is a
    parameter: the frame time t and the HH:MM:SS string of the frame. */
module Typist {

  const Typing: string := "typing"
  const Waiting: string := "waiting"
  const Backspacing: string := "backspacing"

  /** The characters typed per second. */
  const TypeSpeed: real := 15.0

  /** The shortest time between two steps of the state machine. */
  const FrameInterval: real := 1.0 / TypeSpeed

  /** The line the typist aims at for the time string hms. */
  function TargetFor(hms: string): string
  {
    "[SYSTEM] Time: " + hms
  }

  /** s[:-1]: the last character removed, and "" for "". */
  function DropLast(s: string): (r: string)
    ensures |s| > 0 ==> r == s[..|s| - 1]
    ensures |s| == 0 ==> r == s
  {
    if |s| == 0 then s else s[..|s| - 1]
  }

  /** Python's `needle in hay` on strings: needle occurs at the front of
      hay or somewhere after it. */
  function Contains(hay: string, needle: string): bool
    decreases |hay|
  {
    if |hay| < |needle| then false
    else hay[..|needle|] == needle || (|hay| > 0 && Contains(hay[1..], needle))
  }

  /** needle occurs in hay at index i. */
  predicate OccursAt(hay: string, needle: string, i: int)
  {
    0 <= i && i + |needle| <= |hay| && hay[i..i + |needle|] == needle
  }

  /** Contains finds an occurrence exactly when there is one. */
  lemma {:induction false} ContainsIff(hay: string, needle: string)
    ensures Contains(hay, needle) <==> exists i :: OccursAt(hay, needle, i)
    decreases |hay|
  {
    if |hay| < |needle| {
      forall i
        ensures !OccursAt(hay, needle, i)
      {
      }
    } else if hay[..|needle|] == needle {
      assert OccursAt(hay, needle, 0);
    } else {
      assert |hay| > 0;
      ContainsIff(hay[1..], needle);
      if exists i :: OccursAt(hay, needle, i) {
        var i :| OccursAt(hay, needle, i);
        assert i != 0;
        assert hay[1..][i - 1..i - 1 + |needle|] == hay[i..i + |needle|];
        assert OccursAt(hay[1..], needle, i - 1);
      }
      if exists i :: OccursAt(hay[1..], needle, i) {
        var i :| OccursAt(hay[1..], needle, i);
        assert hay[1..][i..i + |needle|] == hay[i + 1..i + 1 + |needle|];
        assert OccursAt(hay, needle, i + 1);
      }
    }
  }

  // ---------------------------------------------------------------------
  // The state machine as a function

  /** The fields of TypistState the state machine reads and writes. */
  datatype Snapshot = Snapshot(current: string, target: string, cursor: int, mode: string,
                               lastUpdate: real, waitUntil: real, blink: bool)

  /** The modes are the three named ones and the cursor is at the end of
      the current text. */
  predicate Good(s: Snapshot)
  {
    (s.mode == Typing || s.mode == Waiting || s.mode == Backspacing) && s.cursor == |s.current|
  }

  /** A new target while waiting starts backspacing from the end of the
      current text; the target is recorded in every mode. */
  function Retarget(s: Snapshot, newTarget: string): (r: Snapshot)
    ensures r.target == newTarget
    ensures r.current == s.current && r.blink == s.blink && r.lastUpdate == s.lastUpdate
  {
    var s1 := if newTarget != s.target && s.mode == Waiting then s.(mode := Backspacing, cursor := |s.current|) else s;
    s1.(target := newTarget)
  }

  /** One step of the state machine at time t, once the frame interval has
      passed: typing adds the next character of the target or starts
      waiting half a second; backspacing removes a character while more
      than the last two are there, then types again; waiting turns to
      backspacing once the wait is over and hms is no longer in the
      current text. */
  function Tick(s: Snapshot, t: real, hms: string): Snapshot
  {
    if t - s.lastUpdate > FrameInterval then
      var s1 := s.(lastUpdate := t, blink := !s.blink);
      if s1.mode == Typing then
        if 0 <= s1.cursor < |s1.target| then s1.(current := s1.target[..s1.cursor + 1], cursor := s1.cursor + 1)
        else s1.(mode := Waiting, waitUntil := t + 0.5)
      else if s1.mode == Backspacing then
        if |s1.current| > |s1.target| - 2 then
          var c := DropLast(s1.current);
          s1.(current := c, cursor := |c|)
        else s1.(mode := Typing)
      else if s1.mode == Waiting then
        if t > s1.waitUntil && !Contains(s1.current, hms) then s1.(mode := Backspacing) else s1
      else s1
    else s
  }

  /** The update part of render for the frame at time t showing hms. */
  function StepSpec(s: Snapshot, t: real, hms: string): Snapshot
  {
    Tick(Retarget(s, TargetFor(hms)), t, hms)
  }

  // ---------------------------------------------------------------------
  // Properties of the state machine

  /** The mode stays one of the three and the cursor stays at the end of
      the current text. */
  lemma StepKeepsGood(s: Snapshot, t: real, hms: string)
    requires s.cursor >= 0 && Good(s)
    ensures Good(StepSpec(s, t, hms)) && StepSpec(s, t, hms).cursor >= 0
  {
  }

  /** Within the frame interval nothing but the target (and, while
      waiting, the switch to backspacing) changes: the text and the blink
      stay. Past it, the blink toggles and the step time is recorded. */
  lemma StepPacing(s: Snapshot, t: real, hms: string)
    ensures t - s.lastUpdate <= FrameInterval ==>
      StepSpec(s, t, hms).current == s.current && StepSpec(s, t, hms).blink == s.blink
      && StepSpec(s, t, hms).lastUpdate == s.lastUpdate
    ensures t - s.lastUpdate > FrameInterval ==>
      StepSpec(s, t, hms).blink == !s.blink && StepSpec(s, t, hms).lastUpdate == t
  {
  }

  /** A changed time while waiting starts backspacing from the end of the
      text. */
  lemma RetargetWhileWaiting(s: Snapshot, hms: string)
    requires s.mode == Waiting && TargetFor(hms) != s.target
    ensures Retarget(s, TargetFor(hms)).mode == Backspacing
    ensures Retarget(s, TargetFor(hms)).cursor == |s.current|
  {
  }

  /** A typing step that types leaves the current text a prefix of the
      target, one character longer than the cursor was. */
  lemma TypingTypesPrefix(s: Snapshot, t: real)
    requires s.mode == Typing && 0 <= s.cursor < |s.target| && t - s.lastUpdate > FrameInterval
    ensures var r := Tick(s, t, "");
      r.mode == Typing && r.cursor == s.cursor + 1 && r.current == s.target[..r.cursor]
  {
  }

  /** Backspacing removes exactly the last character while the text is
      longer than the target less two; at that length typing resumes. */
  lemma BackspacingStep(s: Snapshot, t: real, hms: string)
    requires s.mode == Backspacing && t - s.lastUpdate > FrameInterval
    ensures |s.current| > |s.target| - 2 && |s.current| > 0 ==>
      Tick(s, t, hms).current == s.current[..|s.current| - 1] && Tick(s, t, hms).mode == Backspacing
    ensures |s.current| <= |s.target| - 2 ==> Tick(s, t, hms).current == s.current && Tick(s, t, hms).mode == Typing
  {
  }

  /** Once the wait is over, waiting turns to backspacing exactly when the
      time string no longer occurs in the current text. */
  lemma WaitingEnds(s: Snapshot, t: real, hms: string)
    requires s.mode == Waiting && t - s.lastUpdate > FrameInterval && t > s.waitUntil
    ensures Tick(s, t, hms).mode == Backspacing <==> !exists i :: OccursAt(s.current, hms, i)
  {
    ContainsIff(s.current, hms);
  }

  /** n ticks, each FrameInterval plus one second after the previous. */
  function Ticks(s: Snapshot, t: real, n: nat): Snapshot
    decreases n
  {
    if n == 0 then s else Ticks(Tick(s, t, ""), t + FrameInterval + 1.0, n - 1)
  }

  /** Typing converges: from typing mode with the cursor before the end of
      the target, |target| - cursor steps type the whole target. */
  lemma {:induction false} TypingConverges(s: Snapshot, t: real)
    requires s.mode == Typing && 0 <= s.cursor < |s.target| && t - s.lastUpdate > FrameInterval
    ensures var r := Ticks(s, t, |s.target| - s.cursor);
      r.current == s.target && r.cursor == |s.target| && r.mode == Typing && r.target == s.target
    decreases |s.target| - s.cursor
  {
    var s1 := Tick(s, t, "");
    TypingTypesPrefix(s, t);
    if s1.cursor < |s.target| {
      TypingConverges(s1, t + FrameInterval + 1.0);
    } else {
      assert s1.current == s.target;
    }
  }

  // ---------------------------------------------------------------------
  // The state

  class TypistState {
    var currentText: string
    var targetText: string
    var cursorPos: int
    var mode: string
    var lastUpdate: real
    var waitUntil: real
    var blinkState: bool
    var lines: seq<string>
    const maxLines: int

    /** The state machine's fields as a value. */
    function Snap(): Snapshot
      reads this
    {
      Snapshot(currentText, targetText, cursorPos, mode, lastUpdate, waitUntil, blinkState)
    }

    ghost predicate Valid()
      reads this
    {
      cursorPos >= 0 && Good(Snap())
    }

    /** TypistState(): nothing typed, typing mode, blink on, 8 lines at
        most. */
    constructor ()
      ensures Valid()
      ensures Snap() == Snapshot("", "", 0, Typing, 0.0, 0.0, true)
      ensures lines == [] && maxLines == 8
    {
      currentText := "";
      targetText := "";
      cursorPos := 0;
      mode := Typing;
      lastUpdate := 0.0;
      waitUntil := 0.0;
      blinkState := true;
      lines := [];
      maxLines := 8;
    }

    /** The update part of render for the frame at time t whose clock
        reads hms. Returns the engine's rotation pair. */
    method Render(t: real, hms: string) returns (rot: (int, int))
      requires Valid()
      modifies this
      ensures Valid()
      ensures Snap() == StepSpec(old(Snap()), t, hms)
      ensures lines == old(lines)
      ensures rot == (-5, 5)
    {
      StepKeepsGood(Snap(), t, hms);
      UpdateTarget(TargetFor(hms));
      Advance(t, hms);
      rot := (-5, 5);
    }

    /** Record the new target, turning to backspacing if it changed while
        waiting. */
    method UpdateTarget(newTarget: string)
      modifies this
      ensures Snap() == Retarget(old(Snap()), newTarget)
      ensures lines == old(lines)
    {
      if newTarget != targetText && mode == Waiting {
        mode := Backspacing;
        cursorPos := |currentText|;
      }
      targetText := newTarget;
    }

    /** One step of the state machine, if the frame interval has passed. */
    method Advance(t: real, hms: string)
      modifies this
      ensures Snap() == Tick(old(Snap()), t, hms)
      ensures lines == old(lines)
    {
      if t - lastUpdate > FrameInterval {
        lastUpdate := t;
        blinkState := !blinkState;
        if mode == Typing {
          if 0 <= cursorPos < |targetText| {
            currentText := targetText[..cursorPos + 1];
            cursorPos := cursorPos + 1;
          } else {
            mode := Waiting;
            waitUntil := t + 0.5;
          }
        } else if mode == Backspacing {
          if |currentText| > |targetText| - 2 {
            currentText := DropLast(currentText);
            cursorPos := |currentText|;
          } else {
            mode := Typing;
          }
        } else if mode == Waiting {
          if t > waitUntil {
            if !Contains(currentText, hms) {
              mode := Backspacing;
            }
          }
        }
      }
    }
  }
}
