/** One routine's control record (go_control in GoRoutineNative.h) and the stretches of
    code that run while its mutex is held. */
module ControlSpec {
  import opened Wrappers

  datatype Status = Running | Done | Killed | TimedOut | Exited | Failed

  datatype Reason = NoReason | KillReason | TimeoutReason

  datatype Control = Control(
    state: Status,
    reason: Reason,
    cancelRequested: bool,
    wakeError: int,       // 0 when no wake or wait has failed
    generation: nat,
    seconds: real,
    refs: nat,
    threadValid: bool)

  /** The result a timed wait gives when its time is up (ETIMEDOUT). */
  const TIMEOUT_RESULT: int := 110

  /** go_control_new; `refs` is the worker's reference. */
  const NEW_CONTROL := Control(Running, NoReason, false, 0, 0, 0.0, 1, false)

  /** go_control_request_cancel under the mutex. */
  function RequestCancel(k: Control, reason: Reason): (Control, bool) {
    if k.state == Running && !k.cancelRequested then
      (k.(cancelRequested := true, reason := reason), true)
    else (k, false)
  }

  /** go_control_timeout under the mutex. */
  function FireTimeout(k: Control, generation: nat): (Control, bool) {
    if k.state == Running && k.generation == generation && k.seconds > 0.0 && !k.cancelRequested then
      (k.(cancelRequested := true, reason := TimeoutReason), true)
    else (k, false)
  }

  /** The status go_control_finish settles on. */
  function FinalStatus(k: Control, given: Status): Status {
    if k.wakeError != 0 then Failed
    else if k.cancelRequested then (if k.reason == TimeoutReason then TimedOut else Killed)
    else given
  }

  function Finish(k: Control, given: Status): Control {
    k.(state := FinalStatus(k, given), threadValid := false)
  }

  /** go_control_set_timeout under the mutex; None when the routine is over. */
  function SetTimeout(k: Control, seconds: real): (Control, Option<nat>) {
    if k.state != Running then (k, None)
    else (k.(generation := k.generation + 1, seconds := seconds), Some(k.generation + 1))
  }

  /** Taking a timeout back after its thread could not be created. */
  function UndoTimeout(k: Control, generation: nat): Control {
    if k.generation == generation then k.(seconds := 0.0, generation := k.generation + 1) else k
  }

  /** How go_timeout_worker leaves the mutex. */
  datatype TimerProgress = Sleep | Leave(fire: bool)

  /** go_timeout_worker from holding the mutex, with `rc` from its last timed wait (0 at
      first), to the next wait or to its final unlock. */
  function TimerCheck(k: Control, generation: nat, deadline: real, now: real, rc: int): (Control, TimerProgress) {
    if rc != 0 && rc != TIMEOUT_RESULT then
      (k.(wakeError := rc), Leave(true))
    else if k.state == Running && k.generation == generation && k.seconds > 0.0 then
      (k, if deadline - now <= 0.0 then Leave(true) else Sleep)
    else
      (k, Leave(rc == TIMEOUT_RESULT && k.state == Running && k.generation == generation))
  }

  /** go_control_release; the flag says that the last reference went. */
  function Release(k: Control): (Control, bool) {
    if k.refs > 0 then (k.(refs := k.refs - 1), k.refs == 1) else (k, false)
  }
}

/** The C record itself, one method for each stretch under the mutex. */
module ControlNative {
  import opened Wrappers
  import opened ControlSpec

  class GoControl {
    var state: Status
    var reason: Reason
    var cancelRequested: bool
    var wakeError: int
    var generation: nat
    var seconds: real
    var refs: nat
    var threadValid: bool

    ghost function View(): Control
      reads this
    {
      Control(state, reason, cancelRequested, wakeError, generation, seconds, refs, threadValid)
    }

    constructor ()
      ensures View() == NEW_CONTROL
    {
      state, reason, cancelRequested, wakeError := Running, NoReason, false, 0;
      generation, seconds, refs, threadValid := 0, 0.0, 1, false;
    }

    method RequestCancelLocked(why: Reason) returns (requested: bool)
      modifies this`cancelRequested, this`reason
      ensures (View(), requested) == RequestCancel(old(View()), why)
    {
      requested := false;
      if state == Running && !cancelRequested {
        cancelRequested := true;
        reason := why;
        requested := true;
      }
    }

    method FireTimeoutLocked(mine: nat) returns (shouldWake: bool)
      modifies this`cancelRequested, this`reason
      ensures (View(), shouldWake) == FireTimeout(old(View()), mine)
    {
      shouldWake := false;
      if state == Running && generation == mine && seconds > 0.0 && !cancelRequested {
        cancelRequested := true;
        reason := TimeoutReason;
        shouldWake := true;
      }
    }

    method FinishLocked(given: Status)
      modifies this`state, this`threadValid
      ensures View() == Finish(old(View()), given)
    {
      var final := given;
      if wakeError != 0 {
        final := Failed;
      } else if cancelRequested {
        final := if reason == TimeoutReason then TimedOut else Killed;
      }
      state := final;
      threadValid := false;
    }

    method SetTimeoutLocked(secs: real) returns (mine: Option<nat>)
      modifies this`generation, this`seconds
      ensures (View(), mine) == SetTimeout(old(View()), secs)
    {
      if state != Running { return None; }
      generation := generation + 1;
      seconds := secs;
      return Some(generation);
    }

    method UndoTimeoutLocked(mine: nat)
      modifies this`generation, this`seconds
      ensures View() == UndoTimeout(old(View()), mine)
    {
      if generation == mine {
        seconds := 0.0;
        generation := generation + 1;
      }
    }

    /** The loop test and what follows it, with `waited` the result of the last wait. */
    method TimerCheckLocked(mine: nat, deadline: real, now: real, waited: int) returns (p: TimerProgress)
      modifies this`wakeError
      ensures (View(), p) == TimerCheck(old(View()), mine, deadline, now, waited)
    {
      var rc := waited;
      if rc != 0 && rc != TIMEOUT_RESULT {
        wakeError := rc;
      } else if state == Running && generation == mine && seconds > 0.0 {
        var remaining := deadline - now;
        if remaining > 0.0 { return Sleep; }
        rc := TIMEOUT_RESULT;
      }
      var expired := rc == TIMEOUT_RESULT && state == Running && generation == mine;
      var failed := rc != 0 && rc != TIMEOUT_RESULT;
      if failed { wakeError := rc; }
      return Leave(expired || failed);
    }

    method Retain()
      modifies this`refs
      ensures View() == old(View()).(refs := old(refs) + 1)
    {
      refs := refs + 1;
    }

    method ReleaseLocked() returns (last: bool)
      modifies this`refs
      ensures (View(), last) == Release(old(View()))
    {
      last := false;
      if refs > 0 {
        refs := refs - 1;
        last := refs == 0;
      }
    }
  }
}
