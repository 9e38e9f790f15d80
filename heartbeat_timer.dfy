/**
 * HeartbeatTimer: a java.util.Timer, the latest TimerTask and a listener. The timer thread
 * itself is left out; what is kept is which tasks the Timer holds, which of them are
 * cancelled, and what a run of a task does (call the listener read at that moment).
 */
module HeartbeatTimers {
  import opened Wrappers

  /** A task handed to Timer.schedule(task, delay, period). */
  datatype TimerTask = TimerTask(delay: int, period: int, cancelled: bool)

  /** The `task` field: null, a task the Timer accepted (by position), or one schedule refused. */
  datatype TaskRef = NoTask | Scheduled(index: nat) | Unscheduled

  class HeartbeatTimer<L> {
    /** Every task the Timer accepted, in order; a periodic task stays until cancelled. */
    var tasks: seq<TimerTask>
    var task: TaskRef
    /** Timer.cancel() was called: the Timer runs nothing more and refuses new tasks. */
    var timerCancelled: bool
    var listener: Option<L>

    ghost predicate Valid()
      reads this
    {
      task.Scheduled? ==> task.index == |tasks| - 1
    }

    constructor ()
      ensures Valid()
      ensures tasks == [] && task == NoTask && !timerCancelled && listener == None
    {
      tasks := [];
      task := NoTask;
      timerCancelled := false;
      listener := None;
    }

    /** Task k still runs periodically: neither it nor the Timer is cancelled. */
    predicate Live(k: nat)
      reads this
    {
      k < |tasks| && !tasks[k].cancelled && !timerCancelled
    }

    /** A run of task k: the listener as it is when the task runs, if it is non-null. */
    function Dispatch(k: nat): (r: Option<L>)
      reads this
      ensures timerCancelled || k >= |tasks| ==> r == None
      ensures r.Some? ==> !tasks[k].cancelled && r == listener
    {
      if Live(k) then listener else None
    }

    /**
     * startTimer: a new task is created and becomes `task`, and the Timer schedules it. The
     * previous task is not cancelled and keeps running. Timer.schedule throws for a
     * negative delay, a non-positive period or a cancelled Timer; then nothing is scheduled.
     */
    method StartTimer(delay: int, period: int) returns (scheduled: bool)
      requires Valid()
      modifies this
      ensures Valid()
      ensures scheduled == (!old(timerCancelled) && delay >= 0 && period > 0)
      ensures scheduled ==> tasks == old(tasks) + [TimerTask(delay, period, false)] && task == Scheduled(|old(tasks)|)
      ensures scheduled ==> Live(|old(tasks)|) && forall k :: old(Live(k)) ==> Live(k)
      ensures !scheduled ==> tasks == old(tasks) && task == Unscheduled
      ensures timerCancelled == old(timerCancelled) && listener == old(listener)
    {
      scheduled := !timerCancelled && delay >= 0 && period > 0;
      if scheduled {
        tasks := tasks + [TimerTask(delay, period, false)];
        task := Scheduled(|tasks| - 1);
      } else {
        task := Unscheduled;
      }
    }

    /** exit: cancels the latest task (if any) and the whole Timer, so no task runs again. */
    method Exit()
      requires Valid()
      modifies this
      ensures Valid()
      ensures timerCancelled && task == old(task) && listener == old(listener)
      ensures |tasks| == |old(tasks)|
      ensures forall k :: 0 <= k < |tasks| ==>
        tasks[k] == if old(task) == Scheduled(k) then old(tasks)[k].(cancelled := true) else old(tasks)[k]
      ensures forall k :: Dispatch(k) == None
    {
      if task.Scheduled? {
        tasks := tasks[task.index := tasks[task.index].(cancelled := true)];
      }
      timerCancelled := true;
    }

    /** setOnScheduleListener: every later run of a live task calls the new listener. */
    method SetOnScheduleListener(l: Option<L>)
      requires Valid()
      modifies this
      ensures Valid()
      ensures listener == l && tasks == old(tasks) && task == old(task) && timerCancelled == old(timerCancelled)
      ensures forall k :: Live(k) ==> Dispatch(k) == l
    {
      listener := l;
    }
  }
}
