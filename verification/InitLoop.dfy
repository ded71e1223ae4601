/** Init's main loop: one command per turn from a queue of actions, services that wait for their
    restart, and how long the loop may sleep. */
module InitLoop {
  import opened Bytes

  type Command = nat

  datatype Action = Action(commands: seq<Command>)

  function CommandsOf(queue: seq<Action>): seq<Command> {
    if queue == [] then [] else queue[0].commands + CommandsOf(queue[1..])
  }

  lemma {:induction false} CommandsAppend(a: seq<Action>, b: seq<Action>)
    ensures CommandsOf(a + b) == CommandsOf(a) + CommandsOf(b)
  {
    if a == [] {
      assert a + b == b;
    } else {
      var both := a + b;
      assert both[0] == a[0] && both[1..] == a[1..] + b;
      assert CommandsOf(both) == a[0].commands + CommandsOf(both[1..]);
      CommandsAppend(a[1..], b);
      Assoc(a[0].commands, CommandsOf(a[1..]), CommandsOf(b));
    }
  }

  lemma OneAction(a: Action)
    ensures CommandsOf([a]) == a.commands
  {
    assert CommandsOf([a]) == a.commands + CommandsOf([a][1..]) == a.commands + [];
  }

  /** Seconds that a service must have been up before it is started again. */
  const RESTART_DELAY := 5

  /** The part of a service that the loop looks at: SVC_RESTARTING and time_started. */
  class Service {
    var restarting: bool
    var timeStarted: nat

    constructor ()
    {
      restarting := false;
      timeStarted := 0;
    }

    function State(): ServiceState
      reads this
    {
      ServiceState(restarting, timeStarted)
    }
  }

  datatype ServiceState = ServiceState(restarting: bool, timeStarted: nat)

  /** What a command or an event does, as far as the loop is concerned: it queues actions and leaves
      the services in some state. */
  datatype Effect = Effect(added: seq<Action>, services: seq<ServiceState>)

  /** A clock that never goes back. */
  class Clock {
    var time: nat

    constructor ()
    {
      time := 0;
    }

    method Gettime() returns (t: nat)
      modifies this
      ensures t == time && time >= old(time)
    {
      var passed: nat :| passed >= 0;
      time := time + passed;
      t := time;
    }
  }

  class Loop {
    const services: seq<Service>
    const clock: Clock
    var queue: seq<Action>
    var curAction: Option<Action>
    var curCommand: Option<nat>      // index into the current action's commands
    var needsRestart: nat            // process_needs_restart, 0 for none
    ghost var queued: seq<Command>   // all commands of all actions that were ever queued
    ghost var executed: seq<Command>

    constructor (services: seq<Service>, clock: Clock)
      ensures Valid() && this.services == services && this.clock == clock
      ensures queue == [] && executed == []
    {
      this.services := services;
      this.clock := clock;
      queue, curAction, curCommand, needsRestart := [], None, None, 0;
      queued, executed := [], [];
    }

    /** What is left of an action behind one of its commands. */
    static ghost function LeftOf(action: Option<Action>, command: Option<nat>): seq<Command> {
      if action.Some? && command.Some? && command.value < |action.value.commands|
      then action.value.commands[command.value + 1..]
      else []
    }

    ghost function LeftOver(): seq<Command>
      reads this
    {
      LeftOf(curAction, curCommand)
    }

    /** Every command queued has been executed, is left over, or still waits, in this order. */
    static ghost predicate Balanced(queued: seq<Command>, executed: seq<Command>, action: Option<Action>, command: Option<nat>, queue: seq<Action>) {
      && (command.Some? ==> action.Some? && command.value < |action.value.commands|)
      && (action.Some? && command.None? ==> action.value.commands == [])
      && queued == executed + LeftOf(action, command) + CommandsOf(queue)
    }

    ghost predicate Valid()
      reads this
    {
      Balanced(queued, executed, curAction, curCommand, queue)
    }

    /** Turns that are needed at most before nothing is left to execute. */
    ghost function Pending(): nat
      reads this
    {
      |LeftOver()| + |queue| + |CommandsOf(queue)|
    }

    /** Actions added to the tail of the queue, by a command or by an event. */
    method AddQueueTail(added: seq<Action>)
      requires Valid()
      modifies this`queue, this`queued
      ensures Valid() && queue == old(queue) + added && queued == old(queued) + CommandsOf(added)
    {
      CommandsAppend(queue, added);
      queue := queue + added;
      queued := queued + CommandsOf(added);
    }

    /** Commands and events may do anything to the services. */
    method TouchServices(states: seq<ServiceState>)
      requires |states| == |services| && Distinct()
      modifies services
      ensures forall i :: 0 <= i < |services| ==> services[i].State() == states[i]
    {
      for i := 0 to |services|
        invariant forall j :: 0 <= j < i ==> services[j].State() == states[j]
      {
        services[i].restarting := states[i].restarting;
        services[i].timeStarted := states[i].timeStarted;
      }
    }

    /** The next command of the current action is executed. */
    method NextOfAction()
      requires Valid() && LeftOver() != []
      modifies this`curCommand, this`executed
      ensures Valid() && curCommand.Some? && executed == old(executed) + [old(LeftOver())[0]]
    {
      ghost var left := LeftOver();
      curCommand := Some(curCommand.value + 1);
      assert left == [left[0]] + LeftOver();
      Regroup(executed, left[0], LeftOver(), CommandsOf(queue));
      executed := executed + [curAction.value.commands[curCommand.value]];
    }

    /** The next action is taken from the queue, and its first command, if any, executed. */
    method NextAction()
      requires Valid() && LeftOver() == [] && queue != []
      modifies this`queue, this`curAction, this`curCommand, this`executed
      ensures Valid() && queue == old(queue)[1..] && curAction == Some(old(queue)[0])
      ensures executed == old(executed) + if curCommand.Some? then [curAction.value.commands[0]] else []
    {
      ghost var commands, more := queue[0].commands, CommandsOf(queue[1..]);
      assert executed + [] + (commands + more) == executed + commands + more;
      curAction := Some(queue[0]);
      curCommand := None;
      queue := queue[1..];
      if curAction.value.commands != [] {
        curCommand := Some(0);
        assert commands == [commands[0]] + LeftOver();
        Regroup(executed, commands[0], LeftOver(), more);
        executed := executed + [curAction.value.commands[0]];
      } else {
        assert executed + [] + more == executed + commands + more;
      }
    }

    static lemma Regroup(done: seq<Command>, c: Command, left: seq<Command>, more: seq<Command>)
      ensures done + ([c] + left) + more == done + [c] + left + more
    {
      Assoc(done, [c], left);
    }

    /** Moves on to the next command: of the current action, or of the next one in the queue. */
    method Advance()
      requires Valid()
      modifies this`queue, this`curAction, this`curCommand, this`executed
      ensures Valid() && old(executed) <= executed && |executed| <= |old(executed)| + 1
      ensures old(LeftOver()) != [] ==> executed == old(executed) + [old(LeftOver())[0]]
      ensures old(LeftOver()) == [] && old(queue) != [] ==> curAction == Some(old(queue)[0]) && queue == old(queue)[1..]
      ensures old(LeftOver()) == [] && old(queue) == [] ==> curAction == None && queue == [] && executed == old(executed)
      ensures Pending() < old(Pending()) || Pending() == 0
      ensures executed == old(executed) <==> curCommand.None?
    {
      if curAction.None? || curCommand.None? || curCommand.value == |curAction.value.commands| - 1 {
        if queue == [] {
          curAction := None;
          curCommand := None;
        } else {
          NextAction();
        }
      } else {
        NextOfAction();
      }
    }

    /** execute_one_command: what the command does is to queue actions and touch services. */
    method ExecuteOneCommand(effect: Effect)
      requires Valid() && Distinct() && |effect.services| == |services|
      modifies this`queue, this`queued, this`curAction, this`curCommand, this`executed, services
      ensures Valid()
      ensures |executed| <= |old(executed)| + 1 && old(executed) <= executed
      ensures queued == old(queued) + if executed == old(executed) then [] else CommandsOf(effect.added)
      ensures forall i :: 0 <= i < |services| ==>
                services[i].State() == if executed == old(executed) then old(services[i].State()) else effect.services[i]
      ensures effect.added == [] ==> Pending() < old(Pending()) || Pending() == 0
    {
      Advance();
      if curCommand.None? {
        return;
      }
      AddQueueTail(effect.added);
      TouchServices(effect.services);
    }

    // ------------------------------------------------------------ restarts

    ghost predicate Distinct() {
      && (forall i, j :: 0 <= i < j < |services| ==> services[i] != services[j])
      && clock as object !in services && this as object !in services
    }

    /** Starting takes a service out of the restarting state, whether it comes up or not. */
    method ServiceStart(svc: Service)
      requires svc as object != clock
      modifies svc, clock
      ensures !svc.restarting && clock.time >= old(clock.time)
    {
      svc.restarting := false;
      svc.timeStarted := 0;
      var up: bool := *;
      if up {
        svc.timeStarted := clock.Gettime();
      }
    }

    method RestartServiceIfNeeded(svc: Service)
      requires svc.restarting && svc as object != clock && svc as object != this
      modifies svc, clock, this`needsRestart
      ensures svc.restarting ==> svc.timeStarted == old(svc.timeStarted)
      ensures svc.restarting ==> svc.timeStarted + RESTART_DELAY > old(clock.time)
      ensures svc.restarting ==> var due := svc.timeStarted + RESTART_DELAY;
                                 needsRestart == if old(needsRestart) == 0 || due < old(needsRestart) then due else old(needsRestart)
      ensures !svc.restarting ==> needsRestart == old(needsRestart)
      ensures clock.time >= old(clock.time)
      ensures old(svc.timeStarted) + RESTART_DELAY > clock.time ==> svc.restarting
      ensures old(svc.timeStarted) + RESTART_DELAY <= old(clock.time) ==> !svc.restarting
    {
      var next := svc.timeStarted + RESTART_DELAY;
      var now := clock.Gettime();
      if next <= now {
        svc.restarting := false;
        ServiceStart(svc);
        return;
      }
      if next < needsRestart || needsRestart == 0 {
        needsRestart := next;
      }
    }

    /** needsRestart is the earliest restart time of the first n services. */
    ghost predicate Earliest(n: nat)
      reads this, services
      requires n <= |services|
    {
      && (forall i :: 0 <= i < n && services[i].restarting ==> 0 < needsRestart <= services[i].timeStarted + RESTART_DELAY)
      && (needsRestart > 0 ==> exists i :: 0 <= i < n && Due(i))
    }

    ghost predicate Due(i: nat)
      reads this, services
      requires i < |services|
    {
      services[i].restarting && needsRestart == services[i].timeStarted + RESTART_DELAY
    }

    /** How restarting treats a service between two moments: one that waits and is due is started, one
        that is not due yet goes on waiting, and one that does not wait is left alone. */
    static ghost predicate Treated(was: ServiceState, now: ServiceState, before: nat, after: nat) {
      && (!was.restarting ==> now == was)
      && (was.restarting && was.timeStarted + RESTART_DELAY <= before ==> !now.restarting)
      && (was.restarting && was.timeStarted + RESTART_DELAY > after ==> now == was)
      && (was.restarting && now.restarting ==> now == was)
    }

    /** The first i services have been treated since the moment before, the others not been touched. */
    ghost predicate TreatedTo(was: seq<ServiceState>, i: nat, before: nat)
      reads services, clock
    {
      && i <= |services| == |was|
      && (forall j :: 0 <= j < i ==> Treated(was[j], services[j].State(), before, clock.time))
      && (forall j :: i <= j < |services| ==> services[j].State() == was[j])
    }

    method RestartProcesses()
      requires Distinct()
      modifies services, clock, this`needsRestart
      ensures Earliest(|services|) && clock.time >= old(clock.time)
      ensures forall i :: 0 <= i < |services| ==> Treated(old(services[i].State()), services[i].State(), old(clock.time), clock.time)
    {
      needsRestart := 0;
      ghost var was := seq(|services|, i requires 0 <= i < |services| reads services => services[i].State());
      for i := 0 to |services|
        invariant Earliest(i) && clock.time >= old(clock.time)
        invariant TreatedTo(was, i, old(clock.time))
      {
        RestartNext(i, was, old(clock.time));
      }
    }

    /** One service of the list. */
    method RestartNext(i: nat, ghost was: seq<ServiceState>, ghost before: nat)
      requires Distinct() && i < |services| && Earliest(i) && TreatedTo(was, i, before) && before <= clock.time
      modifies services[i], clock, this`needsRestart
      ensures Earliest(i + 1) && clock.time >= old(clock.time)
      ensures TreatedTo(was, i + 1, before)
    {
      if services[i].restarting {
        ghost var alarm := needsRestart;
        ghost var k: nat :| alarm > 0 ==> k < i && Due(k);
        RestartServiceIfNeeded(services[i]);
        assert needsRestart > 0 ==> if alarm > 0 && needsRestart == alarm then Due(k) else Due(i);
      }
    }

    // ------------------------------------------------------------ one turn

    ghost predicate Waiting(i: nat)
      reads services
    {
      i < |services| && services[i].restarting
    }

    /** How long poll may sleep, in milliseconds; -1 is no limit. */
    method SleepTime() returns (timeout: int, now: nat)
      requires Distinct() && Earliest(|services|)
      modifies clock
      ensures old(clock.time) <= now <= clock.time
      ensures timeout >= -1
      ensures timeout == -1 <==> queue == [] && curAction.None? && forall i: nat :: !Waiting(i)
      ensures queue != [] || curAction.Some? ==> timeout == 0
      ensures forall i: nat :: Waiting(i) && timeout > 0 ==> timeout <= (services[i].timeStarted + RESTART_DELAY - now) * 1000
      ensures timeout > 0 ==>
                exists i: nat :: Waiting(i) && timeout == (services[i].timeStarted + RESTART_DELAY - now) * 1000
    {
      timeout := -1;
      ghost var k: nat :| needsRestart > 0 ==> k < |services| && Due(k);
      now := clock.Gettime();
      if needsRestart != 0 {
        assert Due(k) && Waiting(k);
        timeout := (needsRestart - now) * 1000;
        if timeout < 0 {
          timeout := 0;
        }
      }
      if queue != [] || curAction.Some? {
        timeout := 0;
      }
    }

    /** One turn of the loop, up to the poll. The sleep is unlimited exactly when no action is at
        hand and no service waits for its restart, and then every command ever queued has been
        executed; otherwise it ends no later than the earliest restart that is due. */
    method Turn(effect: Effect) returns (timeout: int, now: nat)
      requires Valid() && Distinct() && |effect.services| == |services|
      modifies this`queue, this`queued, this`curAction, this`curCommand, this`executed, this`needsRestart, services, clock
      ensures Valid() && old(executed) <= executed
      ensures effect.added == [] ==> Pending() < old(Pending()) || Pending() == 0
      ensures queued == old(queued) + if executed == old(executed) then [] else CommandsOf(effect.added)
      ensures timeout >= -1
      ensures timeout == -1 <==> queue == [] && curAction.None? && forall i: nat :: !Waiting(i)
      ensures timeout == -1 ==> executed == queued
      ensures queue != [] || curAction.Some? ==> timeout == 0
      ensures forall i: nat :: Waiting(i) && timeout > 0 ==> timeout <= (services[i].timeStarted + RESTART_DELAY - now) * 1000
      ensures timeout > 0 ==>
                exists i: nat :: Waiting(i) && timeout == (services[i].timeStarted + RESTART_DELAY - now) * 1000
      ensures old(clock.time) <= now <= clock.time
      ensures forall i :: 0 <= i < |services| ==>
                Treated(if executed == old(executed) then old(services[i].State()) else effect.services[i],
                        services[i].State(), old(clock.time), now)
    {
      ExecuteOneCommand(effect);
      timeout, now := RestartAndSleep();
      if timeout == -1 {
        assert executed + [] + [] == executed;
      }
    }

    /** The rest of a turn: services are restarted, and the time to sleep is found. */
    method RestartAndSleep() returns (timeout: int, now: nat)
      requires Distinct()
      modifies services, clock, this`needsRestart
      ensures timeout >= -1
      ensures timeout == -1 <==> queue == [] && curAction.None? && forall i: nat :: !Waiting(i)
      ensures queue != [] || curAction.Some? ==> timeout == 0
      ensures forall i: nat :: Waiting(i) && timeout > 0 ==> timeout <= (services[i].timeStarted + RESTART_DELAY - now) * 1000
      ensures timeout > 0 ==>
                exists i: nat :: Waiting(i) && timeout == (services[i].timeStarted + RESTART_DELAY - now) * 1000
      ensures old(clock.time) <= now <= clock.time
      ensures forall i :: 0 <= i < |services| ==> Treated(old(services[i].State()), services[i].State(), old(clock.time), now)
    {
      RestartProcesses();
      timeout, now := SleepTime();
    }

    /** When nothing more is queued, every command waiting is executed within as many turns as there
        are commands and actions left. */
    method Drain(effects: seq<Effect>)
      requires Valid() && Distinct() && Pending() <= |effects|
      requires forall k :: 0 <= k < |effects| ==> effects[k].added == [] && |effects[k].services| == |services|
      modifies this`queue, this`queued, this`curAction, this`curCommand, this`executed, this`needsRestart, services, clock
      ensures Valid() && queue == [] && executed == queued
    {
      for k := 0 to |effects|
        invariant Valid() && Pending() <= |effects| - k
      {
        var timeout, now := Turn(effects[k]);
      }
      assert executed + [] + [] == executed;
    }

    /** Any number of turns, with events in between: whatever commands and events do, commands are
        executed in the order in which their actions were queued, each of them once. */
    method Run(script: seq<(Effect, Effect)>)
      requires Valid() && Distinct()
      requires forall k :: 0 <= k < |script| ==> |script[k].0.services| == |script[k].1.services| == |services|
      modifies this`queue, this`queued, this`curAction, this`curCommand, this`executed, this`needsRestart, services, clock
      ensures Valid() && executed <= queued && old(executed) <= executed
    {
      for k := 0 to |script|
        invariant Valid() && old(executed) <= executed
      {
        var timeout, now := Turn(script[k].0);
        AddQueueTail(script[k].1.added);
        TouchServices(script[k].1.services);
      }
    }
  }
}
