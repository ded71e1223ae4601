/** Factory reset as a restartable protocol: the control block is written before the erase and
    cleared after it, and power may be lost between any two steps. */
module RecoveryProtocol {
  import opened Bytes
  import opened BootMessage

  /** The control block: cleared, or asking for recovery with this argument text. */
  datatype Block = Cleared | BootRecovery(text: Text)

  /** Where the device stands; args are the arguments of the current recovery run. */
  datatype Phase =
    | Off                               // without power, or rebooting
    | Started                           // recovery runs, the block is not written yet
    | Ready(args: seq<Text>)            // get_args has written the block
    | FormattingData(args: seq<Text>)
    | DataReturned(args: seq<Text>)
    | FormattingCache(args: seq<Text>)
    | CacheReturned(args: seq<Text>)
    | BlockCleared                      // finish_recovery, in front of the unlink
    | CommandRemoved
    | MainSystem

  /** Block and command file survive power loss. The flags tell what the last recovery run has
      done: they start afresh with every run. */
  datatype State = State(
    phase: Phase, block: Block, file: Option<seq<Text>>,
    dataReturned: bool, cacheReturned: bool, cacheFormatted: bool)

  /** What does not change: the block's size, the program name init uses, and the option parser,
      reduced to the question whether arguments ask for a wipe without an update package. */
  datatype Setup = Setup(n: nat, name: Text, wipes: seq<Text> -> bool)

  // ---------------------------------------------------------------- steps

  /** Power is lost. A format of /cache that is under way leaves anything in its place. */
  ghost predicate PowerLoss(s: State, s': State) {
    s.phase != MainSystem && s' == s.(phase := Off, file := s'.file) &&
    (!s.phase.FormattingCache? ==> s'.file == s.file)
  }

  /** The bootloader looks at the block. */
  ghost predicate Boot(s: State, s': State) {
    s.phase == Off &&
    s' == if s.block.Cleared? then s.(phase := MainSystem)
          else s.(phase := Started, dataReturned := false, cacheReturned := false, cacheFormatted := false)
  }

  ghost predicate ReadArgs(u: Setup, s: State, s': State)
    requires u.n > 0
  {
    s.phase == Started && s.block.BootRecovery? &&
    var args := Chosen([u.name], s.block.text, s.file);
    s' == s.(phase := Ready(args), block := BootRecovery(Written(args[1..], u.n)))
  }

  /** Arguments that ask for something else may lead anywhere. */
  ghost predicate SomethingElse(u: Setup, s: State, s': State) {
    s.phase.Ready? && |s.phase.args| > 0 && !u.wipes(s.phase.args[1..])
  }

  ghost predicate StartData(u: Setup, s: State, s': State) {
    s.phase.Ready? && |s.phase.args| > 0 && u.wipes(s.phase.args[1..]) &&
    s' == s.(phase := FormattingData(s.phase.args))
  }

  /** Formatting may fail; the run goes on all the same. */
  ghost predicate EndData(s: State, s': State) {
    s.phase.FormattingData? && s' == s.(phase := DataReturned(s.phase.args), dataReturned := true)
  }

  ghost predicate StartCache(s: State, s': State) {
    s.phase.DataReturned? && s' == s.(phase := FormattingCache(s.phase.args))
  }

  /** A successful format takes the command file with it; a failed one may leave anything. */
  ghost predicate EndCache(s: State, s': State) {
    s.phase.FormattingCache? &&
    s' == s.(phase := CacheReturned(s.phase.args), cacheReturned := true,
             cacheFormatted := s'.cacheFormatted, file := s'.file) &&
    (s'.cacheFormatted ==> s'.file == None)
  }

  ghost predicate ClearBlock(s: State, s': State) {
    s.phase.CacheReturned? && s' == s.(phase := BlockCleared, block := Cleared)
  }

  /** The unlink may fail, which is only logged. */
  ghost predicate Unlink(s: State, s': State) {
    s.phase == BlockCleared && s' == s.(phase := CommandRemoved, file := s'.file) &&
    (s'.file == None || s'.file == s.file)
  }

  ghost predicate Reboot(s: State, s': State) {
    s.phase == CommandRemoved && s' == s.(phase := Off)
  }

  ghost predicate Works(u: Setup, s: State, s': State)
    requires u.n > 0
  {
    || Boot(s, s') || ReadArgs(u, s, s') || SomethingElse(u, s, s') || StartData(u, s, s')
    || EndData(s, s') || StartCache(s, s') || EndCache(s, s') || ClearBlock(s, s')
    || Unlink(s, s') || Reboot(s, s')
  }

  ghost predicate Step(u: Setup, s: State, s': State)
    requires u.n > 0
  {
    PowerLoss(s, s') || Works(u, s, s')
  }

  ghost predicate IsRun(u: Setup, run: seq<State>)
    requires u.n > 0
  {
    run != [] && forall i :: 0 <= i < |run| - 1 ==> Step(u, run[i], run[i + 1])
  }

  /** What a run has to withstand: power can be lost at any moment before the main system is there; a
      format of /cache may leave anything of the command file, when it is interrupted and when it
      fails; either erase may return without having worked. */
  lemma FaultsCanHappen(u: Setup, s: State, file: Option<seq<Text>>)
    requires u.n > 0
    ensures s.phase != MainSystem ==> Step(u, s, s.(phase := Off))
    ensures s.phase.FormattingCache? ==>
              && Step(u, s, s.(phase := Off, file := file))
              && Step(u, s, s.(phase := CacheReturned(s.phase.args), cacheReturned := true, cacheFormatted := false, file := file))
    ensures s.phase.FormattingData? ==> Step(u, s, s.(phase := DataReturned(s.phase.args), dataReturned := true))
    ensures s.phase == BlockCleared ==> Step(u, s, s.(phase := CommandRemoved))
  {
  }

  // ---------------------------------------------------------------- the command

  /** What later runs find in the block. */
  function Surviving(args: seq<Text>, n: nat): seq<Text>
    requires n > 0
  {
    var t := Tokens(Written(args, n));
    if t == [] then [] else t[1..]
  }

  /** A wipe command of which at least one argument survives in the block, and which is still a
      wipe command as far as it survives. */
  ghost predicate WipeCommand(u: Setup, args: seq<Text>) {
    && u.n > 0 && GoodArgs(args) && |args| < MAX_ARGS
    && u.wipes(args)
    && Surviving(args, u.n) != [] && u.wipes(Surviving(args, u.n))
  }

  /** Arguments that fit survive whole. */
  lemma FittingCommand(u: Setup, args: seq<Text>)
    requires u.n > |BlockText(args)| && args != [] && GoodArgs(args) && |args| < MAX_ARGS && u.wipes(args)
    ensures WipeCommand(u, args) && Surviving(args, u.n) == args
  {
    WrittenReadsBack(args, u.n);
    assert ([RECOVERY] + args)[1..] == args;
  }

  /** get_args has just written the block for these arguments. */
  ghost predicate Initial(u: Setup, args: seq<Text>, s: State)
    requires u.n > 0
  {
    s.phase.Ready? && |s.phase.args| > 0 && s.phase.args[1..] == args &&
    s.block == BootRecovery(Written(args, u.n)) &&
    !s.dataReturned && !s.cacheReturned && !s.cacheFormatted
  }

  /** Whatever the command file holds, a run that finds this text in the block wipes, and writes
      the same text again. */
  ghost predicate Stable(u: Setup, text: Text)
    requires u.n > 0
  {
    forall file :: Rewrites(u, text, Chosen([u.name], text, file))
  }

  ghost predicate Rewrites(u: Setup, text: Text, again: seq<Text>)
    requires u.n > 0
  {
    |again| > 0 && u.wipes(again[1..]) && Written(again[1..], u.n) == text
  }

  /** The block alone decides what a restarted run does, whatever the command file has become. */
  lemma RestartKeepsCommand(u: Setup, args: seq<Text>)
    requires WipeCommand(u, args)
    ensures Stable(u, Written(args, u.n))
  {
    WrittenIsFixedPoint(args, u.n);
    forall file: Option<seq<Text>>
      ensures Rewrites(u, Written(args, u.n), Chosen([u.name], Written(args, u.n), file))
    {
      assert Chosen([u.name], Written(args, u.n), file) == Tokens(Written(args, u.n));
    }
  }

  // ---------------------------------------------------------------- safety

  /** What holds between any two steps. */
  ghost predicate Safe(u: Setup, text: Text, s: State) {
    && (s.block == Cleared || s.block == BootRecovery(text))
    && (s.block == Cleared ==> s.dataReturned && s.cacheReturned && (s.cacheFormatted ==> s.file == None))
    && match s.phase
       case Off => true
       case Started => s.block != Cleared
       case Ready(a) => s.block != Cleared && |a| > 0 && u.wipes(a[1..])
       case FormattingData(a) => s.block != Cleared
       case DataReturned(a) => s.block != Cleared && s.dataReturned
       case FormattingCache(a) => s.block != Cleared && s.dataReturned
       case CacheReturned(a) => s.block != Cleared && s.dataReturned && s.cacheReturned && (s.cacheFormatted ==> s.file == None)
       case BlockCleared => s.block == Cleared
       case CommandRemoved => s.block == Cleared
       case MainSystem => s.block == Cleared
  }

  lemma StepKeepsSafe(u: Setup, text: Text, s: State, s': State)
    requires u.n > 0 && Stable(u, text) && Safe(u, text, s) && Step(u, s, s')
    ensures Safe(u, text, s')
  {
    if ReadArgs(u, s, s') {
      assert Rewrites(u, text, Chosen([u.name], text, s.file));
    }
  }

  lemma {:induction false} RunIsSafe(u: Setup, text: Text, run: seq<State>, k: nat)
    requires u.n > 0 && Stable(u, text) && IsRun(u, run) && Safe(u, text, run[0]) && k < |run|
    ensures Safe(u, text, run[k])
  {
    if k > 0 {
      RunIsSafe(u, text, run, k - 1);
      StepKeepsSafe(u, text, run[k - 1], run[k]);
    }
  }

  /** Over every run, with power lost at any steps: once the main system is booted, the last
      recovery run has seen both erases return; and from the moment the block is cleared, a
      command file that was there before a successful format of /cache is gone. */
  lemma NoBootBeforeErase(u: Setup, args: seq<Text>, run: seq<State>, k: nat)
    requires WipeCommand(u, args) && IsRun(u, run) && Initial(u, args, run[0]) && k < |run|
    ensures run[k].phase == MainSystem ==> run[k].dataReturned && run[k].cacheReturned
    ensures run[k].block == Cleared && run[k].cacheFormatted ==> run[k].file == None
    ensures run[k].block != Cleared ==> run[k].block == BootRecovery(Written(args, u.n))
  {
    RestartKeepsCommand(u, args);
    RunIsSafe(u, Written(args, u.n), run, k);
  }

  // ---------------------------------------------------------------- progress

  /** Steps left to the main system when no power is lost. */
  function Remaining(s: State): nat {
    match s.phase
    case MainSystem => 0
    case Off => if s.block.Cleared? then 1 else 10
    case CommandRemoved => 2
    case BlockCleared => 3
    case CacheReturned(_) => 4
    case FormattingCache(_) => 5
    case DataReturned(_) => 6
    case FormattingData(_) => 7
    case Ready(_) => 8
    case Started => 9
  }

  lemma StepsComeNearer(u: Setup, text: Text, s: State, s': State)
    requires u.n > 0 && Safe(u, text, s) && Works(u, s, s')
    ensures Remaining(s') < Remaining(s)
  {
  }

  /** What happens next when nothing goes wrong. */
  ghost function Next(u: Setup, s: State): State
    requires u.n > 0
  {
    match s.phase
    case Off =>
      if s.block.Cleared? then s.(phase := MainSystem)
      else s.(phase := Started, dataReturned := false, cacheReturned := false, cacheFormatted := false)
    case Started =>
      if s.block.Cleared? then s
      else
        var a := Chosen([u.name], s.block.text, s.file);
        s.(phase := Ready(a), block := BootRecovery(Written(a[1..], u.n)))
    case Ready(a) => s.(phase := FormattingData(a))
    case FormattingData(a) => s.(phase := DataReturned(a), dataReturned := true)
    case DataReturned(a) => s.(phase := FormattingCache(a))
    case FormattingCache(a) => s.(phase := CacheReturned(a), cacheReturned := true, cacheFormatted := true, file := None)
    case CacheReturned(a) => s.(phase := BlockCleared, block := Cleared)
    case BlockCleared => s.(phase := CommandRemoved, file := None)
    case CommandRemoved => s.(phase := Off)
    case MainSystem => s
  }

  /** Some step is always possible, and every step but a power loss comes nearer to the main
      system: an erase that is not interrupted again is completed. */
  lemma ErasesComplete(u: Setup, text: Text, s: State)
    requires u.n > 0 && Safe(u, text, s) && s.phase != MainSystem
    ensures Works(u, s, Next(u, s))
    ensures forall s' :: Works(u, s, s') ==> Remaining(s') < Remaining(s)
  {
    forall s' | Works(u, s, s') ensures Remaining(s') < Remaining(s) {
      StepsComeNearer(u, text, s, s');
    }
  }
}
