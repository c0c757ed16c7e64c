/**
 * The keyboard shortcuts of src/AnimationControl.tsx. `handleKeyDown` reads the key of
 * a keydown event and either flips one of the playback or display flags, changes the
 * step size within its bounds, or asks the application for one action. The flags and
 * the step size are the component's props; setting one is modelled as returning the
 * new intent. The step size is kept in tenths, so 0.2 is 2 and 10 is 100.
 */
module AnimationControl {
  import opened Wrappers

  /** `STEP_SIZE_INCREMENT`, `STEP_SIZE_MAX` and `STEP_SIZE_MIN`, in tenths. */
  const StepSizeIncrement: int := 2
  const StepSizeMax: int := 100
  const StepSizeMin: int := 2

  const StepBackwardKey := "ArrowLeft"
  const PlayPauseKey := " "
  const StepForwardKey := "ArrowRight"
  const RestartKey := "r"
  const LoopKey := "l"
  const FitViewKey := "f"
  const ShowAgentIdKey := "a"
  const StepSizeUpKey := "ArrowUp"
  const StepSizeDownKey := "ArrowDown"
  const TracePathsKey := "p"
  const ScreenshotKey := "s"
  const ShowCellIdKey := "c"
  const ShowGoalsKey := "g"
  const ShowGoalVectorsKey := "v"

  /** The playback and display settings the shortcuts read and set. */
  datatype Intent = Intent(
    play: bool, loop: bool, showAgentId: bool, tracePaths: bool,
    showCellId: bool, showGoals: bool, showGoalVectors: bool,
    stepSize: int)

  datatype KeyEvent = KeyEvent(key: string, ctrlKey: bool, altKey: bool, metaKey: bool)

  /** The one-shot actions a shortcut asks the application for. */
  datatype Command = SkipBackward | SkipForward | Restart | FitView | TakeScreenshot

  /** What one keydown does: the new settings, the action asked for, and whether the browser's default is suppressed. */
  datatype Outcome = Outcome(intent: Intent, command: Option<Command>, preventDefault: bool)

  /** The keys the switch has a case for. */
  datatype Shortcut =
    | StepBackward | PlayPause | StepForward | RestartAnimation | Loop | Fit | ShowAgentId
    | StepSizeUp | StepSizeDown | TracePaths | Screenshot | ShowCellId | ShowGoals | ShowGoalVectors

  function KeyName(k: Shortcut): string {
    match k
    case StepBackward => StepBackwardKey
    case PlayPause => PlayPauseKey
    case StepForward => StepForwardKey
    case RestartAnimation => RestartKey
    case Loop => LoopKey
    case Fit => FitViewKey
    case ShowAgentId => ShowAgentIdKey
    case StepSizeUp => StepSizeUpKey
    case StepSizeDown => StepSizeDownKey
    case TracePaths => TracePathsKey
    case Screenshot => ScreenshotKey
    case ShowCellId => ShowCellIdKey
    case ShowGoals => ShowGoalsKey
    case ShowGoalVectors => ShowGoalVectorsKey
  }

  /** The cases of the switch, in the order they are written. */
  const SwitchOrder: seq<Shortcut> := [
    StepBackward, PlayPause, StepForward, RestartAnimation, Loop, Fit, ShowAgentId,
    StepSizeUp, StepSizeDown, TracePaths, Screenshot, ShowCellId, ShowGoals, ShowGoalVectors]

  /** The first of `cases` whose key is `key`, as a `switch` tries its cases; none when no case matches. */
  function FirstCase(key: string, cases: seq<Shortcut>): Option<Shortcut> {
    if cases == [] then None
    else if key == KeyName(cases[0]) then Some(cases[0])
    else FirstCase(key, cases[1..])
  }

  /** The case of the switch that `key` selects; none for any other key. */
  function ShortcutOf(key: string): Option<Shortcut> {
    FirstCase(key, SwitchOrder)
  }

  /** The fourteen keys are distinct. */
  lemma KeyNameInjective(k1: Shortcut, k2: Shortcut)
    requires KeyName(k1) == KeyName(k2)
    ensures k1 == k2
  {
    var n := KeyName(k1);
    if |n| == 1 {
      assert n[0] == KeyName(k2)[0];
    } else {
      assert n[5] == KeyName(k2)[5];
    }
  }

  /** Among keys with distinct names, a key selects a case exactly when it is that case's key. */
  lemma {:induction false} FirstCaseIff(key: string, cases: seq<Shortcut>, k: Shortcut)
    requires k in cases
    ensures FirstCase(key, cases) == Some(k) <==> key == KeyName(k)
  {
    if key == KeyName(cases[0]) {
      if key == KeyName(k) {
        KeyNameInjective(cases[0], k);
      }
    } else if k != cases[0] {
      FirstCaseIff(key, cases[1..], k);
    } else {
      FirstCaseSound(key, cases[1..]);
    }
  }

  /** Whatever case is selected has `key` as its key. */
  lemma {:induction false} FirstCaseSound(key: string, cases: seq<Shortcut>)
    ensures FirstCase(key, cases).Some? ==> KeyName(FirstCase(key, cases).value) == key
  {
    if cases != [] && key != KeyName(cases[0]) {
      FirstCaseSound(key, cases[1..]);
    }
  }

  /** A key selects a case exactly when it is that case's key, and every case is in the switch. */
  lemma ShortcutOfIff(key: string, k: Shortcut)
    ensures ShortcutOf(key) == Some(k) <==> key == KeyName(k)
  {
    assert k in SwitchOrder;
    FirstCaseIff(key, SwitchOrder, k);
  }

  /** What a case does: the settings it leaves and the action it asks for. */
  datatype Effect = Effect(intent: Intent, command: Option<Command>)

  /** The body of each case: flip a flag, move the step size within its bounds, or ask for an action. */
  function Act(s: Intent, k: Shortcut): Effect {
    match k
    case StepBackward => Effect(s, Some(SkipBackward))
    case PlayPause => Effect(s.(play := !s.play), None)
    case StepForward => Effect(s, Some(SkipForward))
    case RestartAnimation => Effect(s, Some(Restart))
    case Loop => Effect(s.(loop := !s.loop), None)
    case Fit => Effect(s, Some(FitView))
    case ShowAgentId => Effect(s.(showAgentId := !s.showAgentId), None)
    case StepSizeUp =>
      Effect(if s.stepSize + StepSizeIncrement <= StepSizeMax then s.(stepSize := s.stepSize + StepSizeIncrement) else s, None)
    case StepSizeDown =>
      Effect(if s.stepSize - StepSizeIncrement >= StepSizeMin then s.(stepSize := s.stepSize - StepSizeIncrement) else s, None)
    case TracePaths => Effect(s.(tracePaths := !s.tracePaths), None)
    case Screenshot => Effect(s, Some(TakeScreenshot))
    case ShowCellId => Effect(s.(showCellId := !s.showCellId), None)
    case ShowGoals => Effect(s.(showGoals := !s.showGoals), None)
    case ShowGoalVectors => Effect(s.(showGoalVectors := !s.showGoalVectors), None)
  }

  /** The switch: the selected case's effect; nothing when no case matches, as there is no default. */
  function Dispatch(s: Intent, k: Option<Shortcut>): Effect {
    if k.Some? then Act(s, k.value) else Effect(s, None)
  }

  /** `handleKeyDown`: the default is suppressed unless Ctrl, Alt or Meta is held. */
  function HandleKeyDown(s: Intent, e: KeyEvent): (r: Outcome)
    ensures r.preventDefault <==> !e.ctrlKey && !e.altKey && !e.metaKey
  {
    var effect := Dispatch(s, ShortcutOf(e.key));
    Outcome(effect.intent, effect.command, !e.ctrlKey && !e.altKey && !e.metaKey)
  }

  /** The keys that flip a flag. */
  predicate IsToggle(k: Shortcut) {
    k.PlayPause? || k.Loop? || k.ShowAgentId? || k.TracePaths? || k.ShowCellId? || k.ShowGoals? || k.ShowGoalVectors?
  }

  /** A step size on the 0.2 grid within [0.2, 10]. */
  predicate OnGrid(stepSize: int) {
    StepSizeMin <= stepSize <= StepSizeMax && stepSize % StepSizeIncrement == 0
  }

  /** Each toggle case flips its own flag, leaves every other setting, and asks for nothing. */
  lemma ActToggles(s: Intent, k: Shortcut)
    ensures var r := Act(s, k);
      && (k == PlayPause ==> r.intent == s.(play := !s.play))
      && (k == Loop ==> r.intent == s.(loop := !s.loop))
      && (k == ShowAgentId ==> r.intent == s.(showAgentId := !s.showAgentId))
      && (k == TracePaths ==> r.intent == s.(tracePaths := !s.tracePaths))
      && (k == ShowCellId ==> r.intent == s.(showCellId := !s.showCellId))
      && (k == ShowGoals ==> r.intent == s.(showGoals := !s.showGoals))
      && (k == ShowGoalVectors ==> r.intent == s.(showGoalVectors := !s.showGoalVectors))
      && (IsToggle(k) ==> r.command == None)
  {
    match k
    case PlayPause =>
    case Loop =>
    case ShowAgentId =>
    case TracePaths =>
    case ShowCellId =>
    case ShowGoals =>
    case ShowGoalVectors =>
    case _ =>
  }

  /** A toggle case applied twice gives back the settings it started from. */
  lemma ActToggleTwice(s: Intent, k: Shortcut)
    requires IsToggle(k)
    ensures Act(Act(s, k).intent, k).intent == s
  {
    match k
    case PlayPause =>
    case Loop =>
    case ShowAgentId =>
    case TracePaths =>
    case ShowCellId =>
    case ShowGoals =>
    case ShowGoalVectors =>
  }

  /** ArrowUp's case: one notch up while that stays within the maximum, every other setting kept, nothing asked for. */
  lemma ActStepSizeUp(s: Intent)
    ensures var r := Act(s, StepSizeUp);
      && r.intent.stepSize == (if s.stepSize + 2 <= 100 then s.stepSize + 2 else s.stepSize)
      && r.intent.(stepSize := s.stepSize) == s
      && r.command == None
  {
  }

  /** ArrowDown's case: one notch down while that stays within the minimum, every other setting kept, nothing asked for. */
  lemma ActStepSizeDown(s: Intent)
    ensures var r := Act(s, StepSizeDown);
      && r.intent.stepSize == (if s.stepSize - 2 >= 2 then s.stepSize - 2 else s.stepSize)
      && r.intent.(stepSize := s.stepSize) == s
      && r.command == None
  {
  }

  /** No case but the two step-size cases touches the step size. */
  lemma ActKeepsStepSize(s: Intent, k: Shortcut)
    requires k != StepSizeUp && k != StepSizeDown
    ensures Act(s, k).intent.stepSize == s.stepSize
  {
    match k
    case StepBackward =>
    case PlayPause =>
    case StepForward =>
    case RestartAnimation =>
    case Loop =>
    case Fit =>
    case ShowAgentId =>
    case TracePaths =>
    case Screenshot =>
    case ShowCellId =>
    case ShowGoals =>
    case ShowGoalVectors =>
  }

  /** Every case keeps a step size on the grid on the grid, and moves it by at most one notch. */
  lemma ActOnGrid(s: Intent, k: Shortcut)
    requires OnGrid(s.stepSize)
    ensures var n := Act(s, k).intent.stepSize;
      OnGrid(n) && s.stepSize - 2 <= n <= s.stepSize + 2
  {
    if k == StepSizeUp {
      ActStepSizeUp(s);
    } else if k == StepSizeDown {
      ActStepSizeDown(s);
    } else {
      ActKeepsStepSize(s, k);
    }
  }

  /** The five action cases ask for their action and leave the settings; the other cases ask for nothing. */
  lemma ActCommands(s: Intent, k: Shortcut)
    ensures var r := Act(s, k);
      && (k == StepBackward <==> r.command == Some(SkipBackward))
      && (k == StepForward <==> r.command == Some(SkipForward))
      && (k == RestartAnimation <==> r.command == Some(Restart))
      && (k == Fit <==> r.command == Some(FitView))
      && (k == Screenshot <==> r.command == Some(TakeScreenshot))
      && (r.command.Some? ==> r.intent == s)
  {
    match k
    case StepBackward =>
    case StepForward =>
    case RestartAnimation =>
    case Fit =>
    case Screenshot =>
    case _ =>
  }

  /** ArrowUp raises the step size by 0.2 only when that stays at most 10, and asks for nothing. */
  lemma StepSizeUpKeyEffect(s: Intent, e: KeyEvent)
    requires ShortcutOf(e.key) == Some(StepSizeUp)
    ensures var r := HandleKeyDown(s, e);
      && r.command == None
      && r.intent.(stepSize := s.stepSize) == s
      && (s.stepSize + 2 <= 100 ==> r.intent.stepSize == s.stepSize + 2)
      && (s.stepSize + 2 > 100 ==> r.intent.stepSize == s.stepSize)
  {
    ActStepSizeUp(s);
  }

  /** ArrowDown lowers the step size by 0.2 only when that stays at least 0.2, and asks for nothing. */
  lemma StepSizeDownKeyEffect(s: Intent, e: KeyEvent)
    requires ShortcutOf(e.key) == Some(StepSizeDown)
    ensures var r := HandleKeyDown(s, e);
      && r.command == None
      && r.intent.(stepSize := s.stepSize) == s
      && (s.stepSize - 2 >= 2 ==> r.intent.stepSize == s.stepSize - 2)
      && (s.stepSize - 2 < 2 ==> r.intent.stepSize == s.stepSize)
  {
    ActStepSizeDown(s);
  }

  /** Whatever the key, a step size on the grid stays on the grid, and moves by at most one notch. */
  lemma StepSizeStaysOnGrid(s: Intent, e: KeyEvent)
    requires OnGrid(s.stepSize)
    ensures var n := HandleKeyDown(s, e).intent.stepSize;
      OnGrid(n) && s.stepSize - 2 <= n <= s.stepSize + 2
  {
    if ShortcutOf(e.key).Some? {
      ActOnGrid(s, ShortcutOf(e.key).value);
    }
  }

  /** A sequence of keydowns, each applied to the settings the previous one left. */
  function HandleAll(s: Intent, events: seq<KeyEvent>): Intent
    decreases |events|
  {
    if events == [] then s else HandleAll(HandleKeyDown(s, events[0]).intent, events[1..])
  }

  /** No sequence of keys takes a step size on the grid off it. */
  lemma {:induction false} HandleAllOnGrid(s: Intent, events: seq<KeyEvent>)
    requires OnGrid(s.stepSize)
    ensures OnGrid(HandleAll(s, events).stepSize)
    decreases |events|
  {
    if events != [] {
      StepSizeStaysOnGrid(s, events[0]);
      HandleAllOnGrid(HandleKeyDown(s, events[0]).intent, events[1..]);
    }
  }

  /**
   * Each toggle key (space, l, a, p, c, g, v) flips its own flag and nothing else, asks
   * for nothing, and pressed twice gives back the settings it started from.
   */
  lemma Toggles(s: Intent, e: KeyEvent)
    requires ShortcutOf(e.key).Some? && IsToggle(ShortcutOf(e.key).value)
    ensures var k, r := ShortcutOf(e.key).value, HandleKeyDown(s, e);
      && (k == PlayPause ==> r.intent == s.(play := !s.play))
      && (k == Loop ==> r.intent == s.(loop := !s.loop))
      && (k == ShowAgentId ==> r.intent == s.(showAgentId := !s.showAgentId))
      && (k == TracePaths ==> r.intent == s.(tracePaths := !s.tracePaths))
      && (k == ShowCellId ==> r.intent == s.(showCellId := !s.showCellId))
      && (k == ShowGoals ==> r.intent == s.(showGoals := !s.showGoals))
      && (k == ShowGoalVectors ==> r.intent == s.(showGoalVectors := !s.showGoalVectors))
      && r.command == None
      && HandleKeyDown(r.intent, e).intent == s
  {
    ActToggles(s, ShortcutOf(e.key).value);
    ActToggleTwice(s, ShortcutOf(e.key).value);
  }

  /** ArrowLeft, ArrowRight, r, f and s each ask for exactly their action, and an action changes no setting. */
  lemma Commands(s: Intent, e: KeyEvent)
    ensures var k, r := ShortcutOf(e.key), HandleKeyDown(s, e);
      && (k == Some(StepBackward) <==> r.command == Some(SkipBackward))
      && (k == Some(StepForward) <==> r.command == Some(SkipForward))
      && (k == Some(RestartAnimation) <==> r.command == Some(Restart))
      && (k == Some(Fit) <==> r.command == Some(FitView))
      && (k == Some(Screenshot) <==> r.command == Some(TakeScreenshot))
      && (r.command.Some? ==> r.intent == s)
  {
    if ShortcutOf(e.key).Some? {
      ActCommands(s, ShortcutOf(e.key).value);
    }
  }

  /** A key the switch has no case for changes nothing and asks for nothing. */
  lemma OtherKeys(s: Intent, e: KeyEvent)
    requires forall k: Shortcut :: e.key != KeyName(k)
    ensures HandleKeyDown(s, e).intent == s && HandleKeyDown(s, e).command == None
  {
    if ShortcutOf(e.key).Some? {
      ShortcutOfIff(e.key, ShortcutOf(e.key).value);
    }
  }

  /** What a key does depends on the key alone; the modifier keys only decide whether the default is suppressed. */
  lemma KeyAlone(s: Intent, e1: KeyEvent, e2: KeyEvent)
    requires e1.key == e2.key
    ensures HandleKeyDown(s, e1).intent == HandleKeyDown(s, e2).intent
    ensures HandleKeyDown(s, e1).command == HandleKeyDown(s, e2).command
  {
  }
}
