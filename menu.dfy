/** The slash-command menu as a pure state machine: a snapshot of the widget's
    state and one transition function per event handler. Each event is one
    atomic transition that reads the state as it was when the event arrived. */
module Menu {
  import opened MenuOptions
  import opened Caret
  import opened Growth

  /** The widget's state: the text area's value, whether the menu shows, the
      highlighted index, the menu's anchor and the value last seen by the
      growth check. */
  datatype Snapshot = Snapshot(
    buffer: string,
    menuVisible: bool,
    selected: int,
    anchor: Point,
    prev: string)

  /** The state at mount: empty text, menu hidden, first entry highlighted,
      anchor at the origin. */
  const Initial: Snapshot := Snapshot("", false, 0, Point(0, 0), "")

  /** The highlighted index is an entry of the table, or -1 (what `findIndex`
      reports for an option that is not in the table). */
  predicate Valid(s: Snapshot) {
    -1 <= s.selected < |Options|
  }

  /** The ArrowDown update: one step forward, from the last entry back to the first. */
  function NextIndex(i: int, n: int): (r: int)
    ensures 1 <= n && -1 <= i < n ==> 0 <= r < n
    ensures 0 <= i < n ==> r == (i + 1) % n
  {
    if i < n - 1 then i + 1 else 0
  }

  /** The ArrowUp update: one step back, from the first entry round to the last. */
  function PrevIndex(i: int, n: int): (r: int)
    ensures 1 <= n && -1 <= i < n ==> 0 <= r < n
    ensures 0 <= i < n ==> r == (i - 1) % n
  {
    if i > 0 then i - 1 else n - 1
  }

  /** The highlight a shortcut key selects directly, or -1 for any other key. */
  function ShortcutIndex(key: string): (k: int)
    ensures -1 <= k < |Options|
    ensures k != -1 <==> key == "w" || key == "e" || key == "r"
  {
    if key == "w" then 0 else if key == "e" then 1 else if key == "r" then 2 else -1
  }

  /** Whether the keypress handler cancels the browser's default action: only
      `/` on a closed menu is cancelled, and that whether or not the text area
      exists (the handler takes no view). */
  predicate KeyPressPrevented(s: Snapshot, key: string) {
    key == "/" && !s.menuVisible
  }

  /** The keypress handler: `/` on a closed menu anchors the menu at the caret
      and opens it, provided the text area exists; the highlight is kept. */
  function OnKeyPress(s: Snapshot, key: string, view: View): (r: Snapshot)
    requires Valid(s)
    ensures Valid(r)
  {
    if key == "/" && !s.menuVisible then
      match view
      case Mounted(surface) => s.(anchor := CaretCoordinates(s.buffer, surface), menuVisible := true)
      case Unmounted => s
    else s
  }

  /** Committing the highlighted entry: with an index inside the table, the
      entry's value goes onto the end of the text (when the text area exists)
      and the menu closes; with -1 nothing happens. */
  function Commit(s: Snapshot, view: View): (r: Snapshot)
    requires Valid(s)
    ensures Valid(r)
  {
    if s.selected != -1 && s.selected < |Options| then
      var written := if view.Mounted? then s.buffer + Options[s.selected].value else s.buffer;
      s.(buffer := written, menuVisible := false)
    else s
  }

  /** Whether a keydown is cancelled: the text area's own handler cancels every
      key while the menu shows; the document handler cancels the shortcut keys. */
  predicate KeyDownPrevented(s: Snapshot, key: string, fromTextarea: bool) {
    s.menuVisible && (fromTextarea || ShortcutIndex(key) != -1)
  }

  /** The document keydown handler: while the menu shows, the arrows move the
      highlight, `w`/`e`/`r` pick an entry, Enter commits and Escape closes;
      while it is hidden, nothing happens. */
  function OnKeyDown(s: Snapshot, key: string, view: View): (r: Snapshot)
    requires Valid(s)
    ensures Valid(r)
  {
    if !s.menuVisible then s
    else if key == "ArrowUp" then s.(selected := PrevIndex(s.selected, |Options|))
    else if key == "ArrowDown" then s.(selected := NextIndex(s.selected, |Options|))
    else if ShortcutIndex(key) != -1 then s.(selected := ShortcutIndex(key))
    else if key == "Enter" then Commit(s, view)
    else if key == "Escape" then s.(menuVisible := false)
    else s
  }

  /** A click on a menu entry, with the evidently intended meaning: highlight
      the clicked entry, then commit it. */
  function OnClick(s: Snapshot, option: MenuOption, view: View): (r: Snapshot)
    requires Valid(s)
    ensures Valid(r)
  {
    Commit(s.(selected := FindIndex(Options, option.value)), view)
  }

  /** A click as the handler is written: the highlight update is only scheduled,
      so the commit still reads the highlight from before the click; the
      clicked index takes effect afterwards. */
  function ClickAsWritten(s: Snapshot, option: MenuOption, view: View): (r: Snapshot)
    requires Valid(s)
    ensures Valid(r)
  {
    Commit(s, view).(selected := FindIndex(Options, option.value))
  }

  /** The growth check: when the text grew since the last check, the anchor is
      recomputed at the caret; either way the current text becomes the one
      last seen. Nothing happens without a text area. */
  function OnGrowthCheck(s: Snapshot, view: View): (r: Snapshot)
    requires Valid(s)
    ensures Valid(r)
  {
    match view
    case Unmounted => s
    case Mounted(surface) =>
      var anchor := if Grew(s.prev, s.buffer) then CaretCoordinates(s.buffer, surface) else s.anchor;
      s.(anchor := anchor, prev := s.buffer)
  }

  /** The browser's own editing of the text area (typing while the menu is
      hidden, pasting): it replaces the value and nothing else. */
  function OnEdit(s: Snapshot, value: string): (r: Snapshot)
    requires Valid(s)
    ensures Valid(r)
    ensures r.buffer == value
    ensures r.(buffer := s.buffer) == s
  {
    s.(buffer := value)
  }

  /** One input the widget reacts to. `Down` records whether the key went to the
      text area, where its own keydown guard also runs. `ClickOption` is a
      click on a rendered entry; entries are rendered only while the menu
      shows, so on a closed menu there is nothing to click. */
  datatype Event =
    | Press(key: string, view: View)
    | Down(key: string, fromTextarea: bool, view: View)
    | ClickOption(option: MenuOption, view: View)
    | Recheck(view: View)
    | Typed(value: string)

  /** How a click is handled: `AsWritten` commits the highlight from before the
      click, as the source does; `Intended` highlights the clicked entry first. */
  datatype ClickOrder = AsWritten | Intended

  /** The transition an event causes. */
  function Step(s: Snapshot, e: Event, order: ClickOrder): (r: Snapshot)
    requires Valid(s)
    ensures Valid(r)
  {
    match e
    case Press(key, view) => OnKeyPress(s, key, view)
    case Down(key, _, view) => OnKeyDown(s, key, view)
    case ClickOption(option, view) =>
      if !s.menuVisible then s
      else if order.AsWritten? then ClickAsWritten(s, option, view)
      else OnClick(s, option, view)
    case Recheck(view) => OnGrowthCheck(s, view)
    case Typed(value) => OnEdit(s, value)
  }

  /** The state after a sequence of events. */
  function Run(s: Snapshot, events: seq<Event>, order: ClickOrder): (r: Snapshot)
    requires Valid(s)
    ensures Valid(r)
    decreases |events|
  {
    if events == [] then s else Run(Step(s, events[0], order), events[1..], order)
  }

  /** Every click in `events` is on an entry of the rendered table. */
  predicate ClicksOnListed(events: seq<Event>) {
    forall i :: 0 <= i < |events| && events[i].ClickOption? ==> events[i].option in Options
  }

  /** No event in `events` is the browser's own editing. */
  predicate NoEdits(events: seq<Event>) {
    forall i :: 0 <= i < |events| ==> !events[i].Typed?
  }

  // ---------------------------------------------------------------------------
  // Opening

  /** `/` on a closed menu with a text area opens the menu at the caret, keeps
      the highlight, leaves the text alone and cancels the key's insertion. */
  lemma SlashOpens(s: Snapshot, surface: Surface)
    requires Valid(s) && !s.menuVisible
    ensures KeyPressPrevented(s, "/")
    ensures OnKeyPress(s, "/", Mounted(surface))
      == s.(menuVisible := true, anchor := CaretCoordinates(s.buffer, surface))
  {
  }

  /** `/` on a closed menu without a text area is still cancelled, but the
      menu stays closed and nothing else changes. */
  lemma SlashUnmounted(s: Snapshot)
    requires Valid(s) && !s.menuVisible
    ensures KeyPressPrevented(s, "/")
    ensures OnKeyPress(s, "/", Unmounted) == s
  {
  }

  /** `/` while the menu shows changes nothing, not even the anchor or highlight;
      any other keypress never changes anything. */
  lemma KeyPressNoOp(s: Snapshot, key: string, view: View)
    requires Valid(s)
    requires s.menuVisible || key != "/"
    ensures OnKeyPress(s, key, view) == s
    ensures !KeyPressPrevented(s, key)
  {
  }

  // ---------------------------------------------------------------------------
  // Navigation

  /** The arrows wrap at both ends of the table. */
  lemma NavigationWraps()
    ensures PrevIndex(0, |Options|) == |Options| - 1
    ensures NextIndex(|Options| - 1, |Options|) == 0
  {
  }

  /** From inside the table, the two arrows undo each other. */
  lemma {:induction false} ArrowsInverse(i: int, n: int)
    requires 0 <= i < n
    ensures PrevIndex(NextIndex(i, n), n) == i
    ensures NextIndex(PrevIndex(i, n), n) == i
  {
  }

  /** While the menu shows, an arrow leaves the highlight inside the table and
      changes nothing else; with the menu hidden it changes nothing. */
  lemma ArrowKeepsHighlightInRange(s: Snapshot, key: string, view: View)
    requires Valid(s)
    requires key == "ArrowUp" || key == "ArrowDown"
    ensures var r := OnKeyDown(s, key, view);
      r.(selected := s.selected) == s && (s.menuVisible ==> 0 <= r.selected < |Options|)
  {
  }

  /** `w`, `e` and `r` highlight entries 0, 1 and 2, all inside the table, and
      keep the menu open and the text unchanged. */
  lemma ShortcutsSelect(s: Snapshot, key: string, view: View)
    requires Valid(s) && s.menuVisible
    requires key == "w" || key == "e" || key == "r"
    ensures var r := OnKeyDown(s, key, view);
      r == s.(selected := ShortcutIndex(key)) && 0 <= r.selected < |Options|
    ensures key == "w" ==> OnKeyDown(s, key, view).selected == 0
    ensures key == "e" ==> OnKeyDown(s, key, view).selected == 1
    ensures key == "r" ==> OnKeyDown(s, key, view).selected == 2
    ensures KeyDownPrevented(s, key, false)
  {
  }

  // ---------------------------------------------------------------------------
  // Commit and cancel

  /** Enter with an entry highlighted appends that entry's value (not its
      caption) to the end of the text and closes the menu. */
  lemma EnterCommitsHighlighted(s: Snapshot, surface: Surface)
    requires Valid(s) && s.menuVisible && s.selected != -1
    ensures OnKeyDown(s, "Enter", Mounted(surface))
      == s.(buffer := s.buffer + Options[s.selected].value, menuVisible := false)
  {
  }

  /** Enter without a text area still closes the menu but leaves the text. */
  lemma EnterUnmountedCloses(s: Snapshot)
    requires Valid(s) && s.menuVisible && s.selected != -1
    ensures OnKeyDown(s, "Enter", Unmounted) == s.(menuVisible := false)
  {
  }

  /** Enter with index -1 changes nothing, and the menu stays open. */
  lemma EnterOutOfRangeNoOp(s: Snapshot, view: View)
    requires Valid(s) && s.menuVisible && s.selected == -1
    ensures OnKeyDown(s, "Enter", view) == s
  {
  }

  /** Escape closes the menu and leaves text, highlight and anchor alone. */
  lemma EscapeCancels(s: Snapshot, view: View)
    requires Valid(s) && s.menuVisible
    ensures OnKeyDown(s, "Escape", view) == s.(menuVisible := false)
  {
  }

  /** While the menu shows, a key the handler does not know changes nothing
      and its insertion into the text area is cancelled. */
  lemma OtherKeysSwallowed(s: Snapshot, key: string, view: View)
    requires Valid(s) && s.menuVisible
    requires key !in ["ArrowUp", "ArrowDown", "w", "e", "r", "Enter", "Escape"]
    ensures OnKeyDown(s, key, view) == s
    ensures KeyDownPrevented(s, key, true)
  {
  }

  /** While the menu shows, a key the text area receives is always cancelled,
      while a key that reaches only the document handler is cancelled exactly
      when it is a shortcut: arrows, Enter and Escape keep their default there. */
  lemma DocumentKeyDownCancelsShortcutsOnly(s: Snapshot, key: string)
    requires Valid(s) && s.menuVisible
    ensures KeyDownPrevented(s, key, true)
    ensures KeyDownPrevented(s, key, false) <==> key == "w" || key == "e" || key == "r"
  {
  }

  /** A click while the menu is hidden cannot happen, since no entry is
      rendered; as an event it changes nothing. */
  lemma ClickOnClosedMenuIgnored(s: Snapshot, option: MenuOption, view: View, order: ClickOrder)
    requires Valid(s) && !s.menuVisible
    ensures Step(s, ClickOption(option, view), order) == s
  {
  }

  /** While the menu is hidden, keydown changes nothing and cancels nothing. */
  lemma KeyDownWhileClosed(s: Snapshot, key: string, fromTextarea: bool, view: View)
    requires Valid(s) && !s.menuVisible
    ensures OnKeyDown(s, key, view) == s
    ensures !KeyDownPrevented(s, key, fromTextarea)
  {
  }

  /** A commit adds exactly one entry's value or nothing: the text before is a
      prefix of the text after, and what follows it is empty or one value. */
  lemma CommitAppendsAtMostOne(s: Snapshot, view: View)
    requires Valid(s)
    ensures var r := Commit(s, view);
      r.buffer == s.buffer ||
      exists k :: 0 <= k < |Options| && r.buffer == s.buffer + Options[k].value
  {
  }

  // ---------------------------------------------------------------------------
  // Clicks

  /** A click on entry `i`, as intended, appends that entry's value and closes the menu. */
  lemma ClickCommitsClicked(s: Snapshot, i: int, surface: Surface)
    requires Valid(s) && 0 <= i < |Options|
    ensures OnClick(s, Options[i], Mounted(surface))
      == s.(selected := i, buffer := s.buffer + Options[i].value, menuVisible := false)
  {
    FindIndexOfListed(i);
  }

  /** The handler as written commits the entry highlighted before the click:
      with entry 0 highlighted, clicking entry 1 appends "test1", not "test2". */
  lemma ClickAsWrittenCommitsStale(surface: Surface)
    ensures var s := Initial.(menuVisible := true);
      var r := ClickAsWritten(s, Options[1], Mounted(surface));
      r.buffer == "test1" && r.buffer != Options[1].value && r.selected == 1
  {
    FindIndexOfListed(1);
  }

  // ---------------------------------------------------------------------------
  // Growth check

  /** The growth check recomputes the anchor exactly when the text grew, never
      touches the highlight, text or visibility, and records the text as last seen. */
  lemma GrowthCheckRecords(s: Snapshot, surface: Surface)
    requires Valid(s)
    ensures var r := OnGrowthCheck(s, Mounted(surface));
      r.prev == s.buffer &&
      r.anchor == (if Grew(s.prev, s.buffer) then CaretCoordinates(s.buffer, surface) else s.anchor) &&
      r.(anchor := s.anchor, prev := s.prev) == s
  {
  }

  /** A second check right after the first leaves the state as it is. */
  lemma GrowthCheckIdempotent(s: Snapshot, view: View)
    requires Valid(s)
    ensures OnGrowthCheck(OnGrowthCheck(s, view), view) == OnGrowthCheck(s, view)
  {
    NoGrowthWithoutChange(s.buffer);
  }

  // ---------------------------------------------------------------------------
  // Whole runs

  /** One event keeps the highlight inside the table, unless it is a click on
      an entry that is not in it. */
  lemma StepKeepsHighlightInRange(s: Snapshot, e: Event, order: ClickOrder)
    requires Valid(s) && 0 <= s.selected < |Options|
    requires e.ClickOption? ==> e.option in Options
    ensures 0 <= Step(s, e, order).selected < |Options|
  {
    if e.ClickOption? {
      var k := FindIndex(Options, e.option.value);
      assert k != -1;
    }
  }

  /** From a state with an entry highlighted (the initial one among them), every
      sequence of keys, clicks on the menu, growth checks and edits keeps the
      highlight inside the table. */
  lemma {:induction false} RunKeepsHighlightInRange(s: Snapshot, events: seq<Event>, order: ClickOrder)
    requires Valid(s) && 0 <= s.selected < |Options|
    requires ClicksOnListed(events)
    ensures 0 <= Run(s, events, order).selected < |Options|
    decreases |events|
  {
    if events != [] {
      StepKeepsHighlightInRange(s, events[0], order);
      assert ClicksOnListed(events[1..]) by {
        forall i | 0 <= i < |events[1..]| && events[1..][i].ClickOption?
          ensures events[1..][i].option in Options
        {
          assert events[1..][i] == events[i + 1];
        }
      }
      RunKeepsHighlightInRange(Step(s, events[0], order), events[1..], order);
    }
  }

  /** One event other than an edit leaves the text as it was or appends one
      entry's value. */
  lemma StepAppendsAtMostOne(s: Snapshot, e: Event, order: ClickOrder)
    requires Valid(s) && !e.Typed?
    ensures var r := Step(s, e, order);
      r.buffer == s.buffer ||
      exists k :: 0 <= k < |Options| && r.buffer == s.buffer + Options[k].value
  {
    match e
    case Down(key, _, view) =>
      if s.menuVisible && key == "Enter" { CommitAppendsAtMostOne(s, view); }
    case ClickOption(option, view) =>
      if !s.menuVisible {
      } else if order.AsWritten? {
        CommitAppendsAtMostOne(s, view);
      } else {
        CommitAppendsAtMostOne(s.(selected := FindIndex(Options, option.value)), view);
      }
    case _ =>
  }

  /** Without edits by the browser, the widget only ever appends: the text
      before a run is a prefix of the text after it. */
  lemma {:induction false} RunOnlyAppends(s: Snapshot, events: seq<Event>, order: ClickOrder)
    requires Valid(s)
    requires NoEdits(events)
    ensures s.buffer <= Run(s, events, order).buffer
    decreases |events|
  {
    if events != [] {
      assert !events[0].Typed?;
      StepAppendsAtMostOne(s, events[0], order);
      var t := Step(s, events[0], order);
      assert s.buffer <= t.buffer;
      assert NoEdits(events[1..]) by {
        forall i | 0 <= i < |events[1..]| ensures !events[1..][i].Typed? {
          assert events[1..][i] == events[i + 1];
        }
      }
      RunOnlyAppends(t, events[1..], order);
    }
  }

  /** On a closed menu, no keypress other than `/` and no keydown at all
      changes any part of the state. */
  lemma KeysOnClosedMenuKeepState(s: Snapshot, key: string, fromTextarea: bool, view: View, order: ClickOrder)
    requires Valid(s) && !s.menuVisible
    ensures key != "/" ==> Step(s, Press(key, view), order) == s
    ensures Step(s, Down(key, fromTextarea, view), order) == s
  {
  }

  // ---------------------------------------------------------------------------
  // Scenarios

  /** Open at the start, arrow down, commit: the text becomes the second value
      and the menu closes. */
  lemma OpenNavigateCommit(surface: Surface, order: ClickOrder)
    ensures var r := Run(Initial, [
        Press("/", Mounted(surface)),
        Down("ArrowDown", true, Mounted(surface)),
        Down("Enter", true, Mounted(surface))], order);
      r.buffer == "test2" && !r.menuVisible && r.selected == 1
  {
    var v := Mounted(surface);
    var e := [Press("/", v), Down("ArrowDown", true, v), Down("Enter", true, v)];
    var s1 := OnKeyPress(Initial, "/", v);
    assert s1 == Initial.(menuVisible := true, anchor := CaretCoordinates("", surface));
    var s2 := OnKeyDown(s1, "ArrowDown", v);
    assert s2 == s1.(selected := 1);
    var s3 := OnKeyDown(s2, "Enter", v);
    assert s3 == s2.(buffer := "test2", menuVisible := false);
    assert e[1..][1..][1..] == [];
    assert Run(s3, [], order) == s3;
    assert Run(Initial, e, order) == Run(s1, e[1..], order) == Run(s2, e[1..][1..], order)
      == Run(s3, e[1..][1..][1..], order);
  }

  /** From the last entry, three presses of ArrowUp pass entries 1 and 0 and
      wrap back to 2. */
  lemma ArrowUpWrapsAround(s: Snapshot, view: View)
    requires Valid(s) && s.menuVisible && s.selected == 2
    ensures OnKeyDown(s, "ArrowUp", view).selected == 1
    ensures OnKeyDown(OnKeyDown(s, "ArrowUp", view), "ArrowUp", view).selected == 0
    ensures OnKeyDown(OnKeyDown(OnKeyDown(s, "ArrowUp", view), "ArrowUp", view), "ArrowUp", view).selected == 2
  {
  }

  /** Text reflowing from "ab" to "ab\nc" while the menu shows moves the anchor
      to the new caret position and keeps the highlight. */
  lemma ReflowMovesAnchor(s: Snapshot, surface: Surface)
    requires Valid(s) && s.menuVisible && s.prev == "ab" && s.buffer == "ab\nc"
    ensures var r := OnGrowthCheck(s, Mounted(surface));
      r.anchor == CaretCoordinates("ab\nc", surface) && r.selected == s.selected && r.menuVisible
  {
  }
}
