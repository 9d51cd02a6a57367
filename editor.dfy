/** The text area component: its state lives in fields that the event handlers
    update in place. Each handler's new state is the matching transition of
    `Menu` applied to the state before the event, so every property proved
    there holds of the component. */
module Editor {
  import opened MenuOptions
  import opened Caret
  import Growth
  import Menu

  class CustomTextArea {
    /** The text area's value. */
    var buffer: string
    /** Whether the option menu shows. */
    var menuVisible: bool
    /** The highlighted entry of `Options`. */
    var selected: int
    /** Where the menu is drawn. */
    var anchor: Point
    /** The value as the growth check last saw it. */
    var prev: string

    /** The component's state as a value. */
    function Snap(): Menu.Snapshot
      reads this
    {
      Menu.Snapshot(buffer, menuVisible, selected, anchor, prev)
    }

    ghost predicate Valid()
      reads this
    {
      Menu.Valid(Snap())
    }

    /** The state at mount. */
    constructor ()
      ensures Valid()
      ensures Snap() == Menu.Initial
    {
      buffer, menuVisible, selected := "", false, 0;
      anchor, prev := Point(0, 0), "";
    }

    /** The document keypress handler; `prevented` says whether it cancelled the
        key's insertion. */
    method KeyPress(key: string, view: View) returns (prevented: bool)
      requires Valid()
      modifies this
      ensures Valid()
      ensures Snap() == Menu.OnKeyPress(old(Snap()), key, view)
      ensures prevented == Menu.KeyPressPrevented(old(Snap()), key)
    {
      prevented := false;
      if key == "/" && !menuVisible {
        prevented := true;
        if view.Mounted? {
          anchor := CaretCoordinates(buffer, view.surface);
          menuVisible := true;
        }
      }
    }

    /** A keydown: the text area's own guard (when the key went to it) and the
        document handler both see the state from before the key; `prevented`
        says whether the key's default action was cancelled. */
    method KeyDown(key: string, fromTextarea: bool, view: View) returns (prevented: bool)
      requires Valid()
      modifies this
      ensures Valid()
      ensures Snap() == Menu.OnKeyDown(old(Snap()), key, view)
      ensures prevented == Menu.KeyDownPrevented(old(Snap()), key, fromTextarea)
    {
      prevented := menuVisible && fromTextarea;
      if menuVisible {
        if key == "ArrowUp" {
          selected := Menu.PrevIndex(selected, |Options|);
        } else if key == "ArrowDown" {
          selected := Menu.NextIndex(selected, |Options|);
        } else if key == "w" {
          selected := 0;
          prevented := true;
        } else if key == "e" {
          selected := 1;
          prevented := true;
        } else if key == "r" {
          selected := 2;
          prevented := true;
        } else if key == "Enter" {
          OptionSelection(view);
        } else if key == "Escape" {
          menuVisible := false;
        }
      }
    }

    /** Commits the highlighted entry: its value is appended to the text area's
        value and the menu closes, unless the index is -1. */
    method OptionSelection(view: View)
      requires Valid()
      modifies this
      ensures Valid()
      ensures Snap() == Menu.Commit(old(Snap()), view)
    {
      if selected != -1 && selected < |Options| {
        var option := Options[selected];
        if view.Mounted? {
          buffer := buffer + option.value;
        }
        menuVisible := false;
      }
    }

    /** A click on a menu entry: highlights it, then commits it. */
    method OptionClick(option: MenuOption, view: View)
      requires Valid()
      modifies this
      ensures Valid()
      ensures Snap() == Menu.OnClick(old(Snap()), option, view)
    {
      selected := FindIndex(Options, option.value);
      OptionSelection(view);
    }

    /** The growth check: recomputes the anchor when the value grew since the
        last check, then records the value. */
    method CheckGrowth(view: View)
      requires Valid()
      modifies this
      ensures Valid()
      ensures Snap() == Menu.OnGrowthCheck(old(Snap()), view)
    {
      if view.Mounted? {
        var current := buffer;
        if Growth.Grew(prev, current) {
          anchor := CaretCoordinates(current, view.surface);
        }
        prev := current;
      }
    }

    /** The browser's own editing replaces the text area's value. */
    method Edit(value: string)
      requires Valid()
      modifies this
      ensures Valid()
      ensures Snap() == Menu.OnEdit(old(Snap()), value)
    {
      buffer := value;
    }
  }

  /** A session against the component: typing "/", moving down and pressing
      Enter inserts the second entry's value and closes the menu; a second "/"
      reopens it on the same highlight. */
  method Session(surface: Surface) returns (text: string, open: bool, highlight: int)
    ensures text == "test2" && open && highlight == 1
  {
    var area := new CustomTextArea();
    var view := Mounted(surface);
    var cancelled := area.KeyPress("/", view);
    assert cancelled && area.menuVisible;
    cancelled := area.KeyDown("ArrowDown", true, view);
    assert area.selected == 1;
    cancelled := area.KeyDown("Enter", true, view);
    assert area.buffer == "test2" && !area.menuVisible;
    cancelled := area.KeyPress("/", view);
    text, open, highlight := area.buffer, area.menuVisible, area.selected;
  }
}
