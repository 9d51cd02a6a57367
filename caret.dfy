/** Where the menu is anchored: the text in front of the caret, with its spaces
    made non-breaking, is measured and the measured box is offset by the text
    area's scroll and border offsets. The browser's layout engine is not
    modelled; its measurement is the `measure` field of a `Surface`. */
module Caret {

  /** U+00A0, the character every measured space is replaced with. */
  const NoBreakSpace: char := '\U{00A0}'

  /** A measured bounding box. */
  datatype Size = Size(width: int, height: int)

  /** A pixel position relative to the text area; the menu's anchor. */
  datatype Point = Point(x: int, y: int)

  /** What the handlers read from the live text area element besides its value:
      the caret's end offset, the scroll and client offsets, and the layout
      engine's measurement of a text run in the element's font. */
  datatype Surface = Surface(
    selectionEnd: int,
    scrollLeft: int, scrollTop: int,
    clientLeft: int, clientTop: int,
    measure: string -> Size)

  /** The text area reference: `Unmounted` when it is null. */
  datatype View = Unmounted | Mounted(surface: Surface)

  /** The distance between two offsets. */
  function Dist(a: int, b: int): nat {
    if a >= b then a - b else b - a
  }

  /** The end JavaScript's `substring(0, end)` actually uses: the offset of
      `s` (from 0 to |s|) nearest to `end`. */
  function PrefixEnd(s: string, end: int): (k: nat)
    ensures k <= |s|
    ensures forall j :: 0 <= j <= |s| ==> Dist(k, end) <= Dist(j, end)
  {
    if end < 0 then 0 else if end > |s| then |s| else end
  }

  /** `t.replace(/ /g, " ")`: every space becomes a non-breaking space. */
  function ReplaceSpaces(t: string): (r: string)
    ensures |r| == |t|
    ensures forall i :: 0 <= i < |t| && t[i] != ' ' ==> r[i] == t[i]
    ensures forall i :: 0 <= i < |t| && t[i] == ' ' ==> r[i] == NoBreakSpace
    ensures ' ' !in r
  {
    if t == [] then []
    else [if t[0] == ' ' then NoBreakSpace else t[0]] + ReplaceSpaces(t[1..])
  }

  /** Turns every non-breaking space back into a space: the inverse of
      `ReplaceSpaces` on text that has no non-breaking space of its own. */
  function RestoreSpaces(t: string): (r: string)
    ensures |r| == |t|
    ensures NoBreakSpace !in r
  {
    if t == [] then []
    else [if t[0] == NoBreakSpace then ' ' else t[0]] + RestoreSpaces(t[1..])
  }

  /** The text placed in the measuring span: the value in front of `position`
      with spaces made non-breaking. */
  function CaretPrefix(value: string, position: int): (r: string)
    ensures |r| == PrefixEnd(value, position)
    ensures ' ' !in r
    ensures forall i :: 0 <= i < |r| && value[i] != ' ' ==> r[i] == value[i]
    ensures forall i :: 0 <= i < |r| && value[i] == ' ' ==> r[i] == NoBreakSpace
  {
    ReplaceSpaces(value[..PrefixEnd(value, position)])
  }

  /** The caret position the menu is anchored at: the measured box of the
      prefix, shifted by the element's client and scroll offsets. */
  function CaretCoordinates(value: string, s: Surface): Point {
    var box := s.measure(CaretPrefix(value, s.selectionEnd));
    Point(s.clientLeft + s.scrollLeft + box.width, s.clientTop + s.scrollTop + box.height)
  }

  /** Replacing spaces works character by character, so it distributes over concatenation. */
  lemma {:induction false} ReplaceSpacesAppend(a: string, b: string)
    ensures ReplaceSpaces(a + b) == ReplaceSpaces(a) + ReplaceSpaces(b)
  {
    if a != [] {
      assert (a + b)[1..] == a[1..] + b;
      ReplaceSpacesAppend(a[1..], b);
    }
  }

  /** Restoring spaces undoes the replacement on text without non-breaking spaces. */
  lemma {:induction false} RestoreReplace(t: string)
    requires NoBreakSpace !in t
    ensures RestoreSpaces(ReplaceSpaces(t)) == t
  {
    if t != [] {
      assert NoBreakSpace !in t[1..] by {
        forall i | 0 <= i < |t[1..]| ensures t[1..][i] != NoBreakSpace { assert t[1..][i] == t[i + 1]; }
      }
      RestoreReplace(t[1..]);
      assert ReplaceSpaces(t)[1..] == ReplaceSpaces(t[1..]);
    }
  }

  /** The measured prefix is the caret's prefix of the value once spaces are
      restored, as long as the value had no non-breaking spaces of its own. */
  lemma CaretPrefixRoundTrip(value: string, position: int)
    requires NoBreakSpace !in value
    requires 0 <= position <= |value|
    ensures RestoreSpaces(CaretPrefix(value, position)) == value[..position]
  {
    var p := value[..position];
    assert NoBreakSpace !in p by {
      forall i | 0 <= i < |p| ensures p[i] != NoBreakSpace { assert p[i] == value[i]; }
    }
    RestoreReplace(p);
  }

  /** Scrolling the text area moves the anchor by the scrolled amount and
      leaves the measured part alone. */
  lemma CaretCoordinatesFollowScroll(value: string, s: Surface, dx: int, dy: int)
    ensures var p := CaretCoordinates(value, s);
      CaretCoordinates(value, s.(scrollLeft := s.scrollLeft + dx, scrollTop := s.scrollTop + dy))
        == Point(p.x + dx, p.y + dy)
  {
  }

  /** Text appended behind the caret does not change what is measured, so it
      does not move the anchor. */
  lemma CaretCoordinatesIgnoreSuffix(value: string, tail: string, s: Surface)
    requires s.selectionEnd <= |value|
    ensures CaretPrefix(value + tail, s.selectionEnd) == CaretPrefix(value, s.selectionEnd)
    ensures CaretCoordinates(value + tail, s) == CaretCoordinates(value, s)
  {
    var k := PrefixEnd(value, s.selectionEnd);
    assert PrefixEnd(value + tail, s.selectionEnd) == k;
    assert (value + tail)[..k] == value[..k];
  }
}
