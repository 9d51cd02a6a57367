/** The fixed table of menu entries the widget offers. */
module MenuOptions {

  /** One menu entry: `value` is the text a commit appends, `caption` (the source's `label`, a reserved word here) is what the menu shows. */
  datatype MenuOption = MenuOption(value: string, caption: string)

  /** The three entries, in menu order. */
  const Options: seq<MenuOption> := [
    MenuOption("test1", "This is a test of option 1"),
    MenuOption("test2", "This is a test of option 2"),
    MenuOption("test3", "This is a test of option 3")
  ]

  /** No two entries of `opts` share a `value`. */
  predicate DistinctValues(opts: seq<MenuOption>) {
    forall i, j :: 0 <= i < j < |opts| ==> opts[i].value != opts[j].value
  }

  /** `findIndex` with the test `opt.value === value`: the first index whose
      entry has that value, or -1 when none has. */
  function FindIndex(opts: seq<MenuOption>, value: string): (r: int)
    ensures -1 <= r < |opts|
    ensures 0 <= r ==> opts[r].value == value
    ensures 0 <= r ==> forall j :: 0 <= j < r ==> opts[j].value != value
    ensures r == -1 <==> forall j :: 0 <= j < |opts| ==> opts[j].value != value
  {
    if opts == [] then -1
    else if opts[0].value == value then 0
    else
      var k := FindIndex(opts[1..], value);
      if k == -1 then -1 else k + 1
  }

  /** The table's values are distinct, so looking up the value of entry `i`
      finds `i` itself. */
  lemma FindIndexOfListed(i: int)
    requires 0 <= i < |Options|
    ensures DistinctValues(Options)
    ensures FindIndex(Options, Options[i].value) == i
  {
    var k := FindIndex(Options, Options[i].value);
    assert k != -1;
  }
}
