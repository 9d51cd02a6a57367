/** The "buffer grew" test that decides whether the anchor is recomputed: the
    value got longer, or splitting it at line feeds gives more pieces. */
module Growth {

  /** The number of line feeds in `s`. */
  function NewlineCount(s: string): (n: nat)
    ensures n <= |s|
    ensures n == 0 <==> '\n' !in s
  {
    multiset(s)['\n']
  }

  /** JavaScript's `s.split("\n")`: the pieces between line feeds, in order;
      the empty string splits into one empty piece. */
  function Split(s: string): (parts: seq<string>)
    ensures |parts| >= 1
    ensures forall i :: 0 <= i < |parts| ==> '\n' !in parts[i]
  {
    if s == [] then [[]]
    else
      var rest := Split(s[1..]);
      if s[0] == '\n' then [[]] + rest
      else [[s[0]] + rest[0]] + rest[1..]
  }

  /** `parts.join("\n")`. */
  function Join(parts: seq<string>): (s: string)
    requires |parts| >= 1
    ensures |parts| == 1 ==> s == parts[0]
    ensures parts[0] <= s
  {
    if |parts| == 1 then parts[0] else parts[0] + "\n" + Join(parts[1..])
  }

  /** Splitting gives one more piece than there are line feeds. */
  lemma {:induction false} SplitLength(s: string)
    ensures |Split(s)| == NewlineCount(s) + 1
  {
    if s != [] {
      assert s == [s[0]] + s[1..];
      assert multiset(s) == multiset([s[0]]) + multiset(s[1..]);
      SplitLength(s[1..]);
    }
  }

  /** Joining the pieces with line feeds gives back the value. */
  lemma {:induction false} JoinSplit(s: string)
    ensures Join(Split(s)) == s
  {
    if s != [] {
      var rest := Split(s[1..]);
      JoinSplit(s[1..]);
      if s[0] == '\n' {
        assert Split(s)[1..] == rest;
      } else if |rest| == 1 {
        assert Split(s) == [[s[0]] + rest[0]];
      } else {
        var parts := Split(s);
        assert parts[1..] == rest[1..];
        assert Join(rest) == rest[0] + "\n" + Join(rest[1..]);
      }
    }
  }

  /** Splitting a join of line-feed-free pieces gives back the pieces. */
  lemma {:induction false} SplitJoin(parts: seq<string>)
    requires |parts| >= 1
    requires forall i :: 0 <= i < |parts| ==> '\n' !in parts[i]
    ensures Split(Join(parts)) == parts
  {
    if |parts| == 1 {
      SplitPiece(parts[0], []);
      assert parts[0] + [] == parts[0];
      assert Split([]) == [[]];
    } else {
      SplitJoin(parts[1..]);
      var tail := "\n" + Join(parts[1..]);
      assert tail[1..] == Join(parts[1..]);
      assert Split(tail) == [[]] + parts[1..];
      SplitPiece(parts[0], tail);
      assert Join(parts) == parts[0] + tail;
      assert parts[0] + [] == parts[0];
      assert [parts[0]] + parts[1..] == parts;
    }
  }

  /** A line-feed-free piece in front of `tail` is glued onto the first piece of `tail`. */
  lemma {:induction false} SplitPiece(piece: string, tail: string)
    requires '\n' !in piece
    ensures Split(piece + tail) == [piece + Split(tail)[0]] + Split(tail)[1..]
  {
    var t := Split(tail);
    if piece == [] {
      assert piece + tail == tail;
      assert piece + t[0] == t[0];
      assert t == [t[0]] + t[1..];
    } else {
      assert piece[0] in piece;
      assert (piece + tail)[1..] == piece[1..] + tail;
      assert '\n' !in piece[1..] by {
        forall i | 0 <= i < |piece[1..]| ensures piece[1..][i] != '\n' { assert piece[1..][i] == piece[i + 1]; }
      }
      SplitPiece(piece[1..], tail);
      var rest := Split(piece[1..] + tail);
      assert rest == [piece[1..] + t[0]] + t[1..];
      assert (piece + tail)[0] == piece[0] != '\n';
      assert Split(piece + tail) == [[piece[0]] + rest[0]] + rest[1..];
      assert [piece[0]] + (piece[1..] + t[0]) == piece + t[0];
    }
  }

  /** The growth test: the current value is longer than the previous one, or
      it splits into more lines. */
  function Grew(previous: string, current: string): (r: bool)
    ensures r <==> |current| > |previous| || NewlineCount(current) > NewlineCount(previous)
  {
    SplitLength(previous);
    SplitLength(current);
    |current| > |previous| || |Split(current)| > |Split(previous)|
  }

  /** A value compared with itself never grew, so once the snapshot is taken the
      next test reports no growth until the value changes. */
  lemma NoGrowthWithoutChange(s: string)
    ensures !Grew(s, s)
  {
  }

  /** Appending text counts as growth exactly when the text is not empty. */
  lemma GrewByAppending(s: string, t: string)
    ensures Grew(s, s + t) <==> t != []
  {
    if t == [] {
      assert s + t == s;
    }
  }

  /** The line clause is not redundant: equal lengths with an extra line feed still grew. */
  lemma GrewByLineFeedAlone()
    ensures |"a\nb"| == |"abc"|
    ensures Grew("abc", "a\nb")
  {
    assert multiset("a\nb")['\n'] == 1;
    assert multiset("abc")['\n'] == 0;
  }
}
