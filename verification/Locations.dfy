/**
 Source locations: the table of line starts, the lookup of a position in it, and
 the lookup that remembers the previous answer.
 */
module Locations {

  // ----- Line breaks -----

  /** Whether a line break (LF, CR, or CR LF together) ends right before position `p`. */
  predicate BreakEndsAt(src: string, p: nat) {
    0 < p <= |src| && (src[p - 1] == '\n' || (src[p - 1] == '\r' && !(p < |src| && src[p] == '\n')))
  }

  /** The number of line breaks that end at or before `pos`. */
  function BreaksUpTo(src: string, pos: nat): nat {
    if pos == 0 then 0 else BreaksUpTo(src, pos - 1) + if BreakEndsAt(src, pos) then 1 else 0
  }

  ghost predicate Increasing(starts: seq<nat>) {
    forall i, j :: 0 <= i < j < |starts| ==> starts[i] < starts[j]
  }

  /** The table of line starts of a source: 0, and the end of every line break, in order. */
  ghost predicate IsLineTable(src: string, starts: seq<nat>) {
    && Increasing(starts) && starts != [] && starts[0] == 0
    && forall p: nat :: p in starts <==> p == 0 || BreakEndsAt(src, p)
  }

  /** Collects the line starts in one pass. */
  method LineTable(src: string) returns (starts: seq<nat>)
    ensures IsLineTable(src, starts)
  {
    starts := [0];
    var i := 0;
    while i < |src|
      invariant 0 <= i <= |src|
      invariant Increasing(starts) && starts != [] && starts[0] == 0
      invariant forall p: nat :: p in starts <==> p == 0 || (p <= i && BreakEndsAt(src, p))
      invariant 0 < i < |src| && src[i] == '\n' ==> src[i - 1] != '\r'
      decreases |src| - i
    {
      if src[i] == '\n' || src[i] == '\r' {
        if src[i] == '\r' && i + 1 < |src| && src[i + 1] == '\n' {
          i := i + 1;
        }
        forall j | 0 <= j < |starts| ensures starts[j] <= i {
          assert starts[j] in starts;
        }
        starts := starts + [i + 1];
      }
      i := i + 1;
    }
  }

  // ----- The line of a position -----

  ghost predicate IsLine(starts: seq<nat>, line: int, pos: nat) {
    0 <= line < |starts| && starts[line] <= pos && (line + 1 < |starts| ==> pos < starts[line + 1])
  }

  lemma LineIsUnique(starts: seq<nat>, line: int, line': int, pos: nat)
    requires Increasing(starts) && IsLine(starts, line, pos) && IsLine(starts, line', pos)
    ensures line == line'
  {
  }

  /** The index of a line is the number of line breaks before it. */
  lemma {:induction false} LineCountsBreaks(src: string, starts: seq<nat>, line: int, pos: nat)
    requires IsLineTable(src, starts) && IsLine(starts, line, pos)
    ensures line == BreaksUpTo(src, pos)
    decreases pos
  {
    if pos > 0 {
      if BreakEndsAt(src, pos) {
        assert pos in starts;
        var j :| 0 <= j < |starts| && starts[j] == pos;
        LineIsUnique(starts, line, j, pos);
        assert starts[line - 1] < starts[line];
        LineCountsBreaks(src, starts, line - 1, pos - 1);
      } else {
        assert starts[line] in starts;
        LineCountsBreaks(src, starts, line, pos - 1);
      }
    } else {
      LineIsUnique(starts, line, 0, pos);
    }
  }

  /** A line and a column, both counted from 1. */
  datatype Location = Location(line: int, column: int)

  /** What the location of a position should be; without a table everything is on
      one line. */
  ghost predicate Locates(starts: seq<nat>, pos: nat, l: Location) {
    if starts == [] then l == Location(1, pos + 1)
    else IsLine(starts, l.line - 1, pos) && l.column == pos - starts[l.line - 1] + 1
  }

  lemma LocationIsUnique(starts: seq<nat>, pos: nat, l: Location, l': Location)
    requires Increasing(starts) && Locates(starts, pos, l) && Locates(starts, pos, l')
    ensures l == l'
  {
    if starts != [] {
      LineIsUnique(starts, l.line - 1, l'.line - 1, pos);
    }
  }

  /** The last line that starts at or before `pos`, by binary search. */
  method SearchLine(starts: seq<nat>, pos: nat) returns (found: int)
    requires Increasing(starts) && starts != [] && starts[0] == 0
    ensures IsLine(starts, found, pos)
  {
    var low, high := 0, |starts| - 1;
    found := 0;
    while low <= high
      invariant 0 <= low <= high + 1 <= |starts|
      invariant 0 <= found < |starts| && starts[found] <= pos && (low > 0 ==> found == low - 1)
                && (low == 0 ==> found == 0)
      invariant forall i :: high < i < |starts| ==> pos < starts[i]
      decreases high - low
    {
      var mid := low + (high - low) / 2;
      if starts[mid] <= pos {
        found := mid;
        low := mid + 1;
      } else {
        high := mid - 1;
      }
    }
  }

  /** The lookup without memory. Columns count from 1 or from 0; the position before
      the first token, -1, is at column 0 of line 1. */
  method LineAndColumn(starts: seq<nat>, pos: int, oneBased: bool) returns (l: Location)
    requires Increasing(starts) && (starts != [] ==> starts[0] == 0) && pos >= -1
    ensures pos == -1 ==> l == Location(1, 0)
    ensures pos >= 0 ==> Locates(starts, pos, if oneBased then l else l.(column := l.column + 1))
  {
    if pos == -1 {
      return Location(1, 0);
    }
    if starts == [] {
      return Location(1, pos + if oneBased then 1 else 0);
    }
    var found := SearchLine(starts, pos);
    return Location(found + 1, pos - starts[found] + if oneBased then 1 else 0);
  }

  /** A lookup that remembers the position and the line it last answered. */
  class LocationContext {
    const starts: seq<nat>
    var lastPosition: nat
    var lastLine: int
    var hasLast: bool

    constructor (starts: seq<nat>)
      requires Increasing(starts) && (starts != [] ==> starts[0] == 0)
      ensures Valid() && this.starts == starts
    {
      this.starts, lastPosition, lastLine, hasLast := starts, 0, 0, false;
    }

    ghost predicate Valid()
      reads this
    {
      && Increasing(starts) && (starts != [] ==> starts[0] == 0)
      && (hasLast ==> IsLine(starts, lastLine, lastPosition))
    }

    /** Stays on the remembered line if it fits, scans forward from it for a later
        position, and otherwise searches. */
    method Locate(pos: nat) returns (l: Location)
      requires Valid()
      modifies this
      ensures Valid() && Locates(starts, pos, l)
    {
      if starts == [] {
        return Location(1, pos + 1);
      }
      var line: int;
      if hasLast && pos >= starts[lastLine] && (lastLine + 1 >= |starts| || pos < starts[lastLine + 1]) {
        line := lastLine;
      } else if hasLast && pos >= lastPosition {
        line := lastLine;
        while line + 1 < |starts| && starts[line + 1] <= pos
          invariant 0 <= line < |starts| && starts[line] <= pos
          decreases |starts| - line
        {
          line := line + 1;
        }
      } else {
        line := SearchLine(starts, pos);
      }
      lastPosition, lastLine, hasLast := pos, line, true;
      return Location(line + 1, pos - starts[line] + 1);
    }
  }

  /** Any sequence of queries is answered as the lookup without memory answers them. */
  method LocateAll(context: LocationContext, queries: seq<nat>) returns (cached: seq<Location>, uncached: seq<Location>)
    requires context.Valid()
    modifies context
    ensures context.Valid() && |cached| == |queries| && cached == uncached
    ensures forall i :: 0 <= i < |queries| ==> Locates(context.starts, queries[i], cached[i])
  {
    cached, uncached := [], [];
    for i := 0 to |queries|
      invariant context.Valid() && |cached| == i && cached == uncached
      invariant forall j :: 0 <= j < i ==> Locates(context.starts, queries[j], cached[j])
    {
      var c := context.Locate(queries[i]);
      var u := LineAndColumn(context.starts, queries[i], true);
      LocationIsUnique(context.starts, queries[i], c, u);
      cached, uncached := cached + [c], uncached + [u];
    }
  }

  // ----- Which characters end lines -----

  /** A line starts at 0, after every LF, and after every CR that no LF follows. */
  lemma LinesStart(src: string, starts: seq<nat>, p: nat)
    requires IsLineTable(src, starts) && 0 < p <= |src|
    ensures 0 in starts
    ensures src[p - 1] == '\n' ==> p in starts
    ensures src[p - 1] == '\r' ==> (p in starts <==> p == |src| || src[p] != '\n')
    ensures src[p - 1] != '\n' && src[p - 1] != '\r' ==> p !in starts
  {
    assert starts[0] in starts;
  }

  /** In `ab`, a line feed and `cd`: the first letter is at line 1, column 1, and the
      last at line 2, column 2. Counted from 0 instead, the columns are 0 and 1. */
  lemma SecondLetterOfSecondLine(starts: seq<nat>, l: Location)
    requires IsLineTable("ab\ncd", starts)
    ensures Locates(starts, 0, l) ==> l == Location(1, 1)
    ensures Locates(starts, 4, l) ==> l == Location(2, 2)
  {
    var src := "ab\ncd";
    if Locates(starts, 0, l) {
      LineCountsBreaks(src, starts, l.line - 1, 0);
    }
    if Locates(starts, 4, l) {
      LineCountsBreaks(src, starts, l.line - 1, 4);
      BreaksOfTwoLines();
      assert starts[1] in starts && starts[0] < starts[1];
    }
  }

  lemma BreaksOfTwoLines()
    ensures BreaksUpTo("ab\ncd", 4) == 1
    ensures forall p :: BreakEndsAt("ab\ncd", p) <==> p == 3
  {
    var src := "ab\ncd";
    assert BreaksUpTo(src, 0) == 0 && BreaksUpTo(src, 1) == 0 && BreaksUpTo(src, 2) == 0;
    assert BreaksUpTo(src, 3) == 1;
  }
}
