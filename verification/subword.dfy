/** Moving a position by one subword. Inside a word the cursor stops at the nearest
    subword breakpoint (a lower-to-upper hump, or the edge of a digit, underscore or
    hyphen run); at the edge of a word it skips separators instead; a word written
    after `#` entirely in hexadecimal digits is a colour literal and is never split. */
module Subword {
  import opened Classify
  import opened Buffer
  import opened WordExtent
  import opened Separators

  /** Whether a subword starts at index `i` of `word`, judged from the characters on
      either side of it: a hump into upper case, or exactly one side a digit, an
      underscore or a hyphen. */
  predicate IsSubwordBreakpoint(word: string, i: int)
    requires 0 < i < |word|
    ensures IsSubwordBreakpoint(word, i) ==> word[i - 1] != word[i]
  {
    var prevChar, nextChar := word[i - 1], word[i];
    (!IsUpper(prevChar) && IsUpper(nextChar)) ||
    (IsDigit(prevChar) != IsDigit(nextChar)) ||
    ((prevChar == '_') != (nextChar == '_')) ||
    ((prevChar == '-') != (nextChar == '-'))
  }

  /** The breakpoint rule by classes of characters: a hump and every edge of a run of
      digits, underscores or hyphens is a breakpoint; two letters only break on a hump
      (never upper to lower, never within one case), and a run of digits, underscores
      or hyphens never breaks inside. */
  lemma BreakpointByClass(word: string, i: int)
    requires 0 < i < |word|
    ensures IsAsciiLower(word[i - 1]) && 'A' <= word[i] <= 'Z' ==> IsSubwordBreakpoint(word, i)
    ensures IsDigit(word[i - 1]) != IsDigit(word[i]) ==> IsSubwordBreakpoint(word, i)
    ensures (word[i - 1] == '_') != (word[i] == '_') ==> IsSubwordBreakpoint(word, i)
    ensures (word[i - 1] == '-') != (word[i] == '-') ==> IsSubwordBreakpoint(word, i)
    ensures 'A' <= word[i - 1] <= 'Z' && IsAsciiLower(word[i]) ==> !IsSubwordBreakpoint(word, i)
    ensures IsAsciiLower(word[i - 1]) && IsAsciiLower(word[i]) ==> !IsSubwordBreakpoint(word, i)
    ensures 'A' <= word[i - 1] <= 'Z' && 'A' <= word[i] <= 'Z' ==> !IsSubwordBreakpoint(word, i)
    ensures IsDigit(word[i - 1]) && IsDigit(word[i]) ==> !IsSubwordBreakpoint(word, i)
    ensures word[i - 1] == word[i] && (word[i] == '_' || word[i] == '-') ==> !IsSubwordBreakpoint(word, i)
  {
  }

  /** The largest breakpoint index in `1..j`, or 0 when there is none. */
  function LastBreakpoint(word: string, j: int): (b: nat)
    requires j < |word|
    ensures b <= j || b == 0
    ensures b > 0 ==> IsSubwordBreakpoint(word, b)
    ensures forall i :: b < i <= j && 0 < i ==> !IsSubwordBreakpoint(word, i)
    decreases j
  {
    if j <= 0 then 0
    else if IsSubwordBreakpoint(word, j) then j
    else LastBreakpoint(word, j - 1)
  }

  /** The smallest breakpoint index in `j..|word|-1`, or `|word|` when there is none. */
  function FirstBreakpoint(word: string, j: nat): (b: nat)
    requires 0 < j <= |word|
    ensures j <= b <= |word|
    ensures b < |word| ==> IsSubwordBreakpoint(word, b)
    ensures forall i :: j <= i < b ==> !IsSubwordBreakpoint(word, i)
    decreases |word| - j
  {
    if j == |word| then |word|
    else if IsSubwordBreakpoint(word, j) then j
    else FirstBreakpoint(word, j + 1)
  }

  /** `m` is the last breakpoint in `1..j` when it is one (or is 0) and none follows. */
  lemma {:induction false} LastBreakpointIs(word: string, j: int, m: nat)
    requires m <= j < |word|
    requires m > 0 ==> IsSubwordBreakpoint(word, m)
    requires forall i :: m < i <= j ==> !IsSubwordBreakpoint(word, i)
    ensures LastBreakpoint(word, j) == m
    decreases j
  {
    if m < j {
      LastBreakpointIs(word, j - 1, m);
    }
  }

  /** `m` is the first breakpoint in `j..|word|-1` when it is one (or is `|word|`) and
      none precedes it. */
  lemma {:induction false} FirstBreakpointIs(word: string, j: nat, m: nat)
    requires 0 < j <= m <= |word|
    requires m < |word| ==> IsSubwordBreakpoint(word, m)
    requires forall i :: j <= i < m ==> !IsSubwordBreakpoint(word, i)
    ensures FirstBreakpoint(word, j) == m
    decreases |word| - j
  {
    if j < m {
      FirstBreakpointIs(word, j + 1, m);
    }
  }

  /** The word before `start` is preceded by `#` and is made of hexadecimal digits. */
  predicate IsHexLiteral(doc: string, range: Range)
    requires ValidRange(doc, range)
    ensures IsHexLiteral(doc, range) ==> range.start > 0 && doc[range.start - 1] == '#'
  {
    PreviousCharacter(doc, range.start) == "#" && IsHexString(TextOf(doc, range))
  }

  /** Where a subword move to the left from `pos` lands. */
  function SubwordLeft(doc: string, pos: nat): (r: nat)
    requires pos <= |doc|
    ensures r <= pos
    ensures pos == 0 ==> r == 0
    ensures pos > 0 ==> r < pos
  {
    var range := WordRange(doc, pos, "");
    var word := TextOf(doc, range);
    if range.start == pos then SkipLeft(doc, pos)
    else if IsHexLiteral(doc, range) then range.start
    else range.start + LastBreakpoint(word, pos - 1 - range.start)
  }

  /** Where a subword move to the right from `pos` lands. */
  function SubwordRight(doc: string, pos: nat): (r: nat)
    requires pos <= |doc|
    ensures pos == |doc| ==> r == pos
    ensures pos < |doc| ==> pos < r <= |doc|
  {
    var range := WordRange(doc, pos, "");
    var word := TextOf(doc, range);
    if range.end == pos then SkipRight(doc, pos)
    else if IsHexLiteral(doc, range) then range.end
    else range.start + FirstBreakpoint(word, pos + 1 - range.start)
  }

  /** Inside a word that is not a colour literal, a left move is the scan for the last
      breakpoint below `pos`. */
  lemma SubwordLeftByScan(doc: string, pos: nat, range: Range)
    requires pos <= |doc| && range == WordRange(doc, pos, "")
    requires range.start < pos && !IsHexLiteral(doc, range)
    ensures SubwordLeft(doc, pos) == range.start + LastBreakpoint(TextOf(doc, range), pos - 1 - range.start)
  {
  }

  /** Inside a word that is not a colour literal, a right move is the scan for the first
      breakpoint above `pos`. */
  lemma SubwordRightByScan(doc: string, pos: nat, range: Range)
    requires pos <= |doc| && range == WordRange(doc, pos, "")
    requires pos < range.end && !IsHexLiteral(doc, range)
    ensures SubwordRight(doc, pos) == range.start + FirstBreakpoint(TextOf(doc, range), pos + 1 - range.start)
  {
  }

  /** A subword boundary of the word `range`: one of its edges or a breakpoint. */
  predicate IsBoundary(doc: string, range: Range, b: nat)
    requires ValidRange(doc, range)
  {
    b == range.start || b == range.end ||
    (range.start < b < range.end && IsSubwordBreakpoint(TextOf(doc, range), b - range.start))
  }

  /** From inside a word, a left move lands on the nearest subword boundary strictly
      before `pos`: the largest breakpoint below `pos`, or the word start. */
  lemma SubwordLeftInsideWord(doc: string, pos: nat)
    requires pos <= |doc|
    requires WordStart(doc, pos, "") < pos
    requires !IsHexLiteral(doc, WordRange(doc, pos, ""))
    ensures var range := WordRange(doc, pos, "");
      var r := SubwordLeft(doc, pos);
      range.start <= r < pos && IsBoundary(doc, range, r) &&
      forall i :: r - range.start < i < pos - range.start && 0 < i ==> !IsSubwordBreakpoint(TextOf(doc, range), i)
  {
    SubwordLeftByScan(doc, pos, WordRange(doc, pos, ""));
  }

  /** From inside a word, a right move lands on the nearest subword boundary strictly
      after `pos`: the smallest breakpoint above `pos`, or the word end. */
  lemma SubwordRightInsideWord(doc: string, pos: nat)
    requires pos <= |doc|
    requires pos < WordEnd(doc, pos, "")
    requires !IsHexLiteral(doc, WordRange(doc, pos, ""))
    ensures var range := WordRange(doc, pos, "");
      var r := SubwordRight(doc, pos);
      pos < r <= range.end && IsBoundary(doc, range, r) &&
      forall i :: pos - range.start < i < r - range.start ==> !IsSubwordBreakpoint(TextOf(doc, range), i)
  {
    SubwordRightByScan(doc, pos, WordRange(doc, pos, ""));
  }

  /** A colour literal is crossed whole: from inside it, a left move lands on its start
      and a right move on its end. */
  lemma HexLiteralIsAtomic(doc: string, pos: nat)
    requires pos <= |doc|
    requires IsHexLiteral(doc, WordRange(doc, pos, ""))
    ensures WordStart(doc, pos, "") < pos ==> SubwordLeft(doc, pos) == WordStart(doc, pos, "")
    ensures pos < WordEnd(doc, pos, "") ==> SubwordRight(doc, pos) == WordEnd(doc, pos, "")
  {
  }

  /** At the edge of a word (or outside any word) a move skips separators instead. */
  lemma MoveAtWordEdgeSkipsSeparators(doc: string, pos: nat)
    requires pos <= |doc|
    ensures WordStart(doc, pos, "") == pos ==> SubwordLeft(doc, pos) == SkipLeft(doc, pos)
    ensures WordEnd(doc, pos, "") == pos ==> SubwordRight(doc, pos) == SkipRight(doc, pos)
  {
  }

  /** A boundary past the word start is a breakpoint of the word or its end. */
  lemma BoundaryAfterStart(doc: string, range: Range, b: nat)
    requires ValidRange(doc, range) && range.start < b
    requires IsBoundary(doc, range, b)
    ensures b - range.start == |TextOf(doc, range)| || IsSubwordBreakpoint(TextOf(doc, range), b - range.start)
  {
  }

  /** A boundary before the word end is the word start or a breakpoint of the word. */
  lemma BoundaryBeforeEnd(doc: string, range: Range, b: nat)
    requires ValidRange(doc, range) && range.start <= b < range.end
    requires IsBoundary(doc, range, b)
    ensures b == range.start || IsSubwordBreakpoint(TextOf(doc, range), b - range.start)
  {
  }

  /** Within one word: the first breakpoint after the last breakpoint below `m` is
      `m` itself, when `m` is a breakpoint or the word end. */
  lemma {:induction false} FirstAfterLast(word: string, m: nat)
    requires 0 < m <= |word|
    requires m == |word| || IsSubwordBreakpoint(word, m)
    ensures FirstBreakpoint(word, LastBreakpoint(word, m - 1) + 1) == m
  {
    var lb := LastBreakpoint(word, m - 1);
    assert lb <= m - 1;
    forall i | lb + 1 <= i < m
      ensures !IsSubwordBreakpoint(word, i)
    {
    }
    FirstBreakpointIs(word, lb + 1, m);
  }

  /** Within one word: the last breakpoint before the first breakpoint above `m` is
      `m` itself, when `m` is a breakpoint or the word start. */
  lemma {:induction false} LastAfterFirst(word: string, m: nat)
    requires m < |word|
    requires m == 0 || IsSubwordBreakpoint(word, m)
    ensures LastBreakpoint(word, FirstBreakpoint(word, m + 1) - 1) == m
  {
    LastBreakpointIs(word, FirstBreakpoint(word, m + 1) - 1, m);
  }

  /** A right move from a subword boundary followed by a left move comes back to it,
      unless the word is a colour literal. */
  lemma LeftUndoesRight(doc: string, b: nat)
    requires b <= |doc|
    requires var range := WordRange(doc, b, "");
      b < range.end && IsBoundary(doc, range, b) && !IsHexLiteral(doc, range)
    ensures SubwordLeft(doc, SubwordRight(doc, b)) == b
  {
    var range := WordRange(doc, b, "");
    var word := TextOf(doc, range);
    SubwordRightByScan(doc, b, range);
    var r := SubwordRight(doc, b);
    WordRangeSymmetric(doc, b, r, "");
    SubwordLeftByScan(doc, r, range);
    BoundaryBeforeEnd(doc, range, b);
    LastAfterFirst(word, b - range.start);
  }

  /** A left move from a subword boundary followed by a right move comes back to it,
      unless the word is a colour literal. */
  lemma RightUndoesLeft(doc: string, b: nat)
    requires b <= |doc|
    requires var range := WordRange(doc, b, "");
      range.start < b && IsBoundary(doc, range, b) && !IsHexLiteral(doc, range)
    ensures SubwordRight(doc, SubwordLeft(doc, b)) == b
  {
    var range := WordRange(doc, b, "");
    var word := TextOf(doc, range);
    SubwordLeftByScan(doc, b, range);
    var r := SubwordLeft(doc, b);
    WordRangeSymmetric(doc, b, r, "");
    SubwordRightByScan(doc, r, range);
    BoundaryAfterStart(doc, range, b);
    FirstAfterLast(word, b - range.start);
  }

  /** The leftward move of the source: extend to the word, fall back to the separator
      skip at the word start, keep a colour literal whole, and otherwise scan down from
      just below the cursor for a breakpoint. */
  method MovePositionSubwordLeft(doc: string, pos: nat) returns (r: nat)
    requires pos <= |doc|
    ensures r == SubwordLeft(doc, pos)
  {
    var range := ExtendToWord(doc, pos, "");
    var word := TextOf(doc, range);
    if range.start == pos {
      r := MoveLeftPastSpaces(doc, pos);
      return;
    }
    if PreviousCharacter(doc, range.start) == "#" {
      var hex := IsHexadecimalString(word);
      if hex {
        return range.start;
      }
    }
    var i := pos - 1 - range.start;
    while i > 0
      invariant 0 <= i <= pos - 1 - range.start
      invariant LastBreakpoint(word, i) == LastBreakpoint(word, pos - 1 - range.start)
      decreases i
    {
      if IsSubwordBreakpoint(word, i) {
        return range.start + i;
      }
      i := i - 1;
    }
    r := range.start;
  }

  /** The rightward move of the source, mirrored: the separator skip at the word end,
      the colour literal whole, otherwise a scan up from just above the cursor. */
  method MovePositionSubwordRight(doc: string, pos: nat) returns (r: nat)
    requires pos <= |doc|
    ensures r == SubwordRight(doc, pos)
  {
    var range := ExtendToWord(doc, pos, "");
    var word := TextOf(doc, range);
    if range.end == pos {
      r := MoveRightPastSpaces(doc, pos);
      return;
    }
    if PreviousCharacter(doc, range.start) == "#" {
      var hex := IsHexadecimalString(word);
      if hex {
        return range.end;
      }
    }
    var i := pos + 1 - range.start;
    while i < |word|
      invariant pos + 1 - range.start <= i <= |word|
      invariant FirstBreakpoint(word, i) == FirstBreakpoint(word, pos + 1 - range.start)
      decreases |word| - i
    {
      if IsSubwordBreakpoint(word, i) {
        return range.start + i;
      }
      i := i + 1;
    }
    r := range.end;
  }

  // Worked examples.

  /** In a document that is one word, every position has the whole document as its word. */
  lemma OneWordDocument(doc: string, pos: nat)
    requires pos <= |doc|
    requires forall k :: 0 <= k < |doc| ==> InWord(doc, k, "")
    ensures WordRange(doc, pos, "") == Range(0, |doc|)
  {
    WordStartUnique(doc, pos, 0, "");
    WordEndUnique(doc, pos, |doc|, "");
  }

  /** The breakpoints of `fooBarBaz` are the humps before each `B`: from index 1 the
      first is at 3, from index 4 it is at 6, and from index 7 there is none. */
  lemma CamelCaseFirstHump(doc: string)
    requires doc == "fooBarBaz"
    ensures FirstBreakpoint(doc, 1) == 3
  {
    assert doc[0] == 'f' && doc[1] == 'o' && doc[2] == 'o' && doc[3] == 'B';
    assert IsSubwordBreakpoint(doc, 3) && FirstBreakpoint(doc, 3) == 3;
    assert !IsSubwordBreakpoint(doc, 2) && FirstBreakpoint(doc, 2) == 3;
    assert !IsSubwordBreakpoint(doc, 1);
  }

  lemma CamelCaseSecondHump(doc: string)
    requires doc == "fooBarBaz"
    ensures FirstBreakpoint(doc, 4) == 6
    ensures LastBreakpoint(doc, 8) == 6
  {
    assert doc[3] == 'B' && doc[4] == 'a' && doc[5] == 'r' && doc[6] == 'B';
    assert doc[7] == 'a' && doc[8] == 'z';
    assert IsSubwordBreakpoint(doc, 6) && FirstBreakpoint(doc, 6) == 6;
    assert !IsSubwordBreakpoint(doc, 5) && FirstBreakpoint(doc, 5) == 6;
    assert !IsSubwordBreakpoint(doc, 4);
    assert !IsSubwordBreakpoint(doc, 8) && !IsSubwordBreakpoint(doc, 7);
    assert LastBreakpoint(doc, 7) == 6;
  }

  lemma CamelCaseLastSubword(doc: string)
    requires doc == "fooBarBaz"
    ensures FirstBreakpoint(doc, 7) == 9
  {
    assert doc[6] == 'B' && doc[7] == 'a' && doc[8] == 'z';
    assert !IsSubwordBreakpoint(doc, 8) && FirstBreakpoint(doc, 8) == 9;
    assert !IsSubwordBreakpoint(doc, 7);
  }

  /** Right moves through `fooBarBaz` from its start stop before each hump, then at
      the end; a left move from the end stops before the last hump. */
  lemma CamelCaseStops(doc: string)
    requires doc == "fooBarBaz"
    ensures SubwordRight(doc, 0) == 3
    ensures SubwordRight(doc, 3) == 6
    ensures SubwordRight(doc, 6) == 9
    ensures SubwordLeft(doc, 9) == 6
  {
    assert forall k :: 0 <= k < |doc| ==> InWord(doc, k, "");
    OneWordDocument(doc, 0);
    OneWordDocument(doc, 3);
    OneWordDocument(doc, 6);
    OneWordDocument(doc, 9);
    assert TextOf(doc, Range(0, 9)) == doc;
    assert !IsHexLiteral(doc, Range(0, 9));
    CamelCaseFirstHump(doc);
    CamelCaseSecondHump(doc);
    CamelCaseLastSubword(doc);
  }

  /** The breakpoints of `item2Count` are both sides of the digit: from index 1 the
      first is at 4, index 5 is one, and from index 6 there is none. */
  lemma DigitRunEntry(doc: string)
    requires doc == "item2Count"
    ensures FirstBreakpoint(doc, 1) == 4
  {
    assert doc[0] == 'i' && doc[1] == 't' && doc[2] == 'e' && doc[3] == 'm' && doc[4] == '2';
    assert IsSubwordBreakpoint(doc, 4) && FirstBreakpoint(doc, 4) == 4;
    assert !IsSubwordBreakpoint(doc, 3) && FirstBreakpoint(doc, 3) == 4;
    assert !IsSubwordBreakpoint(doc, 2) && FirstBreakpoint(doc, 2) == 4;
    assert !IsSubwordBreakpoint(doc, 1);
  }

  lemma DigitRunExit(doc: string)
    requires doc == "item2Count"
    ensures FirstBreakpoint(doc, 5) == 5
  {
    assert doc[4] == '2' && doc[5] == 'C';
    assert IsSubwordBreakpoint(doc, 5);
  }

  lemma DigitRunLastSubword(doc: string)
    requires doc == "item2Count"
    ensures FirstBreakpoint(doc, 6) == 10
  {
    assert doc[5] == 'C' && doc[6] == 'o' && doc[7] == 'u' && doc[8] == 'n' && doc[9] == 't';
    assert !IsSubwordBreakpoint(doc, 9) && FirstBreakpoint(doc, 9) == 10;
    assert !IsSubwordBreakpoint(doc, 8) && FirstBreakpoint(doc, 8) == 10;
    assert !IsSubwordBreakpoint(doc, 7) && FirstBreakpoint(doc, 7) == 10;
    assert !IsSubwordBreakpoint(doc, 6);
  }

  /** In `item2Count` the digit is a subword of its own. */
  lemma DigitRunStops(doc: string)
    requires doc == "item2Count"
    ensures SubwordRight(doc, 0) == 4
    ensures SubwordRight(doc, 4) == 5
    ensures SubwordRight(doc, 5) == 10
  {
    assert forall k :: 0 <= k < |doc| ==> InWord(doc, k, "");
    OneWordDocument(doc, 0);
    OneWordDocument(doc, 4);
    OneWordDocument(doc, 5);
    assert TextOf(doc, Range(0, 10)) == doc;
    assert !IsHexLiteral(doc, Range(0, 10));
    DigitRunEntry(doc);
    DigitRunExit(doc);
    DigitRunLastSubword(doc);
  }

  /** A run of four spaces is crossed in one leftward step. */
  lemma SpaceRunIsOneStep(doc: string)
    requires doc == "a    b"
    ensures SubwordLeft(doc, 5) == 1
  {
    assert doc[0] == 'a' && doc[1] == ' ' && doc[2] == ' ' && doc[3] == ' ' && doc[4] == ' ';
    WordStartUnique(doc, 5, 5, "");
    assert RunStart(doc, 1, ' ') == 1;
    assert RunStart(doc, 4, ' ') == RunStart(doc, 3, ' ') == RunStart(doc, 2, ' ') == 1;
  }

  /** From inside `#ff00aa` the moves reach the ends of the literal. */
  lemma ColourLiteralStops(doc: string)
    requires doc == "#ff00aa"
    ensures SubwordLeft(doc, 4) == 1
    ensures SubwordRight(doc, 4) == 7
  {
    assert doc[0] == '#' && doc[1] == 'f' && doc[2] == 'f' && doc[3] == '0';
    assert doc[4] == '0' && doc[5] == 'a' && doc[6] == 'a';
    WordStartUnique(doc, 4, 1, "");
    WordEndUnique(doc, 4, 7, "");
    assert PreviousCharacter(doc, 1) == "#";
    assert IsHexString(TextOf(doc, Range(1, 7)));
    HexLiteralIsAtomic(doc, 4);
  }
}
