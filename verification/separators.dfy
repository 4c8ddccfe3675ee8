/** Skipping separators when the cursor is at the edge of a word. A run of one repeated
    space, tab, `|` or `&` is crossed as a single unit; any other character is a unit of
    one. */
module Separators {
  import opened Buffer

  const SeparatorChars := " \t|&"

  predicate IsSeparator(c: char) {
    c in SeparatorChars
  }

  /** The start of the run of `c` that ends at offset `i`. */
  function RunStart(doc: string, i: nat, c: char): (s: nat)
    requires i <= |doc|
    ensures s <= i
    ensures forall k :: s <= k < i ==> doc[k] == c
    ensures s == 0 || doc[s - 1] != c
    decreases i
  {
    if i > 0 && doc[i - 1] == c then RunStart(doc, i - 1, c) else i
  }

  /** The end of the run of `c` that starts at offset `i`. */
  function RunEnd(doc: string, i: nat, c: char): (e: nat)
    requires i <= |doc|
    ensures i <= e <= |doc|
    ensures forall k :: i <= k < e ==> doc[k] == c
    ensures e == |doc| || doc[e] != c
    decreases |doc| - i
  {
    if i < |doc| && doc[i] == c then RunEnd(doc, i + 1, c) else i
  }

  /** Where a leftward skip from `pos` lands: one character back over a non-separator,
      back to the start of the whole run over a separator, and nowhere at offset 0. */
  function SkipLeft(doc: string, pos: nat): (r: nat)
    requires pos <= |doc|
    ensures pos == 0 ==> r == 0
    ensures pos > 0 ==> r < pos
    ensures pos > 0 && !IsSeparator(doc[pos - 1]) ==> r == pos - 1
  {
    if pos == 0 then 0
    else if IsSeparator(doc[pos - 1]) then RunStart(doc, pos - 1, doc[pos - 1])
    else pos - 1
  }

  /** Over a separator, the leftward skip crosses the whole run of that character and
      no more. */
  lemma SkipLeftCrossesRun(doc: string, pos: nat)
    requires 0 < pos <= |doc| && IsSeparator(doc[pos - 1])
    ensures var r := SkipLeft(doc, pos);
      (forall k :: r <= k < pos ==> doc[k] == doc[pos - 1]) && (r == 0 || doc[r - 1] != doc[pos - 1])
  {
  }

  /** Where a rightward skip from `pos` lands: nowhere at the document end, one
      character on over a non-separator, to the end of the whole run over a separator. */
  function SkipRight(doc: string, pos: nat): (r: nat)
    requires pos <= |doc|
    ensures pos == |doc| ==> r == pos
    ensures pos < |doc| ==> pos < r <= |doc|
    ensures pos < |doc| && !IsSeparator(doc[pos]) ==> r == pos + 1
  {
    if pos == |doc| then pos
    else if IsSeparator(doc[pos]) then RunEnd(doc, pos + 1, doc[pos])
    else pos + 1
  }

  /** Over a separator, the rightward skip crosses the whole run of that character and
      no more. */
  lemma SkipRightCrossesRun(doc: string, pos: nat)
    requires pos < |doc| && IsSeparator(doc[pos])
    ensures var r := SkipRight(doc, pos);
      (forall k :: pos <= k < r ==> doc[k] == doc[pos]) && (r == |doc| || doc[r] != doc[pos])
  {
  }

  /** The leftward skip: read the character left of the cursor; over a non-separator
      step one back, over a separator step back while the character left of the offset
      is still that separator. At offset 0 there is nothing to skip and the position is
      returned unchanged (the source lacks this guard; see `MoveLeftPastSpacesAsWritten`). */
  method MoveLeftPastSpaces(doc: string, pos: nat) returns (r: nat)
    requires pos <= |doc|
    ensures r == SkipLeft(doc, pos)
  {
    var offset: nat := pos;
    var firstChar := CharLeft(doc, offset);
    if |firstChar| == 0 {
      return pos;
    }
    if firstChar[0] !in SeparatorChars {
      return offset - 1;
    }
    ghost var c := doc[pos - 1];
    offset := offset - 1;
    while CharLeft(doc, offset) == firstChar
      invariant offset < pos
      invariant RunStart(doc, offset, c) == RunStart(doc, pos - 1, c)
      decreases offset
    {
      offset := offset - 1;
    }
    r := offset;
  }

  /** The rightward skip: at the document end the position is returned unchanged;
      otherwise as the leftward skip, mirrored. */
  method MoveRightPastSpaces(doc: string, pos: nat) returns (r: nat)
    requires pos <= |doc|
    ensures r == SkipRight(doc, pos)
  {
    var offset: nat := pos;
    var firstChar := CharRight(doc, offset);
    if |firstChar| == 0 {
      return pos;
    }
    if firstChar[0] !in SeparatorChars {
      return offset + 1;
    }
    ghost var c := doc[pos];
    offset := offset + 1;
    while CharRight(doc, offset) == firstChar
      invariant pos < offset <= |doc|
      invariant RunEnd(doc, offset, c) == RunEnd(doc, pos + 1, c)
      decreases |doc| - offset
    {
      offset := offset + 1;
    }
    r := offset;
  }

  // The leftward skip as the source writes it, without the offset-0 guard. Offsets may
  // go below zero there; the host clamps them to the document start, where the text to
  // the left is empty.

  /** How a run of the do-while loop ends: it exits at an offset, or it is still
      looping when the given number of iterations is used up. */
  datatype LoopOutcome = Exited(offset: int) | StillLooping

  function CharLeftClamped(doc: string, offset: int): (t: string)
    requires offset <= |doc|
    ensures offset <= 0 ==> t == ""
    ensures offset > 0 ==> t == [doc[offset - 1]]
    ensures 0 <= offset ==> t == CharLeft(doc, offset)
  {
    if offset <= 0 then "" else doc[offset - 1..offset]
  }

  /** Whether the separator list contains a string of at most one character, as a
      substring test does: the empty string is contained in every string. */
  predicate SeparatorsInclude(t: string)
    requires |t| <= 1
    ensures t == "" ==> SeparatorsInclude(t)
  {
    t == "" || IsSeparator(t[0])
  }

  /** `t` occurs in `s` starting at index `k`. */
  predicate OccursAt(s: string, t: string, k: int) {
    0 <= k <= |s| - |t| && s[k..k + |t|] == t
  }

  /** The substring test of strings: `t` occurs in `s` at some index. */
  ghost predicate Includes(s: string, t: string) {
    exists k :: OccursAt(s, t, k)
  }

  /** On texts of at most one character, `SeparatorsInclude` is exactly the substring
      test against the separator list. */
  lemma SeparatorsIncludeIsSubstringTest(t: string)
    requires |t| <= 1
    ensures SeparatorsInclude(t) <==> Includes(SeparatorChars, t)
  {
    if t == "" {
      assert OccursAt(SeparatorChars, t, 0);
    } else {
      assert t == [t[0]];
      forall k | 0 <= k < |SeparatorChars|
        ensures SeparatorChars[k..k + 1] == [SeparatorChars[k]]
      {
      }
      if t[0] == ' ' {
        assert OccursAt(SeparatorChars, t, 0);
      } else if t[0] == '\t' {
        assert OccursAt(SeparatorChars, t, 1);
      } else if t[0] == '|' {
        assert OccursAt(SeparatorChars, t, 2);
      } else if t[0] == '&' {
        assert OccursAt(SeparatorChars, t, 3);
      } else {
        assert !IsSeparator(t[0]);
        forall k
          ensures !OccursAt(SeparatorChars, t, k)
        {
          if 0 <= k < |SeparatorChars| {
            assert SeparatorChars[k] != t[0];
          }
        }
      }
    }
  }

  /** At most `fuel` iterations of "decrement the offset while the character left of it
      equals `first`". */
  function LeftSkipLoop(doc: string, offset: int, first: string, fuel: nat): (r: LoopOutcome)
    requires offset <= |doc|
    ensures fuel == 0 ==> r == StillLooping
    ensures r.Exited? ==> offset - fuel <= r.offset < offset
    decreases fuel
  {
    if fuel == 0 then StillLooping
    else if CharLeftClamped(doc, offset - 1) == first then LeftSkipLoop(doc, offset - 1, first, fuel - 1)
    else Exited(offset - 1)
  }

  function MoveLeftPastSpacesAsWritten(doc: string, offset: nat, fuel: nat): (r: LoopOutcome)
    requires offset <= |doc|
    ensures r.Exited? ==> r.offset < offset
  {
    var first := CharLeftClamped(doc, offset);
    if !SeparatorsInclude(first) then Exited(offset - 1)
    else LeftSkipLoop(doc, offset, first, fuel)
  }

  lemma {:induction false} LeftSkipLoopBeforeStart(doc: string, offset: int, fuel: nat)
    requires offset <= 0
    ensures LeftSkipLoop(doc, offset, "", fuel) == StillLooping
    decreases fuel
  {
    if fuel > 0 {
      LeftSkipLoopBeforeStart(doc, offset - 1, fuel - 1);
    }
  }

  /** At offset 0 the source's loop never exits, however many iterations it is given. */
  lemma AsWrittenLeftSkipDivergesAtStart(doc: string, fuel: nat)
    ensures MoveLeftPastSpacesAsWritten(doc, 0, fuel) == StillLooping
  {
    LeftSkipLoopBeforeStart(doc, 0, fuel);
  }

  lemma {:induction false} LeftSkipLoopFindsRunStart(doc: string, offset: nat, c: char, fuel: nat)
    requires 0 < offset <= |doc| && doc[offset - 1] == c
    requires fuel >= offset
    ensures LeftSkipLoop(doc, offset, [c], fuel) == Exited(RunStart(doc, offset - 1, c))
    decreases offset
  {
    if offset > 1 && doc[offset - 2] == c {
      assert CharLeftClamped(doc, offset - 1) == [c];
      LeftSkipLoopFindsRunStart(doc, offset - 1, c, fuel - 1);
      assert RunStart(doc, offset - 1, c) == RunStart(doc, offset - 2, c);
    } else if offset > 1 {
      assert CharLeftClamped(doc, offset - 1) == [doc[offset - 2]];
      assert [doc[offset - 2]][0] != [c][0];
      assert RunStart(doc, offset - 1, c) == offset - 1;
    } else {
      assert CharLeftClamped(doc, offset - 1) == "";
      assert RunStart(doc, offset - 1, c) == offset - 1;
    }
  }

  /** Away from offset 0 the source's loop exits within `offset` iterations, at the
      offset `SkipLeft` gives. */
  lemma AsWrittenLeftSkipAgreesAwayFromStart(doc: string, offset: nat)
    requires 0 < offset <= |doc|
    ensures MoveLeftPastSpacesAsWritten(doc, offset, offset) == Exited(SkipLeft(doc, offset))
  {
    var c := doc[offset - 1];
    var first := CharLeftClamped(doc, offset);
    assert first == [c];
    if IsSeparator(c) {
      assert SeparatorsInclude(first);
      LeftSkipLoopFindsRunStart(doc, offset, c, offset);
    } else {
      assert !SeparatorsInclude(first);
    }
  }
}
