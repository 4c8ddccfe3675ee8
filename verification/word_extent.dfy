/** Finding the word around a position: scan outward one character at a time while the
    character crossed is a word character, stopping at the edge of the line. */
module WordExtent {
  import opened Classify
  import opened Buffer

  /** The character at offset `k` belongs to a word. A line break never does: the scan
      stops at column 0 going left and reads an empty text at the line end going right. */
  predicate InWord(doc: string, k: nat, xtra: string)
    requires k < |doc|
  {
    doc[k] != '\n' && IsWordChar(doc[k], xtra)
  }

  /** The start of the word around `pos`: the smallest offset from which every character
      up to `pos` is a word character. */
  function WordStart(doc: string, pos: nat, xtra: string): (s: nat)
    requires pos <= |doc|
    ensures s <= pos
    ensures forall k :: s <= k < pos ==> InWord(doc, k, xtra)
    ensures s == 0 || !InWord(doc, s - 1, xtra)
    decreases pos
  {
    if pos > 0 && InWord(doc, pos - 1, xtra) then WordStart(doc, pos - 1, xtra) else pos
  }

  /** The end of the word around `pos`: the largest offset up to which every character
      from `pos` is a word character. */
  function WordEnd(doc: string, pos: nat, xtra: string): (e: nat)
    requires pos <= |doc|
    ensures pos <= e <= |doc|
    ensures forall k :: pos <= k < e ==> InWord(doc, k, xtra)
    ensures e == |doc| || !InWord(doc, e, xtra)
    decreases |doc| - pos
  {
    if pos < |doc| && InWord(doc, pos, xtra) then WordEnd(doc, pos + 1, xtra) else pos
  }

  /** The word range around `pos`; empty when `pos` touches no word character. */
  function WordRange(doc: string, pos: nat, xtra: string): (r: Range)
    requires pos <= |doc|
    ensures ValidRange(doc, r) && r.start <= pos <= r.end
  {
    Range(WordStart(doc, pos, xtra), WordEnd(doc, pos, xtra))
  }

  /** The word range is made of word characters and cannot be widened on either side. */
  lemma WordRangeIsMaximal(doc: string, pos: nat, xtra: string)
    requires pos <= |doc|
    ensures var r := WordRange(doc, pos, xtra);
      (forall k :: r.start <= k < r.end ==> InWord(doc, k, xtra)) &&
      (r.start == 0 || !InWord(doc, r.start - 1, xtra)) &&
      (r.end == |doc| || !InWord(doc, r.end, xtra))
  {
  }

  /** The word start is determined by the characters alone: any offset `s` with the
      three properties of `WordStart` is it. */
  lemma {:induction false} WordStartUnique(doc: string, pos: nat, s: nat, xtra: string)
    requires s <= pos <= |doc|
    requires forall k :: s <= k < pos ==> InWord(doc, k, xtra)
    requires s == 0 || !InWord(doc, s - 1, xtra)
    ensures WordStart(doc, pos, xtra) == s
    decreases pos
  {
    if s < pos {
      WordStartUnique(doc, pos - 1, s, xtra);
    }
  }

  lemma {:induction false} WordEndUnique(doc: string, pos: nat, e: nat, xtra: string)
    requires pos <= e <= |doc|
    requires forall k :: pos <= k < e ==> InWord(doc, k, xtra)
    requires e == |doc| || !InWord(doc, e, xtra)
    ensures WordEnd(doc, pos, xtra) == e
    decreases e - pos
  {
    if pos < e {
      WordEndUnique(doc, pos + 1, e, xtra);
    }
  }

  /** Scanning again from an edge that a scan returned gives back the same edge. */
  lemma WordEdgesAreFixedPoints(doc: string, pos: nat, xtra: string)
    requires pos <= |doc|
    ensures WordStart(doc, WordStart(doc, pos, xtra), xtra) == WordStart(doc, pos, xtra)
    ensures WordEnd(doc, WordEnd(doc, pos, xtra), xtra) == WordEnd(doc, pos, xtra)
  {
    var s, e := WordStart(doc, pos, xtra), WordEnd(doc, pos, xtra);
    WordStartUnique(doc, s, s, xtra);
    WordEndUnique(doc, e, e, xtra);
  }

  /** Every position of a word, its edges included, yields the same word range. */
  lemma WordRangeSymmetric(doc: string, pos: nat, q: nat, xtra: string)
    requires pos <= |doc|
    requires WordStart(doc, pos, xtra) <= q <= WordEnd(doc, pos, xtra)
    ensures WordRange(doc, q, xtra) == WordRange(doc, pos, xtra)
  {
    var s, e := WordStart(doc, pos, xtra), WordEnd(doc, pos, xtra);
    WordStartUnique(doc, q, s, xtra);
    WordEndUnique(doc, q, e, xtra);
  }

  /** The scan of the source: from `pos`, step one character in direction `delta` while
      the text crossed passes the word-character test; going left, stop at column 0. */
  method FindEndOrBeginningOfWord(doc: string, pos: nat, delta: int, xtra: string) returns (edge: nat)
    requires pos <= |doc|
    requires delta == 1 || delta == -1
    ensures edge == if delta == 1 then WordEnd(doc, pos, xtra) else WordStart(doc, pos, xtra)
  {
    var prev: nat := pos;
    while true
      invariant prev <= |doc|
      invariant delta == -1 ==> WordStart(doc, prev, xtra) == WordStart(doc, pos, xtra)
      invariant delta == 1 ==> WordEnd(doc, prev, xtra) == WordEnd(doc, pos, xtra)
      decreases if delta == 1 then |doc| - prev else prev
    {
      if AtColumnZero(doc, prev) && delta < 0 {
        break;
      }
      var word := StepText(doc, prev, delta);
      var isWord := IsAlphanumeric(word, xtra);
      if |word| == 1 {
        AlphanumericSingle(word[0], xtra);
      }
      if !isWord {
        break;
      }
      prev := prev + delta;
    }
    edge := prev;
  }

  method FindEndOfWord(doc: string, pos: nat, xtra: string) returns (edge: nat)
    requires pos <= |doc|
    ensures edge == WordEnd(doc, pos, xtra)
  {
    edge := FindEndOrBeginningOfWord(doc, pos, 1, xtra);
  }

  method FindBeginningOfWord(doc: string, pos: nat, xtra: string) returns (edge: nat)
    requires pos <= |doc|
    ensures edge == WordStart(doc, pos, xtra)
  {
    edge := FindEndOrBeginningOfWord(doc, pos, -1, xtra);
  }

  /** The range from the beginning to the end of the word around `pos`. */
  method ExtendToWord(doc: string, pos: nat, xtra: string) returns (r: Range)
    requires pos <= |doc|
    ensures r == WordRange(doc, pos, xtra)
  {
    var beginning := FindBeginningOfWord(doc, pos, xtra);
    var end := FindEndOfWord(doc, pos, xtra);
    r := Range(beginning, end);
  }
}
