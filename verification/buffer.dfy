/** The text buffer as the navigation code sees it: a document is a string with LF line
    endings, a position is an offset `0..|doc|`, and the few host reads the code makes
    (the text of a range, the character left or right of an offset) are functions on
    that string. */
module Buffer {

  /** A span `[start, end)` of offsets. */
  datatype Range = Range(start: nat, end: nat)

  predicate ValidRange(doc: string, r: Range) {
    r.start <= r.end <= |doc|
  }

  function TextOf(doc: string, r: Range): (t: string)
    requires ValidRange(doc, r)
    ensures |t| == r.end - r.start
  {
    doc[r.start..r.end]
  }

  /** An offset is at column 0 when it starts the document or follows a line break. */
  predicate AtColumnZero(doc: string, p: nat)
    requires p <= |doc|
    ensures AtColumnZero(doc, p) <==> CharLeft(doc, p) == "" || CharLeft(doc, p) == "\n"
  {
    p == 0 || doc[p - 1] == '\n'
  }

  /** The text between a position and the position one character further in
      direction `delta` on the same line. Going right from the end of a line, the host
      clamps the translated position back to the line end, so the text is empty. */
  function StepText(doc: string, p: nat, delta: int): (t: string)
    requires p <= |doc|
    requires delta == 1 || delta == -1
    requires delta == -1 ==> !AtColumnZero(doc, p)
    ensures |t| <= 1
    ensures |t| == 1 ==> t[0] != '\n'
    ensures delta == -1 ==> t == [doc[p - 1]]
    ensures delta == 1 && p < |doc| && doc[p] != '\n' ==> t == [doc[p]]
    ensures delta == 1 && (p == |doc| || doc[p] == '\n') ==> t == ""
  {
    if delta == -1 then doc[p - 1..p]
    else if p < |doc| && doc[p] != '\n' then doc[p..p + 1]
    else ""
  }

  /** The character left of an offset; the host clamps the offset before the document
      start, so at offset 0 the text is empty. On LF-only text the source's
      "exactly one character unless at offset 0" assertion never fails. */
  function CharLeft(doc: string, offset: nat): (t: string)
    requires offset <= |doc|
    ensures offset == 0 <==> t == ""
    ensures offset > 0 ==> t == [doc[offset - 1]]
  {
    if offset == 0 then "" else doc[offset - 1..offset]
  }

  /** The character right of an offset; empty at the document end. */
  function CharRight(doc: string, offset: nat): (t: string)
    requires offset <= |doc|
    ensures offset == |doc| <==> t == ""
    ensures offset < |doc| ==> t == [doc[offset]]
  {
    if offset < |doc| then doc[offset..offset + 1] else ""
  }

  /** The character just before a position, or the empty string at the document start. */
  function PreviousCharacter(doc: string, p: nat): (t: string)
    requires p <= |doc|
    ensures p == 0 <==> t == ""
    ensures p > 0 ==> t == [doc[p - 1]]
  {
    if p == 0 then "" else doc[p - 1..p]
  }
}
