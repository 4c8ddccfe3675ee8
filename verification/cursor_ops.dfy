/** The editor commands: every selection is moved by a subword on its own, and the new
    selections replace the old ones together. A selection is an anchor and an active
    end; moving changes the active end and, unless extending, brings the anchor along. */
module CursorOps {
  import opened Buffer
  import opened Subword

  datatype Selection = Selection(anchor: nat, active: nat) {
    /** A caret: no text is selected. */
    predicate IsEmpty()
      ensures IsEmpty() <==> ToRange().start == ToRange().end
    {
      anchor == active
    }

    /** The selected text as a range, whichever end is first. */
    function ToRange(): (r: Range)
      ensures r.start <= r.end
      ensures (r.start == anchor && r.end == active) || (r.start == active && r.end == anchor)
    {
      if anchor <= active then Range(anchor, active) else Range(active, anchor)
    }
  }

  /** The active end lies before the anchor. */
  function SelectionIsInverted(s: Selection): (r: bool)
    ensures r ==> !s.IsEmpty() && !SelectionIsNonInverted(s)
  {
    s.active < s.anchor
  }

  /** The active end lies after the anchor. */
  function SelectionIsNonInverted(s: Selection): (r: bool)
    ensures r ==> !s.IsEmpty()
  {
    s.anchor < s.active
  }

  /** Every selection is exactly one of a caret, inverted or non-inverted. */
  lemma SelectionOrientation(s: Selection)
    ensures s.IsEmpty() || SelectionIsInverted(s) || SelectionIsNonInverted(s)
    ensures !(SelectionIsInverted(s) && SelectionIsNonInverted(s))
  {
  }

  /** The selection after its active end moves to `newActive`: the anchor stays when
      extending, and otherwise the result is a caret at `newActive`. */
  function MovedSelection(s: Selection, newActive: nat, extend: bool): (m: Selection)
    ensures m.active == newActive
    ensures extend ==> m.anchor == s.anchor
    ensures !extend ==> m.IsEmpty()
  {
    Selection(if extend then s.anchor else newActive, newActive)
  }

  predicate InDocument(doc: string, s: Selection) {
    s.anchor <= |doc| && s.active <= |doc|
  }

  /** Every selection is a caret; vacuously so when there are none. */
  predicate AllEmpty(selections: seq<Selection>)
    ensures |selections| == 0 ==> AllEmpty(selections)
  {
    forall k :: 0 <= k < |selections| ==> selections[k].IsEmpty()
  }

  /** One selection moved by a subword to the left. */
  method MoveSelectionLeft(doc: string, s: Selection, extend: bool) returns (m: Selection)
    requires InDocument(doc, s)
    ensures m == MovedSelection(s, SubwordLeft(doc, s.active), extend)
    ensures InDocument(doc, m)
  {
    var newActive := MovePositionSubwordLeft(doc, s.active);
    m := MovedSelection(s, newActive, extend);
  }

  /** One selection moved by a subword to the right. */
  method MoveSelectionRight(doc: string, s: Selection, extend: bool) returns (m: Selection)
    requires InDocument(doc, s)
    ensures m == MovedSelection(s, SubwordRight(doc, s.active), extend)
    ensures InDocument(doc, m)
  {
    var newActive := MovePositionSubwordRight(doc, s.active);
    m := MovedSelection(s, newActive, extend);
  }

  /** Every selection moved by a subword to the left, each on its own, into a new
      list in the same order. */
  method MoveAllLeft(doc: string, sels: seq<Selection>, extend: bool) returns (moved: seq<Selection>)
    requires forall k :: 0 <= k < |sels| ==> sels[k].anchor <= |doc| && sels[k].active <= |doc|
    ensures |moved| == |sels|
    ensures forall k :: 0 <= k < |sels| ==>
      moved[k] == MovedSelection(sels[k], SubwordLeft(doc, sels[k].active), extend) && InDocument(doc, moved[k])
  {
    moved := [];
    var i := 0;
    while i < |sels|
      invariant 0 <= i <= |sels|
      invariant |moved| == i
      invariant forall k :: 0 <= k < |sels| ==> InDocument(doc, sels[k])
      invariant forall k :: 0 <= k < i ==>
        moved[k] == MovedSelection(sels[k], SubwordLeft(doc, sels[k].active), extend) && InDocument(doc, moved[k])
    {
      var m := MoveSelectionLeft(doc, sels[i], extend);
      ghost var done := moved;
      moved := moved + [m];
      assert moved[i] == m;
      assert forall k :: 0 <= k < i ==> moved[k] == done[k];
      i := i + 1;
    }
  }

  /** Every selection moved by a subword to the right, each on its own, into a new
      list in the same order. */
  method MoveAllRight(doc: string, sels: seq<Selection>, extend: bool) returns (moved: seq<Selection>)
    requires forall k :: 0 <= k < |sels| ==> sels[k].anchor <= |doc| && sels[k].active <= |doc|
    ensures |moved| == |sels|
    ensures forall k :: 0 <= k < |sels| ==>
      moved[k] == MovedSelection(sels[k], SubwordRight(doc, sels[k].active), extend) && InDocument(doc, moved[k])
  {
    moved := [];
    var i := 0;
    while i < |sels|
      invariant 0 <= i <= |sels|
      invariant |moved| == i
      invariant forall k :: 0 <= k < |sels| ==> InDocument(doc, sels[k])
      invariant forall k :: 0 <= k < i ==>
        moved[k] == MovedSelection(sels[k], SubwordRight(doc, sels[k].active), extend) && InDocument(doc, moved[k])
    {
      var m := MoveSelectionRight(doc, sels[i], extend);
      ghost var done := moved;
      moved := moved + [m];
      assert moved[i] == m;
      assert forall k :: 0 <= k < i ==> moved[k] == done[k];
      i := i + 1;
    }
  }

  /** A text editor: a document and the current selections. */
  class Editor {
    var document: string
    var selections: seq<Selection>

    ghost predicate Valid()
      reads this
    {
      forall k :: 0 <= k < |selections| ==> InDocument(document, selections[k])
    }

    constructor (document: string, selections: seq<Selection>)
      requires forall k :: 0 <= k < |selections| ==> InDocument(document, selections[k])
      ensures Valid()
      ensures this.document == document && this.selections == selections
    {
      this.document := document;
      this.selections := selections;
    }

    /** Move every selection's active end one subword to the left. */
    method MoveSubwordLeft(extend: bool)
      requires Valid()
      modifies this`selections
      ensures Valid()
      ensures |selections| == |old(selections)|
      ensures forall k :: 0 <= k < |selections| ==>
        selections[k] == MovedSelection(old(selections)[k], SubwordLeft(document, old(selections)[k].active), extend)
    {
      selections := MoveAllLeft(document, selections, extend);
    }

    /** Move every selection's active end one subword to the right. */
    method MoveSubwordRight(extend: bool)
      requires Valid()
      modifies this`selections
      ensures Valid()
      ensures |selections| == |old(selections)|
      ensures forall k :: 0 <= k < |selections| ==>
        selections[k] == MovedSelection(old(selections)[k], SubwordRight(document, old(selections)[k].active), extend)
    {
      selections := MoveAllRight(document, selections, extend);
    }

    /** Delete a subword to the left of every caret: when every selection is a caret,
        first extend each one subword to the left; then the text of every selection is
        deleted. Returns the ranges to delete, one per selection, in order. */
    method DeleteSubwordLeft() returns (deleted: seq<Range>)
      requires Valid()
      modifies this`selections
      ensures Valid()
      ensures AllEmpty(old(selections)) ==> (|selections| == |old(selections)| &&
        forall k :: 0 <= k < |selections| ==>
          selections[k] == Selection(old(selections)[k].active, SubwordLeft(document, old(selections)[k].active)))
      ensures !AllEmpty(old(selections)) ==> selections == old(selections)
      ensures |deleted| == |selections|
      ensures forall k :: 0 <= k < |deleted| ==> deleted[k] == selections[k].ToRange() && ValidRange(document, deleted[k])
      // from a caret, what is deleted runs from the subword boundary up to the caret
      ensures AllEmpty(old(selections)) ==> forall k :: 0 <= k < |deleted| ==>
        deleted[k] == Range(SubwordLeft(document, old(selections)[k].active), old(selections)[k].active)
    {
      if AllEmpty(selections) {
        MoveSubwordLeft(true);
      }
      deleted := SelectionRanges();
    }

    /** Delete a subword to the right of every caret, as `DeleteSubwordLeft` mirrored. */
    method DeleteSubwordRight() returns (deleted: seq<Range>)
      requires Valid()
      modifies this`selections
      ensures Valid()
      ensures AllEmpty(old(selections)) ==> (|selections| == |old(selections)| &&
        forall k :: 0 <= k < |selections| ==>
          selections[k] == Selection(old(selections)[k].active, SubwordRight(document, old(selections)[k].active)))
      ensures !AllEmpty(old(selections)) ==> selections == old(selections)
      ensures |deleted| == |selections|
      ensures forall k :: 0 <= k < |deleted| ==> deleted[k] == selections[k].ToRange() && ValidRange(document, deleted[k])
      ensures AllEmpty(old(selections)) ==> forall k :: 0 <= k < |deleted| ==>
        deleted[k] == Range(old(selections)[k].active, SubwordRight(document, old(selections)[k].active))
    {
      if AllEmpty(selections) {
        MoveSubwordRight(true);
      }
      deleted := SelectionRanges();
    }

    /** The ranges of the current selections, in order. */
    method SelectionRanges() returns (ranges: seq<Range>)
      requires Valid()
      ensures |ranges| == |selections|
      ensures forall k :: 0 <= k < |ranges| ==> ranges[k] == selections[k].ToRange() && ValidRange(document, ranges[k])
    {
      ranges := [];
      var i := 0;
      while i < |selections|
        invariant 0 <= i <= |selections|
        invariant |ranges| == i
        invariant forall k :: 0 <= k < i ==> ranges[k] == selections[k].ToRange() && ValidRange(document, ranges[k])
      {
        ranges := ranges + [selections[i].ToRange()];
        i := i + 1;
      }
    }

    /** Collapse every selection to a caret at its active end. */
    method DropSelections()
      requires Valid()
      modifies this`selections
      ensures Valid()
      ensures |selections| == |old(selections)|
      ensures forall k :: 0 <= k < |selections| ==>
        selections[k] == Selection(old(selections)[k].active, old(selections)[k].active)
    {
      selections := seq(|selections|, k requires 0 <= k < |selections| reads this => Selection(selections[k].active, selections[k].active));
    }
  }
}
