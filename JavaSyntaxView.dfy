/**
 * The Java syntax view's own state: the reparse-record set (see
 * ReparseRecords), the per-line style cache, the indent cache of parsed
 * nodes and the short log of recent edits; and the operations that keep
 * them up to date when the document changes or a section is parsed.
 *
 * The document itself is not part of this model: where the view asks the
 * document for the line holding an offset, the line numbers are parameters.
 */
module SyntaxView {
  import opened ReparseRecords
  import opened Strings
  import ScopeBackgrounds

  /** One styled run of a line, as cached for display. */
  datatype StyledSegment = StyledSegment(cssClasses: seq<string>, text: string)

  /** A change notification: a MoeSyntaxEvent. */
  datatype SyntaxEvent = SyntaxEvent(offset: int, length: int, isInsert: bool, isRemove: bool)

  const EDIT_INSERT := 0
  const EDIT_DELETE := 1

  /** How many recent edits are remembered. */
  const MAX_RECENT_EDITS := 10

  /** One remembered edit: its kind (EDIT_INSERT or EDIT_DELETE), offset and length. */
  datatype EditEvent = EditEvent(kind: int, offset: int, length: int)

  /** The log of recent edits after recordEvent(event). */
  function Recorded(edits: seq<EditEvent>, event: SyntaxEvent): seq<EditEvent>
  {
    if !event.isInsert && !event.isRemove then edits
    else
      var e := EditEvent(if event.isInsert then EDIT_INSERT else EDIT_DELETE, event.offset, event.length);
      var added := edits + [e];
      if |added| > MAX_RECENT_EDITS then added[1..] else added
  }

  /**
   * recordEvent keeps the log to at most ten entries: an insert or remove
   * is appended with its kind, offset and length, the oldest entry falling
   * out when the log is full; any other event leaves the log alone.
   */
  lemma RecordedWindow(edits: seq<EditEvent>, event: SyntaxEvent)
    requires |edits| <= MAX_RECENT_EDITS
    ensures var r := Recorded(edits, event);
            |r| <= MAX_RECENT_EDITS &&
            (!event.isInsert && !event.isRemove ==> r == edits) &&
            (event.isInsert || event.isRemove ==>
              var e := EditEvent(if event.isInsert then EDIT_INSERT else EDIT_DELETE, event.offset, event.length);
              |r| == Min(|edits| + 1, MAX_RECENT_EDITS) &&
              r == (edits + [e])[|edits| + 1 - |r|..] &&
              r[|r| - 1] == e)
  {
  }

  /** The style cache with the entries of lines start to end, inclusive, dropped. */
  function Unstyled(styled: map<int, seq<StyledSegment>>, start: int, end: int): map<int, seq<StyledSegment>>
  {
    map l | l in styled && !(start <= l <= end) :: styled[l]
  }

  /** Is c one of the characters findNonWhitespace skips? */
  predicate IsWhitespace(c: char)
  {
    c == ' ' || c == '\t' || c == '\n' || c == '\r'
  }

  /**
   * findNonWhitespace(element, startPos): the first index from startPos on
   * whose character is not whitespace, or -1 when there is none.
   */
  method FindNonWhitespace(text: string, startPos: int) returns (r: int)
    requires startPos >= 0
    ensures r == -1 <==> forall i :: startPos <= i < |text| ==> IsWhitespace(text[i])
    ensures r != -1 ==> startPos <= r < |text| && !IsWhitespace(text[r]) &&
                        forall i :: startPos <= i < r ==> IsWhitespace(text[i])
  {
    var i := startPos;
    while i < |text|
      invariant startPos <= i
      invariant forall j :: startPos <= j < i && j < |text| ==> IsWhitespace(text[j])
    {
      var c := text[i];
      if c != ' ' && c != '\t' && c != '\n' && c != '\r' {
        return i;
      }
      i := i + 1;
    }
    return -1;
  }

  /**
   * findNonWhitespaceBwards(element, startPos, endPos): the last index in
   * (endPos, startPos] whose character is not whitespace, searching down
   * from startPos, or endPos - 1 when there is none.
   */
  method FindNonWhitespaceBwards(text: string, startPos: int, endPos: int) returns (r: int)
    requires startPos <= endPos || (startPos < |text| && endPos >= -1)
    ensures r == endPos - 1 <==> forall i :: endPos < i <= startPos ==> IsWhitespace(text[i])
    ensures r != endPos - 1 ==> endPos < r <= startPos && !IsWhitespace(text[r]) &&
                                forall i :: r < i <= startPos ==> IsWhitespace(text[i])
  {
    var i := startPos;
    while i > endPos
      invariant (startPos <= endPos && i == startPos) || (endPos <= i <= startPos < |text| && endPos >= -1)
      invariant forall j :: i < j <= startPos ==> IsWhitespace(text[j])
    {
      var c := text[i];
      if c != ' ' && c != '\t' && c != '\n' && c != '\r' {
        return i;
      }
      i := i - 1;
    }
    return endPos - 1;
  }

  /**
   * The indent cache after updateNodeIndent: with no cached indent nothing
   * changes; a smaller indent replaces the cached one; a larger one evicts it.
   */
  function IndentsAfter(indents: map<ScopeBackgrounds.Node, int>, node: ScopeBackgrounds.Node,
                        indent: int, oindent: Option<int>): map<ScopeBackgrounds.Node, int>
  {
    if oindent.None? then indents
    else if indent < oindent.value then indents[node := indent]
    else if indent != oindent.value then indents - {node}
    else indents
  }

  /**
   * The cached indent of a node never grows: after updateNodeIndent with
   * the cached value, the node's entry is gone or at most what it was and
   * at most the new indent; the other nodes' entries are untouched; and the
   * entry survives exactly when the new indent is not larger.
   */
  lemma IndentsNeverGrow(indents: map<ScopeBackgrounds.Node, int>, node: ScopeBackgrounds.Node, indent: int)
    requires node in indents
    ensures var r := IndentsAfter(indents, node, indent, Some(indents[node]));
            (node in r <==> indent <= indents[node]) &&
            (node in r ==> r[node] <= indents[node] && r[node] <= indent) &&
            forall n :: n != node ==> (n in r <==> n in indents) && (n in r ==> r[n] == indents[n])
  {
  }

  /**
   * The damaged range after updateNodeIndent: when the indent changed it is
   * widened to take in the node [nodePos, nodeEnd].
   */
  function DamageAfter(dmg: seq<int>, nodePos: int, nodeEnd: int, indent: int, oindent: Option<int>): seq<int>
    requires |dmg| >= 2
  {
    if oindent.Some? && indent != oindent.value then
      dmg[0 := Min(dmg[0], nodePos)][1 := Max(dmg[1], nodeEnd)]
    else dmg
  }

  /**
   * The damaged range only grows: it still holds what it held, and when the
   * indent changed it also holds the whole node.
   */
  lemma DamageCoversNode(dmg: seq<int>, nodePos: int, nodeEnd: int, indent: int, oindent: Option<int>)
    requires |dmg| >= 2
    ensures var r := DamageAfter(dmg, nodePos, nodeEnd, indent, oindent);
            |r| == |dmg| && r[0] <= dmg[0] && r[1] >= dmg[1] && r[2..] == dmg[2..] &&
            (oindent.Some? && indent != oindent.value ==> r[0] <= nodePos && r[1] >= nodeEnd) &&
            (oindent.None? || indent == oindent.value ==> r == dmg)
  {
  }

  class JavaSyntaxView {
    /** The reparse-record tree, in document order. */
    var records: seq<Record>
    /** The cached styling of each line. */
    var styledLines: map<int, seq<StyledSegment>>
    /** The cached left indent of each parsed node. */
    var nodeIndents: map<ScopeBackgrounds.Node, int>
    /** The last few edits, oldest first. */
    var recentEdits: seq<EditEvent>

    ghost predicate Valid()
      reads this
    {
      ValidRecords(records) && |recentEdits| <= MAX_RECENT_EDITS
    }

    constructor ()
      ensures Valid()
      ensures records == [] && styledLines == map[] && nodeIndents == map[] && recentEdits == []
    {
      records := [];
      styledLines := map[];
      nodeIndents := map[];
      recentEdits := [];
    }

    /**
     * scheduleReparse(pos, size), with the ends of absorbed records measured
     * from the start of the record that grows (see ScheduledFixed).
     */
    method ScheduleReparse(pos: int, size: int)
      modifies this`records
      ensures records == ScheduledFixed(old(records), pos, size)
      ensures ValidRecords(old(records)) && size >= 0 ==> ValidRecords(records)
    {
      if ValidRecords(records) && size >= 0 {
        ScheduledFixedValid(records, pos, size);
      }
      var k := FindAtOrAfter(records, pos);
      if k < |records| && records[k].pos > pos && records[k].pos <= pos + size {
        records := SlideStart(records, k, pos - records[k].pos);
      } else if k < |records| && records[k].pos <= pos {
        var existingPos := records[k].pos;
        var nsize := pos + size - existingPos;
        if nsize > records[k].size {
          ghost var target := ScheduledFixed(records, pos, size);
          while k + 1 < |records| && records[k + 1].pos <= pos + size
            invariant k < |records| && records[k].pos == existingPos
            invariant Absorb(records, k, nsize, pos + size, existingPos) == target
            modifies this`records
            decreases |records|
          {
            nsize := Max(nsize, End(records[k + 1]) - existingPos);
            records := Remove(records, k + 1);
          }
          records := SetSize(records, k, nsize);
        }
      } else {
        records := InsertAt(records, k, Record(pos, size));
      }
    }

    /** restyleLines(start, end): forget the cached styling of lines start to end. */
    method RestyleLines(start: int, end: int)
      modifies this`styledLines
      ensures styledLines == Unstyled(old(styledLines), start, end)
    {
      var i := start;
      while i <= end
        invariant start <= i <= Max(start, end + 1)
        invariant styledLines == Unstyled(old(styledLines), start, i - 1)
      {
        styledLines := styledLines - {i};
        i := i + 1;
      }
      if start > end {
        assert Unstyled(old(styledLines), start, end) == old(styledLines);
        assert Unstyled(old(styledLines), start, start - 1) == old(styledLines);
      }
    }

    /**
     * markSectionParsed(pos, size): the lines startLine to endLine that the
     * section spans are restyled, and the section is taken out of the
     * reparse records.
     */
    method MarkSectionParsed(pos: int, size: int, startLine: int, endLine: int)
      requires Valid() && size >= 0
      modifies this`records, this`styledLines
      ensures Valid()
      ensures records == SectionParsed(old(records), pos, size)
      ensures styledLines == Unstyled(old(styledLines), startLine, endLine)
    {
      RestyleLines(startLine, endLine);
      ghost var target := SectionParsed(records, pos, size);
      SectionParsedValid(records, pos, size);

      var k: nat := FindAtOrAfter(records, pos);
      while k < |records| && records[k].pos <= pos
        invariant k <= |records|
        invariant ParsedFront(records, k, pos, size) == target
        modifies this`records
        decreases |records| - k
      {
        var leave, finished;
        k, leave, finished := FrontTurn(k, pos, size);
        if finished {
          return;
        } else if leave {
          break;
        }
      }
      assert ParsedBack(records, k, pos, size) == target;

      while k < |records| && records[k].pos < pos + size
        invariant k <= |records|
        invariant ParsedBack(records, k, pos, size) == target
        modifies this`records
        decreases |records| - k
      {
        var finished := BackTurn(k, pos, size);
        if finished {
          return;
        }
      }
    }

    /**
     * One turn of the first loop of markSectionParsed, at the k-th record:
     * finished when the section splits the record and the rest of it is
     * rescheduled, leave when the loop is left for the second one.
     */
    method FrontTurn(k: nat, pos: int, size: int) returns (next: nat, leave: bool, finished: bool)
      requires k < |records| && records[k].pos <= pos
      modifies this`records
      ensures !finished ==> next <= |records|
      ensures finished ==> records == ParsedFront(old(records), k, pos, size)
      ensures !finished && leave ==> ParsedBack(records, next, pos, size) == ParsedFront(old(records), k, pos, size)
      ensures !finished && !leave ==> ParsedFront(records, next, pos, size) == ParsedFront(old(records), k, pos, size)
      ensures !finished && !leave ==> |records| - next < old(|records|) - k
    {
      var existing := records[k];
      var rsize := Min(End(existing) - pos, size);
      next, leave, finished := k, false, false;
      if rsize == existing.size {
        records := Remove(records, k);
        assert ParsedFront(old(records), k, pos, size) == ParsedFront(records, k, pos, size);
      } else if existing.pos == pos {
        records := SlideStart(records, k, rsize);
        assert ParsedFront(old(records), k, pos, size) == ParsedBack(records, k + 1, pos, size);
        next, leave := k + 1, true;
      } else {
        var existingEnd := End(existing);
        ParsedFrontCut(records, k, pos, size);
        records := SetSize(records, k, pos - existing.pos);
        if existingEnd > pos + size {
          ScheduleReparse(pos + size, existingEnd - (pos + size));
          finished := true;
        } else {
          next := k + 1;
        }
      }
    }

    /**
     * One turn of the second loop of markSectionParsed, at the k-th record:
     * finished when the section ends inside the record.
     */
    method BackTurn(k: nat, pos: int, size: int) returns (finished: bool)
      requires k < |records| && records[k].pos < pos + size
      modifies this`records
      ensures finished ==> records == ParsedBack(old(records), k, pos, size)
      ensures !finished ==> k <= |records| < old(|records|)
      ensures !finished ==> ParsedBack(records, k, pos, size) == ParsedBack(old(records), k, pos, size)
    {
      var rsize := pos + size - records[k].pos;
      if rsize < records[k].size {
        records := SlideStart(records, k, rsize);
        return true;
      }
      records := Remove(records, k);
      return false;
    }

    /** recordEvent(event). */
    method RecordEvent(event: SyntaxEvent)
      modifies this`recentEdits
      ensures recentEdits == Recorded(old(recentEdits), event)
    {
      var kind;
      if event.isInsert {
        kind := EDIT_INSERT;
      } else if event.isRemove {
        kind := EDIT_DELETE;
      } else {
        return;
      }
      recentEdits := recentEdits + [EditEvent(kind, event.offset, event.length)];
      if |recentEdits| > MAX_RECENT_EDITS {
        recentEdits := recentEdits[1..];
      }
    }

    /**
     * fireInsertUpdate(offset, length): the reparse records make room for
     * the inserted text, the lines firstLine to lastLine it spans are
     * restyled, and the insert is logged.
     */
    method FireInsertUpdate(offset: int, length: int, firstLine: int, lastLine: int)
      requires Valid() && length >= 0
      modifies this`records, this`styledLines, this`recentEdits
      ensures Valid()
      ensures records == Inserted(old(records), offset, length)
      ensures styledLines == Unstyled(old(styledLines), firstLine, lastLine)
      ensures recentEdits == Recorded(old(recentEdits), SyntaxEvent(offset, length, true, false))
    {
      InsertedValid(records, offset, length);
      RecordedWindow(recentEdits, SyntaxEvent(offset, length, true, false));
      var k := FindAtOrAfter(records, offset);
      if k < |records| {
        if records[k].pos <= offset {
          records := Resize(records, k, records[k].size + length);
        } else {
          records := Slide(records, k, length);
        }
      }
      RestyleLines(firstLine, lastLine);
      RecordEvent(SyntaxEvent(offset, length, true, false));
    }

    /**
     * fireRemoveUpdate(offset, length): the reparse records close over the
     * removed text, the lines firstLine to lastLine it spanned are
     * restyled, and the removal is logged.
     */
    method FireRemoveUpdate(offset: int, length: int, firstLine: int, lastLine: int)
      requires Valid() && length >= 0
      modifies this`records, this`styledLines, this`recentEdits
      ensures Valid()
      ensures records == Removed(old(records), offset, length)
      ensures styledLines == Unstyled(old(styledLines), firstLine, lastLine)
      ensures recentEdits == Recorded(old(recentEdits), SyntaxEvent(offset, length, false, true))
    {
      ghost var target := Removed(records, offset, length);
      var k: nat := FindAtOrAfter(records, offset);
      var rpos := offset;
      var rlen := length;
      if k < |records| && End(records[k]) == rpos {
        // Boundary condition
        k := k + 1;
      }
      while k < |records| && rlen > 0
        invariant k <= |records|
        invariant RemoveLoop(records, k, rpos, rlen) == target
        modifies this`records
        decreases |records|, |records| - k
      {
        var stop;
        k, rlen, stop := RemoveTurn(k, rpos, rlen);
        if stop {
          break;
        }
      }
      RemovedValid(old(records), offset, length);
      RecordedWindow(recentEdits, SyntaxEvent(offset, length, false, true));
      RestyleLines(firstLine, lastLine);
      RecordEvent(SyntaxEvent(offset, length, false, true));
    }

    /** One turn of the loop of fireRemoveUpdate, at the k-th record, with rlen characters still to remove at rpos. */
    method RemoveTurn(k: nat, rpos: int, rlen: int) returns (next: nat, rest: int, stop: bool)
      requires k < |records| && rlen > 0
      modifies this`records
      ensures next <= |records|
      ensures stop ==> records == RemoveLoop(old(records), k, rpos, rlen)
      ensures !stop ==> RemoveLoop(records, next, rpos, rest) == RemoveLoop(old(records), k, rpos, rlen)
      ensures !stop ==> |records| < old(|records|) || (|records| == old(|records|) && next > k)
    {
      if records[k].pos <= rpos {
        next, rest, stop := RemoveFromStart(k, rpos, rlen);
      } else {
        next, rest, stop := RemoveAfterStart(k, rpos, rlen);
      }
    }

    /** A round of the removal loop on a node that starts at or before the removed range. */
    method RemoveFromStart(k: nat, rpos: int, rlen: int) returns (next: nat, rest: int, stop: bool)
      requires k < |records| && rlen > 0 && records[k].pos <= rpos
      modifies this`records
      ensures next <= |records|
      ensures stop ==> records == RemoveLoop(old(records), k, rpos, rlen)
      ensures !stop ==> RemoveLoop(records, next, rpos, rest) == RemoveLoop(old(records), k, rpos, rlen)
      ensures !stop ==> |records| < old(|records|) || (|records| == old(|records|) && next > k)
    {
      var r := records[k];
      next, rest, stop := k, rlen, true;
      if r.pos < rpos {
        if End(r) >= rpos + rlen {
          // remove middle
          records := Resize(records, k, r.size - rlen);
        } else {
          // remove end and continue
          var reduction := End(r) - rpos;
          records := Resize(records, k, r.size - reduction);
          next, rest, stop := k + 1, rlen - reduction, false;
        }
      } else {
        if End(r) > rpos + rlen {
          // remove beginning
          records := Resize(records, k, r.size - rlen);
        } else {
          // remove whole node
          records := Remove(records, k);
          next, stop := FindAtOrAfter(records, rpos), false;
        }
      }
    }

    /** A round of the removal loop on a node that starts after the start of the removed range. */
    method RemoveAfterStart(k: nat, rpos: int, rlen: int) returns (next: nat, rest: int, stop: bool)
      requires k < |records| && rlen > 0 && records[k].pos > rpos
      modifies this`records
      ensures next <= |records|
      ensures stop ==> records == RemoveLoop(old(records), k, rpos, rlen)
      ensures !stop ==> RemoveLoop(records, next, rpos, rest) == RemoveLoop(old(records), k, rpos, rlen)
      ensures !stop ==> |records| < old(|records|) || (|records| == old(|records|) && next > k)
    {
      var r := records[k];
      next, rest, stop := k, rlen, true;
      if r.pos >= rpos + rlen {
        records := Slide(records, k, -rlen);
      } else if End(r) <= rpos + rlen {
        // whole node to be removed
        records := Remove(records, k);
        stop := false;
      } else {
        // only a portion to be removed
        var ramount := rpos + rlen - r.pos;
        records := SlideStart(records, k, ramount);
        records := Slide(records, k, -rlen);
      }
    }

    /**
     * updateNodeIndent(nap, indent, oindent, dmgRange): the node spans
     * [nodePos, nodeEnd]; oindent is its cached indent, if any; dmgRange
     * holds the range to repaint and is widened in place.
     */
    method UpdateNodeIndent(node: ScopeBackgrounds.Node, nodePos: int, nodeEnd: int, indent: int,
                            oindent: Option<int>, dmgRange: array<int>)
      requires dmgRange.Length >= 2
      modifies this`nodeIndents, dmgRange
      ensures nodeIndents == IndentsAfter(old(nodeIndents), node, indent, oindent)
      ensures dmgRange[..] == DamageAfter(old(dmgRange[..]), nodePos, nodeEnd, indent, oindent)
    {
      var dmgStart := dmgRange[0];
      var dmgEnd := dmgRange[1];
      if oindent.Some? {
        var noindent := oindent.value;
        if indent < noindent {
          nodeIndents := nodeIndents[node := indent];
        } else if indent != noindent {
          nodeIndents := nodeIndents - {node};
        }
        if indent != noindent {
          dmgStart := Min(dmgStart, nodePos);
          dmgEnd := Max(dmgEnd, nodeEnd);
          dmgRange[0] := dmgStart;
          dmgRange[1] := dmgEnd;
        }
      }
    }
  }
}
