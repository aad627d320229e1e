/**
 * The reparse-record set of the Java syntax view.
 *
 * JavaSyntaxView keeps the regions of the document that still have to be
 * reparsed as ReparseRecord nodes of a NodeTree, each a (position, size)
 * pair.  Here the tree is a sequence of records in document order with
 * absolute positions.  The NodeTree operations the view calls are not part
 * of this model; they are stated below as functions on that sequence:
 *
 *  - findNodeAtOrAfter(p) is the first record whose end is at or after p;
 *  - slide(d) moves a record and every record after it by d;
 *  - resize(n) sets a record's size and moves every record after it by the
 *    change in size;
 *  - setSize(n) and slideStart(d) change one record only (slideStart moves
 *    the start and keeps the end);
 *  - remove deletes a record, insertNode adds one at its place in order.
 *
 * The functions Scheduled, SectionParsed, Inserted and Removed give the
 * record set after scheduleReparse, markSectionParsed, fireInsertUpdate and
 * fireRemoveUpdate; the lemmas state what each does to the set of dirty
 * offsets.  Scheduled is scheduleReparse as written, which can lose dirty
 * offsets (ScheduledDropsAbsorbedTail); ScheduledFixed measures the absorbed
 * ends from the start of the growing record, and is the version the rest of
 * the model uses.
 */
module ReparseRecords {

  datatype Record = Record(pos: int, size: int)

  function End(r: Record): int
  {
    r.pos + r.size
  }

  /** Offset x lies in the record. */
  predicate Covers(r: Record, x: int)
  {
    r.pos <= x < End(r)
  }

  /** Offset x still has to be reparsed. */
  predicate Covered(rs: seq<Record>, x: int)
  {
    exists i :: 0 <= i < |rs| && Covers(rs[i], x)
  }

  /** Record a ends at or before record b starts. */
  predicate Ordered(a: Record, b: Record)
  {
    End(a) <= b.pos
  }

  /**
   * The NodeTree invariant: sizes are not negative and records do not
   * overlap, in order.  The pairwise part is used through ValidPair.
   */
  predicate ValidRecords(rs: seq<Record>)
  {
    (forall i :: 0 <= i < |rs| ==> rs[i].size >= 0) &&
    (forall i, j {:trigger Ordered(rs[i], rs[j])} :: 0 <= i < j < |rs| ==> Ordered(rs[i], rs[j]))
  }

  lemma ValidPair(rs: seq<Record>, i: int, j: int)
    requires ValidRecords(rs) && 0 <= i < j < |rs|
    ensures End(rs[i]) <= rs[j].pos
  {
    assert Ordered(rs[i], rs[j]);
  }

  /** Every record ends at or before p. */
  predicate EndsBy(rs: seq<Record>, p: int)
  {
    forall i :: 0 <= i < |rs| ==> End(rs[i]) <= p
  }

  /** Every record starts at or after p. */
  predicate StartsFrom(rs: seq<Record>, p: int)
  {
    forall i :: 0 <= i < |rs| ==> rs[i].pos >= p
  }

  function Max(a: int, b: int): int
  {
    if a >= b then a else b
  }

  function Min(a: int, b: int): int
  {
    if a <= b then a else b
  }

  // ---------------------------------------------------------------------
  // NodeTree operations, as assumed

  /** findNodeAtOrAfter(p): the index of the first record ending at or after p; |rs| for none. */
  function FindAtOrAfter(rs: seq<Record>, p: int): (k: nat)
    ensures k <= |rs|
    ensures forall i :: 0 <= i < k ==> End(rs[i]) < p
    ensures k < |rs| ==> End(rs[k]) >= p
  {
    FindFrom(rs, p, 0)
  }

  /** The search of findNodeAtOrAfter, from the k-th record on. */
  function FindFrom(rs: seq<Record>, p: int, k: nat): (r: nat)
    requires k <= |rs|
    ensures k <= r <= |rs|
    ensures forall i :: k <= i < r ==> End(rs[i]) < p
    ensures r < |rs| ==> End(rs[r]) >= p
    decreases |rs| - k
  {
    if k == |rs| || End(rs[k]) >= p then k else FindFrom(rs, p, k + 1)
  }

  function Shift(rs: seq<Record>, d: int): (r: seq<Record>)
    ensures |r| == |rs|
    ensures forall i :: 0 <= i < |rs| ==> r[i] == Record(rs[i].pos + d, rs[i].size)
  {
    seq(|rs|, i requires 0 <= i < |rs| => Record(rs[i].pos + d, rs[i].size))
  }

  /** slide(d) on the k-th record. */
  function Slide(rs: seq<Record>, k: nat, d: int): seq<Record>
    requires k <= |rs|
  {
    rs[..k] + Shift(rs[k..], d)
  }

  /** slideStart(d) on the k-th record. */
  function SlideStart(rs: seq<Record>, k: nat, d: int): seq<Record>
    requires k < |rs|
  {
    rs[k := Record(rs[k].pos + d, rs[k].size - d)]
  }

  /** resize(n) on the k-th record. */
  function Resize(rs: seq<Record>, k: nat, n: int): seq<Record>
    requires k < |rs|
  {
    rs[..k] + [Record(rs[k].pos, n)] + Shift(rs[k + 1..], n - rs[k].size)
  }

  /** setSize(n) on the k-th record. */
  function SetSize(rs: seq<Record>, k: nat, n: int): seq<Record>
    requires k < |rs|
  {
    rs[k := Record(rs[k].pos, n)]
  }

  /** remove() on the k-th record. */
  function Remove(rs: seq<Record>, k: nat): seq<Record>
    requires k < |rs|
  {
    rs[..k] + rs[k + 1..]
  }

  /** insertNode of r, placed before the k-th record. */
  function InsertAt(rs: seq<Record>, k: nat, r: Record): seq<Record>
    requires k <= |rs|
  {
    rs[..k] + [r] + rs[k..]
  }

  // ---------------------------------------------------------------------
  // The record set after each JavaSyntaxView operation

  /** scheduleReparse(pos, size) as written. */
  function Scheduled(rs: seq<Record>, pos: int, size: int): (r: seq<Record>)
    ensures FindAtOrAfter(rs, pos) <= |r| <= |rs| + 1
    ensures forall i :: 0 <= i < FindAtOrAfter(rs, pos) ==> r[i] == rs[i]
  {
    var k := FindAtOrAfter(rs, pos);
    if k < |rs| && pos < rs[k].pos <= pos + size then
      SlideStart(rs, k, pos - rs[k].pos)
    else if k < |rs| && rs[k].pos <= pos then
      var nsize := pos + size - rs[k].pos;
      if nsize > rs[k].size then Absorb(rs, k, nsize, pos + size, pos) else rs
    else
      InsertAt(rs, k, Record(pos, size))
  }

  /**
   * scheduleReparse with the absorbed ends measured from the start of the
   * record that grows, as the size it sets is measured from there.
   */
  function ScheduledFixed(rs: seq<Record>, pos: int, size: int): (r: seq<Record>)
    ensures FindAtOrAfter(rs, pos) <= |r| <= |rs| + 1
    ensures forall i :: 0 <= i < FindAtOrAfter(rs, pos) ==> r[i] == rs[i]
  {
    var k := FindAtOrAfter(rs, pos);
    if k < |rs| && pos < rs[k].pos <= pos + size then
      SlideStart(rs, k, pos - rs[k].pos)
    else if k < |rs| && rs[k].pos <= pos then
      var nsize := pos + size - rs[k].pos;
      if nsize > rs[k].size then Absorb(rs, k, nsize, pos + size, rs[k].pos) else rs
    else
      InsertAt(rs, k, Record(pos, size))
  }

  /**
   * The absorbing loop of scheduleReparse: while the record after the k-th
   * starts at or before limit, grow nsize to reach its end (measured from
   * base) and remove it; then set the k-th record's size to nsize.
   */
  function Absorb(rs: seq<Record>, k: nat, nsize: int, limit: int, base: int): (r: seq<Record>)
    requires k < |rs|
    ensures k < |r| <= |rs| && r[..k] == rs[..k]
    decreases |rs|
  {
    if k + 1 < |rs| && rs[k + 1].pos <= limit then
      Absorb(Remove(rs, k + 1), k, Max(nsize, End(rs[k + 1]) - base), limit, base)
    else
      SetSize(rs, k, nsize)
  }

  /** The offset up to which a scheduled region [pos, Reach) is certainly dirty. */
  function ScheduledReach(rs: seq<Record>, pos: int, size: int): int
  {
    var k := FindAtOrAfter(rs, pos);
    if k < |rs| && pos < rs[k].pos <= pos + size then rs[k].pos else pos + size
  }

  /** markSectionParsed(pos, size). */
  function SectionParsed(rs: seq<Record>, pos: int, size: int): (r: seq<Record>)
    ensures |r| <= |rs| + 1
  {
    ParsedFront(rs, FindAtOrAfter(rs, pos), pos, size)
  }

  /** The first loop of markSectionParsed, at the k-th record. */
  function ParsedFront(rs: seq<Record>, k: nat, pos: int, size: int): (r: seq<Record>)
    requires k <= |rs|
    ensures |r| <= |rs| + 1
    decreases |rs| - k
  {
    if k < |rs| && rs[k].pos <= pos then
      var e := rs[k];
      var rsize := Min(End(e) - pos, size);
      if rsize == e.size then
        ParsedFront(Remove(rs, k), k, pos, size)
      else if e.pos == pos then
        ParsedBack(SlideStart(rs, k, rsize), k + 1, pos, size)
      else
        var cut := SetSize(rs, k, pos - e.pos);
        if End(e) > pos + size then ScheduledFixed(cut, pos + size, End(e) - (pos + size))
        else ParsedFront(cut, k + 1, pos, size)
    else
      ParsedBack(rs, k, pos, size)
  }

  /** One step of the first loop of markSectionParsed on a record that starts before the section and is cut there. */
  lemma ParsedFrontCut(rs: seq<Record>, k: nat, pos: int, size: int)
    requires k < |rs| && rs[k].pos < pos && Min(End(rs[k]) - pos, size) != rs[k].size
    ensures var cut := SetSize(rs, k, pos - rs[k].pos);
            if End(rs[k]) > pos + size then
              ParsedFront(rs, k, pos, size) == ScheduledFixed(cut, pos + size, End(rs[k]) - (pos + size))
            else ParsedFront(rs, k, pos, size) == ParsedFront(cut, k + 1, pos, size)
  {
  }

  /** The second loop of markSectionParsed, at the k-th record. */
  function ParsedBack(rs: seq<Record>, k: nat, pos: int, size: int): (r: seq<Record>)
    requires k <= |rs|
    ensures |r| <= |rs|
    decreases |rs| - k
  {
    if k < |rs| && rs[k].pos < pos + size then
      var rsize := pos + size - rs[k].pos;
      if rsize < rs[k].size then SlideStart(rs, k, rsize)
      else ParsedBack(Remove(rs, k), k, pos, size)
    else
      rs
  }

  /** The record adjustment of fireInsertUpdate(offset, length). */
  function Inserted(rs: seq<Record>, offset: int, length: int): (r: seq<Record>)
    ensures |r| == |rs|
    ensures forall i :: 0 <= i < FindAtOrAfter(rs, offset) ==> r[i] == rs[i]
  {
    var k := FindAtOrAfter(rs, offset);
    if k == |rs| then rs
    else if rs[k].pos <= offset then Resize(rs, k, rs[k].size + length)
    else Slide(rs, k, length)
  }

  /** The record adjustment of fireRemoveUpdate(offset, length). */
  function Removed(rs: seq<Record>, offset: int, length: int): (r: seq<Record>)
    ensures |r| <= |rs|
  {
    var k := FindAtOrAfter(rs, offset);
    RemoveLoop(rs, if k < |rs| && End(rs[k]) == offset then k + 1 else k, offset, length)
  }

  /** The loop of fireRemoveUpdate at the k-th record, rlen characters still to remove at rpos. */
  function RemoveLoop(rs: seq<Record>, k: nat, rpos: int, rlen: int): (r: seq<Record>)
    requires k <= |rs|
    ensures |r| <= |rs|
    decreases |rs|, |rs| - k
  {
    if k == |rs| || rlen <= 0 then rs
    else
      var r := rs[k];
      if r.pos < rpos then
        if End(r) >= rpos + rlen then Resize(rs, k, r.size - rlen)
        else
          var reduction := End(r) - rpos;
          RemoveLoop(Resize(rs, k, r.size - reduction), k + 1, rpos, rlen - reduction)
      else if r.pos == rpos then
        if End(r) > rpos + rlen then Resize(rs, k, r.size - rlen)
        else
          var rest := Remove(rs, k);
          RemoveLoop(rest, FindAtOrAfter(rest, rpos), rpos, rlen)
      else if r.pos >= rpos + rlen then Slide(rs, k, -rlen)
      else if End(r) <= rpos + rlen then RemoveLoop(Remove(rs, k), k, rpos, rlen)
      else Slide(SlideStart(rs, k, rpos + rlen - r.pos), k, -rlen)
  }

  // ---------------------------------------------------------------------
  // Coverage of the sequence operations

  lemma CoveredConcat(a: seq<Record>, b: seq<Record>, x: int)
    ensures Covered(a + b, x) <==> Covered(a, x) || Covered(b, x)
  {
    if Covered(a + b, x) {
      var i :| 0 <= i < |a + b| && Covers((a + b)[i], x);
      if i < |a| {
        assert Covers(a[i], x);
      } else {
        assert Covers(b[i - |a|], x);
      }
    }
    if Covered(a, x) {
      var i :| 0 <= i < |a| && Covers(a[i], x);
      assert Covers((a + b)[i], x);
    }
    if Covered(b, x) {
      var i :| 0 <= i < |b| && Covers(b[i], x);
      assert Covers((a + b)[|a| + i], x);
    }
  }

  lemma CoveredSingle(r: Record, x: int)
    ensures Covered([r], x) <==> Covers(r, x)
  {
    if Covers(r, x) {
      assert Covers([r][0], x);
    }
  }

  lemma CoveredShift(rs: seq<Record>, d: int, x: int)
    ensures Covered(Shift(rs, d), x) <==> Covered(rs, x - d)
  {
    if Covered(Shift(rs, d), x) {
      var i :| 0 <= i < |rs| && Covers(Shift(rs, d)[i], x);
      assert Covers(rs[i], x - d);
    }
    if Covered(rs, x - d) {
      var i :| 0 <= i < |rs| && Covers(rs[i], x - d);
      assert Covers(Shift(rs, d)[i], x);
    }
  }

  /** Coverage split around the k-th record. */
  lemma CoveredAround(rs: seq<Record>, k: nat, x: int)
    requires k < |rs|
    ensures Covered(rs, x) <==> Covered(rs[..k], x) || Covers(rs[k], x) || Covered(rs[k + 1..], x)
  {
    assert rs == rs[..k] + [rs[k]] + rs[k + 1..];
    CoveredConcat(rs[..k] + [rs[k]], rs[k + 1..], x);
    CoveredConcat(rs[..k], [rs[k]], x);
    CoveredSingle(rs[k], x);
  }

  /** Coverage after replacing the k-th record. */
  lemma CoveredUpdate(rs: seq<Record>, k: nat, r: Record, x: int)
    requires k < |rs|
    ensures Covered(rs[k := r], x) <==> Covered(rs[..k], x) || Covers(r, x) || Covered(rs[k + 1..], x)
  {
    CoveredAround(rs[k := r], k, x);
    assert rs[k := r][..k] == rs[..k];
    assert rs[k := r][k + 1..] == rs[k + 1..];
  }

  lemma CoveredRemove(rs: seq<Record>, k: nat, x: int)
    requires k < |rs|
    ensures Covered(Remove(rs, k), x) <==> Covered(rs[..k], x) || Covered(rs[k + 1..], x)
  {
    CoveredConcat(rs[..k], rs[k + 1..], x);
  }

  lemma CoveredResize(rs: seq<Record>, k: nat, n: int, x: int)
    requires k < |rs|
    ensures Covered(Resize(rs, k, n), x) <==>
      Covered(rs[..k], x) || Covers(Record(rs[k].pos, n), x) || Covered(rs[k + 1..], x - (n - rs[k].size))
  {
    CoveredConcat(rs[..k] + [Record(rs[k].pos, n)], Shift(rs[k + 1..], n - rs[k].size), x);
    CoveredConcat(rs[..k], [Record(rs[k].pos, n)], x);
    CoveredSingle(Record(rs[k].pos, n), x);
    CoveredShift(rs[k + 1..], n - rs[k].size, x);
  }

  lemma CoveredSlide(rs: seq<Record>, k: nat, d: int, x: int)
    requires k <= |rs|
    ensures Covered(Slide(rs, k, d), x) <==> Covered(rs[..k], x) || Covered(rs[k..], x - d)
  {
    CoveredConcat(rs[..k], Shift(rs[k..], d), x);
    CoveredShift(rs[k..], d, x);
  }

  lemma CoveredInsertAt(rs: seq<Record>, k: nat, r: Record, x: int)
    requires k <= |rs|
    ensures Covered(InsertAt(rs, k, r), x) <==> Covered(rs, x) || Covers(r, x)
  {
    CoveredConcat(rs[..k] + [r], rs[k..], x);
    CoveredConcat(rs[..k], [r], x);
    CoveredSingle(r, x);
    CoveredConcat(rs[..k], rs[k..], x);
    assert rs[..k] + rs[k..] == rs;
  }

  // ---------------------------------------------------------------------
  // Validity of the sequence operations

  lemma ValidJoin(a: seq<Record>, b: seq<Record>, p: int)
    requires ValidRecords(a) && ValidRecords(b)
    requires EndsBy(a, p) && StartsFrom(b, p)
    ensures ValidRecords(a + b)
  {
    forall i, j | 0 <= i < j < |a + b|
      ensures Ordered((a + b)[i], (a + b)[j])
    {
      if j < |a| {
        ValidPair(a, i, j);
      } else if i < |a| {
        assert End(a[i]) <= p <= b[j - |a|].pos;
      } else {
        ValidPair(b, i - |a|, j - |a|);
      }
    }
  }

  /** A valid sequence splits into records before, at and after the k-th. */
  lemma ValidParts(rs: seq<Record>, k: nat)
    requires ValidRecords(rs) && k < |rs|
    ensures ValidRecords(rs[..k]) && ValidRecords(rs[k + 1..]) && ValidRecords(rs[k..])
    ensures EndsBy(rs[..k], rs[k].pos) && StartsFrom(rs[k + 1..], End(rs[k]))
    ensures StartsFrom(rs[k..], rs[k].pos)
  {
    forall i, j | 0 <= i < j < k
      ensures Ordered(rs[..k][i], rs[..k][j])
    {
      ValidPair(rs, i, j);
    }
    var tail := rs[k + 1..];
    forall i, j | 0 <= i < j < |tail|
      ensures Ordered(tail[i], tail[j])
    {
      ValidPair(rs, k + 1 + i, k + 1 + j);
    }
    forall i, j | 0 <= i < j < |rs| - k
      ensures Ordered(rs[k..][i], rs[k..][j])
    {
      ValidPair(rs, k + i, k + j);
    }
    forall i | 0 <= i < k
      ensures End(rs[..k][i]) <= rs[k].pos
    {
      ValidPair(rs, i, k);
    }
    forall i | 0 <= i < |rs| - k
      ensures rs[k..][i].pos >= rs[k].pos
    {
      if i > 0 {
        ValidPair(rs, k, k + i);
      }
    }
    forall i | 0 <= i < |tail|
      ensures tail[i].pos >= End(rs[k])
    {
      ValidPair(rs, k, k + 1 + i);
    }
  }

  lemma ValidShift(rs: seq<Record>, d: int, p: int)
    requires ValidRecords(rs) && StartsFrom(rs, p)
    ensures ValidRecords(Shift(rs, d)) && StartsFrom(Shift(rs, d), p + d)
  {
    forall i, j | 0 <= i < j < |rs|
      ensures Ordered(Shift(rs, d)[i], Shift(rs, d)[j])
    {
      ValidPair(rs, i, j);
    }
  }

  /** Replacing the k-th record by one that fits between its neighbours. */
  lemma ValidSplice(rs: seq<Record>, k: nat, r: Record, d: int)
    requires ValidRecords(rs) && k < |rs|
    requires r.size >= 0 && EndsBy(rs[..k], r.pos)
    requires k + 1 < |rs| ==> End(r) <= rs[k + 1].pos + d
    ensures ValidRecords(rs[..k] + [r] + Shift(rs[k + 1..], d))
  {
    ValidParts(rs, k);
    var tail := rs[k + 1..];
    var p := if k + 1 < |rs| then rs[k + 1].pos else End(r) - d;
    assert StartsFrom(tail, p) by {
      forall i | 0 <= i < |tail|
        ensures tail[i].pos >= p
      {
        if i > 0 {
          ValidPair(rs, k + 1, k + 1 + i);
        }
      }
    }
    ValidShift(tail, d, p);
    ValidJoin(rs[..k], [r], r.pos);
    ValidJoin(rs[..k] + [r], Shift(tail, d), End(r));
  }

  lemma ValidUpdate(rs: seq<Record>, k: nat, r: Record)
    requires ValidRecords(rs) && k < |rs|
    requires r.size >= 0 && EndsBy(rs[..k], r.pos)
    requires k + 1 < |rs| ==> End(r) <= rs[k + 1].pos
    ensures ValidRecords(rs[k := r])
  {
    ValidSplice(rs, k, r, 0);
    assert rs[k := r] == rs[..k] + [r] + Shift(rs[k + 1..], 0);
  }

  lemma ValidRemove(rs: seq<Record>, k: nat)
    requires ValidRecords(rs) && k < |rs|
    ensures ValidRecords(Remove(rs, k))
  {
    ValidParts(rs, k);
    ValidJoin(rs[..k], rs[k + 1..], rs[k].pos);
  }

  /** resize(n) keeps a valid sequence valid. */
  lemma ResizeValid(rs: seq<Record>, k: nat, n: int)
    requires ValidRecords(rs) && k < |rs| && n >= 0
    ensures ValidRecords(Resize(rs, k, n))
  {
    ValidBefore(rs, k);
    if k + 1 < |rs| {
      ValidPair(rs, k, k + 1);
    }
    ValidSplice(rs, k, Record(rs[k].pos, n), n - rs[k].size);
  }

  /** In a valid sequence the records after the k-th start at or after its end. */
  lemma ValidAfter(rs: seq<Record>, k: nat)
    requires ValidRecords(rs) && k < |rs|
    ensures StartsFrom(rs[k + 1..], End(rs[k])) && StartsFrom(rs[k..], rs[k].pos)
  {
    ValidParts(rs, k);
  }

  /** In a valid sequence the records before the k-th end by its start. */
  lemma ValidBefore(rs: seq<Record>, k: nat)
    requires ValidRecords(rs) && k < |rs|
    ensures EndsBy(rs[..k], rs[k].pos)
  {
    ValidParts(rs, k);
  }

  // ---------------------------------------------------------------------
  // scheduleReparse

  /** The absorbing loop keeps the record set valid. */
  lemma {:induction false} AbsorbValid(rs: seq<Record>, k: nat, nsize: int, limit: int, base: int)
    requires ValidRecords(rs) && k < |rs|
    requires nsize >= rs[k].size && base >= rs[k].pos
    requires rs[k].pos + nsize <= limit || k + 1 == |rs| || rs[k].pos + nsize <= rs[k + 1].pos
    ensures ValidRecords(Absorb(rs, k, nsize, limit, base))
    decreases |rs|
  {
    if k + 1 < |rs| && rs[k + 1].pos <= limit {
      var rest := Remove(rs, k + 1);
      ValidRemove(rs, k + 1);
      assert rest[k] == rs[k];
      if k + 2 < |rs| {
        assert rest[k + 1] == rs[k + 2];
        ValidPair(rs, k + 1, k + 2);
      }
      AbsorbValid(rest, k, Max(nsize, End(rs[k + 1]) - base), limit, base);
    } else {
      ValidBefore(rs, k);
      ValidUpdate(rs, k, Record(rs[k].pos, nsize));
    }
  }

  /** scheduleReparse keeps the record set valid. */
  lemma ScheduledValid(rs: seq<Record>, pos: int, size: int)
    requires ValidRecords(rs) && size >= 0
    ensures ValidRecords(Scheduled(rs, pos, size))
  {
    var k := FindAtOrAfter(rs, pos);
    if k < |rs| && pos < rs[k].pos <= pos + size {
      if k + 1 < |rs| {
        ValidPair(rs, k, k + 1);
      }
      ValidUpdate(rs, k, Record(pos, End(rs[k]) - pos));
    } else if k < |rs| && rs[k].pos <= pos {
      var nsize := pos + size - rs[k].pos;
      if nsize > rs[k].size {
        AbsorbValid(rs, k, nsize, pos + size, pos);
      }
    } else {
      ScheduledInsertValid(rs, pos, size);
    }
  }

  /** The corrected scheduleReparse keeps the record set valid. */
  lemma ScheduledFixedValid(rs: seq<Record>, pos: int, size: int)
    requires ValidRecords(rs) && size >= 0
    ensures ValidRecords(ScheduledFixed(rs, pos, size))
  {
    var k := FindAtOrAfter(rs, pos);
    if k < |rs| && pos < rs[k].pos <= pos + size {
      if k + 1 < |rs| {
        ValidPair(rs, k, k + 1);
      }
      ValidUpdate(rs, k, Record(pos, End(rs[k]) - pos));
    } else if k < |rs| && rs[k].pos <= pos {
      var nsize := pos + size - rs[k].pos;
      if nsize > rs[k].size {
        AbsorbValid(rs, k, nsize, pos + size, rs[k].pos);
      }
    } else {
      ScheduledInsertValid(rs, pos, size);
    }
  }

  /** A new record placed where findNodeAtOrAfter(pos) points fits when nothing is within reach. */
  lemma ScheduledInsertValid(rs: seq<Record>, pos: int, size: int)
    requires ValidRecords(rs) && size >= 0
    requires var k := FindAtOrAfter(rs, pos); k < |rs| ==> rs[k].pos > pos + size
    ensures ValidRecords(InsertAt(rs, FindAtOrAfter(rs, pos), Record(pos, size)))
  {
    var k := FindAtOrAfter(rs, pos);
    var r := Record(pos, size);
    if k < |rs| {
      ValidParts(rs, k);
    }
    ValidJoin(rs[..k], [r], pos);
    ValidJoin(rs[..k] + [r], rs[k..], pos + size);
  }

  /** Absorbing grows the k-th record to cover [start, start + nsize) together with what it absorbed. */
  lemma {:induction false} AbsorbCoverage(rs: seq<Record>, k: nat, nsize: int, limit: int, x: int)
    requires ValidRecords(rs) && k < |rs|
    requires nsize >= rs[k].size && rs[k].pos + nsize >= limit
    ensures Covered(Absorb(rs, k, nsize, limit, rs[k].pos), x) <==>
            Covered(rs, x) || rs[k].pos <= x < rs[k].pos + nsize
    decreases |rs|
  {
    if k + 1 < |rs| && rs[k + 1].pos <= limit {
      var rest := Remove(rs, k + 1);
      ValidRemove(rs, k + 1);
      assert rest[k] == rs[k];
      ValidPair(rs, k, k + 1);
      AbsorbCoverage(rest, k, Max(nsize, End(rs[k + 1]) - rs[k].pos), limit, x);
      CoveredAround(rs, k + 1, x);
      CoveredRemove(rs, k + 1, x);
    } else {
      CoveredUpdate(rs, k, Record(rs[k].pos, nsize), x);
      CoveredAround(rs, k, x);
    }
  }

  /**
   * Coverage after the corrected scheduleReparse: exactly the offsets that
   * were dirty before, plus [pos, ScheduledReach).  Nothing dirty is lost.
   */
  lemma ScheduledFixedCoverage(rs: seq<Record>, pos: int, size: int, x: int)
    requires ValidRecords(rs)
    ensures Covered(ScheduledFixed(rs, pos, size), x) <==>
            Covered(rs, x) || pos <= x < ScheduledReach(rs, pos, size)
  {
    var k := FindAtOrAfter(rs, pos);
    if k < |rs| && pos < rs[k].pos <= pos + size {
      CoveredUpdate(rs, k, Record(pos, End(rs[k]) - pos), x);
      CoveredAround(rs, k, x);
    } else if k < |rs| && rs[k].pos <= pos {
      var nsize := pos + size - rs[k].pos;
      if nsize > rs[k].size {
        AbsorbCoverage(rs, k, nsize, pos + size, x);
        if rs[k].pos <= x < pos {
          assert Covers(rs[k], x);
        }
      } else if pos <= x < pos + size {
        assert Covers(rs[k], x);
      }
    } else {
      CoveredInsertAt(rs, k, Record(pos, size), x);
    }
  }

  /** The corrected scheduleReparse never loses a dirty offset. */
  lemma ScheduledFixedKeepsDirty(rs: seq<Record>, pos: int, size: int, x: int)
    requires ValidRecords(rs) && Covered(rs, x)
    ensures Covered(ScheduledFixed(rs, pos, size), x)
  {
    ScheduledFixedCoverage(rs, pos, size, x);
  }

  /** The two versions differ only when a record starting strictly before pos absorbs others. */
  lemma ScheduledAgrees(rs: seq<Record>, pos: int, size: int)
    requires var k := FindAtOrAfter(rs, pos); !(k < |rs| && rs[k].pos < pos)
    ensures Scheduled(rs, pos, size) == ScheduledFixed(rs, pos, size)
  {
  }

  /**
   * scheduleReparse as written loses dirty offsets: the record [0, 10)
   * absorbs [12, 20) for a request (5, 10), but its new size is measured
   * from 5 instead of 0, so [15, 20) is no longer scheduled.
   */
  lemma ScheduledDropsAbsorbedTail()
    ensures var rs := [Record(0, 10), Record(12, 8)];
            ValidRecords(rs) && Covered(rs, 17) &&
            !Covered(Scheduled(rs, 5, 10), 17) && Covered(ScheduledFixed(rs, 5, 10), 17)
  {
    var rs := [Record(0, 10), Record(12, 8)];
    assert FindAtOrAfter(rs, 5) == 0;
    assert Covers(rs[1], 17);
    var rest := Remove(rs, 1);
    assert rest == [Record(0, 10)];
    assert Scheduled(rs, 5, 10) == [Record(0, 15)];
    assert ScheduledFixed(rs, 5, 10) == [Record(0, 20)];
    assert Covers(ScheduledFixed(rs, 5, 10)[0], 17);
  }

  /**
   * The same step inside markSectionParsed: marking (5, 0) parsed in
   * [0, 10), [10, 20) cuts the first record to [0, 5) and reschedules
   * [5, 10), which absorbs [10, 20).  Measured from 5, as written, the
   * merged record is [0, 15); measured from its start it is [0, 20), which
   * is what SectionParsed gives.
   */
  lemma SectionParsedSplitTail()
    ensures Scheduled([Record(0, 5), Record(10, 10)], 5, 5) == [Record(0, 15)]
    ensures SectionParsed([Record(0, 10), Record(10, 10)], 5, 0) == [Record(0, 20)]
  {
    var cut := [Record(0, 5), Record(10, 10)];
    assert FindAtOrAfter(cut, 5) == 0;
    assert Remove(cut, 1) == [Record(0, 5)];
    var rs := [Record(0, 10), Record(10, 10)];
    assert FindAtOrAfter(rs, 5) == 0;
    assert SetSize(rs, 0, 5) == cut;
    assert ScheduledFixed(cut, 5, 5) == [Record(0, 20)];
  }

  /** Absorbing keeps the records before k, grows the k-th, and removes a run of records after it. */
  lemma {:induction false} AbsorbShape(rs: seq<Record>, k: nat, nsize: int, limit: int, base: int)
    requires k < |rs|
    ensures var r := Absorb(rs, k, nsize, limit, base);
            k < |r| <= |rs| && r[..k] == rs[..k] &&
            r[k].pos == rs[k].pos && r[k].size >= nsize &&
            r[k + 1..] == rs[|rs| - |r| + k + 1..] &&
            (forall j :: k < j < |rs| - |r| + k + 1 ==> rs[j].pos <= limit) &&
            (k + 1 < |r| ==> r[k + 1].pos > limit)
    decreases |rs|
  {
    if k + 1 < |rs| && rs[k + 1].pos <= limit {
      var rest := Remove(rs, k + 1);
      assert rest[k] == rs[k];
      AbsorbShape(rest, k, Max(nsize, End(rs[k + 1]) - base), limit, base);
      var r := Absorb(rs, k, nsize, limit, base);
      assert r == Absorb(rest, k, Max(nsize, End(rs[k + 1]) - base), limit, base);
      assert rest[..k] == rs[..k];
      assert rest[|rest| - |r| + k + 1..] == rs[|rs| - |r| + k + 1..];
      forall j | k < j < |rs| - |r| + k + 1
        ensures rs[j].pos <= limit
      {
        if j > k + 1 {
          assert rs[j] == rest[j - 1];
        }
      }
    } else {
      var r := SetSize(rs, k, nsize);
      assert r[..k] == rs[..k];
      assert r[k + 1..] == rs[k + 1..];
    }
  }

  /**
   * When the record found at pos starts at or before pos, scheduleReparse
   * only grows it: records before it are unchanged, it keeps its start and
   * does not shrink, the records it absorbs are a run that starts at or
   * before pos + size, and the records after the run are unchanged.
   */
  lemma ScheduledOnlyGrows(rs: seq<Record>, pos: int, size: int)
    requires ValidRecords(rs)
    requires var k := FindAtOrAfter(rs, pos); k < |rs| && rs[k].pos <= pos
    ensures var k := FindAtOrAfter(rs, pos);
            var r := Scheduled(rs, pos, size);
            k < |r| <= |rs| && r[..k] == rs[..k] &&
            r[k].pos == rs[k].pos && r[k].size >= rs[k].size &&
            r[k + 1..] == rs[|rs| - |r| + k + 1..] &&
            (forall j :: k < j < |rs| - |r| + k + 1 ==> rs[j].pos <= pos + size) &&
            (r[k].size > rs[k].size ==> forall j :: k < j < |r| ==> r[j].pos > pos + size)
  {
    var k := FindAtOrAfter(rs, pos);
    var nsize := pos + size - rs[k].pos;
    if nsize > rs[k].size {
      assert Scheduled(rs, pos, size) == Absorb(rs, k, nsize, pos + size, pos);
      AbsorbGrows(rs, k, nsize, pos + size, pos);
    } else {
      assert Scheduled(rs, pos, size) == rs;
    }
  }

  /** The absorbing loop, started with a size above the record's, only grows it. */
  lemma AbsorbGrows(rs: seq<Record>, k: nat, nsize: int, limit: int, base: int)
    requires ValidRecords(rs) && k < |rs| && nsize > rs[k].size
    ensures var r := Absorb(rs, k, nsize, limit, base);
            k < |r| <= |rs| && r[..k] == rs[..k] &&
            r[k].pos == rs[k].pos && r[k].size >= rs[k].size &&
            r[k + 1..] == rs[|rs| - |r| + k + 1..] &&
            (forall j :: k < j < |rs| - |r| + k + 1 ==> rs[j].pos <= limit) &&
            (r[k].size > rs[k].size ==> forall j :: k < j < |r| ==> r[j].pos > limit)
  {
    AbsorbShape(rs, k, nsize, limit, base);
    AbsorbKeepsBeyond(rs, k, nsize, limit, base);
  }

  /** The records that survive after the grown one all start beyond the limit. */
  lemma AbsorbKeepsBeyond(rs: seq<Record>, k: nat, nsize: int, limit: int, base: int)
    requires ValidRecords(rs) && k < |rs|
    ensures var r := Absorb(rs, k, nsize, limit, base);
            forall j :: k < j < |r| ==> r[j].pos > limit
  {
    AbsorbShape(rs, k, nsize, limit, base);
    var r := Absorb(rs, k, nsize, limit, base);
    var off := |rs| - |r|;
    forall j | k + 1 < j < |r|
      ensures r[j].pos > limit
    {
      assert r[k + 1..][j - k - 1] == rs[off + k + 1..][j - k - 1];
      assert r[k + 1..][0] == rs[off + k + 1..][0];
      ValidPair(rs, off + k + 1, off + j);
    }
  }

  /** With nothing dirty at or after pos within reach, scheduleReparse adds exactly the record (pos, size). */
  lemma ScheduledInsertsNew(rs: seq<Record>, pos: int, size: int)
    requires size >= 0
    requires forall i :: 0 <= i < |rs| ==> End(rs[i]) < pos || rs[i].pos > pos + size
    ensures multiset(Scheduled(rs, pos, size)) == multiset(rs) + multiset{Record(pos, size)}
  {
    var k := FindAtOrAfter(rs, pos);
    var r := Record(pos, size);
    assert !(k < |rs| && rs[k].pos <= pos + size);
    InsertAtMultiset(rs, k, r);
  }

  /** Inserting a record adds it and keeps every other. */
  lemma InsertAtMultiset(rs: seq<Record>, k: nat, r: Record)
    requires k <= |rs|
    ensures multiset(InsertAt(rs, k, r)) == multiset(rs) + multiset{r}
  {
    calc {
      multiset(rs[..k] + [r] + rs[k..]);
      multiset(rs[..k]) + multiset{r} + multiset(rs[k..]);
      { assert rs == rs[..k] + rs[k..]; }
      multiset(rs) + multiset{r};
    }
  }

  /**
   * A record starting in (pos, pos + size] is the one found: its start
   * moves back to pos, its end stays, and no other record changes.
   */
  lemma ScheduledMovesStart(rs: seq<Record>, pos: int, size: int, j: nat)
    requires ValidRecords(rs) && j < |rs|
    requires pos < rs[j].pos <= pos + size
    requires forall i :: 0 <= i < j ==> End(rs[i]) < pos
    ensures var r := Scheduled(rs, pos, size);
            |r| == |rs| && r[j].pos == pos && End(r[j]) == End(rs[j]) &&
            forall i :: 0 <= i < |rs| && i != j ==> r[i] == rs[i]
  {
  }

  /** As written, scheduleReparse still covers the requested range up to its reach. */
  lemma ScheduledCoversRequest(rs: seq<Record>, pos: int, size: int, x: int)
    requires ValidRecords(rs)
    requires pos <= x < ScheduledReach(rs, pos, size)
    ensures Covered(Scheduled(rs, pos, size), x)
  {
    var k := FindAtOrAfter(rs, pos);
    if k < |rs| && rs[k].pos < pos {
      var nsize := pos + size - rs[k].pos;
      if nsize > rs[k].size {
        AbsorbShape(rs, k, nsize, pos + size, pos);
        var r := Scheduled(rs, pos, size);
        assert Covers(r[k], x);
      } else {
        assert Covers(rs[k], x);
      }
    } else {
      ScheduledAgrees(rs, pos, size);
      ScheduledFixedCoverage(rs, pos, size, x);
    }
  }

  // ---------------------------------------------------------------------
  // markSectionParsed

  predicate InSection(x: int, pos: int, size: int)
  {
    pos <= x < pos + size
  }

  /** The records before the one findNodeAtOrAfter(p) returns end before p. */
  lemma FoundEndsBy(rs: seq<Record>, p: int)
    ensures EndsBy(rs[..FindAtOrAfter(rs, p)], p)
  {
    var k := FindAtOrAfter(rs, p);
    assert forall i :: 0 <= i < k ==> rs[..k][i] == rs[i];
  }

  /** Records that start at or after p do not cover offsets below p. */
  lemma NotCoveredBelow(rs: seq<Record>, p: int, x: int)
    requires StartsFrom(rs, p) && x < p
    ensures !Covered(rs, x)
  {
  }

  /** Records that end by p do not cover offsets from p on. */
  lemma NotCoveredAbove(rs: seq<Record>, p: int, x: int)
    requires EndsBy(rs, p) && x >= p
    ensures !Covered(rs, x)
  {
  }

  /** The second loop of markSectionParsed clears what is left of the section. */
  lemma {:induction false} ParsedBackCoverage(rs: seq<Record>, k: nat, pos: int, size: int, x: int)
    requires ValidRecords(rs) && k <= |rs| && size > 0
    requires forall i :: 0 <= i < k ==> End(rs[i]) <= pos || rs[i].pos >= pos + size
    requires k < |rs| ==> rs[k].pos >= pos
    ensures Covered(ParsedBack(rs, k, pos, size), x) <==> Covered(rs, x) && !InSection(x, pos, size)
    decreases |rs| - k
  {
    var before := rs[..k];
    if k < |rs| && rs[k].pos < pos + size {
      ValidParts(rs, k);
      if k + 1 < |rs| {
        ValidPair(rs, k, k + 1);
      }
      var rsize := pos + size - rs[k].pos;
      CoveredAround(rs, k, x);
      if rsize < rs[k].size {
        var r := Record(pos + size, rs[k].size - rsize);
        ValidUpdate(rs, k, r);
        CoveredUpdate(rs, k, r, x);
        if x < pos + size {
          NotCoveredBelow(rs[k + 1..], End(rs[k]), x);
        }
      } else {
        var rest := Remove(rs, k);
        ValidRemove(rs, k);
        assert rest[..k] == before;
        CoveredRemove(rs, k, x);
        if k < |rest| {
          assert rest[k] == rs[k + 1];
        }
        ParsedBackCoverage(rest, k, pos, size, x);
      }
    } else {
      assert before + rs[k..] == rs;
      CoveredConcat(before, rs[k..], x);
      if k < |rs| && x < pos + size {
        ValidAfter(rs, k);
        NotCoveredBelow(rs[k..], rs[k].pos, x);
      }
    }
  }

  /** The first loop of markSectionParsed, followed by the second, clears the section. */
  lemma {:induction false} ParsedFrontCoverage(rs: seq<Record>, k: nat, pos: int, size: int, x: int)
    requires ValidRecords(rs) && k <= |rs| && size > 0
    requires EndsBy(rs[..k], pos)
    requires k < |rs| ==> End(rs[k]) >= pos
    ensures Covered(ParsedFront(rs, k, pos, size), x) <==> Covered(rs, x) && !InSection(x, pos, size)
    decreases |rs| - k, 1
  {
    if k < |rs| && rs[k].pos <= pos {
      var e := rs[k];
      var rsize := Min(End(e) - pos, size);
      if rsize == e.size {
        ParsedFrontRemoveCoverage(rs, k, pos, size, x);
      } else if e.pos == pos {
        ParsedFrontSlideCoverage(rs, k, pos, size, x);
      } else if End(e) > pos + size {
        ParsedSplitCoverage(rs, k, pos, size, x);
      } else {
        ParsedFrontCutCoverage(rs, k, pos, size, x);
      }
    } else {
      ParsedBackCoverage(rs, k, pos, size, x);
    }
  }

  /** A record lying wholly in the section is removed. */
  lemma ParsedFrontRemoveCoverage(rs: seq<Record>, k: nat, pos: int, size: int, x: int)
    requires ValidRecords(rs) && k < |rs| && size > 0
    requires EndsBy(rs[..k], pos)
    requires End(rs[k]) >= pos && rs[k].pos <= pos && Min(End(rs[k]) - pos, size) == rs[k].size
    ensures Covered(ParsedFront(rs, k, pos, size), x) <==> Covered(rs, x) && !InSection(x, pos, size)
    decreases |rs| - k, 0
  {
    var rest := Remove(rs, k);
    ValidRemove(rs, k);
    assert rest[..k] == rs[..k];
    CoveredAround(rs, k, x);
    CoveredRemove(rs, k, x);
    if k < |rest| {
      assert rest[k] == rs[k + 1];
      ValidPair(rs, k, k + 1);
    }
    ParsedFrontCoverage(rest, k, pos, size, x);
  }

  /** A record starting at the section and reaching past it keeps only the part after it. */
  lemma ParsedFrontSlideCoverage(rs: seq<Record>, k: nat, pos: int, size: int, x: int)
    requires ValidRecords(rs) && k < |rs| && size > 0
    requires EndsBy(rs[..k], pos)
    requires rs[k].pos == pos && Min(End(rs[k]) - pos, size) != rs[k].size
    ensures Covered(ParsedBack(SlideStart(rs, k, Min(End(rs[k]) - pos, size)), k + 1, pos, size), x) <==>
            Covered(rs, x) && !InSection(x, pos, size)
  {
    var e := rs[k];
    var rsize := Min(End(e) - pos, size);
    var r := Record(pos + rsize, e.size - rsize);
    var sl := SlideStart(rs, k, rsize);
    ValidParts(rs, k);
    ValidUpdate(rs, k, r);
    CoveredUpdate(rs, k, r, x);
    CoveredAround(rs, k, x);
    if x < pos + size {
      NotCoveredBelow(rs[k + 1..], End(e), x);
    }
    if x >= pos {
      NotCoveredAbove(rs[..k], pos, x);
    }
    assert sl[..k] == rs[..k];
    if k + 1 < |sl| {
      assert sl[k + 1] == rs[k + 1];
    }
    ParsedBackCoverage(sl, k + 1, pos, size, x);
  }

  /** A record starting before the section and ending inside it is cut back to end at pos. */
  lemma ParsedFrontCutCoverage(rs: seq<Record>, k: nat, pos: int, size: int, x: int)
    requires ValidRecords(rs) && k < |rs| && size > 0
    requires EndsBy(rs[..k], pos)
    requires rs[k].pos < pos <= End(rs[k]) <= pos + size
    ensures Covered(ParsedFront(rs, k, pos, size), x) <==> Covered(rs, x) && !InSection(x, pos, size)
    decreases |rs| - k, 0
  {
    var e := rs[k];
    var r := Record(e.pos, pos - e.pos);
    var cut := SetSize(rs, k, pos - e.pos);
    CutCoverage(rs, k, pos, x);
    if k + 1 < |cut| {
      assert cut[k + 1] == rs[k + 1];
      ValidPair(rs, k, k + 1);
    }
    assert cut[..k + 1] == rs[..k] + [r];
    ParsedFrontCoverage(cut, k + 1, pos, size, x);
  }

  /** Cutting the k-th record back to end at pos clears [pos, its old end) and nothing else. */
  lemma CutCoverage(rs: seq<Record>, k: nat, pos: int, x: int)
    requires ValidRecords(rs) && k < |rs|
    requires rs[k].pos < pos <= End(rs[k])
    requires EndsBy(rs[..k], pos)
    ensures ValidRecords(SetSize(rs, k, pos - rs[k].pos))
    ensures Covered(SetSize(rs, k, pos - rs[k].pos), x) <==> Covered(rs, x) && !(pos <= x < End(rs[k]))
  {
    var e := rs[k];
    var r := Record(e.pos, pos - e.pos);
    ValidParts(rs, k);
    ValidUpdate(rs, k, r);
    CoveredUpdate(rs, k, r, x);
    CoveredAround(rs, k, x);
    if x < End(e) {
      NotCoveredBelow(rs[k + 1..], End(e), x);
    }
    if x >= pos {
      NotCoveredAbove(rs[..k], pos, x);
    }
  }

  /** Rescheduling the tail of a cut record, when the records around it leave [p, tailEnd) free. */
  lemma TailScheduled(cut: seq<Record>, j: nat, p: int, tailEnd: int, x: int)
    requires ValidRecords(cut) && j <= |cut| && p < tailEnd
    requires forall i :: 0 <= i < j ==> End(cut[i]) < p
    requires j < |cut| ==> cut[j].pos >= tailEnd
    ensures Covered(ScheduledFixed(cut, p, tailEnd - p), x) <==> Covered(cut, x) || p <= x < tailEnd
  {
    TailReach(cut, j, p, tailEnd);
    ScheduledFixedCoverage(cut, p, tailEnd - p, x);
  }

  /** Coverage after scheduleReparse when no record starts before pos and runs into it. */
  lemma ScheduledCoverage(rs: seq<Record>, pos: int, size: int, x: int, reach: int)
    requires ValidRecords(rs)
    requires var k := FindAtOrAfter(rs, pos); !(k < |rs| && rs[k].pos < pos)
    requires reach == ScheduledReach(rs, pos, size)
    ensures Covered(Scheduled(rs, pos, size), x) <==> Covered(rs, x) || pos <= x < reach
  {
    ScheduledAgrees(rs, pos, size);
    ScheduledFixedCoverage(rs, pos, size, x);
  }

  /** The tail's record is found at j, and the region scheduled for it reaches its end. */
  lemma TailReach(cut: seq<Record>, j: nat, p: int, tailEnd: int)
    requires j <= |cut| && p < tailEnd
    requires forall i :: 0 <= i < j ==> End(cut[i]) < p
    requires j < |cut| ==> cut[j].pos >= tailEnd && cut[j].size >= 0
    ensures FindAtOrAfter(cut, p) == j
    ensures !(j < |cut| && cut[j].pos < p)
    ensures ScheduledReach(cut, p, tailEnd - p) == tailEnd
  {
    FindAtOrAfterUnique(cut, p, j);
  }

  /** The first record ending at or after p is the one FindAtOrAfter finds. */
  lemma FindAtOrAfterUnique(rs: seq<Record>, p: int, j: nat)
    requires j <= |rs| && (forall i :: 0 <= i < j ==> End(rs[i]) < p) && (j < |rs| ==> End(rs[j]) >= p)
    ensures FindAtOrAfter(rs, p) == j
  {
  }

  /**
   * A record that starts before the section and ends after it keeps its
   * front [start, pos) and has its tail [pos + size, end) scheduled again.
   */
  lemma ParsedSplitCoverage(rs: seq<Record>, k: nat, pos: int, size: int, x: int)
    requires ValidRecords(rs) && k < |rs| && size > 0
    requires rs[k].pos < pos && End(rs[k]) > pos + size
    requires EndsBy(rs[..k], pos)
    ensures Covered(ScheduledFixed(SetSize(rs, k, pos - rs[k].pos), pos + size, End(rs[k]) - (pos + size)), x) <==>
            Covered(rs, x) && !InSection(x, pos, size)
  {
    var cut := SetSize(rs, k, pos - rs[k].pos);
    CutCoverage(rs, k, pos, x);
    CutBeforeTail(rs, k, pos, size);
    TailScheduled(cut, k + 1, pos + size, End(rs[k]), x);
    SplitCombine(rs, k, pos, size, x);
  }

  /** After the cut, the records up to the k-th end before the tail, and the next one starts after it. */
  lemma CutBeforeTail(rs: seq<Record>, k: nat, pos: int, size: int)
    requires ValidRecords(rs) && k < |rs| && size > 0
    requires rs[k].pos < pos && End(rs[k]) > pos + size
    requires EndsBy(rs[..k], pos)
    ensures var cut := SetSize(rs, k, pos - rs[k].pos);
            (forall i :: 0 <= i < k + 1 ==> End(cut[i]) < pos + size) &&
            (k + 1 < |cut| ==> cut[k + 1].pos >= End(rs[k]))
  {
    var cut := SetSize(rs, k, pos - rs[k].pos);
    if k + 1 < |cut| {
      assert cut[k + 1] == rs[k + 1];
      ValidPair(rs, k, k + 1);
    }
    forall i | 0 <= i < k + 1
      ensures End(cut[i]) < pos + size
    {
      if i < k {
        assert cut[i] == rs[..k][i];
      }
    }
  }

  /** The dirty offsets after a split, from those of the cut sequence and of the rescheduled tail. */
  lemma SplitCombine(rs: seq<Record>, k: nat, pos: int, size: int, x: int)
    requires k < |rs| && rs[k].pos < pos && End(rs[k]) > pos + size && size > 0
    requires var cut := SetSize(rs, k, pos - rs[k].pos);
             (Covered(ScheduledFixed(cut, pos + size, End(rs[k]) - (pos + size)), x) <==>
              Covered(cut, x) || pos + size <= x < End(rs[k])) &&
             (Covered(cut, x) <==> Covered(rs, x) && !(pos <= x < End(rs[k])))
    ensures Covered(ScheduledFixed(SetSize(rs, k, pos - rs[k].pos), pos + size, End(rs[k]) - (pos + size)), x) <==>
            Covered(rs, x) && !InSection(x, pos, size)
  {
    if pos + size <= x < End(rs[k]) {
      assert Covers(rs[k], x);
    }
  }

  lemma {:induction false} ParsedBackValid(rs: seq<Record>, k: nat, pos: int, size: int)
    requires ValidRecords(rs) && k <= |rs|
    ensures ValidRecords(ParsedBack(rs, k, pos, size))
    decreases |rs| - k
  {
    if k < |rs| && rs[k].pos < pos + size {
      var rsize := pos + size - rs[k].pos;
      if rsize < rs[k].size {
        ValidParts(rs, k);
        ValidUpdate(rs, k, Record(pos + size, rs[k].size - rsize));
      } else {
        ValidRemove(rs, k);
        ParsedBackValid(Remove(rs, k), k, pos, size);
      }
    }
  }

  lemma {:induction false} ParsedFrontValid(rs: seq<Record>, k: nat, pos: int, size: int)
    requires ValidRecords(rs) && k <= |rs| && size >= 0
    requires EndsBy(rs[..k], pos)
    requires k < |rs| ==> End(rs[k]) >= pos
    ensures ValidRecords(ParsedFront(rs, k, pos, size))
    decreases |rs| - k, 1
  {
    if k < |rs| && rs[k].pos <= pos {
      var e := rs[k];
      var rsize := Min(End(e) - pos, size);
      if rsize == e.size {
        ParsedFrontValidRemove(rs, k, pos, size);
      } else if e.pos == pos {
        ParsedFrontValidSlide(rs, k, pos, size);
      } else {
        ParsedFrontValidCut(rs, k, pos, size);
      }
    } else {
      ParsedBackValid(rs, k, pos, size);
    }
  }

  lemma ParsedFrontValidRemove(rs: seq<Record>, k: nat, pos: int, size: int)
    requires ValidRecords(rs) && k < |rs| && size >= 0
    requires EndsBy(rs[..k], pos)
    requires End(rs[k]) >= pos && rs[k].pos <= pos && Min(End(rs[k]) - pos, size) == rs[k].size
    ensures ValidRecords(ParsedFront(rs, k, pos, size))
    decreases |rs| - k, 0
  {
    var rest := Remove(rs, k);
    ValidRemove(rs, k);
    assert rest[..k] == rs[..k];
    if k < |rest| {
      assert rest[k] == rs[k + 1];
      ValidPair(rs, k, k + 1);
    }
    ParsedFrontValid(rest, k, pos, size);
  }

  lemma ParsedFrontValidSlide(rs: seq<Record>, k: nat, pos: int, size: int)
    requires ValidRecords(rs) && k < |rs| && size >= 0
    requires EndsBy(rs[..k], pos)
    requires rs[k].pos == pos && Min(End(rs[k]) - pos, size) != rs[k].size
    ensures ValidRecords(ParsedFront(rs, k, pos, size))
  {
    var e := rs[k];
    var rsize := Min(End(e) - pos, size);
    if k + 1 < |rs| {
      ValidPair(rs, k, k + 1);
    }
    ValidUpdate(rs, k, Record(pos + rsize, e.size - rsize));
    ParsedBackValid(SlideStart(rs, k, rsize), k + 1, pos, size);
  }

  lemma ParsedFrontValidCut(rs: seq<Record>, k: nat, pos: int, size: int)
    requires ValidRecords(rs) && k < |rs| && size >= 0
    requires EndsBy(rs[..k], pos)
    requires End(rs[k]) >= pos && rs[k].pos < pos && Min(End(rs[k]) - pos, size) != rs[k].size
    ensures ValidRecords(ParsedFront(rs, k, pos, size))
    decreases |rs| - k, 0
  {
    var e := rs[k];
    var r := Record(e.pos, pos - e.pos);
    var cut := SetSize(rs, k, pos - e.pos);
    if k + 1 < |rs| {
      ValidPair(rs, k, k + 1);
    }
    ValidBefore(rs, k);
    ValidUpdate(rs, k, r);
    if End(e) > pos + size {
      ParsedFrontValidSplit(rs, k, pos, size);
    } else {
      if k + 1 < |cut| {
        assert cut[k + 1] == rs[k + 1];
      }
      assert cut[..k + 1] == rs[..k] + [r];
      ParsedFrontValid(cut, k + 1, pos, size);
    }
  }

  lemma ParsedFrontValidSplit(rs: seq<Record>, k: nat, pos: int, size: int)
    requires ValidRecords(rs) && k < |rs| && size >= 0
    requires End(rs[k]) > pos + size && rs[k].pos < pos
    requires ValidRecords(SetSize(rs, k, pos - rs[k].pos))
    ensures ValidRecords(ScheduledFixed(SetSize(rs, k, pos - rs[k].pos), pos + size, End(rs[k]) - (pos + size)))
  {
    ScheduledFixedValid(SetSize(rs, k, pos - rs[k].pos), pos + size, End(rs[k]) - (pos + size));
  }

  /** markSectionParsed keeps the record set valid. */
  lemma SectionParsedValid(rs: seq<Record>, pos: int, size: int)
    requires ValidRecords(rs) && size >= 0
    ensures ValidRecords(SectionParsed(rs, pos, size))
  {
    ParsedFrontValid(rs, FindAtOrAfter(rs, pos), pos, size);
  }

  /**
   * After markSectionParsed(pos, size) an offset is dirty exactly when it
   * was dirty before and lies outside [pos, pos + size): the section is
   * cleared, a record spanning it keeps its front and its rescheduled tail,
   * and nothing outside the section changes.
   */
  lemma SectionParsedCoverage(rs: seq<Record>, pos: int, size: int, x: int)
    requires ValidRecords(rs) && size > 0
    ensures Covered(SectionParsed(rs, pos, size), x) <==> Covered(rs, x) && !InSection(x, pos, size)
  {
    var k := FindAtOrAfter(rs, pos);
    ParsedFrontCoverage(rs, k, pos, size, x);
  }

  // ---------------------------------------------------------------------
  // fireInsertUpdate

  /** Inserting text keeps the record set valid. */
  lemma InsertedValid(rs: seq<Record>, offset: int, length: int)
    requires ValidRecords(rs) && length >= 0
    ensures ValidRecords(Inserted(rs, offset, length))
  {
    var k := FindAtOrAfter(rs, offset);
    if k < |rs| && rs[k].pos <= offset {
      ResizeValid(rs, k, rs[k].size + length);
    } else if k < |rs| {
      FoundEndsBy(rs, offset);
      SlideValid(rs, k, offset, length);
    }
  }

  /**
   * Inserting length characters at offset: dirty offsets before the
   * insertion stay, those after it move up by length, and the inserted text
   * is dirty exactly when the record found at offset starts at or before it
   * (that record grows over the new text).
   */
  lemma InsertedCoverage(rs: seq<Record>, offset: int, length: int, x: int)
    requires ValidRecords(rs) && length >= 0
    ensures x < offset ==> (Covered(Inserted(rs, offset, length), x) <==> Covered(rs, x))
    ensures x >= offset + length ==> (Covered(Inserted(rs, offset, length), x) <==> Covered(rs, x - length))
    ensures offset <= x < offset + length ==>
              (Covered(Inserted(rs, offset, length), x) <==>
               var k := FindAtOrAfter(rs, offset); k < |rs| && rs[k].pos <= offset)
  {
    InsertedCovered(rs, offset, length, x);
  }

  /** The three cases of InsertedCoverage as one equivalence. */
  lemma InsertedCovered(rs: seq<Record>, offset: int, length: int, x: int)
    requires ValidRecords(rs) && length >= 0
    ensures var k := FindAtOrAfter(rs, offset);
            Covered(Inserted(rs, offset, length), x) <==>
              (x < offset && Covered(rs, x)) ||
              (offset <= x < offset + length && k < |rs| && rs[k].pos <= offset) ||
              (x >= offset + length && Covered(rs, x - length))
  {
    var k := FindAtOrAfter(rs, offset);
    FoundEndsBy(rs, offset);
    if k < |rs| {
      ValidAfter(rs, k);
    }
    InsertedCases(rs, offset, length, x);
  }

  /** InsertedCovered, from what validity gives about the records around the k-th. */
  lemma InsertedCases(rs: seq<Record>, offset: int, length: int, x: int)
    requires length >= 0
    requires var k := FindAtOrAfter(rs, offset);
             EndsBy(rs[..k], offset) &&
             (k < |rs| ==> StartsFrom(rs[k + 1..], End(rs[k])) && StartsFrom(rs[k..], rs[k].pos))
    ensures var k := FindAtOrAfter(rs, offset);
            Covered(Inserted(rs, offset, length), x) <==>
              (x < offset && Covered(rs, x)) ||
              (offset <= x < offset + length && k < |rs| && rs[k].pos <= offset) ||
              (x >= offset + length && Covered(rs, x - length))
  {
    var k := FindAtOrAfter(rs, offset);
    var r := Inserted(rs, offset, length);
    if k == |rs| {
      assert r == rs && rs[..k] == rs;
      InsertedPastEnd(rs, offset, length, x);
    } else {
      if rs[k].pos <= offset {
        assert r == Resize(rs, k, rs[k].size + length);
        InsertedGrowCoverage(rs, k, offset, length, x);
      } else {
        assert r == Slide(rs, k, length);
        InsertedSlideCoverage(rs, k, offset, length, x);
      }
    }
  }

  /** Text inserted after every record changes none of them. */
  lemma InsertedPastEnd(rs: seq<Record>, offset: int, length: int, x: int)
    requires length >= 0 && EndsBy(rs, offset)
    ensures (x < offset && Covered(rs, x)) || (x >= offset + length && Covered(rs, x - length)) <==> Covered(rs, x)
  {
    if x >= offset {
      NotCoveredAbove(rs, offset, x);
    }
    if x >= offset + length {
      NotCoveredAbove(rs, offset, x - length);
    }
  }

  /** Text inserted at or inside the k-th record grows it and moves the later records. */
  lemma InsertedGrowCoverage(rs: seq<Record>, k: nat, offset: int, length: int, x: int)
    requires k < |rs| && length >= 0 && rs[k].pos <= offset <= End(rs[k])
    requires EndsBy(rs[..k], offset) && StartsFrom(rs[k + 1..], End(rs[k]))
    ensures Covered(Resize(rs, k, rs[k].size + length), x) <==>
              (x < offset && Covered(rs, x)) || (offset <= x < offset + length) ||
              (x >= offset + length && Covered(rs, x - length))
  {
    var n := rs[k].size + length;
    CoveredResize(rs, k, n, x);
    assert x - (n - rs[k].size) == x - length;
    if x < offset {
      CoveredAround(rs, k, x);
      NotCoveredBelow(rs[k + 1..], End(rs[k]), x);
      NotCoveredBelow(rs[k + 1..], End(rs[k]), x - length);
    } else if x < offset + length {
      NotCoveredAbove(rs[..k], offset, x);
    } else {
      CoveredAround(rs, k, x - length);
      NotCoveredAbove(rs[..k], offset, x);
      NotCoveredAbove(rs[..k], offset, x - length);
    }
  }

  /** Text inserted before the k-th record moves it and the later records. */
  lemma InsertedSlideCoverage(rs: seq<Record>, k: nat, offset: int, length: int, x: int)
    requires k < |rs| && length >= 0 && offset < rs[k].pos
    requires EndsBy(rs[..k], offset) && StartsFrom(rs[k..], rs[k].pos)
    ensures Covered(Slide(rs, k, length), x) <==>
              (x < offset && Covered(rs, x)) || (x >= offset + length && Covered(rs, x - length))
  {
    CoveredSlide(rs, k, length, x);
    assert rs[..k] + rs[k..] == rs;
    if x < offset {
      CoveredConcat(rs[..k], rs[k..], x);
      NotCoveredBelow(rs[k..], rs[k].pos, x - length);
    } else if x < offset + length {
      NotCoveredAbove(rs[..k], offset, x);
      NotCoveredBelow(rs[k..], rs[k].pos, x - length);
    } else {
      CoveredConcat(rs[..k], rs[k..], x - length);
      NotCoveredAbove(rs[..k], offset, x);
      NotCoveredAbove(rs[..k], offset, x - length);
    }
  }

  // ---------------------------------------------------------------------
  // fireRemoveUpdate

  /** The loop of fireRemoveUpdate keeps the record set valid. */
  lemma {:induction false} RemoveLoopValid(rs: seq<Record>, k: nat, rpos: int, rlen: int)
    requires ValidRecords(rs) && k <= |rs| && rlen >= 0
    requires EndsBy(rs[..k], rpos)
    requires k < |rs| ==> End(rs[k]) >= rpos
    ensures ValidRecords(RemoveLoop(rs, k, rpos, rlen))
    decreases |rs|, |rs| - k, 1
  {
    if k < |rs| && rlen > 0 {
      var r := rs[k];
      if r.pos <= rpos && End(r) >= rpos + rlen && (r.pos < rpos || End(r) > rpos + rlen) {
        RemoveLoopValidShrink(rs, k, rpos, rlen);
      } else if r.pos < rpos {
        RemoveLoopValidCut(rs, k, rpos, rlen);
      } else if r.pos == rpos {
        RemoveLoopValidWhole(rs, k, rpos, rlen);
      } else if r.pos >= rpos + rlen {
        RemoveLoopValidSlide(rs, k, rpos, rlen);
      } else if End(r) <= rpos + rlen {
        RemoveLoopValidInside(rs, k, rpos, rlen);
      } else {
        RemoveLoopValidFront(rs, k, rpos, rlen);
      }
    }
  }

  /** The removed text lies within the k-th record, which shrinks. */
  lemma RemoveLoopValidShrink(rs: seq<Record>, k: nat, rpos: int, rlen: int)
    requires ValidRecords(rs) && k < |rs| && rlen > 0
    requires rs[k].pos <= rpos && End(rs[k]) >= rpos + rlen && (rs[k].pos < rpos || End(rs[k]) > rpos + rlen)
    ensures ValidRecords(RemoveLoop(rs, k, rpos, rlen))
  {
    assert RemoveLoop(rs, k, rpos, rlen) == Resize(rs, k, rs[k].size - rlen);
    ShrinkValid(rs, k, rlen);
  }

  /** The removed text lies before the k-th record, which slides back with the later ones. */
  lemma RemoveLoopValidSlide(rs: seq<Record>, k: nat, rpos: int, rlen: int)
    requires ValidRecords(rs) && k < |rs| && rlen > 0 && EndsBy(rs[..k], rpos)
    requires rs[k].pos >= rpos + rlen
    ensures ValidRecords(RemoveLoop(rs, k, rpos, rlen))
  {
    assert RemoveLoop(rs, k, rpos, rlen) == Slide(rs, k, -rlen);
    SlideValid(rs, k, rpos, -rlen);
  }

  /** The removed text ends inside the k-th record, which loses its front. */
  lemma RemoveLoopValidFront(rs: seq<Record>, k: nat, rpos: int, rlen: int)
    requires ValidRecords(rs) && k < |rs| && EndsBy(rs[..k], rpos) && rlen > 0
    requires rpos < rs[k].pos < rpos + rlen < End(rs[k])
    ensures ValidRecords(RemoveLoop(rs, k, rpos, rlen))
  {
    assert RemoveLoop(rs, k, rpos, rlen) == Slide(SlideStart(rs, k, rpos + rlen - rs[k].pos), k, -rlen);
    FrontCutValid(rs, k, rpos, rlen);
  }

  /** The loop cuts the k-th record back to end at rpos and goes on with the next. */
  lemma RemoveLoopValidCut(rs: seq<Record>, k: nat, rpos: int, rlen: int)
    requires ValidRecords(rs) && k < |rs| && rlen > 0
    requires EndsBy(rs[..k], rpos)
    requires rs[k].pos < rpos <= End(rs[k]) < rpos + rlen
    ensures ValidRecords(RemoveLoop(rs, k, rpos, rlen))
    decreases |rs|, |rs| - k, 0
  {
    var reduction := End(rs[k]) - rpos;
    var next := Resize(rs, k, rs[k].size - reduction);
    ShrinkValid(rs, k, reduction);
    ShrinkEndsBy(rs, k, rpos);
    RemoveLoopValid(next, k + 1, rpos, rlen - reduction);
  }

  /** The loop removes a record starting at rpos and looks again from rpos. */
  lemma RemoveLoopValidWhole(rs: seq<Record>, k: nat, rpos: int, rlen: int)
    requires ValidRecords(rs) && k < |rs| && rlen > 0
    requires rs[k].pos == rpos && End(rs[k]) <= rpos + rlen
    ensures ValidRecords(RemoveLoop(rs, k, rpos, rlen))
    decreases |rs|, |rs| - k, 0
  {
    var rest := Remove(rs, k);
    ValidRemove(rs, k);
    FoundEndsBy(rest, rpos);
    RemoveLoopValid(rest, FindAtOrAfter(rest, rpos), rpos, rlen);
  }

  /** The loop removes a record lying inside the removed text and goes on at the same index. */
  lemma RemoveLoopValidInside(rs: seq<Record>, k: nat, rpos: int, rlen: int)
    requires ValidRecords(rs) && k < |rs| && rlen > 0
    requires EndsBy(rs[..k], rpos)
    requires rpos < rs[k].pos < rpos + rlen && End(rs[k]) <= rpos + rlen
    ensures ValidRecords(RemoveLoop(rs, k, rpos, rlen))
    decreases |rs|, |rs| - k, 0
  {
    RemoveNextValid(rs, k, rpos);
    RemoveLoopValid(Remove(rs, k), k, rpos, rlen);
  }

  /** Shrinking the k-th record by d characters, moving the later ones back. */
  lemma ShrinkValid(rs: seq<Record>, k: nat, d: int)
    requires ValidRecords(rs) && k < |rs| && 0 <= d <= rs[k].size
    ensures ValidRecords(Resize(rs, k, rs[k].size - d))
  {
    ResizeValid(rs, k, rs[k].size - d);
  }

  /** After the k-th record is cut back to end at rpos, the loop may go on past it. */
  lemma ShrinkEndsBy(rs: seq<Record>, k: nat, rpos: int)
    requires ValidRecords(rs) && k < |rs| && EndsBy(rs[..k], rpos)
    requires rs[k].pos < rpos <= End(rs[k])
    ensures var next := Resize(rs, k, rs[k].size - (End(rs[k]) - rpos));
            EndsBy(next[..k + 1], rpos) && (k + 1 < |next| ==> End(next[k + 1]) >= rpos)
  {
    var d := End(rs[k]) - rpos;
    var next := Resize(rs, k, rs[k].size - d);
    assert next[..k + 1] == rs[..k] + [Record(rs[k].pos, rs[k].size - d)];
    if k + 1 < |next| {
      ValidPair(rs, k, k + 1);
      assert next[k + 1] == Record(rs[k + 1].pos - d, rs[k + 1].size);
    }
  }

  /** Sliding the k-th record and those after it by d, when they stay at or after p. */
  lemma SlideValid(rs: seq<Record>, k: nat, p: int, d: int)
    requires ValidRecords(rs) && k < |rs| && EndsBy(rs[..k], p)
    requires rs[k].pos + d >= p
    ensures ValidRecords(Slide(rs, k, d))
  {
    ValidParts(rs, k);
    ValidShift(rs[k..], d, rs[k].pos);
    ValidJoin(rs[..k], Shift(rs[k..], d), p);
  }

  /** Removing the k-th record leaves the loop's entry condition at k. */
  lemma RemoveNextValid(rs: seq<Record>, k: nat, rpos: int)
    requires ValidRecords(rs) && k < |rs| && EndsBy(rs[..k], rpos) && rs[k].pos >= rpos
    ensures var rest := Remove(rs, k);
            ValidRecords(rest) && EndsBy(rest[..k], rpos) && (k < |rest| ==> End(rest[k]) >= rpos)
  {
    var rest := Remove(rs, k);
    ValidRemove(rs, k);
    assert rest[..k] == rs[..k];
    if k < |rest| {
      assert rest[k] == rs[k + 1];
      ValidPair(rs, k, k + 1);
    }
  }

  /** Cutting the front of the k-th record off at rpos + rlen, then sliding it back by rlen. */
  lemma FrontCutValid(rs: seq<Record>, k: nat, rpos: int, rlen: int)
    requires ValidRecords(rs) && k < |rs| && EndsBy(rs[..k], rpos) && rlen >= 0
    requires rpos < rs[k].pos < rpos + rlen < End(rs[k])
    ensures ValidRecords(Slide(SlideStart(rs, k, rpos + rlen - rs[k].pos), k, -rlen))
  {
    var d := rpos + rlen - rs[k].pos;
    var front := SlideStart(rs, k, d);
    ValidBefore(rs, k);
    if k + 1 < |rs| {
      ValidPair(rs, k, k + 1);
    }
    ValidUpdate(rs, k, Record(rs[k].pos + d, rs[k].size - d));
    assert front[..k] == rs[..k];
    SlideValid(front, k, rpos, -rlen);
  }

  /** fireRemoveUpdate keeps the record set valid. */
  lemma RemovedValid(rs: seq<Record>, offset: int, length: int)
    requires ValidRecords(rs) && length >= 0
    ensures ValidRecords(Removed(rs, offset, length))
  {
    var k := FindAtOrAfter(rs, offset);
    var k0 := if k < |rs| && End(rs[k]) == offset then k + 1 else k;
    if k0 == k + 1 {
      assert rs[..k0] == rs[..k] + [rs[k]];
      if k0 < |rs| {
        ValidPair(rs, k, k0);
      }
    }
    RemoveLoopValid(rs, k0, offset, length);
  }

  /** Offset x is dirty after rlen characters at rpos are removed from a document whose dirty set was rs. */
  predicate DirtyAfterRemoval(rs: seq<Record>, rpos: int, rlen: int, x: int)
  {
    (x < rpos && Covered(rs, x)) || (x >= rpos && Covered(rs, x + rlen))
  }

  /**
   * Removing length characters at offset: dirty offsets before the removed
   * text stay, and those after it move down by length; the removed text
   * takes its dirty offsets with it.
   */
  lemma RemovedCoverage(rs: seq<Record>, offset: int, length: int, x: int)
    requires ValidRecords(rs) && length >= 0
    ensures Covered(Removed(rs, offset, length), x) <==>
              (x < offset && Covered(rs, x)) || (x >= offset && Covered(rs, x + length))
  {
    var k := FindAtOrAfter(rs, offset);
    var k0 := if k < |rs| && End(rs[k]) == offset then k + 1 else k;
    FoundEndsBy(rs, offset);
    if k0 == k + 1 {
      assert rs[..k0] == rs[..k] + [rs[k]];
      if k0 < |rs| {
        ValidPair(rs, k, k0);
      }
    }
    RemoveLoopCoverage(rs, k0, offset, length, x);
  }

  /** The loop of fireRemoveUpdate takes the removed text out of the dirty set. */
  lemma {:induction false} RemoveLoopCoverage(rs: seq<Record>, k: nat, rpos: int, rlen: int, x: int)
    requires ValidRecords(rs) && k <= |rs| && rlen >= 0
    requires EndsBy(rs[..k], rpos)
    requires k < |rs| ==> End(rs[k]) >= rpos
    ensures Covered(RemoveLoop(rs, k, rpos, rlen), x) <==> DirtyAfterRemoval(rs, rpos, rlen, x)
    decreases |rs|, |rs| - k, 2
  {
    if k == |rs| {
      assert rs[..k] == rs;
      if x >= rpos {
        NotCoveredAbove(rs, rpos, x);
        NotCoveredAbove(rs, rpos, x + rlen);
      }
    } else if rlen > 0 {
      var r := rs[k];
      ValidAfter(rs, k);
      if r.pos <= rpos && End(r) >= rpos + rlen && (r.pos < rpos || End(r) > rpos + rlen) {
        ShrinkCoverage(rs, k, rpos, rlen, x);
      } else if r.pos < rpos {
        RemoveLoopCoverageCut(rs, k, rpos, rlen, x);
      } else if r.pos == rpos {
        RemoveLoopCoverageWhole(rs, k, rpos, rlen, x);
      } else if r.pos >= rpos + rlen {
        SlideCoverage(rs, k, rpos, rlen, x);
      } else if End(r) <= rpos + rlen {
        RemoveLoopCoverageInside(rs, k, rpos, rlen, x);
      } else {
        FrontCutCoverage(rs, k, rpos, rlen, x);
      }
    }
  }

  /** Shrinking the k-th record by rlen removes the text from inside it. */
  lemma ShrinkCoverage(rs: seq<Record>, k: nat, rpos: int, rlen: int, x: int)
    requires k < |rs| && rlen >= 0 && rs[k].pos <= rpos && rpos + rlen <= End(rs[k])
    requires EndsBy(rs[..k], rpos) && StartsFrom(rs[k + 1..], End(rs[k]))
    ensures Covered(Resize(rs, k, rs[k].size - rlen), x) <==> DirtyAfterRemoval(rs, rpos, rlen, x)
  {
    var n := rs[k].size - rlen;
    CoveredResize(rs, k, n, x);
    assert x - (n - rs[k].size) == x + rlen;
    if x < rpos {
      CoveredAround(rs, k, x);
      NotCoveredBelow(rs[k + 1..], End(rs[k]), x);
      NotCoveredBelow(rs[k + 1..], End(rs[k]), x + rlen);
    } else {
      CoveredAround(rs, k, x + rlen);
      NotCoveredAbove(rs[..k], rpos, x);
      NotCoveredAbove(rs[..k], rpos, x + rlen);
    }
  }

  /** Sliding back records that lie wholly after the removed text. */
  lemma SlideCoverage(rs: seq<Record>, k: nat, rpos: int, rlen: int, x: int)
    requires k < |rs| && rlen >= 0 && rs[k].pos >= rpos + rlen
    requires EndsBy(rs[..k], rpos) && StartsFrom(rs[k..], rs[k].pos)
    ensures Covered(Slide(rs, k, -rlen), x) <==> DirtyAfterRemoval(rs, rpos, rlen, x)
  {
    CoveredSlide(rs, k, -rlen, x);
    assert rs[..k] + rs[k..] == rs;
    if x < rpos {
      CoveredConcat(rs[..k], rs[k..], x);
      NotCoveredBelow(rs[k..], rs[k].pos, x);
      NotCoveredBelow(rs[k..], rs[k].pos, x + rlen);
    } else {
      CoveredConcat(rs[..k], rs[k..], x + rlen);
      NotCoveredAbove(rs[..k], rpos, x);
      NotCoveredAbove(rs[..k], rpos, x + rlen);
    }
  }

  /** Cutting off the front of a record the removed text ends inside. */
  lemma FrontCutCoverage(rs: seq<Record>, k: nat, rpos: int, rlen: int, x: int)
    requires k < |rs| && rpos < rs[k].pos < rpos + rlen < End(rs[k])
    requires EndsBy(rs[..k], rpos) && StartsFrom(rs[k + 1..], End(rs[k]))
    ensures Covered(Slide(SlideStart(rs, k, rpos + rlen - rs[k].pos), k, -rlen), x) <==>
              DirtyAfterRemoval(rs, rpos, rlen, x)
  {
    var d := rpos + rlen - rs[k].pos;
    var front := SlideStart(rs, k, d);
    CoveredSlide(front, k, -rlen, x);
    assert front[..k] == rs[..k];
    assert front[k..] == [front[k]] + rs[k + 1..];
    CoveredConcat([front[k]], rs[k + 1..], x + rlen);
    CoveredSingle(front[k], x + rlen);
    if x < rpos {
      CoveredAround(rs, k, x);
      NotCoveredBelow(rs[k + 1..], End(rs[k]), x);
      NotCoveredBelow(rs[k + 1..], End(rs[k]), x + rlen);
    } else {
      CoveredAround(rs, k, x + rlen);
      NotCoveredAbove(rs[..k], rpos, x);
      NotCoveredAbove(rs[..k], rpos, x + rlen);
    }
  }

  /** The loop cuts the k-th record back to end at rpos and goes on with the next. */
  lemma RemoveLoopCoverageCut(rs: seq<Record>, k: nat, rpos: int, rlen: int, x: int)
    requires ValidRecords(rs) && k < |rs| && rlen > 0
    requires EndsBy(rs[..k], rpos) && StartsFrom(rs[k + 1..], End(rs[k]))
    requires rs[k].pos < rpos <= End(rs[k]) < rpos + rlen
    ensures Covered(RemoveLoop(rs, k, rpos, rlen), x) <==> DirtyAfterRemoval(rs, rpos, rlen, x)
    decreases |rs|, |rs| - k, 1
  {
    ShrinkValid(rs, k, End(rs[k]) - rpos);
    ShrinkEndsBy(rs, k, rpos);
    CutStepCoverage(rs, k, rpos, rlen, x);
  }

  /** The dirty set the loop leaves after cutting the k-th record, from what it leaves from the next. */
  lemma CutStepCoverage(rs: seq<Record>, k: nat, rpos: int, rlen: int, x: int)
    requires k < |rs| && rs[k].pos < rpos <= End(rs[k]) < rpos + rlen
    requires EndsBy(rs[..k], rpos) && StartsFrom(rs[k + 1..], End(rs[k]))
    requires var next := Resize(rs, k, rs[k].size - (End(rs[k]) - rpos));
             ValidRecords(next) && EndsBy(next[..k + 1], rpos) && (k + 1 < |next| ==> End(next[k + 1]) >= rpos)
    ensures Covered(RemoveLoop(rs, k, rpos, rlen), x) <==> DirtyAfterRemoval(rs, rpos, rlen, x)
    decreases |rs|, |rs| - k, 0
  {
    var reduction := End(rs[k]) - rpos;
    var next := Resize(rs, k, rs[k].size - reduction);
    assert RemoveLoop(rs, k, rpos, rlen) == RemoveLoop(next, k + 1, rpos, rlen - reduction);
    RemoveLoopCoverage(next, k + 1, rpos, rlen - reduction, x);
    CutStep(rs, k, rpos, rlen, x);
  }

  /** Cutting the k-th record back to end at rpos leaves the rest of the removal to the loop. */
  lemma CutStep(rs: seq<Record>, k: nat, rpos: int, rlen: int, x: int)
    requires k < |rs| && rs[k].pos < rpos <= End(rs[k]) < rpos + rlen
    requires EndsBy(rs[..k], rpos) && StartsFrom(rs[k + 1..], End(rs[k]))
    ensures var reduction := End(rs[k]) - rpos;
            DirtyAfterRemoval(Resize(rs, k, rs[k].size - reduction), rpos, rlen - reduction, x) <==>
            DirtyAfterRemoval(rs, rpos, rlen, x)
  {
    var reduction := End(rs[k]) - rpos;
    var n := rs[k].size - reduction;
    var y := if x < rpos then x else x + rlen - reduction;
    CoveredResize(rs, k, n, y);
    assert y - (n - rs[k].size) == y + reduction;
    if x < rpos {
      CoveredAround(rs, k, x);
      NotCoveredBelow(rs[k + 1..], End(rs[k]), x);
      NotCoveredBelow(rs[k + 1..], End(rs[k]), x + reduction);
    } else {
      CoveredAround(rs, k, x + rlen);
      NotCoveredAbove(rs[..k], rpos, y);
      NotCoveredAbove(rs[..k], rpos, x + rlen);
    }
  }

  /** The loop removes a record starting at rpos and looks again from rpos. */
  lemma RemoveLoopCoverageWhole(rs: seq<Record>, k: nat, rpos: int, rlen: int, x: int)
    requires ValidRecords(rs) && k < |rs| && rlen > 0
    requires rs[k].pos == rpos && End(rs[k]) <= rpos + rlen
    ensures Covered(RemoveLoop(rs, k, rpos, rlen), x) <==> DirtyAfterRemoval(rs, rpos, rlen, x)
    decreases |rs|, |rs| - k, 0
  {
    var rest := Remove(rs, k);
    ValidRemove(rs, k);
    FoundEndsBy(rest, rpos);
    RemoveLoopCoverage(rest, FindAtOrAfter(rest, rpos), rpos, rlen, x);
    RemoveStep(rs, k, rpos, rlen, x);
  }

  /** The loop removes a record lying inside the removed text and goes on at the same index. */
  lemma RemoveLoopCoverageInside(rs: seq<Record>, k: nat, rpos: int, rlen: int, x: int)
    requires ValidRecords(rs) && k < |rs| && rlen > 0
    requires EndsBy(rs[..k], rpos)
    requires rpos < rs[k].pos < rpos + rlen && End(rs[k]) <= rpos + rlen
    ensures Covered(RemoveLoop(rs, k, rpos, rlen), x) <==> DirtyAfterRemoval(rs, rpos, rlen, x)
    decreases |rs|, |rs| - k, 0
  {
    RemoveNextValid(rs, k, rpos);
    RemoveLoopCoverage(Remove(rs, k), k, rpos, rlen, x);
    RemoveStep(rs, k, rpos, rlen, x);
  }

  /** Dropping a record that lies within the removed text changes nothing that remains. */
  lemma RemoveStep(rs: seq<Record>, k: nat, rpos: int, rlen: int, x: int)
    requires k < |rs| && rpos <= rs[k].pos && End(rs[k]) <= rpos + rlen
    ensures DirtyAfterRemoval(Remove(rs, k), rpos, rlen, x) <==> DirtyAfterRemoval(rs, rpos, rlen, x)
  {
    CoveredRemove(rs, k, x);
    CoveredAround(rs, k, x);
    CoveredRemove(rs, k, x + rlen);
    CoveredAround(rs, k, x + rlen);
  }
}
