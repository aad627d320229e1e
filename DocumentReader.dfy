/**
 * BlueJ's DocumentReader: a Reader over a text document that asks the
 * document for its text in chunks.  The document answers getText with
 * "partial return" set, so it may hand back fewer characters than asked for
 * (its text up to an internal gap); the reader keeps the last chunk as its
 * buffer, reads from it at bufpos, and asks for the next chunk from
 * docPosition when the buffer runs dry.  Reading stops at docLength: the
 * document's length, or the end position given at construction.
 */
module DocumentReading {

  function Min(a: int, b: int): int { if a <= b then a else b }

  /**
   * How many characters the document returns when asked for `avail` of them
   * from a position whose partial-return limit is `limit`: none when none are
   * asked for, otherwise at least one and at most `avail`.
   */
  function ChunkLength(avail: nat, limit: nat): (n: nat)
    ensures n <= avail
    ensures avail > 0 ==> n >= 1
    ensures limit >= avail ==> n == avail
  {
    if avail == 0 then 0
    else if limit < 1 then 1
    else Min(limit, avail)
  }

  /**
   * A copy of doc[p..q] to cb[o..] that follows one of doc[p0..p] to
   * before[off..o] leaves doc[p0..q] at before[off..].
   */
  lemma CopyExtends(before: seq<char>, cb: seq<char>, next: seq<char>, off: nat, o: nat, avail: nat,
                    doc: seq<char>, p0: nat, p: nat, q: nat)
    requires off <= o && o + avail <= |before| && p0 <= p <= q <= |doc| && q - p == avail && o - off == p - p0
    requires cb == before[..off] + doc[p0..p] + before[o..]
    requires next == cb[..o] + doc[p..q] + cb[o + avail..]
    ensures next == before[..off] + doc[p0..q] + before[o + avail..]
  {
    assert cb[..o] == before[..off] + doc[p0..p];
    assert cb[o + avail..] == before[o + avail..];
    assert doc[p0..q] == doc[p0..p] + doc[p..q];
  }

  /** An array copy of doc[p..p + avail] to before[off..], element by element, as one sequence. */
  lemma ChunkCopied(after: seq<char>, before: seq<char>, off: nat, avail: nat, doc: seq<char>, p: nat)
    requires |after| == |before| && off + avail <= |before| && p + avail <= |doc|
    requires forall j :: 0 <= j < |after| ==> after[j] == if off <= j < off + avail then doc[p + (j - off)] else before[j]
    ensures after == before[..off] + doc[p..p + avail] + before[off + avail..]
  {
  }

  /** What was read up to q is what was read up to p and then doc[p..q]. */
  lemma ReadExtends(doc: seq<char>, s: nat, p: nat, q: nat)
    requires s <= p <= q <= |doc|
    ensures doc[s..q] == doc[s..p] + doc[p..q]
  {
  }

  /** System.arraycopy from the text src at srcPos to dst at dstPos, n characters. */
  method ArrayCopy(src: seq<char>, srcPos: nat, dst: array<char>, dstPos: nat, n: nat)
    requires srcPos + n <= |src| && dstPos + n <= dst.Length
    modifies dst
    ensures dst[..] == old(dst[..dstPos]) + src[srcPos..srcPos + n] + old(dst[dstPos + n..])
  {
    ghost var before := dst[..];
    var k := 0;
    while k < n
      invariant 0 <= k <= n
      invariant forall j :: 0 <= j < dst.Length ==> dst[j] == if dstPos <= j < dstPos + k then src[srcPos + (j - dstPos)] else before[j]
    {
      dst[dstPos + k] := src[srcPos + k];
      k := k + 1;
    }
    ChunkCopied(dst[..], before, dstPos, n, src, srcPos);
  }

  class DocumentReader {
    /** The document's text; the buffer Segment's array is this text, indexed by document offset. */
    const doc: seq<char>
    /** The partial-return limit of the document at each position (how far up to its gap it returns text). */
    const limits: nat -> nat
    /** Where reading started. */
    ghost const start: nat

    /** The buffer Segment's begin and end index: the current chunk is doc[bufBegin..bufEnd]. */
    var bufBegin: nat
    var bufEnd: nat
    var bufpos: nat
    var docPosition: nat
    var docLength: nat
    /** Every character read so far, in order. */
    ghost var delivered: seq<char>

    /**
     * The chunk ends where the document has been fetched up to, bufpos lies
     * in the chunk, docPosition never passes docLength, and what was read is
     * the document from the start up to bufpos, the next character.
     */
    ghost predicate Valid()
      reads this
    {
      bufBegin <= bufpos <= bufEnd == docPosition <= docLength <= |doc| &&
      start <= bufpos && delivered == doc[start..bufpos]
    }

    /** The characters left to read: docLength - docPosition + (bufEnd - bufpos). */
    function Remaining(): (n: int)
      reads this
      requires Valid()
      ensures n == docLength - bufpos
    {
      docLength - docPosition + (bufEnd - bufpos)
    }

    /** DocumentReader(document, position, endpos): read from position up to endpos. */
    constructor (doc: seq<char>, limits: nat -> nat, position: nat, endpos: nat)
      requires position <= endpos <= |doc|
      ensures Valid() && this.doc == doc && this.limits == limits && docLength == endpos
      ensures start == position && bufpos == position && delivered == []
      ensures bufEnd - bufBegin == ChunkLength(endpos - position, limits(position))
    {
      this.doc := doc;
      this.limits := limits;
      start := position;
      docPosition := position;
      docLength := endpos;
      bufBegin, bufEnd, bufpos := 0, 0, 0;
      delivered := [];
      new;
      FillBuffer();
    }

    /** DocumentReader(document, position): read from position to the end of the document. */
    constructor FromPosition(doc: seq<char>, limits: nat -> nat, position: nat)
      requires position <= |doc|
      ensures Valid() && this.doc == doc && this.limits == limits && docLength == |doc|
      ensures start == position && bufpos == position && delivered == []
    {
      this.doc := doc;
      this.limits := limits;
      start := position;
      docPosition := position;
      docLength := |doc|;
      bufBegin, bufEnd, bufpos := 0, 0, 0;
      delivered := [];
      new;
      FillBuffer();
    }

    /** DocumentReader(document): read the whole document. */
    constructor Whole(doc: seq<char>, limits: nat -> nat)
      ensures Valid() && this.doc == doc && this.limits == limits && docLength == |doc|
      ensures start == 0 && bufpos == 0 && delivered == []
    {
      this.doc := doc;
      this.limits := limits;
      start := 0;
      docPosition := 0;
      docLength := |doc|;
      bufBegin, bufEnd, bufpos := 0, 0, 0;
      delivered := [];
      new;
      FillBuffer();
    }

    /**
     * fillBuffer: ask for the rest of the text from docPosition; the chunk
     * returned becomes the buffer, bufpos its begin index, and docPosition
     * moves past it by exactly the chunk's length.
     */
    method FillBuffer()
      requires docPosition <= docLength <= |doc|
      modifies this`bufBegin, this`bufEnd, this`bufpos, this`docPosition
      ensures var n := ChunkLength(old(docLength - docPosition), limits(old(docPosition)));
              docPosition == old(docPosition) + n <= docLength &&
              bufBegin == bufpos == old(docPosition) && bufEnd == docPosition
    {
      var docAvail := docLength - docPosition;
      var n := ChunkLength(docAvail, limits(docPosition));
      bufBegin, bufEnd := docPosition, docPosition + n;
      docPosition := docPosition + n;
      bufpos := bufBegin;
    }

    /** close: nothing to do. */
    method Close()
      ensures unchanged(this)
    {
    }

    /** read(): the next character, or -1 at the end (buffer used up and docPosition at docLength). */
    method Read() returns (c: int)
      requires Valid()
      modifies this`bufBegin, this`bufEnd, this`bufpos, this`docPosition, this`delivered
      ensures Valid() && docLength == old(docLength)
      ensures old(bufpos) == docLength ==> c == -1 && bufpos == old(bufpos) && delivered == old(delivered)
      ensures old(bufpos) < docLength ==>
                c == doc[old(bufpos)] as int && bufpos == old(bufpos) + 1 &&
                delivered == old(delivered) + [doc[old(bufpos)]]
      ensures c == -1 ==> delivered == doc[start..docLength]
    {
      if bufpos == bufEnd {
        if docPosition == docLength {
          return -1;
        }
        FillBuffer();
      }
      c := doc[bufpos] as int;
      delivered := delivered + [doc[bufpos]];
      bufpos := bufpos + 1;
    }

    /**
     * read(cbuf, off, len): copy min(len, Remaining()) characters into
     * cbuf[off..], or return -1 when that is none (nothing left, or len 0).
     * The bounds are those of the Reader contract.
     */
    method ReadInto(cbuf: array<char>, off: nat, len: nat) returns (r: int)
      requires Valid() && off + len <= cbuf.Length
      modifies this`bufBegin, this`bufEnd, this`bufpos, this`docPosition, this`delivered, cbuf
      ensures Valid() && docLength == old(docLength)
      ensures var n := Min(len, old(Remaining()));
              if n == 0 then
                r == -1 && bufpos == old(bufpos) && delivered == old(delivered) &&
                cbuf[..] == old(cbuf[..])
              else
                r == n && bufpos == old(bufpos) + n &&
                cbuf[..] == old(cbuf[..off]) + doc[old(bufpos)..bufpos] + old(cbuf[off + n..]) &&
                delivered == old(delivered) + doc[old(bufpos)..bufpos]
      ensures r == -1 && len > 0 ==> delivered == doc[start..docLength]
    {
      var docAvail := Min(len, docLength - docPosition + bufEnd - bufpos);
      if docAvail == 0 {
        return -1;
      }
      var n := Min(len, docAvail);
      var remaining := n;
      var o := off;
      ghost var p0 := bufpos;
      ghost var before := cbuf[..];
      while remaining > 0
        invariant Valid() && docLength == old(docLength)
        invariant 0 <= remaining <= n && o == off + (n - remaining)
        invariant bufpos == p0 + (n - remaining) && remaining <= docLength - bufpos
        invariant cbuf[..] == before[..off] + doc[p0..bufpos] + before[o..]
        invariant delivered == old(delivered) + doc[p0..bufpos]
        decreases remaining
      {
        ghost var p := bufpos;
        ghost var cb := cbuf[..];
        var avail := CopyTurn(cbuf, o, remaining);
        CopyExtends(before, cb, cbuf[..], off, o, avail, doc, p0, p, bufpos);
        o := o + avail;
        remaining := remaining - avail;
      }
      r := n;
    }

    /**
     * One round of read(cbuf, off, len)'s loop: refill the buffer if it is
     * used up, then copy as much of it as is still wanted.
     */
    method CopyTurn(cbuf: array<char>, o: nat, remaining: nat) returns (avail: nat)
      requires Valid() && 0 < remaining <= docLength - bufpos && o + remaining <= cbuf.Length
      modifies this`bufBegin, this`bufEnd, this`bufpos, this`docPosition, this`delivered, cbuf
      ensures Valid() && docLength == old(docLength) && 1 <= avail <= remaining
      ensures bufpos == old(bufpos) + avail
      ensures cbuf[..] == old(cbuf[..o]) + doc[old(bufpos)..bufpos] + old(cbuf[o + avail..])
      ensures delivered == old(delivered) + doc[old(bufpos)..bufpos]
    {
      avail := Min(bufEnd - bufpos, remaining);
      if avail == 0 {
        FillBuffer();
        avail := Min(bufEnd - bufpos, remaining);
      }
      CopyChunk(cbuf, o, avail);
    }

    /** System.arraycopy(buffer.array, bufpos, cbuf, off, avail) and bufpos += avail. */
    method CopyChunk(cbuf: array<char>, off: nat, avail: nat)
      requires Valid() && bufpos + avail <= bufEnd && off + avail <= cbuf.Length
      modifies this`bufpos, this`delivered, cbuf
      ensures Valid() && bufpos == old(bufpos) + avail
      ensures cbuf[..] == old(cbuf[..off]) + doc[old(bufpos)..bufpos] + old(cbuf[off + avail..])
      ensures delivered == old(delivered) + doc[old(bufpos)..bufpos]
    {
      ArrayCopy(doc, bufpos, cbuf, off, avail);
      ReadExtends(doc, start, bufpos, bufpos + avail);
      delivered := delivered + doc[bufpos..bufpos + avail];
      bufpos := bufpos + avail;
    }
  }
}
