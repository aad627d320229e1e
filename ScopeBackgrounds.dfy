/**
 * Scope backgrounds of the Java syntax view: the nested-scope boxes drawn
 * on each line, the per-line caches that hold them, and the re-keying of
 * those caches when lines are added to or removed from the document.
 *
 * A ParsedNode is known here only by its identity and whether it is an
 * inner node; colours and regions are opaque values.
 */
module ScopeBackgrounds {

  /** A parsed node, compared by identity. */
  datatype Node = Node(id: nat, inner: bool)

  /** A colour, as an opaque value. */
  type Color = int

  /** A box drawn behind a line (a JavaFX region), known only by identity. */
  datatype Region = Region(id: nat)

  /** One nested-scope box on a line: its left edge comes from lhsFrom. */
  datatype SingleNestedScope = SingleNestedScope(
    lhsFrom: Node, lhs: int, rhs: int, starts: bool, ends: bool,
    fillColor: Color, edgeColor: Color)

  const LEFT_INNER_SCOPE_MARGIN := 5
  const LEFT_OUTER_SCOPE_MARGIN := 2

  function Max(a: int, b: int): int
  {
    if a >= b then a else b
  }

  /** The margin the SingleNestedScope constructor takes off the left edge. */
  function LeftMargin(n: Node): int
  {
    if n.inner then LEFT_INNER_SCOPE_MARGIN else LEFT_OUTER_SCOPE_MARGIN
  }

  /** The SingleNestedScope constructor: the left edge loses the margin and is clamped at 0. */
  function NewScope(lhsFrom: Node, lhs: int, rhs: int, starts: bool, ends: bool,
                    fillColor: Color, edgeColor: Color): SingleNestedScope
  {
    SingleNestedScope(lhsFrom, Max(0, lhs - LeftMargin(lhsFrom)), rhs, starts, ends, fillColor, edgeColor)
  }

  /** The scope s rebuilt with left edge lhs, all else kept. */
  function Rebuilt(s: SingleNestedScope, lhs: int): SingleNestedScope
  {
    NewScope(s.lhsFrom, lhs, s.rhs, s.starts, s.ends, s.fillColor, s.edgeColor)
  }

  /** withModified, as a value: every scope whose left edge comes from key is rebuilt with lhs. */
  function Modified(scopes: seq<SingleNestedScope>, key: Node, lhs: int): (r: seq<SingleNestedScope>)
  {
    seq(|scopes|, i requires 0 <= i < |scopes| =>
      if scopes[i].lhsFrom == key then Rebuilt(scopes[i], lhs) else scopes[i])
  }

  /** withModified(originalScopes, key, lhs). */
  method WithModified(originalScopes: seq<SingleNestedScope>, key: Node, lhs: int)
    returns (r: seq<SingleNestedScope>)
    ensures r == Modified(originalScopes, key, lhs)
  {
    r := [];
    var i := 0;
    while i < |originalScopes|
      invariant 0 <= i <= |originalScopes|
      invariant r == Modified(originalScopes[..i], key, lhs)
    {
      var nestedScope := originalScopes[i];
      if nestedScope.lhsFrom == key {
        r := r + [Rebuilt(nestedScope, lhs)];
      } else {
        r := r + [nestedScope];
      }
      assert originalScopes[..i + 1] == originalScopes[..i] + [nestedScope];
      i := i + 1;
    }
    assert originalScopes[..i] == originalScopes;
  }

  /**
   * withModified keeps the list's order and length, leaves the scopes of
   * other nodes alone, and gives every scope of key the left edge lhs less
   * the node's margin, clamped at 0, keeping its right edge, corners and colours.
   */
  lemma ModifiedEntries(scopes: seq<SingleNestedScope>, key: Node, lhs: int, i: int)
    requires 0 <= i < |scopes|
    ensures |Modified(scopes, key, lhs)| == |scopes|
    ensures var s, m := scopes[i], Modified(scopes, key, lhs)[i];
            if s.lhsFrom == key then
              m.lhs == Max(0, lhs - LeftMargin(key)) && m.lhs >= 0 &&
              m == s.(lhs := m.lhs)
            else m == s
  {
  }

  /** Applying withModified twice with the same edge is the same as once. */
  lemma ModifiedIdempotent(scopes: seq<SingleNestedScope>, key: Node, lhs: int)
    ensures Modified(Modified(scopes, key, lhs), key, lhs) == Modified(scopes, key, lhs)
  {
  }

  /** Does some scope in the list take its left edge from key? */
  predicate Mentions(scopes: seq<SingleNestedScope>, key: Node)
  {
    exists i :: 0 <= i < |scopes| && scopes[i].lhsFrom == key
  }

  lemma ModifiedMentions(scopes: seq<SingleNestedScope>, key: Node, lhs: int)
    ensures Mentions(Modified(scopes, key, lhs), key) <==> Mentions(scopes, key)
  {
    var m := Modified(scopes, key, lhs);
    if Mentions(scopes, key) {
      var i :| 0 <= i < |scopes| && scopes[i].lhsFrom == key;
      assert m[i].lhsFrom == key;
    }
    if Mentions(m, key) {
      var i :| 0 <= i < |m| && m[i].lhsFrom == key;
      assert scopes[i].lhsFrom == key;
    }
  }

  /** A line's scope list after the node key moved to indent lhs: rebuilt only if it mentions key. */
  function Redone(info: seq<SingleNestedScope>, key: Node, lhs: int): seq<SingleNestedScope>
  {
    if Mentions(info, key) then Modified(info, key, lhs) else info
  }

  /**
   * Line l of r, the pending scope backgrounds after the indent of key
   * changed to lhs: every pending line that mentions key is rebuilt, other
   * pending lines are kept, and each displayed line (in source) that
   * mentions key but is not pending becomes pending, rebuilt.
   */
  ghost predicate IndentChangedEntry(source: map<int, seq<SingleNestedScope>>, pending: map<int, seq<SingleNestedScope>>,
                                     r: map<int, seq<SingleNestedScope>>, key: Node, lhs: int, l: int)
  {
    (l in r <==> l in pending || (l in source && Mentions(source[l], key))) &&
    (l in pending ==> r[l] == Redone(pending[l], key, lhs)) &&
    (l !in pending && l in source && Mentions(source[l], key) ==> r[l] == Modified(source[l], key, lhs))
  }

  /** Line l after the putIfAbsent pass has visited the displayed lines in done. */
  ghost predicate AbsentEntry(done: map<int, seq<SingleNestedScope>>, pending: map<int, seq<SingleNestedScope>>,
                              r: map<int, seq<SingleNestedScope>>, key: Node, lhs: int, l: int)
  {
    (l in r <==> l in pending || (l in done && Mentions(done[l], key))) &&
    (l in pending ==> r[l] == pending[l]) &&
    (l !in pending && l in done && Mentions(done[l], key) ==> r[l] == Modified(done[l], key, lhs))
  }

  lemma AbsentStep(done: map<int, seq<SingleNestedScope>>, d: map<int, seq<SingleNestedScope>>,
                   pending: map<int, seq<SingleNestedScope>>, r: map<int, seq<SingleNestedScope>>,
                   r': map<int, seq<SingleNestedScope>>, key: Node, lhs: int, line: int)
    requires line !in done && line in d && d == done[line := d[line]]
    requires r' == if Mentions(d[line], key) && line !in r then r[line := Modified(d[line], key, lhs)] else r
    requires forall l :: AbsentEntry(done, pending, r, key, lhs, l)
    ensures forall l :: AbsentEntry(d, pending, r', key, lhs, l)
  {
    forall l
      ensures AbsentEntry(d, pending, r', key, lhs, l)
    {
      assert AbsentEntry(done, pending, r, key, lhs, l);
      assert AbsentEntry(done, pending, r, key, lhs, line);
    }
  }

  /**
   * The putIfAbsent pass followed by the replaceAll pass gives the pending
   * lines IndentChangedEntry describes: a line the first pass added is
   * rebuilt twice, which is the same as once.
   */
  lemma IndentChangedCombine(source: map<int, seq<SingleNestedScope>>, pending: map<int, seq<SingleNestedScope>>,
                             p: map<int, seq<SingleNestedScope>>, r: map<int, seq<SingleNestedScope>>, key: Node, lhs: int)
    requires forall l :: AbsentEntry(source, pending, p, key, lhs, l)
    requires r.Keys == p.Keys
    requires forall l :: l in p ==> r[l] == Redone(p[l], key, lhs)
    ensures forall l :: IndentChangedEntry(source, pending, r, key, lhs, l)
  {
    forall l
      ensures IndentChangedEntry(source, pending, r, key, lhs, l)
    {
      assert AbsentEntry(source, pending, p, key, lhs, l);
      if l !in pending && l in source && Mentions(source[l], key) {
        ModifiedMentions(source[l], key, lhs);
        ModifiedIdempotent(source[l], key, lhs);
      }
    }
  }

  // ---------------------------------------------------------------------
  // Line-indexed caches

  /**
   * Entry k of r, the cache m after removing count lines from first:
   * lines before first keep their entries, and line k from first on holds
   * what line k + count held (so the removed lines' entries are gone).
   */
  ghost predicate RemovedEntry<V>(m: map<int, V>, r: map<int, V>, first: int, count: int, k: int)
  {
    (k < first ==> (k in r <==> k in m) && (k in m ==> r[k] == m[k])) &&
    (k >= first ==> (k in r <==> k + count in m) && (k + count in m ==> r[k] == m[k + count]))
  }

  ghost predicate IsLinesRemoved<V>(m: map<int, V>, r: map<int, V>, first: int, count: int)
  {
    forall k :: RemovedEntry(m, r, first, count, k)
  }

  /**
   * Entry k of r, the cache m after adding count lines at lineIndex: lines
   * before lineIndex keep their entries, the new lines have none, and line
   * k from lineIndex + count on holds what line k - count held.
   */
  ghost predicate AddedEntry<V>(m: map<int, V>, r: map<int, V>, lineIndex: int, count: int, k: int)
  {
    (k < lineIndex ==> (k in r <==> k in m) && (k in m ==> r[k] == m[k])) &&
    (lineIndex <= k < lineIndex + count ==> k !in r) &&
    (k >= lineIndex + count ==> (k in r <==> k - count in m) && (k - count in m ==> r[k] == m[k - count]))
  }

  ghost predicate IsLinesAdded<V>(m: map<int, V>, r: map<int, V>, lineIndex: int, count: int)
  {
    forall k :: AddedEntry(m, r, lineIndex, count, k)
  }

  /** The removal relation determines the new cache. */
  lemma LinesRemovedUnique<V>(m: map<int, V>, r1: map<int, V>, r2: map<int, V>, first: int, count: int)
    requires IsLinesRemoved(m, r1, first, count) && IsLinesRemoved(m, r2, first, count)
    ensures r1 == r2
  {
    forall k
      ensures k in r1 <==> k in r2
      ensures k in r1 ==> r1[k] == r2[k]
    {
      assert RemovedEntry(m, r1, first, count, k) && RemovedEntry(m, r2, first, count, k);
    }
  }

  /** The addition relation determines the new cache. */
  lemma LinesAddedUnique<V>(m: map<int, V>, r1: map<int, V>, r2: map<int, V>, lineIndex: int, count: int)
    requires IsLinesAdded(m, r1, lineIndex, count) && IsLinesAdded(m, r2, lineIndex, count)
    ensures r1 == r2
  {
    forall k
      ensures k in r1 <==> k in r2
      ensures k in r1 ==> r1[k] == r2[k]
    {
      assert AddedEntry(m, r1, lineIndex, count, k) && AddedEntry(m, r2, lineIndex, count, k);
    }
  }

  /** Removing lines that were just added restores the cache. */
  lemma AddedThenRemoved<V>(m: map<int, V>, a: map<int, V>, r: map<int, V>, lineIndex: int, count: int)
    requires count >= 0
    requires IsLinesAdded(m, a, lineIndex, count) && IsLinesRemoved(a, r, lineIndex, count)
    ensures r == m
  {
    forall k
      ensures k in r <==> k in m
      ensures k in r ==> r[k] == m[k]
    {
      assert RemovedEntry(a, r, lineIndex, count, k);
      assert AddedEntry(m, a, lineIndex, count, k);
      assert AddedEntry(m, a, lineIndex, count, k + count);
    }
  }

  /** Adding back lines that were removed restores every entry outside the removed range. */
  lemma RemovedThenAdded<V>(m: map<int, V>, r: map<int, V>, a: map<int, V>, first: int, count: int)
    requires count >= 0
    requires IsLinesRemoved(m, r, first, count) && IsLinesAdded(r, a, first, count)
    ensures a == map k | k in m && !(first <= k < first + count) :: m[k]
  {
    var want := map k | k in m && !(first <= k < first + count) :: m[k];
    forall k
      ensures k in a <==> k in want
      ensures k in a ==> a[k] == want[k]
    {
      assert AddedEntry(r, a, first, count, k);
      assert RemovedEntry(m, r, first, count, k);
      assert RemovedEntry(m, r, first, count, k - count);
    }
  }

  /** Re-keying one more entry of m extends the partial result by that entry alone. */
  lemma RemovedStep<V>(done: map<int, V>, r: map<int, V>, l: int, v: V, first: int, count: int)
    requires count >= 0 && l !in done
    requires IsLinesRemoved(done, r, first, count)
    ensures IsLinesRemoved(done[l := v], if l < first then r[l := v] else if l >= first + count then r[l - count := v] else r, first, count)
  {
    var d, r' := done[l := v], if l < first then r[l := v] else if l >= first + count then r[l - count := v] else r;
    forall k
      ensures RemovedEntry(d, r', first, count, k)
    {
      assert RemovedEntry(done, r, first, count, k);
    }
  }

  lemma AddedStep<V>(done: map<int, V>, r: map<int, V>, l: int, v: V, lineIndex: int, count: int)
    requires count >= 0 && l !in done
    requires IsLinesAdded(done, r, lineIndex, count)
    ensures IsLinesAdded(done[l := v], if l < lineIndex then r[l := v] else r[l + count := v], lineIndex, count)
  {
    var d, r' := done[l := v], if l < lineIndex then r[l := v] else r[l + count := v];
    forall k
      ensures AddedEntry(d, r', lineIndex, count, k)
    {
      assert AddedEntry(done, r, lineIndex, count, k);
    }
  }

  lemma NonEmptyHasElement(s: set<int>)
    requires s != {}
    ensures exists x :: x in s
  {
    if forall x :: x !in s {
      assert false;
    }
  }

  /** One pass of linesRemoved over a cache, as the forEach in the source does it. */
  method RemoveLines<V>(m: map<int, V>, first: int, count: int) returns (r: map<int, V>)
    requires count >= 0
    ensures IsLinesRemoved(m, r, first, count)
  {
    r := map[];
    var todo := m.Keys;
    while todo != {}
      invariant todo <= m.Keys
      invariant IsLinesRemoved(m - todo, r, first, count)
      decreases todo
    {
      NonEmptyHasElement(todo);
      var l: int :| l in todo;
      RemovedStep(m - todo, r, l, m[l], first, count);
      assert m - (todo - {l}) == (m - todo)[l := m[l]];
      if l < first {
        r := r[l := m[l]];
      } else if l >= first + count {
        r := r[l - count := m[l]];
      }
      todo := todo - {l};
    }
    assert m - todo == m;
  }

  /** One pass of linesAdded over a cache, as the forEach in the source does it. */
  method AddLines<V>(m: map<int, V>, lineIndex: int, count: int) returns (r: map<int, V>)
    requires count >= 0
    ensures IsLinesAdded(m, r, lineIndex, count)
  {
    r := map[];
    var todo := m.Keys;
    while todo != {}
      invariant todo <= m.Keys
      invariant IsLinesAdded(m - todo, r, lineIndex, count)
      decreases todo
    {
      NonEmptyHasElement(todo);
      var l: int :| l in todo;
      AddedStep(m - todo, r, l, m[l], lineIndex, count);
      assert m - (todo - {l}) == (m - todo)[l := m[l]];
      if l < lineIndex {
        r := r[l := m[l]];
      } else {
        r := r[l + count := m[l]];
      }
      todo := todo - {l};
    }
    assert m - todo == m;
  }

  /**
   * The scope backgrounds currently displayed, per line, and the scope
   * lists they were drawn from.
   */
  class LiveScopeBackgrounds {
    var sourceInfo: map<int, seq<SingleNestedScope>>
    var scopeBackgrounds: map<int, seq<Region>>

    constructor ()
      ensures sourceInfo == map[] && scopeBackgrounds == map[]
    {
      sourceInfo := map[];
      scopeBackgrounds := map[];
    }

    /** storeSource(line, info). */
    method StoreSource(line: int, info: seq<SingleNestedScope>)
      modifies this`sourceInfo
      ensures sourceInfo == old(sourceInfo)[line := info]
    {
      sourceInfo := sourceInfo[line := info];
    }

    /** clear(). */
    method Clear()
      modifies this
      ensures sourceInfo == map[] && scopeBackgrounds == map[]
    {
      scopeBackgrounds := map[];
      sourceInfo := map[];
    }

    /** addScopeBox(line, rectangle): the box is painted over those already on the line. */
    method AddScopeBox(line: int, rectangle: Region)
      modifies this`scopeBackgrounds
      ensures scopeBackgrounds ==
              old(scopeBackgrounds)[line := (if line in old(scopeBackgrounds) then old(scopeBackgrounds)[line] else []) + [rectangle]]
    {
      var boxes := if line in scopeBackgrounds then scopeBackgrounds[line] else [];
      scopeBackgrounds := scopeBackgrounds[line := boxes + [rectangle]];
    }

    /** removeAllScopesForLine(line). */
    method RemoveAllScopesForLine(line: int)
      modifies this
      ensures scopeBackgrounds == old(scopeBackgrounds) - {line}
      ensures sourceInfo == old(sourceInfo) - {line}
    {
      scopeBackgrounds := scopeBackgrounds - {line};
      sourceInfo := sourceInfo - {line};
    }

    /**
     * onChanged(change), for a change of the indent map: when the node key
     * is given the indent valueAdded, the pending scope backgrounds are
     * brought up to date as IndentChangedEntry describes.  The pending
     * map belongs to the enclosing view and is passed in and returned.
     */
    method OnChanged(pending: map<int, seq<SingleNestedScope>>, wasAdded: bool, key: Node, valueAdded: int)
      returns (r: map<int, seq<SingleNestedScope>>)
      ensures !wasAdded ==> r == pending
      ensures wasAdded ==> forall l :: IndentChangedEntry(sourceInfo, pending, r, key, valueAdded, l)
    {
      r := pending;
      if wasAdded {
        // sourceInfo.forEach: putIfAbsent for each displayed line that mentions key
        var todo := sourceInfo.Keys;
        forall l
          ensures AbsentEntry(sourceInfo - todo, pending, r, key, valueAdded, l)
        {
          assert l !in sourceInfo - todo;
        }
        while todo != {}
          invariant todo <= sourceInfo.Keys
          invariant forall l :: AbsentEntry(sourceInfo - todo, pending, r, key, valueAdded, l)
          decreases todo
        {
          NonEmptyHasElement(todo);
          var line: int :| line in todo;
          var info := sourceInfo[line];
          ghost var r0 := r;
          if Mentions(info, key) && line !in r {
            var redone := WithModified(info, key, valueAdded);
            r := r[line := redone];
          }
          assert sourceInfo - (todo - {line}) == (sourceInfo - todo)[line := info];
          AbsentStep(sourceInfo - todo, sourceInfo - (todo - {line}), pending, r0, r, key, valueAdded, line);
          todo := todo - {line};
        }
        assert sourceInfo - todo == sourceInfo;
        // pendingScopeBackgrounds.replaceAll: rebuild each pending line that mentions key
        ghost var p := r;
        todo := r.Keys;
        while todo != {}
          invariant todo <= p.Keys && r.Keys == p.Keys
          invariant forall l :: l in p ==> r[l] == if l in todo then p[l] else Redone(p[l], key, valueAdded)
          decreases todo
        {
          NonEmptyHasElement(todo);
          var line: int :| line in todo;
          if Mentions(r[line], key) {
            var redone := WithModified(r[line], key, valueAdded);
            r := r[line := redone];
          }
          todo := todo - {line};
        }
        IndentChangedCombine(sourceInfo, pending, p, r, key, valueAdded);
      }
    }

    /** linesRemoved(firstRemovedLineIndex, removedCount): both caches are re-keyed alike. */
    method LinesRemoved(firstRemovedLineIndex: int, removedCount: int)
      requires removedCount >= 0
      modifies this
      ensures IsLinesRemoved(old(scopeBackgrounds), scopeBackgrounds, firstRemovedLineIndex, removedCount)
      ensures IsLinesRemoved(old(sourceInfo), sourceInfo, firstRemovedLineIndex, removedCount)
    {
      var newScope := RemoveLines(scopeBackgrounds, firstRemovedLineIndex, removedCount);
      var newSource := RemoveLines(sourceInfo, firstRemovedLineIndex, removedCount);
      scopeBackgrounds := newScope;
      sourceInfo := newSource;
    }

    /** linesAdded(lineIndex, addedCount): both caches are re-keyed alike. */
    method LinesAdded(lineIndex: int, addedCount: int)
      requires addedCount >= 0
      modifies this
      ensures IsLinesAdded(old(scopeBackgrounds), scopeBackgrounds, lineIndex, addedCount)
      ensures IsLinesAdded(old(sourceInfo), sourceInfo, lineIndex, addedCount)
    {
      var newScope := AddLines(scopeBackgrounds, lineIndex, addedCount);
      var newSource := AddLines(sourceInfo, lineIndex, addedCount);
      scopeBackgrounds := newScope;
      sourceInfo := newSource;
    }
  }
}
