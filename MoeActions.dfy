/**
 * Line-editing helpers of the Moe editor: the word-boundary search used by
 * the word-motion actions, the brace and indent rules used when a new line
 * is indented, tab expansion, the spaced-tab insertion and removal at the
 * caret, and the comment / uncomment / indent / de-indent actions applied to
 * one line of the document.
 *
 * The editor's tab size is a configuration value; it is a parameter here,
 * and the source's string of 40 spaces bounds it (ValidTabSize).
 */
module MoeActions {
  import opened Strings
  import opened Arith

  /** The source takes its spaced tabs from a string of 40 spaces. */
  const MAX_SPACES := 40
  const TAB_CHAR := '\t'

  predicate ValidTabSize(tabSize: int)
  {
    1 <= tabSize <= MAX_SPACES
  }

  /** spaces.substring(0, n). */
  function Spaces(n: nat): (r: string)
    ensures |r| == n && forall i :: 0 <= i < n ==> r[i] == ' '
  {
    seq(n, _ => ' ')
  }

  // ---------------------------------------------------------------------
  // Character classes

  /** Character.isWhitespace. */
  predicate IsWhitespace(c: char)
  {
    var v := c as int;
    c == ' ' || (0x09 <= v <= 0x0D) || (0x1C <= v <= 0x1F) ||
    v == 0x1680 || (0x2000 <= v <= 0x200A && v != 0x2007) ||
    v == 0x2028 || v == 0x2029 || v == 0x205F || v == 0x3000
  }

  /**
   * Character.isJavaIdentifierPart: exact on ASCII (letters, digits, '_',
   * '$' and the ignorable control characters); above ASCII every character
   * that is not whitespace is taken as an identifier part.
   */
  predicate IsJavaIdentifierPart(c: char)
  {
    var v := c as int;
    ('a' <= c <= 'z') || ('A' <= c <= 'Z') || ('0' <= c <= '9') || c == '_' || c == '$' ||
    (0x00 <= v <= 0x08) || (0x0E <= v <= 0x1B) || v == 0x7F ||
    (v >= 0x80 && !IsWhitespace(c))
  }

  lemma WhitespaceNotIdentifier(c: char)
    ensures !(IsWhitespace(c) && IsJavaIdentifierPart(c))
  {
  }

  /** The class a run of the word search stays in: whitespace or identifier characters. */
  predicate InClass(c: char, ws: bool)
  {
    if ws then IsWhitespace(c) else IsJavaIdentifierPart(c)
  }

  // ---------------------------------------------------------------------
  // findWordLimit

  /**
   * The result of findWordLimit(text, pos, forwards), as the source computes
   * it; None stands for the exception of reading outside the text.
   * Forwards, a run of whitespace or identifier characters ends at the first
   * character outside it or at the end of the text.  Backwards, the run
   * starts just after the nearest character outside it, except that the
   * search stops at index 0 without looking at the first character.
   */
  predicate IsWordLimit(text: string, pos: int, forwards: bool, r: Option<int>)
  {
    if forwards && pos >= |text| then r == Some(|text|)
    else if !forwards && pos <= 0 then r == Some(0)
    else if pos < 0 || pos >= |text| then r == None
    else
      var c := text[pos];
      if !IsWhitespace(c) && !IsJavaIdentifierPart(c) then
        r == Some(if forwards then pos + 1 else pos)
      else
        var ws := IsWhitespace(c);
        r.Some? &&
        if forwards then RunEnd(text, pos, ws, r.value)
        else RunStartAsWritten(text, pos, ws, r.value)
  }

  /** e ends the run of class ws that starts at pos. */
  predicate RunEnd(text: string, pos: int, ws: bool, e: int)
    requires 0 <= pos
  {
    pos < e <= |text| &&
    (forall k :: pos <= k < e ==> InClass(text[k], ws)) &&
    (e == |text| || !InClass(text[e], ws))
  }

  /** s starts the run of class ws that ends at pos, as the backward search finds it. */
  predicate RunStartAsWritten(text: string, pos: int, ws: bool, s: int)
    requires pos < |text|
  {
    0 <= s <= pos &&
    (forall k :: Max(s, 1) <= k <= pos ==> InClass(text[k], ws)) &&
    (s == 0 || (s >= 2 && !InClass(text[s - 1], ws)))
  }

  /** s starts the run of class ws that ends at pos. */
  predicate RunStart(text: string, pos: int, ws: bool, s: int)
    requires pos < |text|
  {
    0 <= s <= pos &&
    (forall k :: s <= k <= pos ==> InClass(text[k], ws)) &&
    (s == 0 || !InClass(text[s - 1], ws))
  }

  function Max(a: int, b: int): int
  {
    if a >= b then a else b
  }

  /** findWordLimit(c, pos, forwards). */
  method FindWordLimit(text: string, pos: int, forwards: bool) returns (r: Option<int>)
    ensures IsWordLimit(text, pos, forwards, r)
  {
    var maxLen := |text|;
    if forwards && pos >= maxLen {
      return Some(maxLen);
    }
    if !forwards && pos <= 0 {
      return Some(0);
    }
    if pos < 0 || pos >= maxLen {
      return None;
    }
    var curChar := text[pos];
    if !IsWhitespace(curChar) && !IsJavaIdentifierPart(curChar) {
      // a character that is a word by itself
      return Some(if forwards then pos + 1 else pos);
    }
    var ws := IsWhitespace(curChar);
    var p := pos;
    while InClass(curChar, ws)
      invariant 0 <= p < maxLen && curChar == text[p]
      invariant forwards ==> pos <= p && forall k :: pos <= k < p ==> InClass(text[k], ws)
      invariant !forwards ==> 0 < p <= pos && forall k :: p < k <= pos ==> InClass(text[k], ws)
      decreases if forwards then maxLen - p else p
    {
      if forwards {
        p := p + 1;
      } else {
        p := p - 1;
      }
      if p == maxLen {
        return Some(p);
      }
      if p == 0 {
        return Some(0);
      }
      curChar := text[p];
    }
    // going back, the search went one character too far
    return Some(if forwards then p else p + 1);
  }

  /** The word search never leaves the text. */
  lemma WordLimitBounds(text: string, pos: int, forwards: bool, r: Option<int>)
    requires IsWordLimit(text, pos, forwards, r)
    ensures r.Some? ==> 0 <= r.value <= |text|
    ensures r.None? <==> (forwards && pos < 0) || (!forwards && 0 < pos && |text| <= pos)
  {
  }

  /** The word-search relation determines its result. */
  lemma WordLimitUnique(text: string, pos: int, forwards: bool, r1: Option<int>, r2: Option<int>)
    requires IsWordLimit(text, pos, forwards, r1) && IsWordLimit(text, pos, forwards, r2)
    ensures r1 == r2
  {
  }

  /**
   * The backward search as evidently intended: it also looks at the first
   * character, so a run that starts at index 1 is found to start there.
   */
  predicate IsWordLimitIntended(text: string, pos: int, forwards: bool, r: Option<int>)
  {
    if forwards && pos >= |text| then r == Some(|text|)
    else if !forwards && pos <= 0 then r == Some(0)
    else if pos < 0 || pos >= |text| then r == None
    else
      var c := text[pos];
      if !IsWhitespace(c) && !IsJavaIdentifierPart(c) then
        r == Some(if forwards then pos + 1 else pos)
      else
        var ws := IsWhitespace(c);
        r.Some? &&
        if forwards then RunEnd(text, pos, ws, r.value)
        else RunStart(text, pos, ws, r.value)
  }

  /** findWordLimit with the backward search stopping before index 0 rather than at it. */
  method FindWordLimitFixed(text: string, pos: int, forwards: bool) returns (r: Option<int>)
    ensures IsWordLimitIntended(text, pos, forwards, r)
  {
    var maxLen := |text|;
    if forwards && pos >= maxLen {
      return Some(maxLen);
    }
    if !forwards && pos <= 0 {
      return Some(0);
    }
    if pos < 0 || pos >= maxLen {
      return None;
    }
    var curChar := text[pos];
    if !IsWhitespace(curChar) && !IsJavaIdentifierPart(curChar) {
      return Some(if forwards then pos + 1 else pos);
    }
    var ws := IsWhitespace(curChar);
    var p := pos;
    while InClass(curChar, ws)
      invariant 0 <= p < maxLen && curChar == text[p]
      invariant forwards ==> pos <= p && forall k :: pos <= k < p ==> InClass(text[k], ws)
      invariant !forwards ==> p <= pos && forall k :: p < k <= pos ==> InClass(text[k], ws)
      decreases if forwards then maxLen - p else p
    {
      if forwards {
        p := p + 1;
        if p == maxLen {
          return Some(p);
        }
      } else {
        if p == 0 {
          return Some(0);
        }
        p := p - 1;
      }
      curChar := text[p];
    }
    return Some(if forwards then p else p + 1);
  }

  /**
   * In " a", the word that ends at index 1 starts at index 1, but the
   * backward search as written gives 0 and so takes in the space before it.
   */
  lemma WordStartOvershoots(r: Option<int>, f: Option<int>)
    requires IsWordLimit(" a", 1, false, r)
    requires IsWordLimitIntended(" a", 1, false, f)
    ensures r == Some(0) && f == Some(1)
  {
    assert IsJavaIdentifierPart(" a"[1]) && !IsWhitespace(" a"[1]);
    assert !InClass(" a"[0], false);
  }

  // ---------------------------------------------------------------------
  // Brace and indent rules

  /** isOpenBrace(s): the line ends with an opening brace. */
  function IsOpenBrace(s: string): (r: bool)
    ensures r <==> exists i :: 0 <= i < |s| && s[i] == '{' && '}' !in s[i + 1..]
  {
    var index := LastIndexOfChar(s, '{');
    if index == -1 then false
    else
      var close := IndexOfCharFrom(s, '}', index + 1);
      var tail := s[index + 1..];
      assert close == -1 <==> '}' !in tail by {
        assert close != -1 ==> tail[close - (index + 1)] == '}';
        forall j | 0 <= j < |tail|
          ensures close == -1 ==> tail[j] != '}'
        {
          assert tail[j] == s[index + 1 + j];
        }
      }
      assert (exists i :: 0 <= i < |s| && s[i] == '{' && '}' !in s[i + 1..]) ==> close == -1 by {
        if exists i :: 0 <= i < |s| && s[i] == '{' && '}' !in s[i + 1..] {
          var i :| 0 <= i < |s| && s[i] == '{' && '}' !in s[i + 1..];
          assert i <= index;
        }
      }
      close == -1
  }

  /**
   * nextIndent(s, openBrace, commentEndOnly): the indent of the line after
   * one whose indent is s.
   */
  function NextIndent(s: string, openBrace: bool, commentEndOnly: bool, tabSize: int): (r: string)
    requires ValidTabSize(tabSize)
    requires !openBrace && commentEndOnly ==> |s| >= 1
    ensures openBrace ==> r == s + Spaces(tabSize)
    ensures !openBrace && commentEndOnly ==> r + [s[|s| - 1]] == s
    ensures !openBrace && !commentEndOnly && EndsWith(s, "/*") ==>
              |r| == |s| + 1 && r[..|s| - 2] == s[..|s| - 2] && r[|s| - 2..] == " * "
    ensures !openBrace && !commentEndOnly && !EndsWith(s, "/*") ==> r == s
  {
    if openBrace then s + Spaces(tabSize)
    else if commentEndOnly then s[..|s| - 1]
    else if EndsWith(s, "/*") then s[..|s| - 2] + " * "
    else s
  }

  /** The tab stop at or before column col, b, is one, and so are its neighbours b - t and b + t. */
  lemma StopBelow(col: int, t: int)
    requires t > 0
    ensures var b := col - col % t;
            b % t == 0 && (b + t) % t == 0 && (b - t) % t == 0 && 0 <= col % t < t &&
            (col >= 0 ==> b >= 0) && (b > 0 ==> b >= t)
  {
    var q := col / t;
    var b := col - col % t;
    assert b == q * t;
    StopMultiples(q, t);
    StopOrder(q, t);
  }

  lemma StopMultiples(q: int, t: int)
    requires t > 0
    ensures (q * t) % t == 0 && (q * t + t) % t == 0 && (q * t - t) % t == 0
  {
    assert (q + 1) * t == q * t + t && (q - 1) * t == q * t - t;
    DivModUnique(q * t, q, t);
    DivModUnique(q * t + t, q + 1, t);
    DivModUnique(q * t - t, q - 1, t);
  }

  lemma StopOrder(q: int, t: int)
    requires t > 0
    ensures q >= 0 ==> q * t >= 0
    ensures q * t > 0 ==> q * t >= t
  {
    MulMono(0, q, t);
    MulMono(q, 0, t);
    MulMono(1, q, t);
  }

  /** No tab stop lies strictly between two neighbouring stops b and b + t. */
  lemma NoStopBetween(b: int, t: int, m: int)
    requires t > 0 && b % t == 0 && b < m < b + t
    ensures m % t != 0
  {
    var q := b / t;
    assert b == q * t;
    DivModUnique(m, q, t);
  }

  /** The number of spaces that take column col to the next tab stop. */
  function TabFill(col: nat, tabSize: int): (n: int)
    requires ValidTabSize(tabSize)
    ensures 1 <= n <= tabSize && (col + n) % tabSize == 0
    ensures forall m :: col < m < col + n ==> m % tabSize != 0
  {
    StopBelow(col, tabSize);
    var b := col - col % tabSize;
    assert forall m :: col < m < col + tabSize - col % tabSize ==> m % tabSize != 0 by {
      forall m | col < m < col + tabSize - col % tabSize
        ensures m % tabSize != 0
      {
        NoStopBetween(b, tabSize, m);
      }
    }
    tabSize - col % tabSize
  }

  /** expandTab(s, idx): the tab at idx is replaced by spaces up to the next tab stop. */
  function ExpandTab(s: string, idx: nat, tabSize: int): (r: string)
    requires ValidTabSize(tabSize) && idx < |s|
    ensures var n := TabFill(idx, tabSize);
            |r| == |s| + n - 1 && r[..idx] == s[..idx] && r[idx..idx + n] == Spaces(n) &&
            r[idx + n..] == s[idx + 1..] && (idx + n) % tabSize == 0
  {
    var n := TabFill(idx, tabSize);
    var r := s[..idx] + Spaces(n) + s[idx + 1..];
    assert r[..idx] == s[..idx];
    assert r[idx..idx + n] == Spaces(n);
    assert r[idx + n..] == s[idx + 1..];
    r
  }

  /** The number of characters removeTab deletes before a caret in column col. */
  function TabRemoval(col: nat, tabSize: int): (n: int)
    requires ValidTabSize(tabSize)
    ensures col == 0 ==> n == 0
    ensures col > 0 ==> 1 <= n <= tabSize && n <= col && (col - n) % tabSize == 0
    ensures col > 0 ==> forall m :: col - n < m < col ==> m % tabSize != 0
  {
    StopBelow(col, tabSize);
    var b := col - col % tabSize;
    if col == 0 then 0
    else if col % tabSize == 0 then
      assert forall m :: col - tabSize < m < col ==> m % tabSize != 0 by {
        forall m | col - tabSize < m < col
          ensures m % tabSize != 0
        {
          NoStopBetween(b - tabSize, tabSize, m);
        }
      }
      tabSize
    else
      assert forall m :: b < m < col ==> m % tabSize != 0 by {
        forall m | b < m < col
          ensures m % tabSize != 0
        {
          NoStopBetween(b, tabSize, m);
        }
      }
      col % tabSize
  }

  // ---------------------------------------------------------------------
  // The document and the line actions

  /** The index of the first character of the line holding position pos. */
  function LineStart(text: string, pos: nat): (s: nat)
    requires pos <= |text|
    ensures s <= pos && (s == 0 || text[s - 1] == '\n') && '\n' !in text[s..pos]
  {
    var nl := LastIndexOfChar(text[..pos], '\n');
    assert text[nl + 1..pos] == text[..pos][nl + 1..];
    nl + 1
  }

  /** Replaces text[start..end] by ins. */
  function Spliced(text: string, start: nat, end: nat, ins: string): (r: string)
    requires start <= end <= |text|
  {
    text[..start] + ins + text[end..]
  }

  /** The text before and after the splice is kept, and ins stands in between. */
  lemma SplicedParts(text: string, start: nat, end: nat, ins: string)
    requires start <= end <= |text|
    ensures var r := Spliced(text, start, end, ins);
            |r| == |text| - (end - start) + |ins| &&
            r[..start] == text[..start] && r[start..start + |ins|] == ins && r[start + |ins|..] == text[end..]
  {
    var r := Spliced(text, start, end, ins);
    assert r[..start] == text[..start];
    assert r[start..start + |ins|] == ins;
    assert r[start + |ins|..] == text[end..];
  }

  /** The editor's document text, changed in place by insertString and remove. */
  class SyntaxDocument {
    var text: string

    constructor (text: string)
      ensures this.text == text
    {
      this.text := text;
    }

    /** insertString(offset, s, null). */
    method InsertString(offset: nat, s: string)
      requires offset <= |text|
      modifies this
      ensures text == old(text)[..offset] + s + old(text)[offset..]
    {
      text := text[..offset] + s + text[offset..];
    }

    /** remove(offset, len). */
    method Remove(offset: nat, len: nat)
      requires offset + len <= |text|
      modifies this
      ensures text == old(text)[..offset] + old(text)[offset + len..]
    {
      text := text[..offset] + text[offset + len..];
    }
  }

  /**
   * The index of the first character above ' ' in a line that has one: what
   * the line actions take MoeIndent.findFirstNonIndentChar to return.
   */
  function FirstNonIndentChar(line: string): (i: nat)
    requires Trim(line) != []
    ensures i < |line| && !IsTrimmable(line[i]) && forall k :: 0 <= k < i ==> IsTrimmable(line[k])
  {
    LeadingTrimmable(line)
  }

  /** Trim(line) starts at the line's first character above ' '. */
  lemma TrimStartsAt(line: string, i: nat)
    requires i < |line| && !IsTrimmable(line[i]) && forall k :: 0 <= k < i ==> IsTrimmable(line[k])
    ensures TrimStart(line) == line[i..]
    ensures forall p :: StartsWith(line[i..], p) && |p| > 0 && !IsTrimmable(p[|p| - 1]) ==> StartsWith(Trim(line), p)
  {
    var k := LeadingTrimmable(line);
    assert !(k < i) && !(i < k);
    forall p | StartsWith(line[i..], p) && |p| > 0 && !IsTrimmable(p[|p| - 1])
      ensures StartsWith(Trim(line), p)
    {
      var e := TrimEnd(line[i..]);
      assert |e| >= |p|;
    }
  }

  /** CommentLineAction on the text of a line: "// " before its first non-blank character. */
  function Commented(line: string): (r: string)
    ensures r == line <==> Trim(line) == []
  {
    if Trim(line) == [] then line
    else
      var t := FirstNonIndentChar(line);
      line[..t] + "// " + line[t..]
  }

  /** UncommentLineAction on the text of a line. */
  function Uncommented(line: string): (r: string)
    ensures |line| - 3 <= |r| <= |line|
  {
    if StartsWith(Trim(line), "//") then UncommentedAt(line, IndexOfChar(line, '/')) else line
  }

  /** The text of a line after removing the comment symbol at cnt, the line's first '/' (or -1). */
  function UncommentedAt(line: string, cnt: int): (r: string)
    requires -1 <= cnt < |line|
  {
    if cnt == -1 || cnt + 2 >= |line| then line  // charAt fails and the exception is caught
    else if line[cnt + 2] == ' ' then line[..cnt] + line[cnt + 3..]
    else line[..cnt] + line[cnt + 2..]
  }

  /** IndentLineAction on the text of a line. */
  function Indented(line: string, tabSize: int): (r: string)
    requires ValidTabSize(tabSize)
    ensures |r| == |line| + tabSize && r[tabSize..] == line && forall i :: 0 <= i < tabSize ==> r[i] == ' '
  {
    Spaces(tabSize) + line
  }

  /** DeindentLineAction on the text of a line. */
  function Deindented(line: string, tabSize: int): (r: string)
    requires ValidTabSize(tabSize)
    ensures |line| - tabSize <= |r| <= |line| && r == line[|line| - |r|..]
    ensures forall i :: 0 <= i < |line| - |r| ==> line[i] == ' ' || line[i] == TAB_CHAR
  {
    if StartsWith(line, Spaces(tabSize)) then line[tabSize..]
    else if |line| == 0 then line  // charAt(0) fails and the exception is caught
    else if line[0] == TAB_CHAR then line[1..]
    else
      var cnt := LeadingSpaces(line);
      if cnt == |line| then line  // the scan runs off the line and the exception is caught
      else line[cnt..]
  }

  /** The number of spaces the line starts with. */
  function LeadingSpaces(line: string): (n: nat)
    ensures n <= |line| && (forall k :: 0 <= k < n ==> line[k] == ' ') && (n == |line| || line[n] != ' ')
  {
    if |line| > 0 && line[0] == ' ' then 1 + LeadingSpaces(line[1..]) else 0
  }

  /** A blank line is never commented; any other gets "// " at its first non-blank character. */
  lemma CommentedShape(line: string)
    ensures Trim(line) == [] ==> Commented(line) == line
    ensures Trim(line) != [] ==>
              exists t :: 0 <= t < |line| && !IsTrimmable(line[t]) && (forall k :: 0 <= k < t ==> IsTrimmable(line[k])) &&
                          Commented(line) == line[..t] + "// " + line[t..]
  {
  }

  /** The parts of line[..t] + ins + line[t..]. */
  lemma InsertedParts(line: string, t: nat, ins: string, c: string)
    requires t <= |line| && c == line[..t] + ins + line[t..]
    ensures |c| == |line| + |ins|
    ensures c[..t] == line[..t] && c[t..t + |ins|] == ins && c[t + |ins|..] == line[t..]
    ensures c[..t] + c[t + |ins|..] == line
  {
    assert line[..t] + line[t..] == line;
  }

  /** What UncommentLineAction sees in a line with "// " inserted at its first non-blank character t. */
  lemma CommentedFacts(line: string, t: nat, c: string)
    requires t < |line| && !IsTrimmable(line[t]) && forall k :: 0 <= k < t ==> IsTrimmable(line[k])
    requires c == line[..t] + "// " + line[t..]
    ensures StartsWith(Trim(c), "//") && IndexOfChar(c, '/') == t
    ensures t + 2 < |c| && c[t + 2] == ' ' && c[..t] + c[t + 3..] == line
  {
    InsertedParts(line, t, "// ", c);
    assert c[t] == '/' && c[t + 1] == '/' && c[t + 2] == ' ';
    assert forall k :: 0 <= k < t ==> IsTrimmable(c[k]) by {
      forall k | 0 <= k < t
        ensures IsTrimmable(c[k])
      {
        assert c[k] == c[..t][k] == line[..t][k];
      }
    }
    CommentedTrim(c, t);
  }

  /** A text whose first non-blank characters, at t, are "//". */
  lemma CommentedTrim(c: string, t: nat)
    requires t + 1 < |c| && c[t] == '/' && c[t + 1] == '/' && forall k :: 0 <= k < t ==> IsTrimmable(c[k])
    ensures StartsWith(Trim(c), "//") && IndexOfChar(c, '/') == t
  {
    TrimStartsAt(c, t);
    assert StartsWith(c[t..], "//");
    forall k | 0 <= k < t
      ensures c[..t][k] != '/'
    {
      assert IsTrimmable(c[k]);
    }
  }

  /** Uncommenting a commented line gives the line back. */
  lemma UncommentedCommented(line: string)
    ensures Uncommented(Commented(line)) == line
  {
    var c := Commented(line);
    if Trim(line) == [] {
      assert c == line && !StartsWith(Trim(c), "//");
    } else {
      var t := FirstNonIndentChar(line);
      assert c == line[..t] + "// " + line[t..];
      CommentedFacts(line, t, c);
      assert Uncommented(c) == c[..t] + c[t + 3..];
    }
  }

  /**
   * UncommentLineAction acts only on a line whose trimmed text starts with
   * "//", and then removes "// " or "//" at the first '/'.
   */
  lemma UncommentedShape(line: string)
    ensures !StartsWith(Trim(line), "//") ==> Uncommented(line) == line
    ensures StartsWith(Trim(line), "//") ==>
              var cnt := IndexOfChar(line, '/');
              Uncommented(line) == line ||
              (0 <= cnt && '/' !in line[..cnt] &&
               (Uncommented(line) == line[..cnt] + line[cnt + 3..] || Uncommented(line) == line[..cnt] + line[cnt + 2..]))
  {
  }

  /** De-indenting an indented line removes exactly the spaced tab that was added. */
  lemma DeindentedIndented(line: string, tabSize: int)
    requires ValidTabSize(tabSize)
    ensures Deindented(Indented(line, tabSize), tabSize) == line
  {
    var s := Indented(line, tabSize);
    assert s[..tabSize] == Spaces(tabSize);
    assert s[tabSize..] == line;
  }

  /**
   * A line that does not start with a spaced tab loses a leading hard tab
   * alone, or else all its leading spaces (when it has a character after them).
   */
  lemma DeindentedShape(line: string, tabSize: int)
    requires ValidTabSize(tabSize) && !StartsWith(line, Spaces(tabSize))
    ensures |line| > 0 && line[0] == TAB_CHAR ==> Deindented(line, tabSize) == line[1..]
    ensures |line| > 0 && line[0] != TAB_CHAR ==>
              var n := LeadingSpaces(line);
              n < tabSize &&
              Deindented(line, tabSize) == if n < |line| then line[n..] else line
  {
  }

  /** insertString(ls + t, ins) inserts ins at offset t of the line [ls, le). */
  method InsertInLine(doc: SyntaxDocument, ls: nat, le: nat, t: nat, ins: string)
    requires ls + t <= le <= |doc.text|
    modifies doc
    ensures var line := old(doc.text)[ls..le];
            doc.text == Spliced(old(doc.text), ls, le, line[..t] + ins + line[t..])
  {
    var line := doc.text[ls..le];
    assert doc.text[..ls + t] == doc.text[..ls] + line[..t];
    assert doc.text[ls + t..] == line[t..] + doc.text[le..];
    doc.InsertString(ls + t, ins);
  }

  /** remove(ls + t, n) removes n characters at offset t of the line [ls, le). */
  method RemoveInLine(doc: SyntaxDocument, ls: nat, le: nat, t: nat, n: nat)
    requires ls + t + n <= le <= |doc.text|
    modifies doc
    ensures var line := old(doc.text)[ls..le];
            doc.text == Spliced(old(doc.text), ls, le, line[..t] + line[t + n..])
  {
    var line := doc.text[ls..le];
    assert doc.text[..ls + t] == doc.text[..ls] + line[..t];
    assert doc.text[ls + t + n..] == line[t + n..] + doc.text[le..];
    doc.Remove(ls + t, n);
  }

  lemma SplicedSame(text: string, ls: nat, le: nat)
    requires ls <= le <= |text|
    ensures Spliced(text, ls, le, text[ls..le]) == text
  {
    assert text[..ls] + text[ls..le] + text[le..] == text;
  }

  /** CommentLineAction.apply(line, doc). */
  method CommentLine(doc: SyntaxDocument, lineStart: nat, lineEnd: nat)
    requires lineStart <= lineEnd <= |doc.text|
    modifies doc
    ensures doc.text == Spliced(old(doc.text), lineStart, lineEnd, Commented(old(doc.text)[lineStart..lineEnd]))
  {
    var lineText := doc.text[lineStart..lineEnd];
    if Trim(lineText) != [] {
      var textStart := FirstNonIndentChar(lineText);
      assert Commented(lineText) == lineText[..textStart] + "// " + lineText[textStart..];
      InsertInLine(doc, lineStart, lineEnd, textStart, "// ");
    } else {
      assert Commented(lineText) == lineText;
      SplicedSame(doc.text, lineStart, lineEnd);
    }
  }

  /** The loop of UncommentLineAction that steps over the characters before the first c. */
  method SkipTo(line: string, c: char) returns (cnt: nat)
    ensures cnt <= |line| && IndexOfChar(line, c) == if cnt == |line| then -1 else cnt
  {
    cnt := 0;
    while cnt < |line| && line[cnt] != c
      invariant cnt <= |line| && c !in line[..cnt]
    {
      assert line[..cnt + 1] == line[..cnt] + [line[cnt]];
      cnt := cnt + 1;
    }
    assert cnt == |line| ==> line[..cnt] == line;
  }

  /** UncommentLineAction.apply(line, doc). */
  method UncommentLine(doc: SyntaxDocument, lineStart: nat, lineEnd: nat)
    requires lineStart <= lineEnd <= |doc.text|
    modifies doc
    ensures doc.text == Spliced(old(doc.text), lineStart, lineEnd, Uncommented(old(doc.text)[lineStart..lineEnd]))
  {
    var lineText := doc.text[lineStart..lineEnd];
    if StartsWith(Trim(lineText), "//") {
      var cnt := SkipTo(lineText, '/');
      RemoveCommentSymbol(doc, lineStart, lineEnd, cnt);
    } else {
      SplicedSame(doc.text, lineStart, lineEnd);
    }
  }

  /** The part of UncommentLineAction after the first '/' of the line, at cnt, was found. */
  method RemoveCommentSymbol(doc: SyntaxDocument, lineStart: nat, lineEnd: nat, cnt: nat)
    requires lineStart <= lineEnd <= |doc.text| && cnt <= lineEnd - lineStart
    modifies doc
    ensures var line := old(doc.text)[lineStart..lineEnd];
            doc.text == Spliced(old(doc.text), lineStart, lineEnd, UncommentedAt(line, if cnt == |line| then -1 else cnt))
  {
    var lineText := doc.text[lineStart..lineEnd];
    if cnt + 2 >= |lineText| {
      // charAt fails; the exception is caught and nothing changes
      SplicedSame(doc.text, lineStart, lineEnd);
    } else if lineText[cnt + 2] == ' ' {
      RemoveInLine(doc, lineStart, lineEnd, cnt, 3);
    } else {
      RemoveInLine(doc, lineStart, lineEnd, cnt, 2);
    }
  }

  /** IndentLineAction.apply(line, doc). */
  method IndentLine(doc: SyntaxDocument, lineStart: nat, lineEnd: nat, tabSize: int)
    requires ValidTabSize(tabSize) && lineStart <= lineEnd <= |doc.text|
    modifies doc
    ensures doc.text == Spliced(old(doc.text), lineStart, lineEnd, Indented(old(doc.text)[lineStart..lineEnd], tabSize))
  {
    ghost var lineText := doc.text[lineStart..lineEnd];
    doc.InsertString(lineStart, Spaces(tabSize));
    assert old(doc.text)[lineStart..] == lineText + old(doc.text)[lineEnd..];
  }

  /** DeindentLineAction.apply(line, doc). */
  method DeindentLine(doc: SyntaxDocument, lineStart: nat, lineEnd: nat, tabSize: int)
    requires ValidTabSize(tabSize) && lineStart <= lineEnd <= |doc.text|
    modifies doc
    ensures doc.text == Spliced(old(doc.text), lineStart, lineEnd, Deindented(old(doc.text)[lineStart..lineEnd], tabSize))
  {
    var lineText := doc.text[lineStart..lineEnd];
    var spacedTab := Spaces(tabSize);
    var n := 0;
    if StartsWith(lineText, spacedTab) {
      n := tabSize;  // remove spaced tab
    } else if |lineText| == 0 {
      // charAt fails; the exception is caught
      SplicedSame(doc.text, lineStart, lineEnd);
      return;
    } else if lineText[0] == TAB_CHAR {
      n := 1;  // remove hard tab
    } else {
      var cnt := CountSpaces(lineText);
      if cnt == |lineText| {
        // charAt fails; the exception is caught
        SplicedSame(doc.text, lineStart, lineEnd);
        return;
      }
      n := cnt;  // remove spaces
    }
    assert Deindented(lineText, tabSize) == lineText[n..];
    RemoveInLine(doc, lineStart, lineEnd, 0, n);
  }

  /** The loop of DeindentLineAction that counts the spaces a line starts with. */
  method CountSpaces(line: string) returns (cnt: nat)
    ensures cnt == LeadingSpaces(line)
  {
    cnt := 0;
    while cnt < |line| && line[cnt] == ' '
      invariant 0 <= cnt <= |line| && forall k :: 0 <= k < cnt ==> line[k] == ' '
    {
      cnt := cnt + 1;
    }
  }

  /**
   * insertSpacedTab: the selection [min(mark, dot), max(mark, dot)) is
   * replaced by the spaces that take its start column to the next tab stop;
   * the caret ends after them.
   */
  method InsertSpacedTab(doc: SyntaxDocument, mark: nat, dot: nat, tabSize: int) returns (caret: nat)
    requires ValidTabSize(tabSize) && mark <= |doc.text| && dot <= |doc.text|
    modifies doc
    ensures var lo, hi := Min(mark, dot), Max(mark, dot);
            var n := TabFill(lo - LineStart(old(doc.text), lo), tabSize);
            doc.text == Spliced(old(doc.text), lo, hi, Spaces(n)) && caret == lo + n
  {
    var lo := Min(mark, dot);
    var hi := if mark >= dot then mark else dot;
    var numSpaces := TabFill(lo - LineStart(doc.text, lo), tabSize);
    doc.text := Spliced(doc.text, lo, hi, Spaces(numSpaces));
    caret := lo + numSpaces;
  }

  function Min(a: int, b: int): int
  {
    if a <= b then a else b
  }

  /**
   * removeTab: the characters before the caret (dot) that take the column
   * of the selection start back to the previous tab stop are removed.
   */
  method RemoveTab(doc: SyntaxDocument, mark: nat, dot: nat, tabSize: int)
    requires ValidTabSize(tabSize) && mark <= |doc.text| && dot <= |doc.text|
    modifies doc
    ensures var lo := Min(mark, dot);
            var n := TabRemoval(lo - LineStart(old(doc.text), lo), tabSize);
            n <= dot && doc.text == Spliced(old(doc.text), dot - n, dot, [])
  {
    var lo := Min(mark, dot);
    var col := lo - LineStart(doc.text, lo);
    if col > 0 {
      var remove := TabRemoval(col, tabSize);
      doc.Remove(dot - remove, remove);
    } else {
      assert doc.text == Spliced(doc.text, dot, dot, []);
    }
  }
}
