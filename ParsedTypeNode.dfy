/**
 * The parsed-type node of BlueJ's incremental Java parser: the node for a
 * class, interface, enum or annotation type.  It is parsed in three states
 * (the header up to the name and its extends/implements part, the body in
 * braces, the end), holds an inner node for the body, and reacts to edits
 * after the body's start by marking the body incomplete and asking the
 * document for a reparse.
 *
 * The parser is not part of this model: each call of the partial parse gets
 * the answers the parser would give (a ParserAnswers value).  The node tree
 * of the superclass is reduced to the offsets and sizes used here.
 */
module TypeNodes {
  import opened Strings

  /** The kinds of type definition parseTypeDefBegin recognises. */
  datatype TypeKind = Class | Interface | Enum | Annotation

  datatype TokenKind = Ident | RCurly | OtherToken
  datatype Token = Token(kind: TokenKind, text: string)

  /** The results of a partial parse step (IncrementalParsingNode's PP_ codes). */
  datatype PartialResult = EpicFail | EndsNode | BeginsNextState | EndsState | Incomplete

  /** What handleInsertion / handleDeletion answer: ALL_OK, or the superclass's handling. */
  datatype ChangeResult = AllOk | Delegated

  /** The node type every parsed-type node reports. */
  datatype NodeType = TypeDef

  /**
   * What the parser answers during one partial-parse step: parseTypeDefBegin
   * (None for TYPEDEF_EPIC_FAIL), the next token, parseTypeDefPart2 (None for
   * null), the look-ahead token LA(1), and the token parseTypeBody ends on.
   */
  datatype ParserAnswers = ParserAnswers(
    typeDefBegin: Option<TypeKind>,
    next: Token,
    part2: Option<Token>,
    lookahead: Token,
    bodyEnd: Token)

  /** The result of doPartialParse(parser, state) for the given parser answers. */
  function PartialParse(state: int, p: ParserAnswers): (r: PartialResult)
    ensures r == EpicFail <==> !(0 <= state <= 2) || (state == 0 && p.typeDefBegin.None?)
    ensures r == BeginsNextState ==> state == 0
  {
    if state == 0 then
      if p.typeDefBegin.None? then EpicFail
      else if p.next.kind != Ident then EndsNode
      else if p.part2.None? then EndsNode
      else BeginsNextState
    else if state == 1 then
      if p.bodyEnd.kind == RCurly then EndsState else Incomplete
    else if state == 2 then EndsNode
    else EpicFail
  }

  /** The header state moves on to the body exactly when the header parses, a name follows and part 2 succeeds. */
  lemma BeginsNextStateExactly(state: int, p: ParserAnswers)
    ensures PartialParse(state, p) == BeginsNextState <==>
              state == 0 && p.typeDefBegin.Some? && p.next.kind == Ident && p.part2.Some?
  {
  }

  /** The body state ends exactly on a closing brace; otherwise the body is incomplete. */
  lemma BodyEndsOnBrace(p: ParserAnswers)
    ensures PartialParse(1, p) == EndsState <==> p.bodyEnd.kind == RCurly
    ensures PartialParse(1, p) != EndsState ==> PartialParse(1, p) == Incomplete
  {
  }

  /** The node for a type's body. */
  class TypeInnerNode {
    var offsetFromParent: int
    var size: int
    var complete: bool

    constructor (offset: int, size: int)
      ensures offsetFromParent == offset && this.size == size && !complete
    {
      offsetFromParent := offset;
      this.size := size;
      complete := false;
    }
  }

  /** The document, as far as these nodes use it: the reparses they schedule, in order. */
  class SyntaxDocument {
    var scheduled: seq<(int, int)>

    constructor ()
      ensures scheduled == []
    {
      scheduled := [];
    }

    method ScheduleReparse(pos: int, size: int)
      modifies this
      ensures scheduled == old(scheduled) + [(pos, size)]
    {
      scheduled := scheduled + [(pos, size)];
    }
  }

  class ParsedTypeNode {
    var name: Option<string>
    const prefix: string
    var typeKind: TypeKind
    var inner: TypeInnerNode?
    /** The node's size in its parent's node tree. */
    var size: int
    var last: Option<Token>
    var complete: bool
    /** The type parameters, each with what resolveAsType gives for it (None for null). */
    var typeParams: Option<map<string, Option<string>>>
    const stateMarkers: array<int>
    const marksEnd: array<bool>

    /** ParsedTypeNode(parent, type, prefix). */
    constructor (kind: TypeKind, prefix: string)
      ensures typeKind == kind && this.prefix == prefix && name.None? && inner == null
      ensures stateMarkers.Length == 2 && stateMarkers[..] == [-1, -1]
      ensures marksEnd.Length == 2 && fresh(stateMarkers) && fresh(marksEnd)
      ensures typeParams.None? && !complete
    {
      typeKind := kind;
      this.prefix := prefix;
      name := None;
      inner := null;
      size := 0;
      last := None;
      complete := false;
      typeParams := None;
      var markers := new int[2];
      markers[0] := -1;
      markers[1] := -1;
      stateMarkers := markers;
      marksEnd := new bool[2];
    }

    /** getNodeType: always a type definition. */
    function NodeKind(): NodeType
    {
      TypeDef
    }

    /** isContainer: always true. */
    function IsContainer(): (b: bool)
      ensures b
    {
      true
    }

    /** isDelimitingNode: always false. */
    function IsDelimitingNode(): (b: bool)
      ensures !b
    {
      false
    }

    /** insertInner: the inner node becomes this node's body. */
    method InsertInner(child: TypeInnerNode, position: int, size: int)
      modifies this, child
      ensures inner == child && child.offsetFromParent == position && child.size == size
      ensures name == old(name) && this.size == old(this.size) && complete == old(complete)
    {
      child.offsetFromParent := position;
      child.size := size;
      inner := child;
    }

    /**
     * doPartialParse(parser, state): one step of the incremental parse.
     * Returns the step's result and the token pushed back to the parser, if
     * any.  The result is PartialParse(state, p); the header state records
     * the type and the name, the end state marks the node complete.
     */
    method DoPartialParse(p: ParserAnswers, state: int) returns (r: PartialResult, pushedBack: Option<Token>)
      modifies this
      ensures r == PartialParse(state, p)
      ensures pushedBack.Some? <==> r == BeginsNextState
      ensures r == BeginsNextState ==> pushedBack == p.part2 && last == p.part2
      ensures state == 0 && p.typeDefBegin.Some? ==> typeKind == p.typeDefBegin.value
      ensures state == 0 && p.typeDefBegin.Some? && p.next.kind == Ident ==> name == Some(p.next.text)
      ensures state == 0 && p.typeDefBegin.Some? && p.next.kind != Ident ==> last == Some(p.next) && name == old(name)
      ensures state == 0 && p.typeDefBegin.Some? && p.next.kind == Ident && p.part2.None? ==> last == Some(p.lookahead)
      ensures state == 1 ==> last == Some(p.bodyEnd) && name == old(name)
      ensures state == 2 ==> complete && last == Some(p.lookahead) && name == old(name)
      ensures state != 2 ==> complete == old(complete)
      ensures r == EpicFail ==> last == old(last) && name == old(name) && typeKind == old(typeKind)
      ensures inner == old(inner) && size == old(size) && typeParams == old(typeParams)
    {
      pushedBack := None;
      if state == 0 {
        if p.typeDefBegin.None? {
          return EpicFail, None;
        }
        typeKind := p.typeDefBegin.value;
        var token := p.next;
        if token.kind != Ident {
          last := Some(token);
          return EndsNode, None;
        }
        name := Some(token.text);
        if p.part2.None? {
          last := Some(p.lookahead);
          return EndsNode, None;
        }
        last := p.part2;
        return BeginsNextState, p.part2;
      } else if state == 1 {
        last := Some(p.bodyEnd);
        if p.bodyEnd.kind == RCurly {
          return EndsState, None;
        }
        return Incomplete, None;
      } else if state == 2 {
        last := Some(p.lookahead);
        complete := true;
        return EndsNode, None;
      }
      return EpicFail, None;
    }

    /**
     * handleTextChange: a change strictly after the start of the inner node
     * may have moved or removed its closing brace, so the inner node is
     * marked incomplete, stretched to end where this node ends, and a
     * reparse of the changed text is scheduled.  Returns whether it acted.
     */
    method HandleTextChange(doc: SyntaxDocument, nodePos: int, changePos: int, length: int) returns (handled: bool)
      modifies inner, doc
      ensures handled <==> inner != null && changePos > old(inner.offsetFromParent) + nodePos
      ensures handled ==>
                !inner.complete &&
                inner.offsetFromParent + nodePos + inner.size == nodePos + size &&
                doc.scheduled == old(doc.scheduled) + [(changePos, length)]
      ensures !handled ==> doc.scheduled == old(doc.scheduled) && (inner != null ==> unchanged(inner))
      ensures inner != null ==> inner.offsetFromParent == old(inner.offsetFromParent)
    {
      if inner != null {
        var innerPos := inner.offsetFromParent + nodePos;
        if changePos > innerPos {
          inner.complete := false;
          var newInnerSize := size + nodePos - innerPos;
          inner.size := newInnerSize;
          doc.ScheduleReparse(changePos, length);
          return true;
        }
      }
      return false;
    }

    /** handleInsertion: the text-change rule, or else the superclass's handling. */
    method HandleInsertion(doc: SyntaxDocument, nodePos: int, insPos: int, length: int) returns (r: ChangeResult)
      modifies inner, doc
      ensures r == AllOk <==> inner != null && insPos > old(inner.offsetFromParent) + nodePos
      ensures r == AllOk ==> !inner.complete && doc.scheduled == old(doc.scheduled) + [(insPos, length)]
      ensures r == Delegated ==> doc.scheduled == old(doc.scheduled)
    {
      var handled := HandleTextChange(doc, nodePos, insPos, length);
      r := if handled then AllOk else Delegated;
    }

    /** handleDeletion: the text-change rule with length 1, or else the superclass's handling. */
    method HandleDeletion(doc: SyntaxDocument, nodePos: int, dpos: int) returns (r: ChangeResult)
      modifies inner, doc
      ensures r == AllOk <==> inner != null && dpos > old(inner.offsetFromParent) + nodePos
      ensures r == AllOk ==> !inner.complete && doc.scheduled == old(doc.scheduled) + [(dpos, 1)]
      ensures r == Delegated ==> doc.scheduled == old(doc.scheduled)
    {
      var handled := HandleTextChange(doc, nodePos, dpos, 1);
      r := if handled then AllOk else Delegated;
    }

    /**
     * resolvePackageOrClass(name, querySource): a type parameter of this
     * type that resolves as a type; otherwise what the enclosing scope
     * resolves the name to (outer).
     */
    function ResolvePackageOrClass(n: string, outer: Option<string>): (r: Option<string>)
      reads this
      ensures r == outer || (typeParams.Some? && n in typeParams.value && r == typeParams.value[n] && r.Some?)
    {
      if typeParams.Some? && n in typeParams.value && typeParams.value[n].Some? then typeParams.value[n]
      else outer
    }

    /** A name that is not a type parameter resolving as a type is resolved by the enclosing scope. */
    lemma ResolveFallsBack(n: string, outer: Option<string>)
      requires typeParams.None? || n !in typeParams.value || typeParams.value[n].None?
      ensures ResolvePackageOrClass(n, outer) == outer
    {
    }

    /** A type parameter that resolves as a type shadows whatever the enclosing scope has under that name. */
    lemma TypeParamShadows(n: string, outer1: Option<string>, outer2: Option<string>)
      requires typeParams.Some? && n in typeParams.value && typeParams.value[n].Some?
      ensures ResolvePackageOrClass(n, outer1) == ResolvePackageOrClass(n, outer2) == typeParams.value[n]
    {
    }
  }
}
