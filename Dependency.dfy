/**
 * A dependency between two targets in a BlueJ package diagram: its identity
 * (by the identity of its two end targets), its hash, the bounding box used
 * for selecting it with the mouse, its persistence in the package's
 * properties, and its display name.
 *
 * Targets are objects (compared by reference, as the source compares them);
 * a package is reduced to its targets by name.  The hash codes of targets
 * are their identity hashes, 32-bit values fixed per object.
 */
module Dependencies {
  import opened Strings

  /** SELECT_DIST: how far from the line a click still selects the dependency. */
  const SelectDist := 4

  const MinInt32 := -0x8000_0000
  const MaxInt32 := 0x7fff_ffff

  /** A value reduced to Java's 32-bit int range, as int arithmetic wraps around. */
  function Wrap32(v: int): (r: int)
    ensures MinInt32 <= r <= MaxInt32
    ensures (r - v) % 0x1_0000_0000 == 0
  {
    (v - MinInt32) % 0x1_0000_0000 + MinInt32
  }

  /** A target of the package diagram, with what dependencies use of it. */
  class Target {
    /** getIdentifierName, for a dependent target. */
    const identifierName: string
    /** Whether it is a DependentTarget (a class or a package). */
    const dependent: bool
    /** hashCode: fixed for the object. */
    const hash: int

    constructor (identifierName: string, dependent: bool, hash: int)
      requires MinInt32 <= hash <= MaxInt32
      ensures this.identifierName == identifierName && this.dependent == dependent && this.hash == hash
    {
      this.identifierName := identifierName;
      this.dependent := dependent;
      this.hash := hash;
    }

    ghost predicate Valid()
    {
      MinInt32 <= hash <= MaxInt32
    }
  }

  /** The package properties (package.bluej) as a mutable map. */
  class Properties {
    var entries: map<string, string>

    constructor (entries: map<string, string>)
      ensures this.entries == entries
    {
      this.entries := entries;
    }
  }

  /** Why a dependency could not be loaded (DependencyNotFoundException). */
  datatype LoadError = NoFrom | FromNotFound(fromName: string) | NoTo | ToNotFound(toName: string)

  datatype LoadResult = Loaded(from: Target, to: Target) | NotFound(error: LoadError)

  /** pkg.getTarget(name): the package's target of that name, or null. */
  function GetTarget(targets: map<string, Target>, name: string): Target?
  {
    if name in targets then targets[name] else null
  }

  /**
   * Dependency(pkg, props, prefix): read the names under prefix.from and
   * prefix.to, in that order, and look each up as a dependent target.
   */
  function LoadEndpoints(targets: map<string, Target>, props: map<string, string>, prefix: string): (r: LoadResult)
    ensures r.Loaded? ==> r.from in targets.Values && r.to in targets.Values && r.from.dependent && r.to.dependent
  {
    if prefix + ".from" !in props then NotFound(NoFrom)
    else
      var fromName := props[prefix + ".from"];
      var from := GetTarget(targets, fromName);
      if from == null || !from.dependent then NotFound(FromNotFound(fromName))
      else if prefix + ".to" !in props then NotFound(NoTo)
      else
        var toName := props[prefix + ".to"];
        var to := GetTarget(targets, toName);
        if to == null || !to.dependent then NotFound(ToNotFound(toName))
        else Loaded(from, to)
  }

  /** A missing or unresolvable "from" fails the load, whatever the "to" entry holds. */
  lemma FromCheckedFirst(targets: map<string, Target>, props: map<string, string>, prefix: string, toValue: string)
    requires prefix + ".from" !in props || GetTarget(targets, props[prefix + ".from"]) == null ||
             !GetTarget(targets, props[prefix + ".from"]).dependent
    ensures LoadEndpoints(targets, props, prefix).NotFound?
    ensures LoadEndpoints(targets, props, prefix).error.NoFrom? || LoadEndpoints(targets, props, prefix).error.FromNotFound?
    ensures LoadEndpoints(targets, props, prefix) == LoadEndpoints(targets, props[prefix + ".to" := toValue], prefix)
  {
    assert prefix + ".to" != prefix + ".from" by {
      assert |prefix + ".to"| != |prefix + ".from"|;
    }
  }

  /** A load succeeds exactly when both names are present and both name dependent targets. */
  lemma LoadedExactly(targets: map<string, Target>, props: map<string, string>, prefix: string, from: Target, to: Target)
    ensures LoadEndpoints(targets, props, prefix) == Loaded(from, to) <==>
              prefix + ".from" in props && prefix + ".to" in props &&
              GetTarget(targets, props[prefix + ".from"]) == from && from.dependent &&
              GetTarget(targets, props[prefix + ".to"]) == to && to.dependent
  {
  }

  /** The properties after save: the identifier names of both ends under prefix.from and prefix.to. */
  function Saved(props: map<string, string>, prefix: string, from: Target, to: Target): (r: map<string, string>)
    ensures r.Keys == props.Keys + {prefix + ".from", prefix + ".to"}
    ensures r[prefix + ".from"] == from.identifierName && r[prefix + ".to"] == to.identifierName
  {
    assert |prefix + ".to"| != |prefix + ".from"|;
    props[prefix + ".from" := from.identifierName][prefix + ".to" := to.identifierName]
  }

  /**
   * Saving and loading back gives the same ends, when the package finds
   * each dependent target under its identifier name.
   */
  lemma SaveThenLoad(targets: map<string, Target>, props: map<string, string>, prefix: string, from: Target, to: Target)
    requires from.dependent && to.dependent
    requires GetTarget(targets, from.identifierName) == from && GetTarget(targets, to.identifierName) == to
    ensures LoadEndpoints(targets, Saved(props, prefix, from, to), prefix) == Loaded(from, to)
  {
    assert prefix + ".to" != prefix + ".from" by {
      assert |prefix + ".to"| != |prefix + ".from"|;
    }
  }

  /** toString: "from --> to", with the identifier names of the ends. */
  function Describe(fromName: string, toName: string): (r: string)
    ensures |r| == |fromName| + 5 + |toName|
    ensures r[..|fromName|] == fromName && r[|fromName| + 5..] == toName
  {
    fromName + " --> " + toName
  }

  /**
   * Identifier names have no spaces, so the description splits back at its
   * first space: different ends give different descriptions.
   */
  lemma DescribeInjective(f: string, t: string, f': string, t': string)
    requires ' ' !in f && ' ' !in f'
    requires Describe(f, t) == Describe(f', t')
    ensures f == f' && t == t'
  {
    var d := Describe(f, t);
    FirstSpace(f, t);
    FirstSpace(f', t');
    assert |f| == |f'|;
    assert f == d[..|f|] == f';
    assert t == d[|f| + 5..] == t';
  }

  /** The first space of a description ends the from-name. */
  lemma FirstSpace(f: string, t: string)
    requires ' ' !in f
    ensures var d := Describe(f, t);
            d[..|f|] == f && d[|f|] == ' ' && forall i :: 0 <= i < |f| ==> d[i] != ' '
  {
    var d := Describe(f, t);
    assert forall i :: 0 <= i < |f| ==> d[i] == f[i];
  }

  /** A point of the diagram. */
  datatype Point = Point(x: int, y: int)

  /** A dependency's line: its two end points (its angle is not used here). */
  datatype Line = Line(from: Point, to: Point)

  datatype Rectangle = Rectangle(x: int, y: int, width: int, height: int)

  function Min(a: int, b: int): int { if a <= b then a else b }
  function Max(a: int, b: int): int { if a >= b then a else b }

  /** Rectangle.contains(px, py): a non-negative size, and the point in [x, x+width) × [y, y+height). */
  predicate Contains(r: Rectangle, px: int, py: int)
  {
    r.width >= 0 && r.height >= 0 && r.x <= px < r.x + r.width && r.y <= py < r.y + r.height
  }

  /**
   * getBoxFromLine: x and y are the smaller coordinates less SELECT_DIST;
   * width and height reach from there to the larger coordinate plus
   * 2 * SELECT_DIST.
   */
  function BoxFromLine(line: Line): (r: Rectangle)
    ensures r.width >= 3 * SelectDist && r.height >= 3 * SelectDist
    ensures Contains(r, line.from.x, line.from.y) && Contains(r, line.to.x, line.to.y)
  {
    var x := Min(line.from.x, line.to.x) - SelectDist;
    var y := Min(line.from.y, line.to.y) - SelectDist;
    var width := Max(line.from.x, line.to.x) - x + 2 * SelectDist;
    var height := Max(line.from.y, line.to.y) - y + 2 * SelectDist;
    Rectangle(x, y, width, height)
  }

  /**
   * A point lies in the box exactly when it is at most SELECT_DIST before
   * the smaller coordinate and less than 2 * SELECT_DIST after the larger,
   * in each direction.
   */
  lemma BoxExactly(line: Line, px: int, py: int)
    ensures Contains(BoxFromLine(line), px, py) <==>
              Min(line.from.x, line.to.x) - SelectDist <= px < Max(line.from.x, line.to.x) + 2 * SelectDist &&
              Min(line.from.y, line.to.y) - SelectDist <= py < Max(line.from.y, line.to.y) + 2 * SelectDist
  {
  }

  /** Both end points, and every point within SELECT_DIST of one in each direction, lie in the box. */
  lemma EndpointsInBox(line: Line, dx: int, dy: int)
    requires -SelectDist <= dx <= SelectDist && -SelectDist <= dy <= SelectDist
    ensures Contains(BoxFromLine(line), line.from.x + dx, line.from.y + dy)
    ensures Contains(BoxFromLine(line), line.to.x + dx, line.to.y + dy)
  {
    BoxExactly(line, line.from.x + dx, line.from.y + dy);
    BoxExactly(line, line.to.x + dx, line.to.y + dy);
  }

  class Dependency {
    const from: Target?
    const to: Target?
    var visible: bool
    var selected: bool

    /** Dependency(pkg, from, to): visible and not selected. */
    constructor (from: Target?, to: Target?)
      ensures this.from == from && this.to == to && visible && !selected
    {
      this.from := from;
      this.to := to;
      visible := true;
      selected := false;
    }

    /** Dependency(pkg, props, prefix), given the ends the load found. */
    constructor Load(r: LoadResult)
      requires r.Loaded?
      ensures from == r.from && to == r.to && visible && !selected
    {
      from := r.from;
      to := r.to;
      visible := true;
      selected := false;
    }

    /** equals: another dependency with the identical ends. */
    predicate Equals(other: Dependency?)
    {
      other != null && other.from == from && other.to == to
    }

    /** hashCode: to's hash less from's, in 32-bit arithmetic. */
    function HashCode(): (h: int)
      requires from != null && to != null
      requires from.Valid() && to.Valid()
      ensures MinInt32 <= h <= MaxInt32
      ensures (h - (to.hash - from.hash)) % 0x1_0000_0000 == 0
    {
      Wrap32(to.hash - from.hash)
    }

    /** Equal dependencies have equal hash codes. */
    lemma EqualsHash(other: Dependency)
      requires from != null && to != null && from.Valid() && to.Valid()
      requires Equals(other)
      ensures other.HashCode() == HashCode()
    {
    }

    /** equals is an equivalence: reflexive, symmetric and transitive. */
    lemma EqualsEquivalence(b: Dependency, c: Dependency)
      ensures Equals(this)
      ensures Equals(b) ==> b.Equals(this)
      ensures Equals(b) && b.Equals(c) ==> Equals(c)
    {
    }

    /** save: the identifier names of both ends under prefix.from and prefix.to. */
    method Save(props: Properties, prefix: string)
      requires from != null && to != null && from.dependent && to.dependent
      modifies props
      ensures props.entries == Saved(old(props.entries), prefix, from, to)
    {
      props.entries := props.entries[prefix + ".from" := from.identifierName];
      props.entries := props.entries[prefix + ".to" := to.identifierName];
    }

    /** toString. */
    function ToString(): (r: string)
      requires from != null && to != null
      ensures |r| == |from.identifierName| + 5 + |to.identifierName|
      ensures r[..|from.identifierName|] == from.identifierName && r[|r| - |to.identifierName|..] == to.identifierName
    {
      Describe(from.identifierName, to.identifierName)
    }

    /** setVisible: a change of visibility is recorded and reported (the result); no change, no report. */
    method SetVisible(vis: bool) returns (reported: bool)
      modifies this`visible
      ensures visible == vis && (reported <==> old(visible) != vis)
    {
      reported := vis != visible;
      if reported {
        visible := vis;
      }
    }

    /** setSelected. */
    method SetSelected(sel: bool)
      modifies this`selected
      ensures selected == sel
    {
      selected := sel;
    }
  }
}
