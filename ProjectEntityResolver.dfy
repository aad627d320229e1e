/**
 * BlueJ's ProjectEntityResolver: how a name used in a source file of the
 * project is resolved to a class or a package.  The name is tried as a
 * class in the querying class's own package, then in java.lang, and is
 * otherwise taken to be a package.  A qualified class name is looked up as
 * a class target of the project's package, then through the project's
 * class loader.
 *
 * The project is reduced to what the resolver asks of it: its packages'
 * targets by name, and the set of class names its class loader can load.
 */
module EntityResolution {
  import opened Strings

  /** A target of a project package: a class target (with its reflective, if it has one) or another kind. */
  datatype TargetKind = ClassTarget(reflective: Option<string>) | OtherTarget

  /**
   * The project as the resolver sees it: getPackage / getTarget, and the
   * names loadClass succeeds on.
   */
  datatype Project = Project(packages: map<string, map<string, TargetKind>>, loadable: set<string>)

  /** What a name resolves to: a type from a project class's reflective, a type from a loaded class, or a package. */
  datatype Entity = ReflectiveType(reflective: string) | LoadedType(className: string) | PackageEntity(name: string)

  /** The package prefix of the querying class: its name up to and including the last dot, or "". */
  function PackagePrefix(querySource: string): string
  {
    var lastDot := LastIndexOfChar(querySource, '.');
    if lastDot != -1 then querySource[..lastDot + 1] else ""
  }

  /**
   * The prefix is empty exactly for a query source without dots; otherwise
   * it is a prefix of the query source ending in its last dot.
   */
  lemma PackagePrefixExactly(querySource: string)
    ensures var p := PackagePrefix(querySource);
            (p == "" <==> '.' !in querySource) &&
            (p != "" ==> StartsWith(querySource, p) && p[|p| - 1] == '.' && '.' !in querySource[|p|..])
  {
  }

  /** The package and base name of a qualified name: the parts before and after its last dot. */
  function SplitQualified(name: string): (r: (string, string))
    ensures '.' !in r.1 && |r.0| + |r.1| <= |name|
  {
    var lastDot := LastIndexOfChar(name, '.');
    var pkgName := if lastDot != -1 then name[..lastDot] else "";
    (pkgName, name[lastDot + 1..])
  }

  /**
   * The base name has no dot; with a dot in the name, the name is the
   * package, a dot and the base name, and without one the package is ""
   * and the base name the whole name.
   */
  lemma SplitQualifiedExactly(name: string)
    ensures var (pkgName, baseName) := SplitQualified(name);
            '.' !in baseName &&
            ('.' in name ==> name == pkgName + "." + baseName) &&
            ('.' !in name ==> pkgName == "" && baseName == name)
  {
    var lastDot := LastIndexOfChar(name, '.');
    if lastDot != -1 {
      assert name == name[..lastDot] + "." + name[lastDot + 1..];
    }
  }

  /** Splitting a joined package and dot-free base name gives them back. */
  lemma SplitJoin(pkgName: string, baseName: string)
    requires '.' !in baseName
    ensures SplitQualified(pkgName + "." + baseName) == (pkgName, baseName)
  {
    var name := pkgName + "." + baseName;
    assert name[|pkgName|] == '.' && name[|pkgName| + 1..] == baseName;
    var lastDot := LastIndexOfChar(name, '.');
    assert forall i :: |pkgName| < i < |name| ==> name[i] == baseName[i - |pkgName| - 1] != '.';
    assert lastDot == |pkgName|;
    assert name[..lastDot] == pkgName;
  }

  /** The reflective of a class target of that name in that package of the project, if there is one. */
  function ProjectClass(project: Project, pkgName: string, baseName: string): Option<string>
  {
    if pkgName in project.packages && baseName in project.packages[pkgName] &&
       project.packages[pkgName][baseName].ClassTarget?
    then project.packages[pkgName][baseName].reflective
    else None
  }

  /**
   * resolveQualifiedClass: a class target of the project with a reflective,
   * else a class the class loader loads, else null (None).
   */
  function ResolveQualifiedClass(project: Project, name: string): (r: Option<Entity>)
    ensures r.Some? ==> !r.value.PackageEntity?
    ensures r.Some? && r.value.LoadedType? ==> r.value.className == name && name in project.loadable
  {
    var (pkgName, baseName) := SplitQualified(name);
    var reflective := ProjectClass(project, pkgName, baseName);
    if reflective.Some? then Some(ReflectiveType(reflective.value))
    else if name in project.loadable then Some(LoadedType(name))
    else None
  }

  /** A project class wins over the class loader; null only when neither knows the name. */
  lemma ProjectClassWins(project: Project, name: string, loadable: set<string>)
    ensures var (pkgName, baseName) := SplitQualified(name);
            ProjectClass(project, pkgName, baseName).Some? ==>
              ResolveQualifiedClass(project, name) == ResolveQualifiedClass(project.(loadable := loadable), name) ==
                Some(ReflectiveType(ProjectClass(project, pkgName, baseName).value))
    ensures var (pkgName, baseName) := SplitQualified(name);
            ResolveQualifiedClass(project, name).None? <==>
              ProjectClass(project, pkgName, baseName).None? && name !in project.loadable
  {
  }

  /** A class target in a package is found under its qualified name. */
  lemma QualifiedProjectClass(project: Project, pkgName: string, baseName: string, reflective: string)
    requires '.' !in baseName
    requires pkgName in project.packages && baseName in project.packages[pkgName]
    requires project.packages[pkgName][baseName] == ClassTarget(Some(reflective))
    ensures ResolveQualifiedClass(project, pkgName + "." + baseName) == Some(ReflectiveType(reflective))
  {
    SplitJoin(pkgName, baseName);
  }

  /**
   * resolvePackageOrClass (and getValueEntity, which is the same): the name
   * as a class of the query source's package, else as a class of java.lang,
   * else as a package.
   */
  function ResolvePackageOrClass(project: Project, name: string, querySource: string): (r: Entity)
    ensures r.LoadedType? ==> r.className in project.loadable
    ensures r.PackageEntity? ==> r.name == name
  {
    var rval := ResolveQualifiedClass(project, PackagePrefix(querySource) + name);
    if rval.Some? then rval.value
    else if "java.lang." + name in project.loadable then LoadedType("java.lang." + name)
    else PackageEntity(name)
  }

  /**
   * The name is taken to be a package exactly when it is no class of the
   * query source's package and no class of java.lang; a java.lang class is
   * used only when the package has no class of that name.
   */
  lemma ResolutionOrder(project: Project, name: string, querySource: string)
    ensures var own := ResolveQualifiedClass(project, PackagePrefix(querySource) + name);
            var r := ResolvePackageOrClass(project, name, querySource);
            (r.PackageEntity? <==> own.None? && "java.lang." + name !in project.loadable) &&
            (r.PackageEntity? ==> r.name == name) &&
            (own.Some? ==> r == own.value) &&
            (r == LoadedType("java.lang." + name) ==>
               own.None? || own == Some(LoadedType("java.lang." + name)))
  {
  }

  /** Query sources in the same package resolve every name alike. */
  lemma SamePackageSameResult(project: Project, name: string, q1: string, q2: string)
    requires PackagePrefix(q1) == PackagePrefix(q2)
    ensures ResolvePackageOrClass(project, name, q1) == ResolvePackageOrClass(project, name, q2)
  {
  }

  /**
   * A dot-free name that is a class target of the query source's package
   * resolves to that class, whatever the class loader can load.
   */
  lemma OwnPackageClassWins(project: Project, name: string, querySource: string, reflective: string, loadable: set<string>)
    requires '.' !in name && '.' in querySource
    requires var p := PackagePrefix(querySource);
             p[..|p| - 1] in project.packages && name in project.packages[p[..|p| - 1]] &&
             project.packages[p[..|p| - 1]][name] == ClassTarget(Some(reflective))
    ensures ResolvePackageOrClass(project, name, querySource) == ReflectiveType(reflective)
    ensures ResolvePackageOrClass(project.(loadable := loadable), name, querySource) == ReflectiveType(reflective)
  {
    var p := PackagePrefix(querySource);
    PackagePrefixExactly(querySource);
    assert p == p[..|p| - 1] + ".";
    QualifiedProjectClass(project, p[..|p| - 1], name, reflective);
    QualifiedProjectClass(project.(loadable := loadable), p[..|p| - 1], name, reflective);
  }
}
