/**
 * The parts of BlueJ's boot class that are logic rather than set-up: the
 * properties given on the command line as -name=value, the version string,
 * the jar location cut out of a jar: resource URL, and the filter that keeps
 * spurious entries out of the files a Mac open-files event asks to open.
 */
module Boot {
  import opened Strings

  // The version of BlueJ

  const VersionMajor: nat := 4
  const VersionMinor: nat := 2
  const VersionRelease: nat := 1
  const VersionSuffix: string := ""

  /** major.minor.release followed by the suffix, as string concatenation prints them. */
  function Version(major: nat, minor: nat, release: nat, suffix: string): (v: string)
    ensures |v| > 4 + |suffix| && EndsWith(v, suffix)
  {
    NatToString(major) + "." + NatToString(minor) + "." + NatToString(release) + suffix
  }

  /** BLUEJ_VERSION. */
  function BluejVersion(): (v: string)
    ensures v == "4.2.1"
  {
    assert NatToString(4) == "4" && NatToString(2) == "2" && NatToString(1) == "1";
    Version(VersionMajor, VersionMinor, VersionRelease, VersionSuffix)
  }

  /** The first `c` in x + [c] + y, when x holds none, is the one after x. */
  lemma FirstSeparator(x: string, c: char, y: string)
    requires c !in x
    ensures IndexOfChar(x + [c] + y, c) == |x|
  {
    var s := x + [c] + y;
    assert s[..|x|] == x && s[|x|] == c;
  }

  /** Two strings joined by a dot, neither of the first two containing one, are split back at that dot. */
  lemma DotJoinInjective(x: string, y: string, x': string, y': string)
    requires '.' !in x && '.' !in x'
    requires x + "." + y == x' + "." + y'
    ensures x == x' && y == y'
  {
    var s := x + "." + y;
    FirstSeparator(x, '.', y);
    FirstSeparator(x', '.', y');
    assert x == s[..|x|] == x';
    assert y == s[|x| + 1..] == y';
  }

  lemma DigitsHaveNoDot(n: nat)
    ensures '.' !in NatToString(n)
  {
    var s := NatToString(n);
    forall i | 0 <= i < |s|
      ensures s[i] != '.'
    {
      assert '0' <= s[i] <= '9';
    }
  }

  lemma NatToStringInjective(a: nat, b: nat)
    requires NatToString(a) == NatToString(b)
    ensures a == b
  {
    ParseNatToString(a);
    ParseNatToString(b);
  }

  /** Different version numbers with the same suffix never print alike. */
  lemma VersionInjective(a: nat, b: nat, c: nat, a': nat, b': nat, c': nat, suffix: string)
    requires Version(a, b, c, suffix) == Version(a', b', c', suffix)
    ensures a == a' && b == b' && c == c'
  {
    var v := Version(a, b, c, suffix);
    var core := NatToString(a) + "." + NatToString(b) + "." + NatToString(c);
    var core' := NatToString(a') + "." + NatToString(b') + "." + NatToString(c');
    assert v == core + suffix == core' + suffix;
    assert core == v[..|v| - |suffix|] == core';
    DigitsHaveNoDot(a);
    DigitsHaveNoDot(a');
    DigitsHaveNoDot(b);
    DigitsHaveNoDot(b');
    DottedTripleInjective(NatToString(a), NatToString(b), NatToString(c), NatToString(a'), NatToString(b'), NatToString(c'));
    NatToStringInjective(a, a');
    NatToStringInjective(b, b');
    NatToStringInjective(c, c');
  }

  /** Three parts joined by dots, the first two without dots, are determined by the joined string. */
  lemma DottedTripleInjective(x: string, y: string, z: string, x': string, y': string, z': string)
    requires '.' !in x && '.' !in y && '.' !in x' && '.' !in y'
    requires x + "." + y + "." + z == x' + "." + y' + "." + z'
    ensures x == x' && y == y' && z == z'
  {
    assert x + "." + y + "." + z == x + "." + (y + "." + z);
    assert x' + "." + y' + "." + z' == x' + "." + (y' + "." + z');
    DotJoinInjective(x, y + "." + z, x', y' + "." + z');
    DotJoinInjective(y, z, y', z');
  }

  // Command-line properties

  /**
   * The property an argument defines: an argument "-name=value" defines
   * name as value, split at the first '='; an argument without the leading
   * '-' or without '=', or with an empty name or value, defines nothing.
   */
  function Definition(arg: string): (d: Option<(string, string)>)
    ensures d.Some? ==> d.value.0 != "" && d.value.1 != "" && '=' !in d.value.0
  {
    if !StartsWith(arg, "-") then None
    else
      var definition := arg[1..];
      var eq := IndexOfChar(definition, '=');
      if eq < 0 then None
      else
        var name := definition[..eq];
        var value := definition[eq + 1..];
        if name != "" && value != "" then Some((name, value)) else None
  }

  /** An argument defines name as value exactly when it reads "-" + name + "=" + value with name free of '='. */
  lemma DefinitionExactly(arg: string, name: string, value: string)
    ensures Definition(arg) == Some((name, value)) <==>
              arg == "-" + name + "=" + value && name != "" && value != "" && '=' !in name
  {
    if arg == "-" + name + "=" + value && name != "" && value != "" && '=' !in name {
      var definition := arg[1..];
      assert definition == name + "=" + value;
      FirstSeparator(name, '=', value);
      var eq := IndexOfChar(definition, '=');
      assert definition[..eq] == name && definition[eq + 1..] == value;
    }
    if Definition(arg) == Some((name, value)) {
      var definition := arg[1..];
      var eq := IndexOfChar(definition, '=');
      assert definition == definition[..eq] + "=" + definition[eq + 1..];
      assert arg == [arg[0]] + definition;
    }
  }

  /** An argument not starting with '-' or holding no '=' defines nothing. */
  lemma IgnoredArguments(arg: string)
    requires !StartsWith(arg, "-") || '=' !in arg
    ensures Definition(arg).None?
  {
    if StartsWith(arg, "-") {
      assert forall c :: c in arg[1..] ==> c in arg;
    }
  }

  /** processCommandLineProperties: the properties the arguments define, later ones overriding earlier ones. */
  function CommandLineProperties(args: seq<string>): map<string, string>
  {
    if |args| == 0 then map[]
    else
      var props := CommandLineProperties(args[..|args| - 1]);
      var d := Definition(args[|args| - 1]);
      if d.Some? then props[d.value.0 := d.value.1] else props
  }

  /** Argument i defines the property `name`. */
  predicate DefinesAt(args: seq<string>, i: int, name: string)
  {
    0 <= i < |args| && Definition(args[i]).Some? && Definition(args[i]).value.0 == name
  }

  /** A property is set exactly when some argument defines it. */
  lemma {:induction false} PropertySetExactly(args: seq<string>, name: string)
    ensures name in CommandLineProperties(args) <==> exists i :: DefinesAt(args, i, name)
  {
    if |args| > 0 {
      var init := args[..|args| - 1];
      var last := |args| - 1;
      PropertySetExactly(init, name);
      if exists i :: DefinesAt(init, i, name) {
        var i :| DefinesAt(init, i, name);
        assert DefinesAt(args, i, name);
      }
      if DefinesAt(args, last, name) {
        assert CommandLineProperties(args) == CommandLineProperties(init)[name := Definition(args[last]).value.1];
      } else {
        forall i | DefinesAt(args, i, name)
          ensures DefinesAt(init, i, name)
        {
        }
      }
    }
  }

  /** The value of a property is the one given by the last argument that defines it. */
  lemma {:induction false} LastDefinitionWins(args: seq<string>, i: int, name: string)
    requires DefinesAt(args, i, name)
    requires forall j :: i < j < |args| ==> !DefinesAt(args, j, name)
    ensures name in CommandLineProperties(args)
    ensures CommandLineProperties(args)[name] == Definition(args[i]).value.1
  {
    var init := args[..|args| - 1];
    if i < |args| - 1 {
      assert DefinesAt(init, i, name);
      forall j | i < j < |init|
        ensures !DefinesAt(init, j, name)
      {
        assert !DefinesAt(args, j, name);
      }
      LastDefinitionWins(init, i, name);
      assert !DefinesAt(args, |args| - 1, name);
    }
  }

  /** processCommandLineProperties(args), the loop over the arguments. */
  method ProcessCommandLineProperties(args: seq<string>) returns (props: map<string, string>)
    ensures props == CommandLineProperties(args)
  {
    props := map[];
    var k := 0;
    while k < |args|
      invariant 0 <= k <= |args|
      invariant props == CommandLineProperties(args[..k])
    {
      assert args[..k + 1][..k] == args[..k];
      var arg := args[k];
      k := k + 1;
      if !StartsWith(arg, "-") {
        continue;
      }
      var definition := arg[1..];
      var definitionEquals := IndexOfChar(definition, '=');
      if definitionEquals < 0 {
        continue;
      }
      var propName := definition[..definitionEquals];
      var propValue := definition[definitionEquals + 1..];
      if propName != "" && propValue != "" {
        props := props[propName := propValue];
      }
    }
    assert args[..|args|] == args;
  }

  // The BlueJ library directory, when the boot class is inside a jar

  /**
   * The jar's URL inside a "jar:" resource URL: the text from index 4 up to
   * the first '!'.  None where substring throws because there is no '!'.
   */
  function JarLocation(url: string): (r: Option<string>)
    requires StartsWith(url, "jar:")
    ensures r.Some? ==> '!' !in r.value && 4 + |r.value| < |url| && url[4 + |r.value|] == '!'
  {
    var classIndex := IndexOfChar(url, '!');
    if classIndex < 4 then None else Some(url[4..classIndex])
  }

  /** The jar location is cut out exactly: a URL "jar:" + location + "!" + entry gives back location. */
  lemma JarLocationExactly(url: string, location: string)
    requires StartsWith(url, "jar:")
    ensures JarLocation(url) == Some(location) <==>
              '!' !in location && exists entry :: url == "jar:" + location + "!" + entry
  {
    if '!' !in location && exists entry :: url == "jar:" + location + "!" + entry {
      var entry :| url == "jar:" + location + "!" + entry;
      var classIndex := IndexOfChar(url, '!');
      assert '!' !in "jar:" + location;
      assert url == ("jar:" + location) + "!" + entry;
      FirstSeparator("jar:" + location, '!', entry);
      assert url[4..classIndex] == location;
    }
    if JarLocation(url) == Some(location) {
      var classIndex := IndexOfChar(url, '!');
      var entry := url[classIndex + 1..];
      assert url == url[..4] + url[4..classIndex] + [url[classIndex]] + entry;
      assert url == "jar:" + location + "!" + entry;
    }
  }

  /** A jar: URL without '!' has no jar location (substring(4, -1) throws). */
  lemma JarLocationNeedsBang(url: string)
    requires StartsWith(url, "jar:") && '!' !in url
    ensures JarLocation(url).None?
  {
  }

  // Files to open, from the Mac open-files event

  /** A file name kept: no ':' (a class path), not "bluej.Boot", not an option. */
  predicate IsProjectFile(f: string)
  {
    ':' !in f && f != "bluej.Boot" && !StartsWith(f, "-")
  }

  /** The names of `files` that are kept, in order. */
  function ProjectFiles(files: seq<string>): (kept: seq<string>)
    ensures |kept| <= |files|
  {
    if |files| == 0 then []
    else ProjectFiles(files[..|files| - 1]) + (if IsProjectFile(files[|files| - 1]) then [files[|files| - 1]] else [])
  }

  /** A name is kept exactly when it is one of the files and passes the filter. */
  lemma {:induction false} ProjectFilesExactly(files: seq<string>, f: string)
    ensures f in ProjectFiles(files) <==> f in files && IsProjectFile(f)
  {
    if |files| > 0 {
      var init := files[..|files| - 1];
      ProjectFilesExactly(init, f);
      assert files == init + [files[|files| - 1]];
    }
  }

  /** Filtering what the filter kept keeps all of it. */
  lemma {:induction false} ProjectFilesIdempotent(files: seq<string>)
    ensures ProjectFiles(ProjectFiles(files)) == ProjectFiles(files)
  {
    if |files| > 0 {
      var init := files[..|files| - 1];
      var last := files[|files| - 1];
      ProjectFilesIdempotent(init);
      ProjectFilesKept(init);
      if IsProjectFile(last) {
        var kept := ProjectFiles(files);
        assert kept == ProjectFiles(init) + [last];
        assert kept[..|kept| - 1] == ProjectFiles(init) && kept[|kept| - 1] == last;
        assert ProjectFiles(kept) == ProjectFiles(ProjectFiles(init)) + [last];
      } else {
        assert ProjectFiles(files) == ProjectFiles(init);
      }
    }
  }

  lemma {:induction false} ProjectFilesKept(files: seq<string>)
    ensures forall f :: f in ProjectFiles(files) ==> IsProjectFile(f)
  {
    forall f | f in ProjectFiles(files)
      ensures IsProjectFile(f)
    {
      ProjectFilesExactly(files, f);
    }
  }

  /** The application object, as far as its open-files handler changes it. */
  class App {
    /** The projects to open once BlueJ has loaded. */
    var macInitialProjects: seq<string>

    constructor ()
      ensures macInitialProjects == []
    {
      macInitialProjects := [];
    }

    /** handleOpenFilesAction: add the files that pass the filter, in order. */
    method HandleOpenFilesAction(files: seq<string>)
      modifies this
      ensures macInitialProjects == old(macInitialProjects) + ProjectFiles(files)
    {
      var k := 0;
      while k < |files|
        invariant 0 <= k <= |files|
        invariant macInitialProjects == old(macInitialProjects) + ProjectFiles(files[..k])
      {
        assert files[..k + 1][..k] == files[..k];
        var f := files[k];
        if ':' !in f && f != "bluej.Boot" && !StartsWith(f, "-") {
          macInitialProjects := macInitialProjects + [f];
        }
        k := k + 1;
      }
      assert files[..|files|] == files;
    }
  }
}
