/**
 * BlueJ's file utility: which files a project copy skips, the filter for
 * Java source files, and the copying of files and directory trees with its
 * error codes.  The file system is abstract: a map from absolute paths (the
 * sequence of their names) to what is there.  What the operating system
 * refuses is fixed per file system: the paths where nothing can be created
 * (readOnly), the files that cannot be read (unreadable), and the deepest
 * path it allows (maxDepth, beyond which mkdir and file creation fail).
 */
module FileUtility {
  import opened Strings

  const SourceSuffix: string := ".java"
  const ContextSuffix: string := ".ctxt"
  const PackageFilePrefix: string := "bluej.pk"

  /** copyDirectory's result codes. */
  const NO_ERROR: int := 0
  const DEST_EXISTS: int := 1
  const SRC_NOT_DIRECTORY: int := 2
  const COPY_ERROR: int := 3

  // Skipping files

  /** skipFile(fileName, skipBlueJ, skipSource). */
  function SkipFile(fileName: string, skipBlueJ: bool, skipSource: bool): (b: bool)
    ensures b ==> skipBlueJ || skipSource
    ensures b && !skipBlueJ ==> EndsWith(fileName, SourceSuffix)
  {
    if skipBlueJ && (StartsWith(fileName, PackageFilePrefix) || EndsWith(fileName, ContextSuffix)) then true
    else if skipSource && EndsWith(fileName, SourceSuffix) then true
    else false
  }

  /** Skipping BlueJ files only skips exactly the package files and the context files. */
  lemma BlueJFilesSkipped(fileName: string)
    ensures SkipFile(fileName, true, false) <==>
              StartsWith(fileName, "bluej.pk") || EndsWith(fileName, ".ctxt")
  {
  }

  /** Skipping sources only skips exactly the names ending ".java". */
  lemma SourcesSkipped(fileName: string)
    ensures SkipFile(fileName, false, true) <==> EndsWith(fileName, ".java")
  {
  }

  /** Turning on a flag never copies a file that was skipped before. */
  lemma SkipMonotone(fileName: string, b: bool, s: bool, b': bool, s': bool)
    requires (b ==> b') && (s ==> s')
    ensures SkipFile(fileName, b, s) ==> SkipFile(fileName, b', s')
  {
  }

  // The abstract file system

  type Path = seq<string>

  datatype Entry = Directory | RegularFile(data: seq<int>) | Special

  function Parent(p: Path): Path
    requires |p| > 0
  {
    p[..|p| - 1]
  }

  /** The name of a path: its last component, "" for the root. */
  function Name(p: Path): string
  {
    if |p| == 0 then "" else p[|p| - 1]
  }

  /** Path p is d or lies below it. */
  predicate Under(d: Path, p: Path)
  {
    |d| <= |p| && p[..|d|] == d
  }

  predicate IsDir(e: map<Path, Entry>, p: Path)
  {
    p in e && e[p].Directory?
  }

  predicate IsFile(e: map<Path, Entry>, p: Path)
  {
    p in e && e[p].RegularFile?
  }

  /** Every path's parent is a directory, and no path is deeper than the system allows. */
  ghost predicate WellFormed(e: map<Path, Entry>, maxDepth: nat)
  {
    (forall p :: p in e ==> |p| <= maxDepth) &&
    (forall p :: p in e && |p| > 0 ==> IsDir(e, Parent(p)))
  }

  /** Entries are only added or rewritten, never removed, and keep their kind. */
  ghost predicate Grows(e0: map<Path, Entry>, e1: map<Path, Entry>)
  {
    forall p :: p in e0 ==> p in e1 && e1[p].Directory? == e0[p].Directory? && e1[p].RegularFile? == e0[p].RegularFile?
  }

  /** Nothing outside the tree at d differs between e0 and e1. */
  ghost predicate SameOutside(e0: map<Path, Entry>, e1: map<Path, Entry>, d: Path)
  {
    forall p :: !Under(d, p) ==> (p in e0 <==> p in e1) && (p in e0 ==> e0[p] == e1[p])
  }

  /** No regular file in the tree at d has a name the flags skip. */
  ghost predicate NoSkippedUnder(e: map<Path, Entry>, d: Path, skipBlueJ: bool, skipSource: bool)
  {
    forall p :: p in e && Under(d, p) && e[p].RegularFile? ==> !SkipFile(Name(p), skipBlueJ, skipSource)
  }

  /** The names listed in directory d. */
  function ChildNames(e: map<Path, Entry>, d: Path): set<string>
  {
    set p | p in e && |p| == |d| + 1 && p[..|d|] == d :: p[|d|]
  }

  lemma ChildNamesExactly(e: map<Path, Entry>, d: Path, n: string)
    ensures n in ChildNames(e, d) <==> d + [n] in e
  {
    if d + [n] in e {
      var p := d + [n];
      assert p[..|d|] == d && p[|d|] == n;
    }
    if n in ChildNames(e, d) {
      var p :| p in e && |p| == |d| + 1 && p[..|d|] == d && p[|d|] == n;
      assert p == d + [n];
    }
  }

  /** Every ancestor of a path in a well-formed file system is there too, as a directory. */
  lemma {:induction false} AncestorExists(e: map<Path, Entry>, maxDepth: nat, d: Path, p: Path)
    requires WellFormed(e, maxDepth) && p in e && Under(d, p) && d != p
    ensures IsDir(e, d)
    decreases |p|
  {
    var q := Parent(p);
    assert IsDir(e, q);
    if q != d {
      assert Under(d, q) by {
        assert q[..|d|] == p[..|d|];
      }
      AncestorExists(e, maxDepth, d, q);
    }
  }

  /** Nothing lies below a path that is not there. */
  lemma NothingBelowMissing(e: map<Path, Entry>, maxDepth: nat, d: Path, skipBlueJ: bool, skipSource: bool)
    requires WellFormed(e, maxDepth) && d !in e
    ensures forall p :: p in e ==> !Under(d, p)
    ensures NoSkippedUnder(e, d, skipBlueJ, skipSource)
  {
    forall p | p in e
      ensures !Under(d, p)
    {
      if Under(d, p) {
        AncestorExists(e, maxDepth, d, p);
      }
    }
  }

  lemma GrowsTrans(e0: map<Path, Entry>, e1: map<Path, Entry>, e2: map<Path, Entry>)
    requires Grows(e0, e1) && Grows(e1, e2)
    ensures Grows(e0, e2)
  {
  }

  /** The tree at d + [n] lies inside the tree at d. */
  lemma UnderChild(d: Path, n: string, p: Path)
    ensures Under(d + [n], p) ==> Under(d, p)
  {
    if Under(d + [n], p) {
      assert p[..|d|] == (d + [n])[..|d|] == d;
    }
  }

  /** A change inside the tree at d + [n] is a change inside the tree at d. */
  lemma SameOutsideNested(e0: map<Path, Entry>, e1: map<Path, Entry>, e2: map<Path, Entry>, d: Path, n: string)
    requires SameOutside(e0, e1, d) && SameOutside(e1, e2, d + [n])
    ensures SameOutside(e0, e2, d)
  {
    forall p | !Under(d, p)
      ensures (p in e0 <==> p in e2) && (p in e0 ==> e0[p] == e2[p])
    {
      UnderChild(d, n, p);
    }
  }

  /** The tree at d keeps no skipped file when its subtree at d + [n] keeps none and nothing else changed. */
  lemma NoSkippedNested(e1: map<Path, Entry>, e2: map<Path, Entry>, d: Path, n: string, skipBlueJ: bool, skipSource: bool)
    requires NoSkippedUnder(e1, d, skipBlueJ, skipSource)
    requires SameOutside(e1, e2, d + [n]) && NoSkippedUnder(e2, d + [n], skipBlueJ, skipSource)
    ensures NoSkippedUnder(e2, d, skipBlueJ, skipSource)
  {
    forall p | p in e2 && Under(d, p) && e2[p].RegularFile?
      ensures !SkipFile(Name(p), skipBlueJ, skipSource)
    {
      if !Under(d + [n], p) {
        assert p in e1 && e1[p] == e2[p];
      }
    }
  }

  /** The tree at d + [n] keeps no skipped file when the tree at d keeps none. */
  lemma NoSkippedSubtree(e: map<Path, Entry>, d: Path, n: string, skipBlueJ: bool, skipSource: bool)
    requires NoSkippedUnder(e, d, skipBlueJ, skipSource)
    ensures NoSkippedUnder(e, d + [n], skipBlueJ, skipSource)
  {
    forall p | p in e && Under(d + [n], p) && e[p].RegularFile?
      ensures !SkipFile(Name(p), skipBlueJ, skipSource)
    {
      UnderChild(d, n, p);
    }
  }

  /** Writing a file whose name is kept leaves no skipped file. */
  lemma NoSkippedWrite(e: map<Path, Entry>, d: Path, p: Path, x: Entry, skipBlueJ: bool, skipSource: bool)
    requires NoSkippedUnder(e, d, skipBlueJ, skipSource)
    requires x.RegularFile? ==> !SkipFile(Name(p), skipBlueJ, skipSource)
    ensures NoSkippedUnder(e[p := x], d, skipBlueJ, skipSource)
  {
  }

  /**
   * Child n of the source was copied: a regular file the flags keep is at
   * dest + [n] with the same contents, and a directory is at dest + [n] as a
   * directory.
   */
  ghost predicate CopiedChild(e0: map<Path, Entry>, e: map<Path, Entry>, source: Path, dest: Path, n: string,
                              skipBlueJ: bool, skipSource: bool)
  {
    (IsFile(e0, source + [n]) && !SkipFile(n, skipBlueJ, skipSource) ==>
       dest + [n] in e && e[dest + [n]] == e0[source + [n]]) &&
    (IsDir(e0, source + [n]) ==> IsDir(e, dest + [n]))
  }

  /** A copied child stays copied while only the tree at dest + [m], for another m, changes. */
  lemma CopiedChildKept(e0: map<Path, Entry>, e1: map<Path, Entry>, e2: map<Path, Entry>, source: Path, dest: Path,
                        n: string, m: string, skipBlueJ: bool, skipSource: bool)
    requires CopiedChild(e0, e1, source, dest, n, skipBlueJ, skipSource)
    requires n != m && Grows(e1, e2) && SameOutside(e1, e2, dest + [m])
    ensures CopiedChild(e0, e2, source, dest, n, skipBlueJ, skipSource)
  {
    assert !Under(dest + [m], dest + [n]) by {
      assert (dest + [n])[..|dest| + 1] == dest + [n];
      assert (dest + [n])[|dest|] != (dest + [m])[|dest|];
    }
  }

  /** Moving one listed name from the names still to do to the names done keeps the listing split in two. */
  lemma MoveToDone(names: set<string>, todo: set<string>, done: set<string>, n: string)
    requires todo + done == names && todo !! done && n in todo
    ensures (todo - {n}) + (done + {n}) == names && (todo - {n}) !! (done + {n})
  {
  }

  /** One round of copyDirectory's loop keeps what the loop has established, and adds child n when it succeeded. */
  lemma CopyDirectoryTurn(e0: map<Path, Entry>, e1: map<Path, Entry>, e2: map<Path, Entry>, source: Path, dest: Path,
                          n: string, done: set<string>, ok: bool, skipBlueJ: bool, skipSource: bool)
    requires forall p :: p in e0 ==> !Under(dest, p)
    requires Grows(e0, e1) && SameOutside(e0, e1, dest) && n !in done
    requires forall m :: m in done ==> CopiedChild(e0, e1, source, dest, m, skipBlueJ, skipSource)
    requires Grows(e1, e2) && SameOutside(e1, e2, dest + [n])
    requires ok ==> CopiedChild(e1, e2, source, dest, n, skipBlueJ, skipSource)
    ensures Grows(e0, e2) && SameOutside(e0, e2, dest)
    ensures ok ==> forall m :: m in done + {n} ==> CopiedChild(e0, e2, source, dest, m, skipBlueJ, skipSource)
  {
    GrowsTrans(e0, e1, e2);
    SameOutsideNested(e0, e1, e2, dest, n);
    if ok {
      forall m | m in done
        ensures CopiedChild(e0, e2, source, dest, m, skipBlueJ, skipSource)
      {
        CopiedChildKept(e0, e1, e2, source, dest, m, n, skipBlueJ, skipSource);
      }
    }
  }

  /** The place of p, a path in the tree at source, in a copy of that tree at dest. */
  function Rebase(p: Path, source: Path, dest: Path): (q: Path)
    requires |source| <= |p|
    ensures |q| == |dest| + |p| - |source| && q[..|dest|] == dest
  {
    dest + p[|source|..]
  }

  /**
   * Entry p of e0 was copied to q in e: a regular file the flags keep is at
   * q with the same contents, and a directory is at q as a directory.
   */
  ghost predicate CopiedEntry(e0: map<Path, Entry>, e: map<Path, Entry>, p: Path, q: Path, skipBlueJ: bool, skipSource: bool)
    requires p in e0
  {
    (e0[p].RegularFile? && !SkipFile(Name(p), skipBlueJ, skipSource) ==> q in e && e[q] == e0[p]) &&
    (e0[p].Directory? ==> IsDir(e, q))
  }

  /** Every entry strictly below source in e0 was copied to its place below dest in e. */
  ghost predicate CopiedTree(e0: map<Path, Entry>, e: map<Path, Entry>, source: Path, dest: Path, skipBlueJ: bool, skipSource: bool)
  {
    forall p :: p in e0 && Under(source, p) && p != source ==>
      CopiedEntry(e0, e, p, Rebase(p, source, dest), skipBlueJ, skipSource)
  }

  /** Child n of source, and everything below it, was copied to its place below dest. */
  ghost predicate SubtreeCopied(e0: map<Path, Entry>, e: map<Path, Entry>, source: Path, dest: Path, n: string,
                                skipBlueJ: bool, skipSource: bool)
  {
    forall p :: p in e0 && Under(source + [n], p) ==>
      CopiedEntry(e0, e, p, Rebase(p, source, dest), skipBlueJ, skipSource)
  }

  /** A destination inside a child's source lies inside the parent's source. */
  lemma UnderBoth(source: Path, dest: Path, n: string)
    ensures Under(source + [n], dest + [n]) ==> Under(source, dest)
  {
    if Under(source + [n], dest + [n]) {
      if |source| < |dest| {
        assert dest[..|source|] == (dest + [n])[..|source| + 1][..|source|];
      } else {
        assert dest == (dest + [n])[..|source|];
      }
    }
  }

  /** A path below source + [n] keeps its place when rebased one level down. */
  lemma RebaseChild(p: Path, source: Path, dest: Path, n: string)
    requires Under(source + [n], p)
    ensures Rebase(p, source + [n], dest + [n]) == Rebase(p, source, dest)
    ensures Under(dest + [n], Rebase(p, source, dest))
  {
    assert p[|source|] == (source + [n])[|source|] == n;
    assert p[|source|..] == [n] + p[|source| + 1..];
  }

  /** Nothing below a regular file or a special entry is there. */
  lemma NothingBelowFile(e: map<Path, Entry>, maxDepth: nat, d: Path, p: Path)
    requires WellFormed(e, maxDepth) && d in e && !e[d].Directory? && p in e && Under(d, p)
    ensures p == d
  {
    if p != d {
      AncestorExists(e, maxDepth, d, p);
    }
  }

  /** Trees at two different children of dest do not meet. */
  lemma SiblingsApart(dest: Path, m: string, n: string, q: Path)
    requires m != n && Under(dest + [m], q)
    ensures !Under(dest + [n], q)
  {
    assert q[|dest|] == (dest + [m])[|dest|] == m;
  }

  /** A copied subtree stays copied while only the tree at dest + [n], for another n, changes. */
  lemma SubtreeCopiedKept(e0: map<Path, Entry>, e1: map<Path, Entry>, e2: map<Path, Entry>, source: Path, dest: Path,
                          m: string, n: string, skipBlueJ: bool, skipSource: bool)
    requires SubtreeCopied(e0, e1, source, dest, m, skipBlueJ, skipSource)
    requires m != n && Grows(e1, e2) && SameOutside(e1, e2, dest + [n])
    ensures SubtreeCopied(e0, e2, source, dest, m, skipBlueJ, skipSource)
  {
    forall p | p in e0 && Under(source + [m], p)
      ensures CopiedEntry(e0, e2, p, Rebase(p, source, dest), skipBlueJ, skipSource)
    {
      RebaseChild(p, source, dest, m);
      SiblingsApart(dest, m, n, Rebase(p, source, dest));
    }
  }

  /** A subtree copied from e1 is copied from e0 when e0 and e1 agree on it. */
  lemma SubtreeCopiedFrom(e0: map<Path, Entry>, e1: map<Path, Entry>, e2: map<Path, Entry>, source: Path, dest: Path,
                          n: string, skipBlueJ: bool, skipSource: bool)
    requires SubtreeCopied(e1, e2, source, dest, n, skipBlueJ, skipSource)
    requires forall p :: p in e0 && Under(source + [n], p) ==> p in e1 && e1[p] == e0[p]
    ensures SubtreeCopied(e0, e2, source, dest, n, skipBlueJ, skipSource)
  {
  }

  /**
   * One round of copyDirectory's loop keeps every child copied so far
   * copied and adds child n, when dest was not there before the copy.
   */
  lemma CopiedSubtreesTurn(e0: map<Path, Entry>, e1: map<Path, Entry>, e2: map<Path, Entry>, source: Path, dest: Path,
                           n: string, done: set<string>, skipBlueJ: bool, skipSource: bool)
    requires forall m :: m in done ==> SubtreeCopied(e0, e1, source, dest, m, skipBlueJ, skipSource)
    requires n !in done && Grows(e1, e2) && SameOutside(e1, e2, dest + [n])
    requires SubtreeCopied(e1, e2, source, dest, n, skipBlueJ, skipSource)
    requires SameOutside(e0, e1, dest) && forall p :: p in e0 ==> !Under(dest, p)
    ensures forall m :: m in done + {n} ==> SubtreeCopied(e0, e2, source, dest, m, skipBlueJ, skipSource)
  {
    forall m | m in done
      ensures SubtreeCopied(e0, e2, source, dest, m, skipBlueJ, skipSource)
    {
      SubtreeCopiedKept(e0, e1, e2, source, dest, m, n, skipBlueJ, skipSource);
    }
    SubtreeCopiedFrom(e0, e1, e2, source, dest, n, skipBlueJ, skipSource);
  }

  /** Each regular file listed in done and not in failed is copied from srcDir in e0 to destDir in e. */
  /** Entries are only added: every old path keeps its entry. */
  ghost predicate OnlyAdds(e0: map<Path, Entry>, e1: map<Path, Entry>)
  {
    forall p :: p in e0 ==> p in e1 && e1[p] == e0[p]
  }

  /** The child at src was copied one level to dst: a file with its contents, a directory as a directory. */
  ghost predicate ChildCopied(e0: map<Path, Entry>, e: map<Path, Entry>, src: Path, dst: Path)
  {
    (IsFile(e0, src) ==> dst in e && e[dst] == e0[src]) &&
    (IsDir(e0, src) ==> IsDir(e, dst))
  }

  /** Every child handled by recursiveCopyFile's loop and not listed as failed was copied. */
  ghost predicate ChildrenCopied(e0: map<Path, Entry>, e: map<Path, Entry>, srcDir: Path, destDir: Path,
                                 done: set<string>, failed: seq<Path>)
  {
    forall m :: m in done && srcDir + [m] !in failed ==> ChildCopied(e0, e, srcDir + [m], destDir + [m])
  }

  /**
   * One round of recursiveCopyFile's loop keeps the children copied so far,
   * since entries are only added, and adds child n unless it failed.
   */
  lemma CopiedChildrenTurn(e0: map<Path, Entry>, e1: map<Path, Entry>, e2: map<Path, Entry>, srcDir: Path, destDir: Path,
                           n: string, done: set<string>, failed: seq<Path>, childFailed: bool)
    requires OnlyAdds(e0, e1) && OnlyAdds(e1, e2)
    requires ChildrenCopied(e0, e1, srcDir, destDir, done, failed)
    requires !childFailed ==> ChildCopied(e1, e2, srcDir + [n], destDir + [n])
    ensures ChildrenCopied(e0, e2, srcDir, destDir, done + {n}, if childFailed then failed + [srcDir + [n]] else failed)
  {
    var failed' := if childFailed then failed + [srcDir + [n]] else failed;
    forall m | m in done + {n} && srcDir + [m] !in failed'
      ensures ChildCopied(e0, e2, srcDir + [m], destDir + [m])
    {
      if m != n {
        assert srcDir + [m] !in failed;
      }
    }
  }

  /** The whole tree at source is copied once the subtree of every child listed at the start is. */
  lemma CopiedTreeOfSubtrees(e0: map<Path, Entry>, e: map<Path, Entry>, maxDepth: nat, source: Path, dest: Path,
                             done: set<string>, skipBlueJ: bool, skipSource: bool)
    requires WellFormed(e0, maxDepth) && done == ChildNames(e0[dest := Directory], source)
    requires forall m :: m in done ==> SubtreeCopied(e0, e, source, dest, m, skipBlueJ, skipSource)
    ensures CopiedTree(e0, e, source, dest, skipBlueJ, skipSource)
  {
    forall p | p in e0 && Under(source, p) && p != source
      ensures CopiedEntry(e0, e, p, Rebase(p, source, dest), skipBlueJ, skipSource)
    {
      var m := p[|source|];
      assert Under(source + [m], p) by {
        assert p[..|source| + 1] == p[..|source|] + [m];
      }
      if p != source + [m] {
        AncestorExists(e0, maxDepth, source + [m], p);
      }
      ChildNamesExactly(e0[dest := Directory], source, m);
    }
  }

  /** Changes under two nested-or-equal trees, one after the other, stay under the outer one. */
  lemma SameOutsideTrans(e0: map<Path, Entry>, e1: map<Path, Entry>, e2: map<Path, Entry>, d: Path)
    requires SameOutside(e0, e1, d) && SameOutside(e1, e2, d)
    ensures SameOutside(e0, e2, d)
  {
  }

  /** JavaSourceFilter.accept: directories, and files whose name ends ".java". */
  function AcceptJavaSource(e: map<Path, Entry>, p: Path): (b: bool)
    ensures !IsDir(e, p) ==> (b <==> SkipFile(Name(p), false, true))
  {
    IsDir(e, p) || EndsWith(Name(p), SourceSuffix)
  }

  /** The source filter accepts every directory, whatever its name. */
  lemma AcceptsDirectories(e: map<Path, Entry>, p: Path)
    requires IsDir(e, p)
    ensures AcceptJavaSource(e, p)
  {
  }

  /** What recursiveCopyFile returns: null, the files it failed to copy, or IllegalArgumentException. */
  datatype CopyReport = AllCopied | Failed(files: seq<Path>) | IllegalArgument

  class FileSystem {
    var entries: map<Path, Entry>
    const maxDepth: nat
    const readOnly: set<Path>
    const unreadable: set<Path>

    ghost predicate Valid()
      reads this
    {
      WellFormed(entries, maxDepth)
    }

    constructor (maxDepth: nat, readOnly: set<Path>, unreadable: set<Path>)
      ensures Valid() && entries == map[[] := Directory]
      ensures this.maxDepth == maxDepth && this.readOnly == readOnly && this.unreadable == unreadable
    {
      entries := map[[] := Directory];
      this.maxDepth := maxDepth;
      this.readOnly := readOnly;
      this.unreadable := unreadable;
    }

    /** The system lets a file or directory be created at p (its parent is a directory). */
    predicate CanCreate(e: map<Path, Entry>, p: Path)
    {
      |p| > 0 && |p| <= maxDepth && p !in readOnly && IsDir(e, Parent(p))
    }

    /** File.mkdir: true exactly when p was not there and could be created. */
    method Mkdir(p: Path) returns (made: bool)
      requires Valid()
      modifies this
      ensures Valid() && Grows(old(entries), entries) && SameOutside(old(entries), entries, p)
      ensures made <==> p !in old(entries) && CanCreate(old(entries), p)
      ensures entries == if made then old(entries)[p := Directory] else old(entries)
    {
      if p !in entries && CanCreate(entries, p) {
        entries := entries[p := Directory];
        return true;
      }
      return false;
    }

    /**
     * copyFile(srcFile, destFile): true without opening anything when the
     * two are the same; otherwise true exactly when the source opens for
     * reading and the destination for writing, and then the destination
     * holds the source's contents.
     */
    method CopyFile(src: Path, dest: Path) returns (ok: bool)
      requires Valid()
      modifies this
      ensures Valid() && Grows(old(entries), entries) && SameOutside(old(entries), entries, dest)
      ensures src == dest ==> ok && entries == old(entries)
      ensures src != dest ==>
                (ok <==> IsFile(old(entries), src) && src !in unreadable && CanCreate(old(entries), dest) &&
                         (dest in old(entries) ==> old(entries)[dest].RegularFile?))
      ensures src != dest && ok ==> entries == old(entries)[dest := old(entries)[src]]
      ensures src != dest && !ok ==> entries == old(entries)
    {
      if src == dest {
        return true;
      }
      if IsFile(entries, src) && src !in unreadable && CanCreate(entries, dest) &&
         (dest in entries ==> entries[dest].RegularFile?) {
        entries := entries[dest := entries[src]];
        return true;
      }
      return false;
    }

    /**
     * copyDirectory(source, dest, excludeBlueJ, excludeSource): the checks
     * in their order (source a directory, destination absent, mkdir), then
     * each listed child: directories copied recursively, files copied
     * unless skipped; the first failure gives COPY_ERROR.
     */
    method CopyDirectory(source: Path, dest: Path, excludeBlueJ: bool, excludeSource: bool) returns (code: int)
      requires Valid()
      modifies this
      ensures Valid() && Grows(old(entries), entries) && SameOutside(old(entries), entries, dest)
      ensures code == NO_ERROR || code == DEST_EXISTS || code == SRC_NOT_DIRECTORY || code == COPY_ERROR
      ensures code == SRC_NOT_DIRECTORY <==> !IsDir(old(entries), source)
      ensures code == DEST_EXISTS <==> IsDir(old(entries), source) && dest in old(entries)
      ensures code == SRC_NOT_DIRECTORY || code == DEST_EXISTS ==> entries == old(entries)
      ensures IsDir(old(entries), source) && dest !in old(entries) && !CanCreate(old(entries), dest) ==>
                code == COPY_ERROR && entries == old(entries)
      ensures NoSkippedUnder(old(entries), dest, excludeBlueJ, excludeSource) ==>
                NoSkippedUnder(entries, dest, excludeBlueJ, excludeSource)
      ensures dest !in old(entries) ==> NoSkippedUnder(entries, dest, excludeBlueJ, excludeSource)
      ensures code == NO_ERROR ==>
                IsDir(entries, dest) &&
                forall n :: CopiedChild(old(entries), entries, source, dest, n, excludeBlueJ, excludeSource)
      ensures code == NO_ERROR && !Under(source, dest) ==>
                CopiedTree(old(entries), entries, source, dest, excludeBlueJ, excludeSource)
      decreases if |source| <= maxDepth then maxDepth - |source| + 1 else 0, 1
    {
      ghost var e0 := entries;
      if dest !in entries {
        NothingBelowMissing(e0, maxDepth, dest, excludeBlueJ, excludeSource);
      }
      if !IsDir(entries, source) {
        return SRC_NOT_DIRECTORY;
      }
      if dest in entries {
        return DEST_EXISTS;
      }
      var made := Mkdir(dest);
      if !made {
        return COPY_ERROR;
      }
      NoSkippedWrite(e0, dest, dest, Directory, excludeBlueJ, excludeSource);
      var names := ChildNames(entries, source);
      var todo := names;
      ghost var done: set<string> := {};
      while todo != {}
        invariant Valid() && Grows(e0, entries) && SameOutside(e0, entries, dest) && IsDir(entries, dest)
        invariant todo + done == names && todo !! done
        invariant NoSkippedUnder(entries, dest, excludeBlueJ, excludeSource)
        invariant forall m :: m in done ==> CopiedChild(e0, entries, source, dest, m, excludeBlueJ, excludeSource)
        invariant !Under(source, dest) ==>
                    forall m :: m in done ==> SubtreeCopied(e0, entries, source, dest, m, excludeBlueJ, excludeSource)
        decreases |todo|
      {
        var n :| n in todo;
        ghost var e1 := entries;
        NoSkippedSubtree(entries, dest, n, excludeBlueJ, excludeSource);
        var failed := CopyChild(source, dest, n, excludeBlueJ, excludeSource);
        NoSkippedNested(e1, entries, dest, n, excludeBlueJ, excludeSource);
        CopyDirectoryTurn(e0, e1, entries, source, dest, n, done, !failed, excludeBlueJ, excludeSource);
        if failed {
          return COPY_ERROR;
        }
        if !Under(source, dest) {
          CopiedSubtreesTurn(e0, e1, entries, source, dest, n, done, excludeBlueJ, excludeSource);
        }
        MoveToDone(names, todo, done, n);
        todo := todo - {n};
        done := done + {n};
      }
      forall n
        ensures CopiedChild(e0, entries, source, dest, n, excludeBlueJ, excludeSource)
      {
        if n !in done {
          ChildNamesExactly(e0[dest := Directory], source, n);
        }
      }
      if !Under(source, dest) {
        CopiedTreeOfSubtrees(e0, entries, maxDepth, source, dest, done, excludeBlueJ, excludeSource);
      }
      code := NO_ERROR;
    }

    /**
     * One round of copyDirectory's loop, for the listed child n: copy a
     * directory recursively, or a file unless skipped.  Returns whether it
     * failed.
     */
    method CopyChild(source: Path, dest: Path, n: string, excludeBlueJ: bool, excludeSource: bool) returns (failed: bool)
      requires Valid()
      modifies this
      ensures Valid() && Grows(old(entries), entries) && SameOutside(old(entries), entries, dest + [n])
      ensures NoSkippedUnder(old(entries), dest + [n], excludeBlueJ, excludeSource) ==>
                NoSkippedUnder(entries, dest + [n], excludeBlueJ, excludeSource)
      ensures !failed ==> CopiedChild(old(entries), entries, source, dest, n, excludeBlueJ, excludeSource)
      ensures !failed && !Under(source, dest) ==>
                SubtreeCopied(old(entries), entries, source, dest, n, excludeBlueJ, excludeSource)
      decreases if |source| <= maxDepth then maxDepth - |source| + 1 else 0, 0
    {
      var srcName := source + [n];
      var destName := dest + [n];
      ghost var e1 := entries;
      assert Name(srcName) == n && Rebase(srcName, source, dest) == destName;
      if IsDir(entries, srcName) {
        var code := CopyDirectory(srcName, destName, excludeBlueJ, excludeSource);
        failed := code != NO_ERROR;
        if !failed && !Under(source, dest) {
          UnderBoth(source, dest, n);
          forall p | p in e1 && Under(srcName, p)
            ensures CopiedEntry(e1, entries, p, Rebase(p, source, dest), excludeBlueJ, excludeSource)
          {
            RebaseChild(p, source, dest, n);
          }
        }
      } else if !SkipFile(n, excludeBlueJ, excludeSource) {
        var ok := CopyFile(srcName, destName);
        if ok && srcName != destName {
          assert Name(destName) == n;
          if NoSkippedUnder(e1, destName, excludeBlueJ, excludeSource) {
            NoSkippedWrite(e1, destName, destName, e1[srcName], excludeBlueJ, excludeSource);
          }
        }
        failed := !ok;
        if ok && !Under(source, dest) {
          assert srcName != destName by {
            assert source == srcName[..|source|] && dest == destName[..|dest|];
          }
          forall p | p in e1 && Under(srcName, p)
            ensures CopiedEntry(e1, entries, p, Rebase(p, source, dest), excludeBlueJ, excludeSource)
          {
            NothingBelowFile(e1, maxDepth, srcName, p);
          }
        }
      } else {
        failed := false;
        if srcName !in e1 {
          NothingBelowMissing(e1, maxDepth, srcName, excludeBlueJ, excludeSource);
        }
        forall p | p in e1 && Under(srcName, p)
          ensures CopiedEntry(e1, entries, p, Rebase(p, source, dest), excludeBlueJ, excludeSource)
        {
          NothingBelowFile(e1, maxDepth, srcName, p);
        }
      }
    }

    /**
     * recursiveCopyFile(srcDir, destDir): null when the two are the same
     * path; IllegalArgumentException unless both are directories; otherwise
     * each listed child is copied (directories by mkdir and a recursive
     * copy whose own result is dropped, files when the destination does not
     * exist yet), and the result lists the children that failed at this
     * level, or is null when none did.
     */
    method RecursiveCopyFile(srcDir: Path, destDir: Path) returns (r: CopyReport)
      requires Valid()
      modifies this
      ensures Valid() && Grows(old(entries), entries) && OnlyAdds(old(entries), entries)
      ensures SameOutside(old(entries), entries, destDir)
      ensures srcDir == destDir ==> r == AllCopied && entries == old(entries)
      ensures r.IllegalArgument? <==> srcDir != destDir && !(IsDir(old(entries), srcDir) && IsDir(old(entries), destDir))
      ensures r.IllegalArgument? ==> entries == old(entries)
      ensures r.Failed? ==>
                |r.files| > 0 &&
                forall f :: f in r.files ==> |f| == |srcDir| + 1 && f[..|srcDir|] == srcDir && f in old(entries)
      ensures srcDir != destDir && IsDir(old(entries), srcDir) && IsDir(old(entries), destDir) ==>
                forall n :: IsFile(old(entries), srcDir + [n]) && destDir + [n] in old(entries) ==>
                  r.Failed? && srcDir + [n] in r.files
      ensures srcDir != destDir && IsDir(old(entries), srcDir) && IsDir(old(entries), destDir) ==>
                forall n :: srcDir + [n] in old(entries) && !(r.Failed? && srcDir + [n] in r.files) ==>
                  ChildCopied(old(entries), entries, srcDir + [n], destDir + [n])
      decreases if |srcDir| <= maxDepth then maxDepth - |srcDir| + 1 else 0, 1
    {
      if srcDir == destDir {
        return AllCopied;
      }
      if !IsDir(entries, srcDir) || !IsDir(entries, destDir) {
        return IllegalArgument;
      }
      ghost var e0 := entries;
      var names := ChildNames(entries, srcDir);
      var todo := names;
      ghost var done: set<string> := {};
      var failed: seq<Path> := [];
      while todo != {}
        invariant Valid() && Grows(e0, entries) && OnlyAdds(e0, entries) && SameOutside(e0, entries, destDir)
        invariant todo + done == names && todo !! done
        invariant forall f :: f in failed ==> |f| == |srcDir| + 1 && f[..|srcDir|] == srcDir && f in e0
        invariant forall m :: m in done && IsFile(e0, srcDir + [m]) && destDir + [m] in e0 ==> srcDir + [m] in failed
        invariant ChildrenCopied(e0, entries, srcDir, destDir, done, failed)
        decreases |todo|
      {
        var n :| n in todo;
        ChildNamesExactly(e0, srcDir, n);
        ghost var e1 := entries;
        var childFailed := RecursiveCopyChild(srcDir, destDir, n);
        GrowsTrans(e0, e1, entries);
        SameOutsideNested(e0, e1, entries, destDir, n);
        CopiedChildrenTurn(e0, e1, entries, srcDir, destDir, n, done, failed, childFailed);
        if childFailed {
          failed := failed + [srcDir + [n]];
        }
        MoveToDone(names, todo, done, n);
        todo := todo - {n};
        done := done + {n};
      }
      forall n | srcDir + [n] in e0
        ensures n in done
      {
        ChildNamesExactly(e0, srcDir, n);
      }
      if |failed| > 0 {
        return Failed(failed);
      }
      return AllCopied;
    }

    /**
     * One round of recursiveCopyFile's loop, for the listed child n.
     * Returns whether n is to be listed as failed: a directory whose copy
     * could not be made a directory, or a file whose destination exists
     * already or whose copy failed.
     */
    method RecursiveCopyChild(srcDir: Path, destDir: Path, n: string) returns (childFailed: bool)
      requires Valid()
      modifies this
      ensures Valid() && Grows(old(entries), entries) && OnlyAdds(old(entries), entries)
      ensures SameOutside(old(entries), entries, destDir + [n])
      ensures IsFile(old(entries), srcDir + [n]) && destDir + [n] in old(entries) ==> childFailed
      ensures !childFailed ==> ChildCopied(old(entries), entries, srcDir + [n], destDir + [n])
      decreases if |srcDir| <= maxDepth then maxDepth - |srcDir| + 1 else 0, 0
    {
      ghost var e1 := entries;
      var f := srcDir + [n];
      childFailed := false;
      if IsDir(entries, f) {
        var newDir := destDir + [n];
        var _ := Mkdir(newDir);
        GrowsTrans(e1, e1, entries);
        if IsDir(entries, newDir) {
          ghost var e2 := entries;
          var _ := RecursiveCopyFile(f, newDir);
          GrowsTrans(e1, e2, entries);
          SameOutsideTrans(e1, e2, entries, newDir);
        } else {
          childFailed := true;
        }
      } else if IsFile(entries, f) {
        var newFile := destDir + [n];
        if newFile in entries {
          childFailed := true;
        } else {
          var ok := CopyFile(f, newFile);
          childFailed := !ok;
        }
      }
    }
  }
}
