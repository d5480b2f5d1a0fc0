/**
 * Directory trees as the batch client sees them: files with their contents
 * and directories, each named by its path of components below some root
 * (the scratch directory an archive is unpacked into, or the output folder).
 */
module Trees {

  /** A path below a root, one component per element. */
  type Path = seq<string>

  datatype Tree = Tree(files: map<Path, string>, dirs: set<Path>)

  /** One entry of an unpacked archive, as a recursive listing yields it. */
  datatype Entry = FileEntry(path: Path, content: string) | DirEntry(path: Path)

  /** `path.exists()`. */
  predicate Exists(t: Tree, p: Path) {
    p in t.files || p in t.dirs
  }

  /** `p` is `d` or lies below it. */
  predicate Under(p: Path, d: Path) {
    |d| <= |p| && p[..|d|] == d
  }

  /** `path.name`: the last component, or "" for the root. */
  function LastName(p: Path): string {
    if p == [] then "" else p[|p| - 1]
  }

  lemma SplitUnder(p: Path, d: Path)
    requires Under(p, d)
    ensures p == d + p[|d|..]
  {
  }

  lemma UnderAppend(d: Path, q: Path)
    ensures Under(d + q, d) && (d + q)[|d|..] == q
  {
    assert (d + q)[..|d|] == d;
  }

  /** The tree an archive unpacks into: a file entry given twice keeps its
      later content. */
  function BuildTree(entries: seq<Entry>): (t: Tree)
    ensures forall i :: 0 <= i < |entries| && entries[i].DirEntry? ==> entries[i].path in t.dirs
    ensures forall i :: 0 <= i < |entries| && entries[i].FileEntry? ==> entries[i].path in t.files
  {
    if entries == [] then Tree(map[], {})
    else
      var t := BuildTree(entries[..|entries| - 1]);
      var e := entries[|entries| - 1];
      match e
      case FileEntry(p, c) => Tree(t.files[p := c], t.dirs)
      case DirEntry(p) => Tree(t.files, t.dirs + {p})
  }

  /** The names of the files directly inside `d`: `d.iterdir()` kept to
      files. */
  function ChildFileNames(files: map<Path, string>, d: Path): (r: set<string>)
    ensures forall x :: x in r <==> d + [x] in files
  {
    var r := set p | p in files && |p| == |d| + 1 && p[..|d|] == d :: p[|d|];
    assert forall x :: x in r <==> d + [x] in files by {
      forall x ensures x in r <==> d + [x] in files {
        if d + [x] in files {
          assert (d + [x])[..|d|] == d;
        }
        if x in r {
          var p :| p in files && |p| == |d| + 1 && p[..|d|] == d && x == p[|d|];
          assert p == d + [x];
        }
      }
    }
    r
  }

  /** `rmtree(d)`: `d` and everything below it are gone, the rest stays. */
  function RemoveTree(t: Tree, d: Path): (r: Tree)
    ensures forall p :: p in r.files <==> p in t.files && !Under(p, d)
    ensures forall p :: p in r.files ==> r.files[p] == t.files[p]
    ensures forall p :: p in r.dirs <==> p in t.dirs && !Under(p, d)
  {
    Tree(map p | p in t.files && !Under(p, d) :: t.files[p], set p | p in t.dirs && !Under(p, d))
  }

  /** The files below `d`, named relative to `d`. */
  function DetachFiles(files: map<Path, string>, d: Path): (r: map<Path, string>)
    ensures forall q :: q in r <==> d + q in files
    ensures forall q :: q in r ==> r[q] == files[d + q]
  {
    var keys := set p | p in files && Under(p, d) :: p[|d|..];
    assert forall q :: q in keys <==> d + q in files by {
      forall q ensures q in keys <==> d + q in files {
        if q in keys {
          var p :| p in files && Under(p, d) && q == p[|d|..];
          SplitUnder(p, d);
        }
        if d + q in files {
          UnderAppend(d, q);
        }
      }
    }
    map q | q in keys :: files[d + q]
  }

  /** The directories at or below `d`, named relative to `d`. */
  function DetachDirs(dirs: set<Path>, d: Path): (r: set<Path>)
    ensures forall q :: q in r <==> d + q in dirs
  {
    var r := set p | p in dirs && Under(p, d) :: p[|d|..];
    assert forall q :: q in r <==> d + q in dirs by {
      forall q ensures q in r <==> d + q in dirs {
        if q in r {
          var p :| p in dirs && Under(p, d) && q == p[|d|..];
          SplitUnder(p, d);
        }
        if d + q in dirs {
          UnderAppend(d, q);
        }
      }
    }
    r
  }

  /** Relative files placed below `target`. */
  function AttachFiles(target: Path, sub: map<Path, string>): (r: map<Path, string>)
    ensures forall q :: q in sub ==> target + q in r && r[target + q] == sub[q]
    ensures forall p :: p in r ==> Under(p, target) && p[|target|..] in sub
  {
    assert forall q1, q2 :: q1 in sub && q2 in sub && q1 != q2 ==> target + q1 != target + q2 by {
      forall q1, q2 | q1 in sub && q2 in sub && target + q1 == target + q2 ensures q1 == q2 {
        UnderAppend(target, q1);
        UnderAppend(target, q2);
      }
    }
    var r := map q | q in sub :: target + q := sub[q];
    assert forall p :: p in r ==> Under(p, target) && p[|target|..] in sub by {
      forall p | p in r ensures Under(p, target) && p[|target|..] in sub {
        var q :| q in sub && p == target + q;
        UnderAppend(target, q);
      }
    }
    r
  }

  /** Relative directories placed below `target`. */
  function AttachDirs(target: Path, sub: set<Path>): (r: set<Path>)
    ensures forall q :: q in sub ==> target + q in r
    ensures forall p :: p in r ==> Under(p, target) && p[|target|..] in sub
  {
    var r := set q | q in sub :: target + q;
    assert forall p :: p in r ==> Under(p, target) && p[|target|..] in sub by {
      forall p | p in r ensures Under(p, target) && p[|target|..] in sub {
        var q :| q in sub && p == target + q;
        UnderAppend(target, q);
      }
    }
    r
  }

  /** Moving the directory `d` of `src` to `target` in `dst`, by
      `shutil.move` when `target` is absent or by `copytree(...,
      dirs_exist_ok=True)` followed by `rmtree` when it is a directory:
      either way the files below `d` are written below `target`, over any
      file of the same relative name, and `d` leaves `src`. */
  function MoveDir(src: Tree, d: Path, dst: Tree, target: Path): (r: (Tree, Tree))
    ensures r.0 == RemoveTree(src, d)
  {
    var files := dst.files + AttachFiles(target, DetachFiles(src.files, d));
    var dirs := dst.dirs + AttachDirs(target, DetachDirs(src.dirs, d));
    (RemoveTree(src, d), Tree(files, dirs))
  }

  /** Merging into an existing directory gives the union of both
      directories' files, the incoming file winning: every incoming file is
      present with the incoming content, every file that was there already
      and has no incoming namesake keeps its content, and nothing else
      appears below `target`. */
  lemma MoveDirMerges(src: Tree, d: Path, dst: Tree, target: Path, q: Path)
    ensures var out := MoveDir(src, d, dst, target).1;
      (d + q in src.files ==> target + q in out.files && out.files[target + q] == src.files[d + q])
      && (target + q in dst.files && d + q !in src.files ==>
            target + q in out.files && out.files[target + q] == dst.files[target + q])
      && (target + q in out.files ==> d + q in src.files || target + q in dst.files)
  {
    var incoming := AttachFiles(target, DetachFiles(src.files, d));
    UnderAppend(target, q);
    assert (target + q)[|target|..] == q;
  }

  /** Files of the destination outside `target` are left alone. */
  lemma MoveDirKeepsOthers(src: Tree, d: Path, dst: Tree, target: Path, p: Path)
    requires !Under(p, target)
    ensures var out := MoveDir(src, d, dst, target).1;
      (p in out.files <==> p in dst.files)
      && (p in dst.files ==> out.files[p] == dst.files[p])
  {
  }

  /** Moving into an absent target with nothing below it yields below
      `target` exactly the files that were below `d`. */
  lemma MoveDirWholesale(src: Tree, d: Path, dst: Tree, target: Path, q: Path)
    requires forall p :: p in dst.files ==> !Under(p, target)
    ensures var out := MoveDir(src, d, dst, target).1;
      (target + q in out.files <==> d + q in src.files)
      && (d + q in src.files ==> out.files[target + q] == src.files[d + q])
  {
    UnderAppend(target, q);
    var incoming := AttachFiles(target, DetachFiles(src.files, d));
    if target + q in incoming {
      assert (target + q)[|target|..] == q;
    }
  }
}
