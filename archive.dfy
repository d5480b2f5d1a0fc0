/**
 * Handling one result archive: fetching and unpacking it into a scratch
 * tree, finding the document and the asset directories in it, renaming
 * the assets, and moving the document and the assets into the output
 * folder. Every way out yields exactly one `download`-stage record.
 */
module Archive {
  import opened PyText
  import opened Records
  import opened Formats
  import opened Trees
  import opened AssetRenamer

  // ---------------------------------------------------------------------
  // Classifying the unpacked entries

  /** The directory names, lower-cased, that hold assets. */
  predicate IsAssetDirName(name: string) {
    name == "figure" || name == "images" || name == "assets"
  }

  /** What the traversal makes of one entry. */
  datatype Kind = HtmlFile | MarkdownFile | AssetDir | Other

  /** The three tests of the traversal: a file whose lower-cased suffix is
      ".html", a file whose lower-cased suffix is ".md", a directory whose
      lower-cased name is an asset directory name. */
  function KindOf(e: Entry): (r: Kind)
    ensures r == HtmlFile <==> e.FileEntry? && Extension(LastName(e.path)) == ".html"
    ensures r == MarkdownFile <==> e.FileEntry? && Extension(LastName(e.path)) == ".md"
    ensures r == AssetDir <==> e.DirEntry? && IsAssetDirName(Lower(LastName(e.path)))
  {
    match e
    case FileEntry(p, _) =>
      var ext := Extension(LastName(p));
      if ext == ".html" then HtmlFile else if ext == ".md" then MarkdownFile else Other
    case DirEntry(p) =>
      if IsAssetDirName(Lower(LastName(p))) then AssetDir else Other
  }

  /** The kind of every entry, in traversal order. */
  function Kinds(entries: seq<Entry>): (r: seq<Kind>)
    ensures |r| == |entries|
    ensures forall i :: 0 <= i < |entries| ==> r[i] == KindOf(entries[i])
  {
    seq(|entries|, i requires 0 <= i < |entries| => KindOf(entries[i]))
  }

  /** The last entry of kind `k`, if any. */
  function LastOfKind(entries: seq<Entry>, kinds: seq<Kind>, k: Kind): (r: Option<Path>)
    requires |kinds| == |entries|
    ensures r.None? <==> k !in kinds
  {
    if entries == [] then None
    else if kinds[|kinds| - 1] == k then Some(entries[|entries| - 1].path)
    else LastOfKind(entries[..|entries| - 1], kinds[..|kinds| - 1], k)
  }

  /** The entries of kind `k`, in traversal order. */
  function OfKind(entries: seq<Entry>, kinds: seq<Kind>, k: Kind): (r: seq<Path>)
    requires |kinds| == |entries|
    ensures |r| <= |entries|
  {
    if entries == [] then []
    else
      var init := OfKind(entries[..|entries| - 1], kinds[..|kinds| - 1], k);
      if kinds[|kinds| - 1] == k then init + [entries[|entries| - 1].path] else init
  }

  /** `html_file` and `markdown_file` are overwritten on every match, so the
      traversal keeps the last one; `asset_dirs` collects every match. */
  datatype Classified = Classified(html: Option<Path>, markdown: Option<Path>, assetDirs: seq<Path>)

  function Classification(entries: seq<Entry>, kinds: seq<Kind>): Classified
    requires |kinds| == |entries|
  {
    Classified(LastOfKind(entries, kinds, HtmlFile), LastOfKind(entries, kinds, MarkdownFile), OfKind(entries, kinds, AssetDir))
  }

  /** The chosen entry is of the kind, and no later entry is: it is the
      last match. Nothing is chosen exactly when nothing matches. */
  lemma {:induction false} LastOfKindSpec(entries: seq<Entry>, kinds: seq<Kind>, k: Kind)
    requires |kinds| == |entries|
    ensures LastOfKind(entries, kinds, k) == None <==> forall i :: 0 <= i < |kinds| ==> kinds[i] != k
    ensures LastOfKind(entries, kinds, k).Some? ==>
      exists i :: 0 <= i < |entries| && kinds[i] == k && entries[i].path == LastOfKind(entries, kinds, k).value
        && forall j :: i < j < |kinds| ==> kinds[j] != k
  {
    if entries != [] {
      var n := |entries| - 1;
      var r := LastOfKind(entries, kinds, k);
      if kinds[n] == k {
        assert r == Some(entries[n].path);
        assert 0 <= n < |entries| && kinds[n] == k && entries[n].path == r.value;
      } else {
        LastOfKindSpec(entries[..n], kinds[..n], k);
        assert r == LastOfKind(entries[..n], kinds[..n], k);
        if r.Some? {
          var i :| 0 <= i < n && kinds[..n][i] == k && entries[..n][i].path == r.value
            && forall j :: i < j < n ==> kinds[..n][j] != k;
          NoLaterKind(kinds, n, i, k);
          assert 0 <= i < |entries| && kinds[i] == k && entries[i].path == r.value
            && forall j :: i < j < |kinds| ==> kinds[j] != k;
        }
      }
    }
  }

  /** No match after `i` in the prefix, and none at its end: none after `i`. */
  lemma NoLaterKind(kinds: seq<Kind>, n: nat, i: nat, k: Kind)
    requires n == |kinds| - 1 && i < n && kinds[n] != k
    requires forall j :: i < j < n ==> kinds[..n][j] != k
    ensures forall j :: i < j < |kinds| ==> kinds[j] != k
  {
    forall j | i < j < |kinds| ensures kinds[j] != k {
      if j < n {
        assert kinds[..n][j] == kinds[j];
      }
    }
  }

  /** The collected entries are exactly those of the kind, in traversal
      order. */
  lemma {:induction false} OfKindSpec(entries: seq<Entry>, kinds: seq<Kind>, k: Kind, p: Path)
    requires |kinds| == |entries|
    ensures p in OfKind(entries, kinds, k) <==> exists i :: 0 <= i < |entries| && kinds[i] == k && entries[i].path == p
  {
    if entries != [] {
      var n := |entries| - 1;
      OfKindSpec(entries[..n], kinds[..n], k, p);
      if exists i :: 0 <= i < |entries| && kinds[i] == k && entries[i].path == p {
        var i :| 0 <= i < |entries| && kinds[i] == k && entries[i].path == p;
        if i < n {
          assert kinds[..n][i] == k && entries[..n][i].path == p;
        }
      }
      if p in OfKind(entries[..n], kinds[..n], k) {
        var i :| 0 <= i < n && kinds[..n][i] == k && entries[..n][i].path == p;
        assert kinds[i] == k && entries[i].path == p;
      }
    }
  }

  /** On the traversal's own labelling, the collected asset directories are
      exactly the directory entries with an asset name, and the chosen
      documents are the last files with suffix ".html" and ".md". */
  lemma ClassificationOfEntries(entries: seq<Entry>, p: Path)
    ensures var c := Classification(entries, Kinds(entries));
      (p in c.assetDirs <==> exists i :: 0 <= i < |entries| && entries[i].path == p
                              && entries[i].DirEntry? && IsAssetDirName(Lower(LastName(entries[i].path))))
      && (c.html.None? <==> forall i :: 0 <= i < |entries| ==>
            !(entries[i].FileEntry? && Extension(LastName(entries[i].path)) == ".html"))
      && (c.markdown.None? <==> forall i :: 0 <= i < |entries| ==>
            !(entries[i].FileEntry? && Extension(LastName(entries[i].path)) == ".md"))
  {
    var kinds := Kinds(entries);
    OfKindSpec(entries, kinds, AssetDir, p);
    LastOfKindSpec(entries, kinds, HtmlFile);
    LastOfKindSpec(entries, kinds, MarkdownFile);
  }

  /** The traversal loop over the unpacked entries. */
  method Classify(entries: seq<Entry>, kinds: seq<Kind>) returns (c: Classified)
    requires |kinds| == |entries|
    ensures c == Classification(entries, kinds)
  {
    var htmlFile: Option<Path> := None;
    var markdownFile: Option<Path> := None;
    var assetDirs: seq<Path> := [];
    var i := 0;
    while i < |entries|
      invariant 0 <= i <= |entries|
      invariant htmlFile == LastOfKind(entries[..i], kinds[..i], HtmlFile)
      invariant markdownFile == LastOfKind(entries[..i], kinds[..i], MarkdownFile)
      invariant assetDirs == OfKind(entries[..i], kinds[..i], AssetDir)
    {
      assert entries[..i + 1][..i] == entries[..i];
      assert kinds[..i + 1][..i] == kinds[..i];
      var path := entries[i].path;
      if kinds[i] == HtmlFile {
        htmlFile := Some(path);
      }
      if kinds[i] == MarkdownFile {
        markdownFile := Some(path);
      }
      if kinds[i] == AssetDir {
        assetDirs := assetDirs + [path];
      }
      i := i + 1;
    }
    assert entries[..i] == entries && kinds[..i] == kinds;
    return Classified(htmlFile, markdownFile, assetDirs);
  }

  // ---------------------------------------------------------------------
  // Moving the document and the assets into the output folder

  /** The renamed archive can only rewrite the documents it found. */
  function TextFiles(c: Classified): seq<Path> {
    (if c.html.Some? then [c.html.value] else []) + (if c.markdown.Some? then [c.markdown.value] else [])
  }

  /** `shutil.move(source_doc, final_doc_path)`: into the output folder
      under `destName`, or into the directory of that name if there is
      one, which fails if it already holds an entry of the document's
      name. A document that is gone fails too. */
  function PlaceDocument(scratch: Tree, out: Tree, src: Path, destName: string): (r: Option<(Tree, Tree)>)
    ensures r.Some? ==> src in scratch.files && r.value.0 == Tree(scratch.files - {src}, scratch.dirs)
    ensures r.Some? && [destName] !in out.dirs ==>
      r.value.1 == Tree(out.files[[destName] := scratch.files[src]], out.dirs)
    ensures r.Some? && [destName] in out.dirs ==>
      !Exists(out, [destName, LastName(src)])
      && r.value.1 == Tree(out.files[[destName, LastName(src)] := scratch.files[src]], out.dirs)
    ensures r.None? ==> src !in scratch.files || ([destName] in out.dirs && Exists(out, [destName, LastName(src)]))
  {
    if src !in scratch.files then None
    else
      var rest := Tree(scratch.files - {src}, scratch.dirs);
      var target := if [destName] in out.dirs then [destName, LastName(src)] else [destName];
      if [destName] in out.dirs && Exists(out, target) then None
      else Some((rest, Tree(out.files[target := scratch.files[src]], out.dirs)))
  }

  /** The loop over the asset directories: one gone already (inside one
      moved before it) is skipped; one whose name is taken by a file in the
      output folder fails, keeping what was moved before; any other is
      merged into or moved to the directory of its name. */
  function MoveAssets(scratch: Tree, out: Tree, dirs: seq<Path>): (r: (bool, Tree, Tree))
    ensures forall p :: p in r.1.files ==> p in scratch.files && r.1.files[p] == scratch.files[p]
    ensures forall p :: p in out.files ==> p in r.2.files
  {
    if dirs == [] then (true, scratch, out)
    else
      var prev := MoveAssets(scratch, out, dirs[..|dirs| - 1]);
      var d := dirs[|dirs| - 1];
      if !prev.0 || !Exists(prev.1, d) then prev
      else if [LastName(d)] in prev.2.files then (false, prev.1, prev.2)
      else
        var moved := MoveDir(prev.1, d, prev.2, [LastName(d)]);
        (true, moved.0, moved.1)
  }

  /** A file of the output folder whose first component is no asset
      directory's name is left as it was. */
  lemma {:induction false} MoveAssetsKeeps(scratch: Tree, out: Tree, dirs: seq<Path>, p: Path)
    requires |p| > 0
    requires forall i :: 0 <= i < |dirs| ==> p[0] != LastName(dirs[i])
    requires p in out.files
    ensures p in MoveAssets(scratch, out, dirs).2.files
    ensures MoveAssets(scratch, out, dirs).2.files[p] == out.files[p]
  {
    if dirs != [] {
      var n := |dirs| - 1;
      MoveAssetsKeeps(scratch, out, dirs[..n], p);
      var prev := MoveAssets(scratch, out, dirs[..n]);
      var d := dirs[n];
      if prev.0 && Exists(prev.1, d) && [LastName(d)] !in prev.2.files {
        assert !Under(p, [LastName(d)]) by {
          assert p[..1] != [LastName(d)] by {
            assert p[..1][0] == p[0];
          }
        }
        MoveDirKeepsOthers(prev.1, d, prev.2, [LastName(d)], p);
      }
    }
  }

  method MoveAssetDirs(scratch: Tree, out: Tree, dirs: seq<Path>) returns (ok: bool, rest: Tree, result: Tree)
    ensures (ok, rest, result) == MoveAssets(scratch, out, dirs)
  {
    ok, rest, result := true, scratch, out;
    var i := 0;
    while i < |dirs|
      invariant 0 <= i <= |dirs|
      invariant (ok, rest, result) == MoveAssets(scratch, out, dirs[..i])
    {
      assert dirs[..i + 1][..i] == dirs[..i];
      var d := dirs[i];
      if !Exists(rest, d) {
        i := i + 1;
        continue;
      }
      var target := [LastName(d)];
      if target in result.files {
        assert MoveAssets(scratch, out, dirs[..i + 1]).0 == false;
        MoveAssetsStop(scratch, out, dirs, i + 1);
        return false, rest, result;
      }
      var moved := MoveDir(rest, d, result, target);
      rest, result := moved.0, moved.1;
      i := i + 1;
    }
    assert dirs[..i] == dirs;
  }

  /** Once a move has failed, the later directories change nothing. */
  lemma {:induction false} MoveAssetsStop(scratch: Tree, out: Tree, dirs: seq<Path>, k: nat)
    requires k <= |dirs|
    requires !MoveAssets(scratch, out, dirs[..k]).0
    ensures MoveAssets(scratch, out, dirs) == MoveAssets(scratch, out, dirs[..k])
    decreases |dirs| - k
  {
    if k < |dirs| {
      assert dirs[..k + 1][..k] == dirs[..k];
      MoveAssetsStop(scratch, out, dirs, k + 1);
    } else {
      assert dirs[..k] == dirs;
    }
  }

  /** Nothing below `d` lies below a directory unrelated to `d`. */
  lemma NotUnderUnrelated(d: Path, q: Path, e: Path)
    requires !Under(d, e) && !Under(e, d)
    ensures !Under(d + q, e)
  {
    if |e| <= |d| {
      assert (d + q)[..|e|] == d[..|e|];
    } else if |e| <= |d + q| {
      assert (d + q)[..|e|][..|d|] == d;
    }
  }

  /** Before its own turn, an asset directory that lies neither below nor
      above an earlier one is still in the scratch tree with its files. */
  lemma {:induction false} MoveAssetsBefore(scratch: Tree, out: Tree, dirs: seq<Path>, m: nat, d: Path, q: Path)
    requires m <= |dirs|
    requires d in scratch.dirs && d + q in scratch.files
    requires forall i :: 0 <= i < m ==> !Under(d, dirs[i]) && !Under(dirs[i], d)
    ensures var rest := MoveAssets(scratch, out, dirs[..m]).1;
      d in rest.dirs && d + q in rest.files
  {
    if m > 0 {
      MoveAssetsBefore(scratch, out, dirs, m - 1, d, q);
      assert dirs[..m][..m - 1] == dirs[..m - 1];
      NotUnderUnrelated(d, q, dirs[m - 1]);
    }
  }

  /** Moving `pre` and then `post` is moving `post` from where `pre` left
      off, as long as `pre` did not fail. */
  lemma {:induction false} MoveAssetsCompose(scratch: Tree, out: Tree, pre: seq<Path>, post: seq<Path>)
    requires MoveAssets(scratch, out, pre).0
    ensures var mid := MoveAssets(scratch, out, pre);
      MoveAssets(scratch, out, pre + post) == MoveAssets(mid.1, mid.2, post)
  {
    if post == [] {
      assert pre + post == pre;
    } else {
      var n := |post| - 1;
      assert (pre + post)[..|pre + post| - 1] == pre + post[..n];
      assert (pre + post)[|pre + post| - 1] == post[n];
      MoveAssetsCompose(scratch, out, pre, post[..n]);
    }
  }

  /** After a file reaches the output folder, later directories with
      another name leave it alone. */
  lemma MoveAssetsAfter(scratch: Tree, out: Tree, pre: seq<Path>, post: seq<Path>, p: Path)
    requires |p| > 0
    requires forall i :: 0 <= i < |post| ==> p[0] != LastName(post[i])
    requires p in MoveAssets(scratch, out, pre).2.files
    ensures p in MoveAssets(scratch, out, pre + post).2.files
    ensures MoveAssets(scratch, out, pre + post).2.files[p] == MoveAssets(scratch, out, pre).2.files[p]
  {
    var mid := MoveAssets(scratch, out, pre);
    if mid.0 {
      MoveAssetsCompose(scratch, out, pre, post);
      MoveAssetsKeeps(mid.1, mid.2, post, p);
    } else {
      assert (pre + post)[..|pre|] == pre;
      MoveAssetsStop(scratch, out, pre + post, |pre|);
    }
  }

  lemma SplitPaths(dirs: seq<Path>, k: nat)
    requires k <= |dirs|
    ensures dirs[..k] + dirs[k..] == dirs
    ensures forall i :: 0 <= i < |dirs| - k ==> dirs[k..][i] == dirs[k + i]
  {
  }

  /** A run that succeeds succeeded on every prefix. */
  lemma MoveAssetsPrefixOk(scratch: Tree, out: Tree, dirs: seq<Path>, k: nat)
    requires k <= |dirs|
    ensures MoveAssets(scratch, out, dirs).0 ==> MoveAssets(scratch, out, dirs[..k]).0
  {
    if !MoveAssets(scratch, out, dirs[..k]).0 {
      MoveAssetsStop(scratch, out, dirs, k);
    }
  }

  /** The turn of directory `k` puts its files below the directory of its
      name, with their scratch content. */
  lemma MoveAssetsAt(scratch: Tree, out: Tree, dirs: seq<Path>, k: nat, q: Path)
    requires k < |dirs|
    requires MoveAssets(scratch, out, dirs[..k + 1]).0
    requires dirs[k] in scratch.dirs && dirs[k] + q in scratch.files
    requires forall i :: 0 <= i < k ==> !Under(dirs[k], dirs[i]) && !Under(dirs[i], dirs[k])
    ensures var result := MoveAssets(scratch, out, dirs[..k + 1]).2;
      [LastName(dirs[k])] + q in result.files
      && result.files[[LastName(dirs[k])] + q] == scratch.files[dirs[k] + q]
  {
    var d := dirs[k];
    var target := [LastName(d)];
    MoveAssetsBefore(scratch, out, dirs, k, d, q);
    var prev := MoveAssets(scratch, out, dirs[..k]);
    assert dirs[..k + 1][..k] == dirs[..k];
    assert dirs[..k + 1][k] == d;
    var moved := MoveDir(prev.1, d, prev.2, target);
    assert MoveAssets(scratch, out, dirs[..k + 1]) == (true, moved.0, moved.1);
    MoveDirMerges(prev.1, d, prev.2, target, q);
  }

  /** `shutil.move(asset_dir, output_folder / asset_dir.name)`, or the merge
      into an existing directory of that name: after a successful run,
      every file below an asset directory is below the directory of its
      name in the output folder, with its scratch content, as long as the
      directory lies neither below nor above another one and no later one
      has the same name. */
  lemma MoveAssetsPlaces(scratch: Tree, out: Tree, dirs: seq<Path>, k: nat, q: Path)
    requires MoveAssets(scratch, out, dirs).0
    requires k < |dirs|
    requires dirs[k] in scratch.dirs && dirs[k] + q in scratch.files
    requires forall i :: 0 <= i < |dirs| && i != k ==> !Under(dirs[k], dirs[i]) && !Under(dirs[i], dirs[k])
    requires forall i :: k < i < |dirs| ==> LastName(dirs[i]) != LastName(dirs[k])
    ensures var result := MoveAssets(scratch, out, dirs).2;
      [LastName(dirs[k])] + q in result.files
      && result.files[[LastName(dirs[k])] + q] == scratch.files[dirs[k] + q]
  {
    var pre := dirs[..k + 1];
    var post := dirs[k + 1..];
    SplitPaths(dirs, k + 1);
    MoveAssetsPrefixOk(scratch, out, dirs, k + 1);
    MoveAssetsAt(scratch, out, dirs, k, q);
    MoveAssetsAfter(scratch, out, pre, post, [LastName(dirs[k])] + q);
  }

  /** A file already in the output folder that no asset directory of its
      name brings a namesake for keeps its content, in every run. */
  lemma {:induction false} MoveAssetsKeepsOld(scratch: Tree, out: Tree, dirs: seq<Path>, name: string, q: Path)
    requires [name] + q in out.files
    requires forall i :: 0 <= i < |dirs| && LastName(dirs[i]) == name ==> dirs[i] + q !in scratch.files
    ensures [name] + q in MoveAssets(scratch, out, dirs).2.files
    ensures MoveAssets(scratch, out, dirs).2.files[[name] + q] == out.files[[name] + q]
  {
    if dirs != [] {
      var n := |dirs| - 1;
      MoveAssetsKeepsOld(scratch, out, dirs[..n], name, q);
      var prev := MoveAssets(scratch, out, dirs[..n]);
      var d := dirs[n];
      if prev.0 && Exists(prev.1, d) && [LastName(d)] !in prev.2.files {
        if LastName(d) == name {
          MoveDirMerges(prev.1, d, prev.2, [name], q);
        } else {
          assert !Under([name] + q, [LastName(d)]) by {
            assert ([name] + q)[..1][0] == name;
          }
          MoveDirKeepsOthers(prev.1, d, prev.2, [LastName(d)], [name] + q);
        }
      }
    }
  }

  /** Nothing but the asset files arrives: a file of the resulting output
      folder was there before or came from an asset directory of the name
      of its first component. */
  lemma {:induction false} MoveAssetsNothingElse(scratch: Tree, out: Tree, dirs: seq<Path>, p: Path)
    requires p in MoveAssets(scratch, out, dirs).2.files
    ensures p in out.files
      || (p != [] && exists i :: 0 <= i < |dirs| && p[0] == LastName(dirs[i]) && dirs[i] + p[1..] in scratch.files)
  {
    if dirs != [] {
      var n := |dirs| - 1;
      var prev := MoveAssets(scratch, out, dirs[..n]);
      var d := dirs[n];
      if prev.0 && Exists(prev.1, d) && [LastName(d)] !in prev.2.files && p !in prev.2.files {
        var target := [LastName(d)];
        var moved := MoveDir(prev.1, d, prev.2, target);
        assert p in moved.1.files;
        var incoming := AttachFiles(target, DetachFiles(prev.1.files, d));
        assert p in incoming;
        var q := p[1..];
        assert p == target + q by {
          assert p[..1] == target;
        }
        assert d + q in prev.1.files;
        assert p[0] == LastName(dirs[n]) && dirs[n] + p[1..] in scratch.files;
      } else if p in prev.2.files {
        MoveAssetsNothingElse(scratch, out, dirs[..n], p);
        if p !in out.files {
          var i :| 0 <= i < n && p[0] == LastName(dirs[..n][i]) && dirs[..n][i] + p[1..] in scratch.files;
          assert dirs[..n][i] == dirs[i];
        }
      }
    }
  }

  // ---------------------------------------------------------------------
  // download_and_extract

  /** What fetching and unpacking the archive gives: a request error, a
      body that is no zip archive, or the archive's entries in the order
      the recursive listing yields them. */
  datatype Fetched = FetchFailed | NotAZip | Extracted(entries: seq<Entry>)

  function DownloadRecord(fileName: string, status: Status, message: Message): FileOutcome {
    FileOutcome(fileName, Download, status, message)
  }

  /** The extension of the saved document. */
  function FinalExtension(format: string): string {
    if format == "markdown" then ".md" else ".html"
  }

  /** The status, the message and the output folder the handling of an
      unpacked archive ends with. */
  datatype Handled = Handled(status: Status, message: Message, out: Tree)

  /** Every asset kind was given to a directory with an asset name. */
  predicate KindsSound(entries: seq<Entry>, kinds: seq<Kind>) {
    |kinds| == |entries|
    && forall i :: 0 <= i < |kinds| && kinds[i] == AssetDir ==> IsAssetDirName(Lower(LastName(entries[i].path)))
  }

  lemma KindsAreSound(entries: seq<Entry>)
    ensures KindsSound(entries, Kinds(entries))
  {
    forall i | 0 <= i < |entries| && Kinds(entries)[i] == AssetDir
      ensures IsAssetDirName(Lower(LastName(entries[i].path)))
    {
      assert KindOf(entries[i]) == AssetDir;
    }
  }

  /** The part of `download_and_extract` after unpacking, for the entries
      `entries` of kinds `kinds`, the document stem `baseName` and the
      normalized format `format`: the document check, the renaming, and
      the moves into the output folder `out`. */
  ghost function HandleArchive(entries: seq<Entry>, kinds: seq<Kind>, baseName: string,
                               format: Result<string, FormatError>, renameFlag: bool, out: Tree): (h: Handled)
    requires |kinds| == |entries|
    requires format.Ok? ==> format.value == "html" || format.value == "markdown"
    ensures h.status == Success <==> h.message.Saved?
    ensures h.status == Success ==> h.message == Saved(baseName + ".md") || h.message == Saved(baseName + ".html")
    ensures format == Ok("html") && Classification(entries, kinds).html.None? ==> h == Handled(Error, NoHtmlInArchive, out)
    ensures format == Ok("markdown") && Classification(entries, kinds).markdown.None? ==> h == Handled(Error, NoMarkdownInArchive, out)
  {
    var scratch := BuildTree(entries);
    var c := Classification(entries, kinds);
    if format.Err? then Handled(Error, ProcessingFailed, out)
    else if format.value == "html" && c.html.None? then Handled(Error, NoHtmlInArchive, out)
    else if format.value == "markdown" && c.markdown.None? then Handled(Error, NoMarkdownInArchive, out)
    else
      var renamed := if renameFlag then RenameAssetsSpec(scratch, c.assetDirs, TextFiles(c), baseName) else Some(scratch);
      if renamed.None? then Handled(Error, ProcessingFailed, out)
      else
        var destName := baseName + FinalExtension(format.value);
        var src := if format.value == "markdown" then c.markdown.value else c.html.value;
        var placed := PlaceDocument(renamed.value, out, src, destName);
        if placed.None? then Handled(Error, ProcessingFailed, out)
        else
          var moved := MoveAssets(placed.value.0, placed.value.1, c.assetDirs);
          if !moved.0 then Handled(Error, ProcessingFailed, moved.2)
          else Handled(Success, Saved(destName), moved.2)
  }

  /** `download_and_extract` on the output folder `out`: the record it
      returns and the output folder it leaves. Fetching fails with a
      download error, a body that is no archive with a processing error;
      both leave the output folder alone. */
  ghost function DownloadOutcome(zipUrl: string, fileName: string, outputFormat: string, renameFlag: bool,
                                 fetch: string -> Fetched, out: Tree): (r: (FileOutcome, Tree))
    ensures r.0.file == fileName && r.0.stage == Download
    ensures fetch(zipUrl).FetchFailed? ==> r == (DownloadRecord(fileName, Error, DownloadFailed), out)
    ensures fetch(zipUrl).NotAZip? ==> r == (DownloadRecord(fileName, Error, ProcessingFailed), out)
  {
    match fetch(zipUrl)
    case FetchFailed => (DownloadRecord(fileName, Error, DownloadFailed), out)
    case NotAZip => (DownloadRecord(fileName, Error, ProcessingFailed), out)
    case Extracted(entries) =>
      var h := HandleArchive(entries, Kinds(entries), Stem(fileName), NormalizeOutputFormat(outputFormat), renameFlag, out);
      (DownloadRecord(fileName, h.status, h.message), h.out)
  }

  /** The steps of `download_and_extract` after unpacking. */
  method Handle(entries: seq<Entry>, kinds: seq<Kind>, baseName: string,
                format: Result<string, FormatError>, renameFlag: bool, out: Tree) returns (h: Handled)
    requires |kinds| == |entries|
    requires format.Ok? ==> format.value == "html" || format.value == "markdown"
    ensures h == HandleArchive(entries, kinds, baseName, format, renameFlag, out)
  {
    var scratch := BuildTree(entries);
    var c := Classify(entries, kinds);
    if format.Err? {
      return Handled(Error, ProcessingFailed, out);
    }
    if format.value == "html" && c.html.None? {
      return Handled(Error, NoHtmlInArchive, out);
    }
    if format.value == "markdown" && c.markdown.None? {
      return Handled(Error, NoMarkdownInArchive, out);
    }
    if renameFlag {
      var renamed := RenameAssets(scratch, c.assetDirs, TextFiles(c), baseName);
      if renamed.None? {
        return Handled(Error, ProcessingFailed, out);
      }
      scratch := renamed.value;
    }
    var destName := baseName + FinalExtension(format.value);
    var src := if format.value == "markdown" then c.markdown.value else c.html.value;
    var placed := PlaceDocument(scratch, out, src, destName);
    if placed.None? {
      return Handled(Error, ProcessingFailed, out);
    }
    var ok, rest, result := MoveAssetDirs(placed.value.0, placed.value.1, c.assetDirs);
    if !ok {
      return Handled(Error, ProcessingFailed, result);
    }
    return Handled(Success, Saved(destName), result);
  }

  /** `download_and_extract(zip_url, file_name, config, output_format)`. */
  method DownloadAndExtract(zipUrl: string, fileName: string, outputFormat: string, renameFlag: bool,
                            fetch: string -> Fetched, out: Tree)
    returns (record: FileOutcome, result: Tree)
    ensures (record, result) == DownloadOutcome(zipUrl, fileName, outputFormat, renameFlag, fetch, out)
  {
    var fetched := fetch(zipUrl);
    match fetched
    case FetchFailed =>
      return DownloadRecord(fileName, Error, DownloadFailed), out;
    case NotAZip =>
      return DownloadRecord(fileName, Error, ProcessingFailed), out;
    case Extracted(entries) =>
      var h := Handle(entries, Kinds(entries), Stem(fileName), NormalizeOutputFormat(outputFormat), renameFlag, out);
      return DownloadRecord(fileName, h.status, h.message), h.out;
  }

  // ---------------------------------------------------------------------
  // Properties of download_and_extract

  /** Whatever happens, exactly one record comes back, for this file and
      in the `download` stage, and it is a success exactly when it names
      the saved document `{stem}.md` or `{stem}.html`. */
  lemma DownloadOneRecord(zipUrl: string, fileName: string, outputFormat: string, renameFlag: bool,
                          fetch: string -> Fetched, out: Tree)
    ensures var r := DownloadOutcome(zipUrl, fileName, outputFormat, renameFlag, fetch, out).0;
      r.file == fileName && r.stage == Download
      && (r.status == Success <==> r.message.Saved?)
      && (r.status == Success ==> r.message == Saved(Stem(fileName) + ".md") || r.message == Saved(Stem(fileName) + ".html"))
  {
  }

  /** An archive without the document the format asks for is an error, and
      the output folder is left as it was. */
  lemma DownloadMissingDocument(zipUrl: string, fileName: string, outputFormat: string, renameFlag: bool,
                                fetch: string -> Fetched, out: Tree)
    ensures var r := DownloadOutcome(zipUrl, fileName, outputFormat, renameFlag, fetch, out);
      var format := NormalizeOutputFormat(outputFormat);
      fetch(zipUrl).Extracted?
      && ((format == Ok("html") && Classification(fetch(zipUrl).entries, Kinds(fetch(zipUrl).entries)).html.None?)
          || (format == Ok("markdown") && Classification(fetch(zipUrl).entries, Kinds(fetch(zipUrl).entries)).markdown.None?))
      ==> r.1 == out && r.0.status == Error
          && (r.0.message == NoHtmlInArchive || r.0.message == NoMarkdownInArchive)
  {
  }

  /** No asset directory name ends in 'd' or 'l'. */
  lemma AssetNameLastChar(w: string)
    requires |w| > 0 && (w[|w| - 1] == 'd' || w[|w| - 1] == 'l')
    ensures !IsAssetDirName(w)
  {
  }

  /** An asset directory name never ends in ".md" or ".html", so no asset
      move can land on the saved document. */
  lemma DocumentNameIsNoAssetName(baseName: string, ext: string)
    requires ext == ".md" || ext == ".html"
    ensures !IsAssetDirName(Lower(baseName + ext))
  {
    var name := baseName + ext;
    var last := name[|name| - 1];
    assert last == 'd' || last == 'l' by {
      assert last == ext[|ext| - 1];
    }
    var low := Lower(name);
    assert low[|low| - 1] == LowerChar(last);
    AssetNameLastChar(low);
  }

  /** A successful handling leaves the document, as renamed and rewritten,
      under `{stem}{ext}` in the output folder, or inside the directory of
      that name when there is one. */
  lemma HandleSavesDocument(entries: seq<Entry>, kinds: seq<Kind>, baseName: string,
                            format: Result<string, FormatError>, renameFlag: bool, out: Tree)
    requires KindsSound(entries, kinds)
    requires format.Ok? ==> format.value == "html" || format.value == "markdown"
    requires HandleArchive(entries, kinds, baseName, format, renameFlag, out).status == Success
    ensures format.Ok?
    ensures var c := Classification(entries, kinds);
      var src := if format.value == "markdown" then c.markdown.value else c.html.value;
      var destName := baseName + FinalExtension(format.value);
      var target := if [destName] in out.dirs then [destName, LastName(src)] else [destName];
      var scratch := BuildTree(entries);
      var renamed := if renameFlag then RenameAssetsSpec(scratch, c.assetDirs, TextFiles(c), baseName) else Some(scratch);
      var result := HandleArchive(entries, kinds, baseName, format, renameFlag, out).out;
      renamed.Some? && src in renamed.value.files
      && target in result.files && result.files[target] == renamed.value.files[src]
  {
    var c := Classification(entries, kinds);
    var src := if format.value == "markdown" then c.markdown.value else c.html.value;
    var destName := baseName + FinalExtension(format.value);
    var target := if [destName] in out.dirs then [destName, LastName(src)] else [destName];
    var scratch := BuildTree(entries);
    var renamed := if renameFlag then RenameAssetsSpec(scratch, c.assetDirs, TextFiles(c), baseName) else Some(scratch);
    var placed := PlaceDocument(renamed.value, out, src, destName);
    assert target in placed.value.1.files && placed.value.1.files[target] == renamed.value.files[src];
    DocumentNameIsNoAssetName(baseName, FinalExtension(format.value));
    forall i | 0 <= i < |c.assetDirs| ensures target[0] != LastName(c.assetDirs[i]) {
      var p := c.assetDirs[i];
      OfKindSpec(entries, kinds, AssetDir, p);
    }
    MoveAssetsKeeps(placed.value.0, placed.value.1, c.assetDirs, target);
  }

  /** An asset directory of the classification is a directory of the
      scratch tree built from the same entries. */
  lemma AssetDirInScratch(entries: seq<Entry>, k: nat)
    requires k < |Classification(entries, Kinds(entries)).assetDirs|
    ensures Classification(entries, Kinds(entries)).assetDirs[k] in BuildTree(entries).dirs
  {
    var kinds := Kinds(entries);
    var d := Classification(entries, kinds).assetDirs[k];
    OfKindSpec(entries, kinds, AssetDir, d);
    var i :| 0 <= i < |entries| && kinds[i] == AssetDir && entries[i].path == d;
    assert entries[i].DirEntry?;
  }

  /** Placing the document and then moving the asset directories leaves
      each file of a directory, other than the document, below the
      directory's name in the output folder. */
  lemma PlaceThenMove(renamed: Tree, out: Tree, src: Path, destName: string, dirs: seq<Path>, k: nat, q: Path)
    requires PlaceDocument(renamed, out, src, destName).Some?
    requires var placed := PlaceDocument(renamed, out, src, destName).value;
      MoveAssets(placed.0, placed.1, dirs).0
    requires k < |dirs| && dirs[k] in renamed.dirs && dirs[k] + q in renamed.files && dirs[k] + q != src
    requires forall i :: 0 <= i < |dirs| && i != k ==> !Under(dirs[k], dirs[i]) && !Under(dirs[i], dirs[k])
    requires forall i :: k < i < |dirs| ==> LastName(dirs[i]) != LastName(dirs[k])
    ensures var placed := PlaceDocument(renamed, out, src, destName).value;
      var result := MoveAssets(placed.0, placed.1, dirs).2;
      [LastName(dirs[k])] + q in result.files && result.files[[LastName(dirs[k])] + q] == renamed.files[dirs[k] + q]
  {
    var placed := PlaceDocument(renamed, out, src, destName).value;
    assert dirs[k] + q in placed.0.files && placed.0.files[dirs[k] + q] == renamed.files[dirs[k] + q];
    MoveAssetsPlaces(placed.0, placed.1, dirs, k, q);
  }

  /** The steps a successful handling went through: the format is known,
      renaming succeeded, the document was placed, every asset directory
      was moved, and the output folder is the one the moves leave. */
  lemma HandleSuccessSteps(entries: seq<Entry>, kinds: seq<Kind>, baseName: string,
                           format: Result<string, FormatError>, renameFlag: bool, out: Tree)
    requires |kinds| == |entries|
    requires format.Ok? ==> format.value == "html" || format.value == "markdown"
    requires HandleArchive(entries, kinds, baseName, format, renameFlag, out).status == Success
    ensures format.Ok?
    ensures var c := Classification(entries, kinds);
      var src := if format.value == "markdown" then c.markdown.value else c.html.value;
      var scratch := BuildTree(entries);
      var renamed := if renameFlag then RenameAssetsSpec(scratch, c.assetDirs, TextFiles(c), baseName) else Some(scratch);
      renamed.Some?
      && PlaceDocument(renamed.value, out, src, baseName + FinalExtension(format.value)).Some?
      && var placed := PlaceDocument(renamed.value, out, src, baseName + FinalExtension(format.value)).value;
      MoveAssets(placed.0, placed.1, c.assetDirs).0
      && HandleArchive(entries, kinds, baseName, format, renameFlag, out).out == MoveAssets(placed.0, placed.1, c.assetDirs).2
  {
  }

  /** A successful handling leaves every file of an asset directory, as
      renamed, below the directory of that name in the output folder, unless
      the file is the document itself; the directory must lie neither below
      nor above another asset directory, and no later one may have the same
      name. */
  lemma HandleMovesAssets(entries: seq<Entry>, baseName: string, format: Result<string, FormatError>,
                          renameFlag: bool, out: Tree, k: nat, q: Path)
    requires format.Ok? ==> format.value == "html" || format.value == "markdown"
    requires HandleArchive(entries, Kinds(entries), baseName, format, renameFlag, out).status == Success
    requires var dirs := Classification(entries, Kinds(entries)).assetDirs;
      k < |dirs|
      && (forall i :: 0 <= i < |dirs| && i != k ==> !Under(dirs[k], dirs[i]) && !Under(dirs[i], dirs[k]))
      && (forall i :: k < i < |dirs| ==> LastName(dirs[i]) != LastName(dirs[k]))
    ensures format.Ok?
    ensures var c := Classification(entries, Kinds(entries));
      var src := if format.value == "markdown" then c.markdown.value else c.html.value;
      var scratch := BuildTree(entries);
      var renamed := if renameFlag then RenameAssetsSpec(scratch, c.assetDirs, TextFiles(c), baseName) else Some(scratch);
      var d := c.assetDirs[k];
      var result := HandleArchive(entries, Kinds(entries), baseName, format, renameFlag, out).out;
      renamed.Some?
      && (d + q in renamed.value.files && d + q != src ==>
            [LastName(d)] + q in result.files && result.files[[LastName(d)] + q] == renamed.value.files[d + q])
  {
    HandleSuccessSteps(entries, Kinds(entries), baseName, format, renameFlag, out);
    var c := Classification(entries, Kinds(entries));
    var src := if format.value == "markdown" then c.markdown.value else c.html.value;
    var scratch := BuildTree(entries);
    var renamed := if renameFlag then RenameAssetsSpec(scratch, c.assetDirs, TextFiles(c), baseName) else Some(scratch);
    AssetDirInScratch(entries, k);
    if c.assetDirs[k] + q in renamed.value.files && c.assetDirs[k] + q != src {
      PlaceThenMove(renamed.value, out, src, baseName + FinalExtension(format.value), c.assetDirs, k, q);
    }
  }

  /** The saved document of a successful download: the document, as
      renamed and rewritten, is at `{stem}{ext}` in the output folder, or
      inside the directory of that name when there is one. */
  lemma DownloadSavesDocument(zipUrl: string, fileName: string, outputFormat: string, renameFlag: bool,
                              fetch: string -> Fetched, out: Tree)
    ensures var r := DownloadOutcome(zipUrl, fileName, outputFormat, renameFlag, fetch, out);
      r.0.status == Success ==>
        fetch(zipUrl).Extracted?
        && var entries := fetch(zipUrl).entries;
           var c := Classification(entries, Kinds(entries));
           var format := NormalizeOutputFormat(outputFormat).value;
           var src := if format == "markdown" then c.markdown.value else c.html.value;
           var destName := Stem(fileName) + FinalExtension(format);
           var target := if [destName] in out.dirs then [destName, LastName(src)] else [destName];
           var scratch := BuildTree(entries);
           var renamed := if renameFlag then RenameAssetsSpec(scratch, c.assetDirs, TextFiles(c), Stem(fileName)) else Some(scratch);
           renamed.Some? && src in renamed.value.files
           && target in r.1.files && r.1.files[target] == renamed.value.files[src]
  {
    if DownloadOutcome(zipUrl, fileName, outputFormat, renameFlag, fetch, out).0.status == Success {
      var entries := fetch(zipUrl).entries;
      KindsAreSound(entries);
      HandleSavesDocument(entries, Kinds(entries), Stem(fileName), NormalizeOutputFormat(outputFormat), renameFlag, out);
    }
  }
}
