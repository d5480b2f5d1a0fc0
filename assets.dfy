/**
 * Renaming the images of an unpacked result archive after the document
 * they belong to, and rewriting the quoted references to them in the
 * document texts.
 */
module AssetRenamer {
  import opened PyText
  import opened Records
  import opened Trees

  /** The lower-cased extensions that mark a file as an image. */
  predicate IsImageExtension(ext: string) {
    ext == ".jpg" || ext == ".jpeg" || ext == ".png" || ext == ".gif" || ext == ".bmp" || ext == ".svg"
  }

  /** `file.suffix.lower()`. */
  function Extension(name: string): string {
    Lower(Suffix(name))
  }

  /** The file is an image by its extension. */
  predicate IsImageName(name: string) {
    IsImageExtension(Extension(name))
  }

  /** The extensions of a directory's files, in the order of the files. */
  function Extensions(names: seq<string>): (r: seq<string>)
    ensures |r| == |names|
    ensures forall i :: 0 <= i < |names| ==> r[i] == Extension(names[i])
  {
    seq(|names|, i requires 0 <= i < |names| => Extension(names[i]))
  }

  /** `f"{base_name}_{counter}{extension}"`. */
  function NewAssetName(baseName: string, n: nat, extension: string): string {
    baseName + "_" + NatToString(n) + extension
  }

  /** The image files among `names`, with their extensions, in order. */
  function Images(names: seq<string>, exts: seq<string>): (r: seq<(string, string)>)
    requires |names| == |exts|
    ensures |r| <= |names|
  {
    if names == [] then []
    else
      var init := Images(names[..|names| - 1], exts[..|exts| - 1]);
      var ext := exts[|exts| - 1];
      if IsImageExtension(ext) then init + [(names[|names| - 1], ext)] else init
  }

  /** The images are exactly the listed files with an image extension,
      each paired with its own extension. */
  lemma {:induction false} ImagesSpec(names: seq<string>, exts: seq<string>, p: (string, string))
    requires |names| == |exts|
    ensures p in Images(names, exts) <==> exists j :: 0 <= j < |names| && p == (names[j], exts[j]) && IsImageExtension(exts[j])
  {
    if names != [] {
      var n := |names| - 1;
      var init, einit := names[..n], exts[..n];
      ImagesSpec(init, einit, p);
      var im, imi := Images(names, exts), Images(init, einit);
      if IsImageExtension(exts[n]) {
        assert im == imi + [(names[n], exts[n])];
      } else {
        assert im == imi;
      }
      if exists j :: 0 <= j < |names| && p == (names[j], exts[j]) && IsImageExtension(exts[j]) {
        var j :| 0 <= j < |names| && p == (names[j], exts[j]) && IsImageExtension(exts[j]);
        if j < n {
          assert init[j] == names[j] && einit[j] == exts[j];
        }
      }
      if p in imi {
        var j :| 0 <= j < |init| && p == (init[j], einit[j]) && IsImageExtension(einit[j]);
        assert names[j] == init[j] && exts[j] == einit[j];
      }
    }
  }

  /** The (old name, new name) pairs of one directory whose files, sorted,
      are `names` with extensions `exts`: each image file in turn, numbered
      on from 1. */
  function Numbering(names: seq<string>, exts: seq<string>, baseName: string): (r: seq<(string, string)>)
    requires |names| == |exts|
    ensures |r| <= |names|
  {
    if names == [] then []
    else
      var prev := Numbering(names[..|names| - 1], exts[..|exts| - 1], baseName);
      var ext := exts[|exts| - 1];
      if IsImageExtension(ext) then prev + [(names[|names| - 1], NewAssetName(baseName, |prev| + 1, ext))] else prev
  }

  /** The counter starts at 1 and moves only for renamed files: the i-th
      image file, and only it, gets number i + 1. */
  lemma {:induction false} NumberingSpec(names: seq<string>, exts: seq<string>, baseName: string)
    requires |names| == |exts|
    ensures |Numbering(names, exts, baseName)| == |Images(names, exts)|
    ensures forall i :: 0 <= i < |Numbering(names, exts, baseName)| ==>
      Numbering(names, exts, baseName)[i]
        == (Images(names, exts)[i].0, NewAssetName(baseName, i + 1, Images(names, exts)[i].1))
  {
    if names != [] {
      var init, einit := names[..|names| - 1], exts[..|exts| - 1];
      var ext := exts[|exts| - 1];
      NumberingSpec(init, einit, baseName);
      var n, ni := Numbering(names, exts, baseName), Numbering(init, einit, baseName);
      var m, mi := Images(names, exts), Images(init, einit);
      if IsImageExtension(ext) {
        assert n == ni + [(names[|names| - 1], NewAssetName(baseName, |ni| + 1, ext))];
        assert m == mi + [(names[|names| - 1], ext)];
        forall i | 0 <= i < |n| ensures n[i] == (m[i].0, NewAssetName(baseName, i + 1, m[i].1)) {
          if i < |ni| {
            assert n[i] == ni[i] && m[i] == mi[i];
          }
        }
      } else {
        assert n == ni && m == mi;
      }
    }
  }

  /** Numbering one more name can only add a pair at the end. */
  lemma NumberingSnoc(names: seq<string>, exts: seq<string>, baseName: string)
    requires |names| == |exts| && names != []
    ensures Numbering(names[..|names| - 1], exts[..|exts| - 1], baseName) <= Numbering(names, exts, baseName)
  {
    var prev := Numbering(names[..|names| - 1], exts[..|exts| - 1], baseName);
    var ext := exts[|exts| - 1];
    if IsImageExtension(ext) {
      assert Numbering(names, exts, baseName) == prev + [(names[|names| - 1], NewAssetName(baseName, |prev| + 1, ext))];
    } else {
      assert Numbering(names, exts, baseName) == prev;
    }
  }

  /** A later name never changes the renames decided for earlier ones. */
  lemma {:induction false} NumberingPrefix(names: seq<string>, exts: seq<string>, baseName: string, k: nat)
    requires |names| == |exts| && k <= |names|
    ensures Numbering(names[..k], exts[..k], baseName) <= Numbering(names, exts, baseName)
    decreases |names| - k
  {
    if k < |names| {
      NumberingPrefix(names, exts, baseName, k + 1);
      NumberingSnoc(names[..k + 1], exts[..k + 1], baseName);
      assert names[..k + 1][..k] == names[..k];
      assert exts[..k + 1][..k] == exts[..k];
    } else {
      assert names[..k] == names && exts[..k] == exts;
    }
  }

  // ---------------------------------------------------------------------
  // The rename map, an insertion-ordered dictionary

  /** A Python dict from strings to strings: its keys in insertion order
      and its bindings. */
  datatype Dict = Dict(order: seq<string>, entries: map<string, string>)

  ghost predicate DictValid(m: Dict) {
    Distinct(m.order) && forall k :: k in m.order <==> k in m.entries
  }

  const EmptyDict: Dict := Dict([], map[])

  /** `m[k] = v`: a new key goes to the end, a known key keeps its place. */
  function DictPut(m: Dict, k: string, v: string): (r: Dict)
    requires DictValid(m)
    ensures DictValid(r)
    ensures r.entries == m.entries[k := v]
    ensures k in m.entries ==> r.order == m.order
    ensures k !in m.entries ==> r.order == m.order + [k]
  {
    if k in m.entries then Dict(m.order, m.entries[k := v])
    else Dict(m.order + [k], m.entries[k := v])
  }

  // ---------------------------------------------------------------------
  // Renaming the image files

  /** The state the renaming loops carry: the scratch files and the map. */
  datatype RenameState = RenameState(files: map<Path, string>, renames: Dict)

  /** `f"{asset_dir.name}/{file.name}"`, the form the map records. */
  function RenameKey(d: Path, name: string): string {
    LastName(d) + "/" + name
  }

  /** Two children of one directory are the same path only when their
      names are equal. */
  lemma ChildInjective(d: Path, a: string, b: string)
    ensures d + [a] == d + [b] ==> a == b
  {
    if d + [a] == d + [b] {
      assert (d + [a])[|d|] == a && (d + [b])[|d|] == b;
    }
  }

  lemma RenameKeyInjective(d: Path, a: string, b: string)
    ensures RenameKey(d, a) == RenameKey(d, b) ==> a == b
  {
    var pre := LastName(d) + "/";
    assert RenameKey(d, a) == pre + a && RenameKey(d, b) == pre + b;
    assert (pre + a)[|pre|..] == a && (pre + b)[|pre|..] == b;
  }

  /** `file.rename(new_path)` for `d/old` to `d/new`, recorded in the map
      under `"name/old"`, where name is the last component of `d`. The
      rename fails when the file is gone or a directory has the new name;
      a file already at the new name is replaced. */
  function RenameOne(dirs: set<Path>, d: Path, s: RenameState, pair: (string, string)): (r: Option<RenameState>)
    requires DictValid(s.renames)
    ensures r.Some? <==> d + [pair.0] in s.files && d + [pair.1] !in dirs
    ensures r.Some? ==> DictValid(r.value.renames)
    ensures r.Some? ==> d + [pair.1] in r.value.files && r.value.files[d + [pair.1]] == s.files[d + [pair.0]]
    ensures r.Some? && pair.0 != pair.1 ==> d + [pair.0] !in r.value.files
    ensures r.Some? ==> forall q :: q != d + [pair.0] && q != d + [pair.1] ==>
      (q in r.value.files <==> q in s.files) && (q in s.files ==> r.value.files[q] == s.files[q])
    ensures r.Some? ==> r.value.renames.entries == s.renames.entries[RenameKey(d, pair.0) := RenameKey(d, pair.1)]
  {
    var from := d + [pair.0];
    var to := d + [pair.1];
    ChildInjective(d, pair.0, pair.1);
    if from !in s.files || to in dirs then None
    else
      Some(RenameState((s.files - {from})[to := s.files[from]],
        DictPut(s.renames, RenameKey(d, pair.0), RenameKey(d, pair.1))))
  }

  /** The renames of one directory, one after another, stopping at the
      first that fails. */
  function ApplyRenames(dirs: set<Path>, d: Path, s: RenameState, pairs: seq<(string, string)>): (r: Option<RenameState>)
    requires DictValid(s.renames)
    ensures r.Some? ==> DictValid(r.value.renames)
  {
    if pairs == [] then Some(s)
    else
      var prev := ApplyRenames(dirs, d, s, pairs[..|pairs| - 1]);
      if prev.None? then prev else RenameOne(dirs, d, prev.value, pairs[|pairs| - 1])
  }

  lemma {:induction false} ApplyRenamesErr(dirs: set<Path>, d: Path, s: RenameState, a: seq<(string, string)>, b: seq<(string, string)>)
    requires DictValid(s.renames)
    requires a <= b
    requires ApplyRenames(dirs, d, s, a) == None
    ensures ApplyRenames(dirs, d, s, b) == None
    decreases |b|
  {
    if |a| < |b| {
      assert a <= b[..|b| - 1];
      ApplyRenamesErr(dirs, d, s, a, b[..|b| - 1]);
    } else {
      assert a == b;
    }
  }

  /** The renames of the directory `d`: its files as `files` lists them,
      sorted, then numbered. */
  ghost function DirPairs(files: map<Path, string>, d: Path, baseName: string): seq<(string, string)> {
    var names := SortedSet(ChildFileNames(files, d));
    Numbering(names, Extensions(names), baseName)
  }

  /** The outer loop of `rename_assets`: every asset directory in turn,
      its files listed and sorted at the moment it is reached. */
  ghost function RenameAllDirs(dirs: set<Path>, s: RenameState, assetDirs: seq<Path>, baseName: string): (r: Option<RenameState>)
    requires DictValid(s.renames)
    ensures r.Some? ==> DictValid(r.value.renames)
  {
    if assetDirs == [] then Some(s)
    else
      var prev := RenameAllDirs(dirs, s, assetDirs[..|assetDirs| - 1], baseName);
      if prev.None? then prev
      else
        var d := assetDirs[|assetDirs| - 1];
        ApplyRenames(dirs, d, prev.value, DirPairs(prev.value.files, d, baseName))
  }

  lemma {:induction false} RenameAllDirsErr(dirs: set<Path>, s: RenameState, assetDirs: seq<Path>, baseName: string, k: nat)
    requires DictValid(s.renames)
    requires k <= |assetDirs|
    requires RenameAllDirs(dirs, s, assetDirs[..k], baseName) == None
    ensures RenameAllDirs(dirs, s, assetDirs, baseName) == None
    decreases |assetDirs| - k
  {
    if k < |assetDirs| {
      assert assetDirs[..k + 1][..k] == assetDirs[..k];
      RenameAllDirsErr(dirs, s, assetDirs, baseName, k + 1);
    } else {
      assert assetDirs[..k] == assetDirs;
    }
  }

  // ---------------------------------------------------------------------
  // Rewriting the references

  function Quoted(q: string, s: string): string {
    q + s + q
  }

  /** The inner loop over the map: each `"old"` becomes `"new"`, then each
      `'old'` becomes `'new'`, key after key in the given order. */
  function RewriteWith(text: string, keys: seq<string>, entries: map<string, string>): string
    requires forall k :: k in keys ==> k in entries
  {
    if keys == [] then text
    else
      var prev := RewriteWith(text, keys[..|keys| - 1], entries);
      var oldKey := keys[|keys| - 1];
      var newKey := entries[oldKey];
      Replace(Replace(prev, Quoted("\"", oldKey), Quoted("\"", newKey)), Quoted("'", oldKey), Quoted("'", newKey))
  }

  /** A text that quotes none of the old names comes out unchanged. */
  lemma {:induction false} RewriteWithNoReferences(text: string, keys: seq<string>, entries: map<string, string>)
    requires forall k :: k in keys ==> k in entries
    requires forall k :: k in keys ==> !Contains(text, Quoted("\"", k)) && !Contains(text, Quoted("'", k))
    ensures RewriteWith(text, keys, entries) == text
  {
    if keys != [] {
      var oldKey := keys[|keys| - 1];
      RewriteWithNoReferences(text, keys[..|keys| - 1], entries);
      ReplaceAbsent(text, Quoted("\"", oldKey), Quoted("\"", entries[oldKey]));
      ReplaceAbsent(text, Quoted("'", oldKey), Quoted("'", entries[oldKey]));
    }
  }

  /** The loop over the text files: each is read, rewritten with the whole
      map and written back; reading a missing file fails. */
  function RewriteTexts(files: map<Path, string>, textFiles: seq<Path>, m: Dict): (r: Option<map<Path, string>>)
    requires DictValid(m)
    ensures r.Some? ==> r.value.Keys == files.Keys
    ensures r.None? ==> exists p :: p in textFiles && p !in files
  {
    if textFiles == [] then Some(files)
    else
      var prev := RewriteTexts(files, textFiles[..|textFiles| - 1], m);
      var p := textFiles[|textFiles| - 1];
      if prev.None? then prev
      else if p !in prev.value then None
      else Some(prev.value[p := RewriteWith(prev.value[p], m.order, m.entries)])
  }

  lemma {:induction false} RewriteTextsErr(files: map<Path, string>, textFiles: seq<Path>, m: Dict, k: nat)
    requires DictValid(m)
    requires k <= |textFiles|
    requires RewriteTexts(files, textFiles[..k], m) == None
    ensures RewriteTexts(files, textFiles, m) == None
    decreases |textFiles| - k
  {
    if k < |textFiles| {
      assert textFiles[..k + 1][..k] == textFiles[..k];
      RewriteTextsErr(files, textFiles, m, k + 1);
    } else {
      assert textFiles[..k] == textFiles;
    }
  }

  /** Rewriting the texts keeps the set of files, and every file not on
      the list keeps its content. */
  lemma {:induction false} RewriteTextsKeeps(files: map<Path, string>, textFiles: seq<Path>, m: Dict, q: Path)
    requires DictValid(m)
    requires RewriteTexts(files, textFiles, m).Some?
    ensures var r := RewriteTexts(files, textFiles, m).value;
      (q in r <==> q in files) && (q in files && q !in textFiles ==> r[q] == files[q])
  {
    if textFiles != [] {
      var init := textFiles[..|textFiles| - 1];
      assert forall x :: x in init ==> x in textFiles;
      RewriteTextsKeeps(files, init, m, q);
    }
  }

  /** `rename_assets` on the scratch tree: nothing happens without asset
      directories or without any image in them; otherwise the images are
      renamed directory by directory and the texts rewritten. A filesystem
      error ends it with `None`. */
  ghost function RenameAssetsSpec(t: Tree, assetDirs: seq<Path>, textFiles: seq<Path>, baseName: string): (r: Option<Tree>)
    ensures assetDirs == [] ==> r == Some(t)
    ensures r.Some? ==> r.value.dirs == t.dirs
  {
    if assetDirs == [] then Some(t)
    else
      var renamed := RenameAllDirs(t.dirs, RenameState(t.files, EmptyDict), assetDirs, baseName);
      if renamed.None? then None
      else if renamed.value.renames.order == [] then Some(Tree(renamed.value.files, t.dirs))
      else
        var rewritten := RewriteTexts(renamed.value.files, textFiles, renamed.value.renames);
        if rewritten.None? then None else Some(Tree(rewritten.value, t.dirs))
  }

  /** One more name numbers one more pair exactly when it is an image. */
  lemma NumberingStep(names: seq<string>, exts: seq<string>, baseName: string, k: nat)
    requires |names| == |exts| && k < |names|
    ensures var before := Numbering(names[..k], exts[..k], baseName);
      Numbering(names[..k + 1], exts[..k + 1], baseName)
        == if IsImageExtension(exts[k]) then before + [(names[k], NewAssetName(baseName, |before| + 1, exts[k]))] else before
  {
    assert names[..k + 1][..k] == names[..k];
    assert exts[..k + 1][..k] == exts[..k];
  }

  /** One more pair is one more rename, unless an earlier one failed. */
  lemma ApplyRenamesSnoc(dirs: set<Path>, d: Path, s: RenameState, pairs: seq<(string, string)>, pair: (string, string))
    requires DictValid(s.renames)
    ensures var prev := ApplyRenames(dirs, d, s, pairs);
      ApplyRenames(dirs, d, s, pairs + [pair]) == if prev.None? then None else RenameOne(dirs, d, prev.value, pair)
  {
    assert (pairs + [pair])[..|pairs|] == pairs;
  }

  /** The renames of a directory touch only the paths they rename from and
      to: any other path keeps its presence and its content. */
  lemma {:induction false} ApplyRenamesKeepsOthers(dirs: set<Path>, d: Path, s: RenameState,
                                                   pairs: seq<(string, string)>, p: Path)
    requires DictValid(s.renames)
    requires ApplyRenames(dirs, d, s, pairs).Some?
    requires forall i :: 0 <= i < |pairs| ==> p != d + [pairs[i].0] && p != d + [pairs[i].1]
    ensures var r := ApplyRenames(dirs, d, s, pairs).value;
      (p in r.files <==> p in s.files) && (p in s.files ==> r.files[p] == s.files[p])
    decreases |pairs|
  {
    if pairs != [] {
      var init := pairs[..|pairs| - 1];
      assert forall i :: 0 <= i < |init| ==> init[i] == pairs[i];
      ApplyRenamesKeepsOthers(dirs, d, s, init, p);
    }
  }

  /** Every image extension is a dot and small letters without a further
      dot. */
  lemma ImageExtensionShape(ext: string)
    requires IsImageExtension(ext)
    ensures |ext| >= 2 && ext[0] == '.' && '.' !in ext[1..]
    ensures forall i :: 0 <= i < |ext| ==> !('A' <= ext[i] <= 'Z')
  {
  }

  /** A new name keeps the image extension it was given. */
  lemma NewNameIsImage(baseName: string, n: nat, ext: string)
    requires IsImageExtension(ext)
    ensures IsImageName(NewAssetName(baseName, n, ext))
  {
    var stem := baseName + "_" + NatToString(n);
    assert NewAssetName(baseName, n, ext) == stem + ext;
    ImageExtensionShape(ext);
    SuffixOfAppended(stem, ext);
    LowerNoCapitals(ext);
  }

  /** Both names of every pair of a directory's numbering are image names. */
  lemma NumberingIsImages(names: seq<string>, baseName: string, i: int)
    requires 0 <= i < |Numbering(names, Extensions(names), baseName)|
    ensures IsImageName(Numbering(names, Extensions(names), baseName)[i].0)
    ensures IsImageName(Numbering(names, Extensions(names), baseName)[i].1)
  {
    var exts := Extensions(names);
    NumberingSpec(names, exts, baseName);
    var im := Images(names, exts)[i];
    ImagesSpec(names, exts, im);
    var j :| 0 <= j < |names| && im == (names[j], exts[j]) && IsImageExtension(exts[j]);
    NewNameIsImage(baseName, i + 1, exts[j]);
  }

  /** A file of the directory that is no image is neither renamed nor
      overwritten: it keeps its name and its content. */
  lemma RenamesKeepNonImages(dirs: set<Path>, d: Path, s: RenameState, names: seq<string>, baseName: string, x: string)
    requires DictValid(s.renames)
    requires !IsImageName(x)
    requires ApplyRenames(dirs, d, s, Numbering(names, Extensions(names), baseName)).Some?
    ensures var r := ApplyRenames(dirs, d, s, Numbering(names, Extensions(names), baseName)).value;
      (d + [x] in r.files <==> d + [x] in s.files)
      && (d + [x] in s.files ==> r.files[d + [x]] == s.files[d + [x]])
  {
    var pairs := Numbering(names, Extensions(names), baseName);
    forall i | 0 <= i < |pairs| ensures d + [x] != d + [pairs[i].0] && d + [x] != d + [pairs[i].1] {
      NumberingIsImages(names, baseName, i);
      assert (d + [x])[|d|] == x;
      assert (d + [pairs[i].0])[|d|] == pairs[i].0;
      assert (d + [pairs[i].1])[|d|] == pairs[i].1;
    }
    ApplyRenamesKeepsOthers(dirs, d, s, pairs, d + [x]);
  }

  // ---------------------------------------------------------------------
  // Where the renamed images end up

  /** The renames of a directory are free of clashes: no two rename the
      same file or to the same name, and none renames to a name another
      one renames from. */
  predicate Unclashing(pairs: seq<(string, string)>) {
    forall j, k :: 0 <= j < |pairs| && 0 <= k < |pairs| && j != k ==>
      pairs[j].0 != pairs[k].0 && pairs[j].1 != pairs[k].1 && pairs[j].1 != pairs[k].0
  }

  /** The last rename of a directory moves the content its file had when
      the directory's renames began, provided no earlier rename touched
      that file. */
  lemma ApplyRenamesPlacesLast(dirs: set<Path>, d: Path, s: RenameState, pairs: seq<(string, string)>)
    requires DictValid(s.renames) && pairs != []
    requires ApplyRenames(dirs, d, s, pairs).Some?
    requires var a := pairs[|pairs| - 1].0;
      forall j :: 0 <= j < |pairs| - 1 ==> pairs[j].0 != a && pairs[j].1 != a
    ensures var (a, b) := pairs[|pairs| - 1];
      var r := ApplyRenames(dirs, d, s, pairs).value;
      d + [a] in s.files && d + [b] in r.files && r.files[d + [b]] == s.files[d + [a]]
      && (a != b ==> d + [a] !in r.files)
  {
    var n := |pairs| - 1;
    var init := pairs[..n];
    var a := pairs[n].0;
    forall j | 0 <= j < |init| ensures d + [a] != d + [init[j].0] && d + [a] != d + [init[j].1] {
      ChildInjective(d, a, init[j].0);
      ChildInjective(d, a, init[j].1);
    }
    ApplyRenamesKeepsOthers(dirs, d, s, init, d + [a]);
  }

  /** Without clashes, each renamed file ends up under its new name with
      its content, and is gone from its old name unless the two agree. */
  lemma {:induction false} ApplyRenamesPlaces(dirs: set<Path>, d: Path, s: RenameState,
                                              pairs: seq<(string, string)>, i: int)
    requires DictValid(s.renames)
    requires ApplyRenames(dirs, d, s, pairs).Some?
    requires Unclashing(pairs)
    requires 0 <= i < |pairs|
    ensures var (a, b) := pairs[i];
      var r := ApplyRenames(dirs, d, s, pairs).value;
      d + [a] in s.files && d + [b] in r.files && r.files[d + [b]] == s.files[d + [a]]
      && (a != b ==> d + [a] !in r.files)
    decreases |pairs|
  {
    var n := |pairs| - 1;
    if i == n {
      ApplyRenamesPlacesLast(dirs, d, s, pairs);
    } else {
      var init := pairs[..n];
      assert forall j :: 0 <= j < |init| ==> init[j] == pairs[j];
      assert Unclashing(init);
      ApplyRenamesPlaces(dirs, d, s, init, i);
      var (a, b) := pairs[i];
      var last := pairs[n];
      ChildInjective(d, b, last.0);
      ChildInjective(d, b, last.1);
      ChildInjective(d, a, last.0);
      ChildInjective(d, a, last.1);
    }
  }

  /** The map sends `name/old` to `name/new` for a file that no later
      rename of the directory renames again. */
  lemma {:induction false} ApplyRenamesBinds(dirs: set<Path>, d: Path, s: RenameState,
                                             pairs: seq<(string, string)>, i: int)
    requires DictValid(s.renames)
    requires ApplyRenames(dirs, d, s, pairs).Some?
    requires 0 <= i < |pairs|
    requires forall j :: i < j < |pairs| ==> pairs[j].0 != pairs[i].0
    ensures var r := ApplyRenames(dirs, d, s, pairs).value;
      RenameKey(d, pairs[i].0) in r.renames.entries
      && r.renames.entries[RenameKey(d, pairs[i].0)] == RenameKey(d, pairs[i].1)
    decreases |pairs|
  {
    var n := |pairs| - 1;
    var init := pairs[..n];
    if i < n {
      assert forall j :: 0 <= j < |init| ==> init[j] == pairs[j];
      ApplyRenamesBinds(dirs, d, s, init, i);
      RenameKeyInjective(d, pairs[i].0, pairs[n].0);
    }
  }

  /** One more file adds itself to the images exactly when it is one. */
  lemma ImagesSnoc(names: seq<string>, exts: seq<string>)
    requires |names| == |exts| && names != []
    ensures var n := |names| - 1;
      Images(names, exts)
        == Images(names[..n], exts[..n]) + (if IsImageExtension(exts[n]) then [(names[n], exts[n])] else [])
  {
  }

  /** The old name of every image is one of the directory's files. */
  lemma {:induction false} ImagesFrom(names: seq<string>, exts: seq<string>)
    requires |names| == |exts|
    ensures var im := Images(names, exts);
      forall j :: 0 <= j < |im| ==> im[j].0 in names && IsImageExtension(im[j].1)
  {
    if names != [] {
      var n := |names| - 1;
      var init, einit := names[..n], exts[..n];
      ImagesFrom(init, einit);
      assert forall x :: x in init ==> x in names;
      ImagesSnoc(names, exts);
    }
  }

  /** Distinct files give distinct images. */
  lemma {:induction false} ImagesDistinct(names: seq<string>, exts: seq<string>)
    requires |names| == |exts| && Distinct(names)
    ensures var im := Images(names, exts);
      forall j, k :: 0 <= j < k < |im| ==> im[j].0 != im[k].0
  {
    if names != [] {
      var n := |names| - 1;
      var init, einit := names[..n], exts[..n];
      assert Distinct(init);
      ImagesDistinct(init, einit);
      ImagesFrom(init, einit);
      assert names[n] !in init;
      ImagesSnoc(names, exts);
    }
  }

  /** Digits followed by a dot split in only one way. */
  lemma DigitsThenDot(a: string, x: string, b: string, y: string)
    requires forall i :: 0 <= i < |a| ==> '0' <= a[i] <= '9'
    requires forall i :: 0 <= i < |b| ==> '0' <= b[i] <= '9'
    requires x != [] && x[0] == '.' && y != [] && y[0] == '.'
    requires a + x == b + y
    ensures a == b
  {
    var t := a + x;
    assert forall i :: 0 <= i < |a| ==> t[i] == a[i];
    assert forall i :: 0 <= i < |b| ==> t[i] == b[i];
    assert t[|a|] == '.' && t[|b|] == '.';
    assert |a| == |b|;
    assert a == t[..|a|] && b == t[..|b|];
  }

  /** Distinct counters give distinct new names. */
  lemma NewNamesDistinct(baseName: string, m: nat, ext1: string, n: nat, ext2: string)
    requires IsImageExtension(ext1) && IsImageExtension(ext2)
    ensures NewAssetName(baseName, m, ext1) == NewAssetName(baseName, n, ext2) ==> m == n
  {
    var pre := baseName + "_";
    var a, b := NatToString(m), NatToString(n);
    assert NewAssetName(baseName, m, ext1) == pre + (a + ext1);
    assert NewAssetName(baseName, n, ext2) == pre + (b + ext2);
    if NewAssetName(baseName, m, ext1) == NewAssetName(baseName, n, ext2) {
      assert (pre + (a + ext1))[|pre|..] == a + ext1;
      assert (pre + (b + ext2))[|pre|..] == b + ext2;
      ImageExtensionShape(ext1);
      ImageExtensionShape(ext2);
      DigitsThenDot(a, ext1, b, ext2);
      NatToStringInjective(m, n);
    }
  }

  /** Of a directory with distinct files, the numbering is free of clashes
      as soon as no new name is another image's old name. */
  lemma NumberingUnclashing(names: seq<string>, baseName: string)
    requires Distinct(names)
    requires var pairs := Numbering(names, Extensions(names), baseName);
      forall j, k :: 0 <= j < |pairs| && 0 <= k < |pairs| && j != k ==> pairs[j].1 != pairs[k].0
    ensures Unclashing(Numbering(names, Extensions(names), baseName))
  {
    var exts := Extensions(names);
    var pairs := Numbering(names, exts, baseName);
    var im := Images(names, exts);
    NumberingSpec(names, exts, baseName);
    ImagesDistinct(names, exts);
    ImagesFrom(names, exts);
    forall j, k | 0 <= j < |pairs| && 0 <= k < |pairs| && j != k
      ensures pairs[j].0 != pairs[k].0 && pairs[j].1 != pairs[k].1
    {
      NewNamesDistinct(baseName, j + 1, im[j].1, k + 1, im[k].1);
    }
  }

  /** A strictly sorted list has no repeats. */
  lemma SortedDistinct(names: seq<string>)
    requires StrictlySorted(names)
    ensures Distinct(names)
  {
    forall i, j | 0 <= i < j < |names| ensures names[i] != names[j] {
      StrLtIrreflexive(names[i]);
    }
  }

  /** One directory, its files sorted as `names`: when no new name is
      another image's old name, every image `old` numbered `new` has its
      content at `d/new`, is gone from `d/old` unless the names agree, and
      the map sends `name/old` to `name/new`. */
  lemma RenameDirPlaces(dirs: set<Path>, d: Path, s: RenameState, names: seq<string>, baseName: string, i: int)
    requires DictValid(s.renames) && StrictlySorted(names)
    requires ApplyRenames(dirs, d, s, Numbering(names, Extensions(names), baseName)).Some?
    requires 0 <= i < |Numbering(names, Extensions(names), baseName)|
    requires var pairs := Numbering(names, Extensions(names), baseName);
      forall j, k :: 0 <= j < |pairs| && 0 <= k < |pairs| && j != k ==> pairs[j].1 != pairs[k].0
    ensures var pairs := Numbering(names, Extensions(names), baseName);
      var (a, b) := pairs[i];
      var r := ApplyRenames(dirs, d, s, pairs).value;
      d + [a] in s.files && d + [b] in r.files && r.files[d + [b]] == s.files[d + [a]]
      && (a != b ==> d + [a] !in r.files)
      && RenameKey(d, a) in r.renames.entries && r.renames.entries[RenameKey(d, a)] == RenameKey(d, b)
  {
    var pairs := Numbering(names, Extensions(names), baseName);
    SortedDistinct(names);
    NumberingUnclashing(names, baseName);
    ApplyRenamesPlaces(dirs, d, s, pairs, i);
    ApplyRenamesBinds(dirs, d, s, pairs, i);
  }

  /** The renames of a directory touch no map key outside `name/`. */
  lemma {:induction false} ApplyRenamesKeepsKey(dirs: set<Path>, d: Path, s: RenameState,
                                                pairs: seq<(string, string)>, key: string)
    requires DictValid(s.renames)
    requires ApplyRenames(dirs, d, s, pairs).Some?
    requires !(LastName(d) + "/" <= key)
    ensures var r := ApplyRenames(dirs, d, s, pairs).value;
      (key in r.renames.entries <==> key in s.renames.entries)
      && (key in s.renames.entries ==> r.renames.entries[key] == s.renames.entries[key])
    decreases |pairs|
  {
    if pairs != [] {
      var x := pairs[|pairs| - 1].0;
      ApplyRenamesKeepsKey(dirs, d, s, pairs[..|pairs| - 1], key);
      assert RenameKey(d, x)[..|LastName(d) + "/"|] == LastName(d) + "/";
    }
  }

  /** The outer loop after `k` directories is the renaming of the `k`-th
      one in the state the others left. */
  lemma RenameAllDirsStep(dirs: set<Path>, s: RenameState, assetDirs: seq<Path>, baseName: string,
                          k: nat, pre: RenameState)
    requires DictValid(s.renames) && k < |assetDirs|
    requires RenameAllDirs(dirs, s, assetDirs[..k], baseName) == Some(pre)
    ensures RenameAllDirs(dirs, s, assetDirs[..k + 1], baseName)
      == ApplyRenames(dirs, assetDirs[k], pre, DirPairs(pre.files, assetDirs[k], baseName))
  {
    assert assetDirs[..k + 1][..k] == assetDirs[..k];
  }

  /** A path whose parent is not `d` is none of the paths the renames of
      `d` touch. */
  lemma NotAChild(q: Path, d: Path, pairs: seq<(string, string)>)
    requires q != [] && q[..|q| - 1] != d
    ensures forall j :: 0 <= j < |pairs| ==> q != d + [pairs[j].0] && q != d + [pairs[j].1]
  {
    forall j | 0 <= j < |pairs| ensures q != d + [pairs[j].0] && q != d + [pairs[j].1] {
      assert (d + [pairs[j].0])[..|d|] == d && (d + [pairs[j].1])[..|d|] == d;
    }
  }

  /** The directories after the first `k` leave alone every file that is
      no direct child of theirs. */
  lemma {:induction false} RenameAllDirsKeepsFile(dirs: set<Path>, s: RenameState, assetDirs: seq<Path>,
                                                  baseName: string, k: nat, q: Path)
    requires DictValid(s.renames) && k <= |assetDirs|
    requires RenameAllDirs(dirs, s, assetDirs, baseName).Some?
    requires q != [] && forall m :: k <= m < |assetDirs| ==> assetDirs[m] != q[..|q| - 1]
    ensures var mid := RenameAllDirs(dirs, s, assetDirs[..k], baseName);
      var fin := RenameAllDirs(dirs, s, assetDirs, baseName).value;
      mid.Some? && (q in fin.files <==> q in mid.value.files)
      && (q in mid.value.files ==> fin.files[q] == mid.value.files[q])
    decreases |assetDirs|
  {
    if k == |assetDirs| {
      assert assetDirs[..k] == assetDirs;
    } else {
      var n := |assetDirs| - 1;
      var init := assetDirs[..n];
      assert init[..k] == assetDirs[..k];
      assert forall m :: k <= m < |init| ==> init[m] == assetDirs[m];
      var prev := RenameAllDirs(dirs, s, init, baseName);
      var d := assetDirs[n];
      RenameAllDirsKeepsFile(dirs, s, init, baseName, k, q);
      var pairs := DirPairs(prev.value.files, d, baseName);
      NotAChild(q, d, pairs);
      ApplyRenamesKeepsOthers(dirs, d, prev.value, pairs, q);
    }
  }

  /** The directories after the first `k` leave alone every map key outside
      their own `name/`. */
  lemma {:induction false} RenameAllDirsKeepsKey(dirs: set<Path>, s: RenameState, assetDirs: seq<Path>,
                                                 baseName: string, k: nat, key: string)
    requires DictValid(s.renames) && k <= |assetDirs|
    requires RenameAllDirs(dirs, s, assetDirs, baseName).Some?
    requires forall m :: k <= m < |assetDirs| ==> !(LastName(assetDirs[m]) + "/" <= key)
    ensures var mid := RenameAllDirs(dirs, s, assetDirs[..k], baseName);
      var fin := RenameAllDirs(dirs, s, assetDirs, baseName).value;
      mid.Some? && (key in mid.value.renames.entries ==>
        key in fin.renames.entries && fin.renames.entries[key] == mid.value.renames.entries[key])
    decreases |assetDirs|
  {
    if k == |assetDirs| {
      assert assetDirs[..k] == assetDirs;
    } else {
      var n := |assetDirs| - 1;
      var init := assetDirs[..n];
      assert init[..k] == assetDirs[..k];
      assert forall m :: k <= m < |init| ==> init[m] == assetDirs[m];
      var prev := RenameAllDirs(dirs, s, init, baseName);
      var d := assetDirs[n];
      RenameAllDirsKeepsKey(dirs, s, init, baseName, k, key);
      ApplyRenamesKeepsKey(dirs, d, prev.value, DirPairs(prev.value.files, d, baseName), key);
    }
  }

  /** With names free of '/', a key of one directory name never starts
      with another directory name and a '/'. */
  lemma KeyOutsideOtherName(a: string, b: string, x: string)
    requires '/' !in a && '/' !in b && a != b
    ensures !(b + "/" <= a + "/" + x)
  {
    var key := a + "/" + x;
    var p := b + "/";
    if |p| <= |key| {
      if |b| < |a| {
        assert key[|b|] == a[|b|] && p[|b|] == '/';
      } else if |a| < |b| {
        assert key[|a|] == '/' && p[|a|] == b[|a|];
      } else {
        assert key[..|a|] == a && p[..|b|] == b;
      }
    }
  }

  /** The directories before the `k`-th leave the children of a directory
      that is none of them as they were. */
  lemma RenameAllDirsBefore(dirs: set<Path>, s: RenameState, assetDirs: seq<Path>, baseName: string,
                            k: nat, pre: RenameState, q: Path)
    requires DictValid(s.renames) && k <= |assetDirs|
    requires RenameAllDirs(dirs, s, assetDirs[..k], baseName) == Some(pre)
    requires q != [] && forall m :: 0 <= m < k ==> assetDirs[m] != q[..|q| - 1]
    ensures (q in pre.files <==> q in s.files) && (q in s.files ==> pre.files[q] == s.files[q])
  {
    var before := assetDirs[..k];
    assert forall m :: 0 <= m < |before| ==> before[m] == assetDirs[m];
    assert before[..0] == [];
    RenameAllDirsKeepsFile(dirs, s, before, baseName, 0, q);
  }

  /** The `k`-th asset directory `d`, renamed in the state `pre` the
      directories before it left: when no later directory is `d` and no new
      name of `d` is another image's old name, every image `old` of `d`
      numbered `new` ends with its content at `d/new`, gone from `d/old`
      unless the names agree. */
  lemma RenameAllDirsMoves(dirs: set<Path>, s: RenameState, assetDirs: seq<Path>, baseName: string,
                           k: nat, pre: RenameState, i: int)
    requires DictValid(s.renames) && k < |assetDirs|
    requires RenameAllDirs(dirs, s, assetDirs, baseName).Some?
    requires forall m :: k < m < |assetDirs| ==> assetDirs[m] != assetDirs[k]
    requires RenameAllDirs(dirs, s, assetDirs[..k], baseName) == Some(pre)
    requires 0 <= i < |DirPairs(pre.files, assetDirs[k], baseName)|
    requires var pairs := DirPairs(pre.files, assetDirs[k], baseName);
      forall j, l :: 0 <= j < |pairs| && 0 <= l < |pairs| && j != l ==> pairs[j].1 != pairs[l].0
    ensures var d := assetDirs[k];
      var (a, b) := DirPairs(pre.files, d, baseName)[i];
      var fin := RenameAllDirs(dirs, s, assetDirs, baseName).value;
      d + [a] in pre.files && d + [b] in fin.files && fin.files[d + [b]] == pre.files[d + [a]]
      && (a != b ==> d + [a] !in fin.files)
  {
    var d := assetDirs[k];
    var names := SortedSet(ChildFileNames(pre.files, d));
    assert DirPairs(pre.files, d, baseName) == Numbering(names, Extensions(names), baseName);
    var pairs := Numbering(names, Extensions(names), baseName);
    var (a, b) := pairs[i];
    assert (d + [a])[..|d|] == d && (d + [b])[..|d|] == d;
    RenameAllDirsKeepsFile(dirs, s, assetDirs, baseName, k + 1, d + [b]);
    RenameAllDirsKeepsFile(dirs, s, assetDirs, baseName, k + 1, d + [a]);
    RenameAllDirsStep(dirs, s, assetDirs, baseName, k, pre);
    assert RenameAllDirs(dirs, s, assetDirs[..k + 1], baseName) == ApplyRenames(dirs, d, pre, pairs);
    RenameDirPlaces(dirs, d, pre, names, baseName, i);
  }

  /** The `k`-th asset directory `d`, renamed in the state `pre`: when no
      later directory has its name, names hold no '/', and no new name of
      `d` is another image's old name, the final map sends `name/old` to
      `name/new` for every image `old` of `d` numbered `new`. */
  lemma RenameAllDirsBinds(dirs: set<Path>, s: RenameState, assetDirs: seq<Path>, baseName: string,
                           k: nat, pre: RenameState, i: int)
    requires DictValid(s.renames) && k < |assetDirs|
    requires RenameAllDirs(dirs, s, assetDirs, baseName).Some?
    requires forall m :: k < m < |assetDirs| ==> LastName(assetDirs[m]) != LastName(assetDirs[k])
    requires forall m :: 0 <= m < |assetDirs| ==> '/' !in LastName(assetDirs[m])
    requires RenameAllDirs(dirs, s, assetDirs[..k], baseName) == Some(pre)
    requires 0 <= i < |DirPairs(pre.files, assetDirs[k], baseName)|
    requires var pairs := DirPairs(pre.files, assetDirs[k], baseName);
      forall j, l :: 0 <= j < |pairs| && 0 <= l < |pairs| && j != l ==> pairs[j].1 != pairs[l].0
    ensures var d := assetDirs[k];
      var (a, b) := DirPairs(pre.files, d, baseName)[i];
      var fin := RenameAllDirs(dirs, s, assetDirs, baseName).value;
      RenameKey(d, a) in fin.renames.entries && fin.renames.entries[RenameKey(d, a)] == RenameKey(d, b)
  {
    var d := assetDirs[k];
    var names := SortedSet(ChildFileNames(pre.files, d));
    assert DirPairs(pre.files, d, baseName) == Numbering(names, Extensions(names), baseName);
    var pairs := Numbering(names, Extensions(names), baseName);
    var (a, b) := pairs[i];
    forall m | k < m < |assetDirs| ensures !(LastName(assetDirs[m]) + "/" <= RenameKey(d, a)) {
      KeyOutsideOtherName(LastName(d), LastName(assetDirs[m]), a);
    }
    RenameAllDirsKeepsKey(dirs, s, assetDirs, baseName, k + 1, RenameKey(d, a));
    RenameAllDirsStep(dirs, s, assetDirs, baseName, k, pre);
    assert RenameAllDirs(dirs, s, assetDirs[..k + 1], baseName) == ApplyRenames(dirs, d, pre, pairs);
    RenameDirPlaces(dirs, d, pre, names, baseName, i);
  }

  /** The outer loop as a whole: when the asset directories are distinct,
      no later one has the same name, names hold no '/', and no new name of
      the `k`-th directory `d` is another image's old name, every image
      `old` of `d` numbered `new` ends with its original content at
      `d/new`, gone from `d/old` unless the names agree, and the final map
      sends `name/old` to `name/new`. */
  lemma RenameAllDirsPlaces(dirs: set<Path>, s: RenameState, assetDirs: seq<Path>, baseName: string,
                            k: nat, pre: RenameState, i: int)
    requires DictValid(s.renames) && k < |assetDirs|
    requires RenameAllDirs(dirs, s, assetDirs, baseName).Some?
    requires forall m :: 0 <= m < |assetDirs| && m != k ==> assetDirs[m] != assetDirs[k]
    requires forall m :: k < m < |assetDirs| ==> LastName(assetDirs[m]) != LastName(assetDirs[k])
    requires forall m :: 0 <= m < |assetDirs| ==> '/' !in LastName(assetDirs[m])
    requires RenameAllDirs(dirs, s, assetDirs[..k], baseName) == Some(pre)
    requires 0 <= i < |DirPairs(pre.files, assetDirs[k], baseName)|
    requires var pairs := DirPairs(pre.files, assetDirs[k], baseName);
      forall j, l :: 0 <= j < |pairs| && 0 <= l < |pairs| && j != l ==> pairs[j].1 != pairs[l].0
    ensures var d := assetDirs[k];
      var (a, b) := DirPairs(pre.files, d, baseName)[i];
      var fin := RenameAllDirs(dirs, s, assetDirs, baseName).value;
      d + [a] in s.files && d + [b] in fin.files && fin.files[d + [b]] == s.files[d + [a]]
      && (a != b ==> d + [a] !in fin.files)
      && RenameKey(d, a) in fin.renames.entries && fin.renames.entries[RenameKey(d, a)] == RenameKey(d, b)
  {
    var d := assetDirs[k];
    var (a, b) := DirPairs(pre.files, d, baseName)[i];
    RenameAllDirsMoves(dirs, s, assetDirs, baseName, k, pre, i);
    RenameAllDirsBinds(dirs, s, assetDirs, baseName, k, pre, i);
    assert (d + [a])[..|d|] == d;
    RenameAllDirsBefore(dirs, s, assetDirs, baseName, k, pre, d + [a]);
  }

  /** A directory without images has nothing to rename. */
  lemma DirWithoutImages(files: map<Path, string>, d: Path, baseName: string)
    requires forall x :: d + [x] in files ==> !IsImageName(x)
    ensures DirPairs(files, d, baseName) == []
  {
    var names := SortedSet(ChildFileNames(files, d));
    var exts := Extensions(names);
    forall j | 0 <= j < |names| ensures !IsImageExtension(exts[j]) {
      assert names[j] in ChildFileNames(files, d);
    }
    ImagesNone(names, exts);
    NumberingSpec(names, exts, baseName);
  }

  lemma {:induction false} ImagesNone(names: seq<string>, exts: seq<string>)
    requires |names| == |exts|
    requires forall j :: 0 <= j < |exts| ==> !IsImageExtension(exts[j])
    ensures Images(names, exts) == []
  {
    if names != [] {
      var n := |names| - 1;
      ImagesNone(names[..n], exts[..n]);
    }
  }

  /** Asset directories without images leave the files and the map as
      they were. */
  lemma {:induction false} RenameAllDirsNoImages(dirs: set<Path>, s: RenameState, assetDirs: seq<Path>, baseName: string)
    requires DictValid(s.renames)
    requires forall m, x :: 0 <= m < |assetDirs| && assetDirs[m] + [x] in s.files ==> !IsImageName(x)
    ensures RenameAllDirs(dirs, s, assetDirs, baseName) == Some(s)
  {
    if assetDirs != [] {
      var n := |assetDirs| - 1;
      var init := assetDirs[..n];
      assert forall m :: 0 <= m < |init| ==> init[m] == assetDirs[m];
      RenameAllDirsNoImages(dirs, s, init, baseName);
      DirWithoutImages(s.files, assetDirs[n], baseName);
    }
  }

  /** Without any image in the asset directories, `rename_assets` changes
      nothing. */
  lemma RenameAssetsNoImages(t: Tree, assetDirs: seq<Path>, textFiles: seq<Path>, baseName: string)
    requires forall m, x :: 0 <= m < |assetDirs| && assetDirs[m] + [x] in t.files ==> !IsImageName(x)
    ensures RenameAssetsSpec(t, assetDirs, textFiles, baseName) == Some(t)
  {
    RenameAllDirsNoImages(t.dirs, RenameState(t.files, EmptyDict), assetDirs, baseName);
  }

  /** `rename_assets` as a whole, under the conditions of
      `RenameAllDirsPlaces`: an image `old` of the `k`-th asset directory
      `d`, numbered `new`, ends at `d/new` with its original content unless
      `d/new` is one of the texts, and is gone from `d/old` unless the two
      names agree. */
  lemma RenameAssetsPlaces(t: Tree, assetDirs: seq<Path>, textFiles: seq<Path>, baseName: string,
                           k: nat, pre: RenameState, i: int)
    requires RenameAssetsSpec(t, assetDirs, textFiles, baseName).Some?
    requires k < |assetDirs|
    requires forall m :: 0 <= m < |assetDirs| && m != k ==> assetDirs[m] != assetDirs[k]
    requires forall m :: k < m < |assetDirs| ==> LastName(assetDirs[m]) != LastName(assetDirs[k])
    requires forall m :: 0 <= m < |assetDirs| ==> '/' !in LastName(assetDirs[m])
    requires RenameAllDirs(t.dirs, RenameState(t.files, EmptyDict), assetDirs[..k], baseName) == Some(pre)
    requires 0 <= i < |DirPairs(pre.files, assetDirs[k], baseName)|
    requires var pairs := DirPairs(pre.files, assetDirs[k], baseName);
      forall j, l :: 0 <= j < |pairs| && 0 <= l < |pairs| && j != l ==> pairs[j].1 != pairs[l].0
    ensures var d := assetDirs[k];
      var (a, b) := DirPairs(pre.files, d, baseName)[i];
      var r := RenameAssetsSpec(t, assetDirs, textFiles, baseName).value;
      d + [a] in t.files && d + [b] in r.files
      && (d + [b] !in textFiles ==> r.files[d + [b]] == t.files[d + [a]])
      && (a != b ==> d + [a] !in r.files)
  {
    var s := RenameState(t.files, EmptyDict);
    var d := assetDirs[k];
    var (a, b) := DirPairs(pre.files, d, baseName)[i];
    var renamed := RenameAllDirs(t.dirs, s, assetDirs, baseName);
    RenameAllDirsPlaces(t.dirs, s, assetDirs, baseName, k, pre, i);
    if renamed.value.renames.order != [] {
      RewriteTextsKeeps(renamed.value.files, textFiles, renamed.value.renames, d + [b]);
      RewriteTextsKeeps(renamed.value.files, textFiles, renamed.value.renames, d + [a]);
    }
  }

  /** One turn of the inner loop of `rename_assets`: the file `names[k]`,
      renamed under the number `counter` when it is an image, after the
      renames of the files before it. */
  method RenameNext(dirs: set<Path>, d: Path, s: RenameState, names: seq<string>, exts: seq<string>, baseName: string,
                    k: nat, current: RenameState, counter: nat)
    returns (r: Option<RenameState>, next: nat)
    requires |names| == |exts| && k < |names|
    requires DictValid(s.renames) && DictValid(current.renames)
    requires counter == |Numbering(names[..k], exts[..k], baseName)| + 1
    requires ApplyRenames(dirs, d, s, Numbering(names[..k], exts[..k], baseName)) == Some(current)
    ensures r == ApplyRenames(dirs, d, s, Numbering(names[..k + 1], exts[..k + 1], baseName))
    ensures next == |Numbering(names[..k + 1], exts[..k + 1], baseName)| + 1
  {
    NumberingStep(names, exts, baseName, k);
    var name := names[k];
    var extension := exts[k];
    if !IsImageExtension(extension) {
      return Some(current), counter;
    }
    var newName := baseName + "_" + NatToString(counter) + extension;
    ApplyRenamesSnoc(dirs, d, s, Numbering(names[..k], exts[..k], baseName), (name, newName));
    next := counter + 1;
    var from := d + [name];
    var to := d + [newName];
    if from !in current.files || to in dirs {
      return None, next;
    }
    var files := (current.files - {from})[to := current.files[from]];
    r := Some(RenameState(files, DictPut(current.renames, LastName(d) + "/" + name, LastName(d) + "/" + newName)));
  }

  /** The inner loop of `rename_assets` for the directory `d`, whose files,
      sorted, are `names`, with extensions `exts`; the first rename that
      fails ends it. */
  method RenameDirFiles(dirs: set<Path>, d: Path, s: RenameState, names: seq<string>, exts: seq<string>, baseName: string)
    returns (r: Option<RenameState>)
    requires |names| == |exts|
    requires DictValid(s.renames)
    ensures r == ApplyRenames(dirs, d, s, Numbering(names, exts, baseName))
  {
    var current := s;
    var counter := 1;
    var k := 0;
    while k < |names|
      invariant 0 <= k <= |names|
      invariant DictValid(current.renames)
      invariant counter == |Numbering(names[..k], exts[..k], baseName)| + 1
      invariant ApplyRenames(dirs, d, s, Numbering(names[..k], exts[..k], baseName)) == Some(current)
    {
      var step;
      step, counter := RenameNext(dirs, d, s, names, exts, baseName, k, current, counter);
      if step.None? {
        NumberingPrefix(names, exts, baseName, k + 1);
        ApplyRenamesErr(dirs, d, s, Numbering(names[..k + 1], exts[..k + 1], baseName), Numbering(names, exts, baseName));
        return None;
      }
      current := step.value;
      k := k + 1;
    }
    assert names[..k] == names && exts[..k] == exts;
    return Some(current);
  }

  /** The rewriting of one text with the whole map. */
  method RewriteText(text: string, m: Dict) returns (r: string)
    requires DictValid(m)
    ensures r == RewriteWith(text, m.order, m.entries)
  {
    r := text;
    var i := 0;
    while i < |m.order|
      invariant 0 <= i <= |m.order|
      invariant r == RewriteWith(text, m.order[..i], m.entries)
    {
      var oldKey := m.order[i];
      assert m.order[..i + 1][..i] == m.order[..i];
      var newKey := m.entries[oldKey];
      r := Replace(r, "\"" + oldKey + "\"", "\"" + newKey + "\"");
      r := Replace(r, "'" + oldKey + "'", "'" + newKey + "'");
      i := i + 1;
    }
    assert m.order[..i] == m.order;
  }

  /** The outer loop of `rename_assets`: each asset directory in turn. */
  method RenameDirs(dirs: set<Path>, s0: RenameState, assetDirs: seq<Path>, baseName: string) returns (r: Option<RenameState>)
    requires DictValid(s0.renames)
    ensures r == RenameAllDirs(dirs, s0, assetDirs, baseName)
  {
    var s := s0;
    var i := 0;
    while i < |assetDirs|
      invariant 0 <= i <= |assetDirs|
      invariant DictValid(s.renames)
      invariant RenameAllDirs(dirs, s0, assetDirs[..i], baseName) == Some(s)
    {
      var d := assetDirs[i];
      assert assetDirs[..i + 1][..i] == assetDirs[..i];
      var names := SortNames(ChildFileNames(s.files, d));
      var next := RenameDirFiles(dirs, d, s, names, Extensions(names), baseName);
      if next.None? {
        RenameAllDirsErr(dirs, s0, assetDirs, baseName, i + 1);
        return None;
      }
      s := next.value;
      i := i + 1;
    }
    assert assetDirs[..i] == assetDirs;
    return Some(s);
  }

  /** The loop over the text files. */
  method RewriteFiles(files0: map<Path, string>, textFiles: seq<Path>, m: Dict) returns (r: Option<map<Path, string>>)
    requires DictValid(m)
    ensures r == RewriteTexts(files0, textFiles, m)
  {
    var files := files0;
    var j := 0;
    while j < |textFiles|
      invariant 0 <= j <= |textFiles|
      invariant RewriteTexts(files0, textFiles[..j], m) == Some(files)
    {
      var p := textFiles[j];
      assert textFiles[..j + 1][..j] == textFiles[..j];
      if p !in files {
        RewriteTextsErr(files0, textFiles, m, j + 1);
        return None;
      }
      var text := RewriteText(files[p], m);
      files := files[p := text];
      j := j + 1;
    }
    assert textFiles[..j] == textFiles;
    return Some(files);
  }

  /** `rename_assets(asset_dirs, text_files, base_name)`. */
  method RenameAssets(t: Tree, assetDirs: seq<Path>, textFiles: seq<Path>, baseName: string) returns (r: Option<Tree>)
    ensures r == RenameAssetsSpec(t, assetDirs, textFiles, baseName)
    ensures assetDirs == [] ==> r == Some(t)
    ensures (forall m, x :: 0 <= m < |assetDirs| && assetDirs[m] + [x] in t.files ==> !IsImageName(x)) ==> r == Some(t)
    ensures r.Some? ==> r.value.dirs == t.dirs
  {
    if forall m, x :: 0 <= m < |assetDirs| && assetDirs[m] + [x] in t.files ==> !IsImageName(x) {
      RenameAssetsNoImages(t, assetDirs, textFiles, baseName);
    }
    if assetDirs == [] {
      return Some(t);
    }
    var renamed := RenameDirs(t.dirs, RenameState(t.files, EmptyDict), assetDirs, baseName);
    if renamed.None? {
      return None;
    }
    var s := renamed.value;
    if s.renames.order == [] {
      return Some(Tree(s.files, t.dirs));
    }
    var rewritten := RewriteFiles(s.files, textFiles, s.renames);
    if rewritten.None? {
      return None;
    }
    return Some(Tree(rewritten.value, t.dirs));
  }
}
