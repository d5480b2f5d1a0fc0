# Mineru batch conversion client, modelled in Dafny

This project models the decision logic of the Mineru MCP server's batch
PDF-conversion client, `src/mineru_mcp_server/main.py`. The client runs a
batch through these stages:

1. It resolves the requested output format and the extra renditions to ask
   the service for.
2. It checks the batch: an API token, a supported format, a non-empty list,
   `.pdf` suffixes, and optionally distinct base names.
3. It asks the service for one upload URL per file and checks the reply.
4. It uploads each file, recording one outcome per file.
5. It polls the batch status until every uploaded file is done or failed, or
   the deadline passes.
6. For each finished file it downloads the result archive, picks out the
   document and the asset directories, optionally renames the images after
   the document and rewrites the quoted references to them, and moves the
   document and the assets into the output folder.
7. It assembles a report: `pdf_total`, `uploaded`, `completed`, and the
   upload records followed by the poll records.

The network, the clock, the zip decoder and the filesystem become
parameters:

- the service replies are values or functions of what is sent;
- the deadline is a number of status requests (`fuel`);
- an unpacked archive is a sequence of entries;
- a directory tree is a map from paths to contents plus a set of directory
  paths (`Trees.Tree`).

## Modules

| file | module | models |
|---|---|---|
| text.dfy | `PyText` | ASCII `str.lower`/`strip`, `str.replace`, `pathlib` suffix/stem, `str(n)`, string order and `sorted` of a set |
| records.dfy | `Records` | `Option`/`Result`, the outcome records, success counts |
| formats.dfy | `Formats` | `normalize_output_format`, `build_extra_formats` |
| uploads.dfy | `Uploads` | `ensure_unique_pdf_names`, the reply checks of `request_upload_urls`, `upload_files` |
| trees.dfy | `Trees` | unpacked trees, `rmtree`, `shutil.move` / `copytree(dirs_exist_ok=True)` of a directory |
| assets.dfy | `AssetRenamer` | `rename_assets` |
| archive.dfy | `Archive` | `download_and_extract` |
| poller.dfy | `Poller` | `poll_results` |
| orchestrator.dfy | `Orchestrator` | `convert_pdf_files_with_mineru` |

The operations that loop in the source are methods with loop invariants:
`CollectDuplicates`, `UploadFiles`, the loops of `rename_assets`, `Classify`,
`MoveAssetDirs`, the loops of `poll_results`, and `CheckPdfSuffixes`. Each is
proved equal to a specification function, and the properties are lemmas
about that function.

## Model

Definitions without a contract of their own are covered by the rows of the
members whose contracts use them: `Records.SuccessfulFiles`,
`AssetRenamer.RewriteWith`, `AssetRenamer.DirPairs`,
`AssetRenamer.NewAssetName`, `AssetRenamer.IsImageExtension`,
`Archive.Classification`, `Archive.TextFiles`, `Archive.FinalExtension`,
`Poller.AllDone` and `PyText.StrLt`. Rows whose third column begins with
"proof helper" state a step of another row's proof and model no source line
by themselves; their source cell names the lines of the member they serve.

| member | source | states |
|---|---|---|
| PyText.LowerChar | src/mineru_mcp_server/main.py:47 | `lower()` on one character maps an ASCII capital to its small letter and leaves any other character alone; the result is never a capital |
| PyText.Lower | src/mineru_mcp_server/main.py:47 | `lower()` keeps the length and lowers every character in place |
| PyText.LowerIdempotent | src/mineru_mcp_server/main.py:47 | lowering twice is lowering once |
| PyText.LowerNoCapitals | src/mineru_mcp_server/main.py:47 | a string without capitals is its own lower-case form |
| PyText.LowerAppend | src/mineru_mcp_server/main.py:57 | lowering distributes over concatenation |
| PyText.LowerKeepsSpace | src/mineru_mcp_server/main.py:47 | lowering neither produces nor removes whitespace: each character is whitespace after lowering exactly when it was before |
| PyText.LStripLower | src/mineru_mcp_server/main.py:47 | `lower()` then `lstrip()` equals `lstrip()` then `lower()` |
| PyText.RStripLower | src/mineru_mcp_server/main.py:47 | `lower()` then `rstrip()` equals `rstrip()` then `lower()` |
| PyText.StripLower | src/mineru_mcp_server/main.py:47 | `strip().lower()` equals `lower().strip()`, so the order of the two calls does not matter |
| PyText.LStrip | src/mineru_mcp_server/main.py:47 | `lstrip()` removes a prefix made only of whitespace and leaves a result that starts with no whitespace |
| PyText.RStrip | src/mineru_mcp_server/main.py:47 | `rstrip()` removes a suffix made only of whitespace and leaves a result that ends with no whitespace |
| PyText.Strip | src/mineru_mcp_server/main.py:47 | `strip()` leaves a result with whitespace at neither end |
| PyText.LStripSpaces | src/mineru_mcp_server/main.py:47 | leading whitespace is removed whatever follows it |
| PyText.RStripSpaces | src/mineru_mcp_server/main.py:47 | trailing whitespace is removed whatever precedes it |
| PyText.StripPadded | src/mineru_mcp_server/main.py:47 | stripping whitespace padding off a word gives the word back |
| PyText.StripNoSpace | src/mineru_mcp_server/main.py:57 | a string with no whitespace at either end is unchanged by `strip()` |
| PyText.RFind | src/mineru_mcp_server/main.py:164 | `rfind('.')` returns the last position of the character, or -1 when it is absent |
| PyText.ReplaceAbsent | src/mineru_mcp_server/main.py:255-256 | `str.replace` returns a text in which the pattern does not occur unchanged |
| PyText.ReplacePresent | src/mineru_mcp_server/main.py:255-256 | where the pattern occurs, the replacement occurs in the result of `str.replace` |
| PyText.Replace | src/mineru_mcp_server/main.py:255-256 | `str.replace` leaves the text unchanged when the replacement is the pattern itself, and keeps its length when the replacement is as long as the pattern |
| PyText.Suffix | src/mineru_mcp_server/main.py:164-166 | `Path.suffix` is empty or a tail of the name that starts with '.', is at least two characters long and is shorter than the name |
| PyText.Stem | src/mineru_mcp_server/main.py:153 | `Path.stem` followed by `Path.suffix` is the whole name |
| PyText.SuffixOfAppended | src/mineru_mcp_server/main.py:243 | appending an extension without a second dot to a non-empty stem gives a name whose suffix is that extension |
| PyText.DigitChar | src/mineru_mcp_server/main.py:243 | a digit value d is rendered as the decimal digit character d places after '0' |
| PyText.NatToString | src/mineru_mcp_server/main.py:243 | `str(n)` is a non-empty string of decimal digits with no leading zero, except for `str(0)` itself |
| PyText.NatToStringValue | src/mineru_mcp_server/main.py:243 | reading the digits of `str(n)` back as a decimal numeral gives n |
| PyText.NatToStringInjective | src/mineru_mcp_server/main.py:243 | different counters give different strings |
| PyText.StrLtIrreflexive | src/mineru_mcp_server/main.py:73 | no string sorts before itself |
| PyText.StrLtAsymmetric | src/mineru_mcp_server/main.py:73 | two strings never sort before each other |
| PyText.StrLtTransitive | src/mineru_mcp_server/main.py:73 | Python's string order is transitive |
| PyText.StrLtTotal | src/mineru_mcp_server/main.py:73 | of two different strings, one sorts before the other |
| PyText.LeastExists | src/mineru_mcp_server/main.py:73 | a non-empty set of strings has a least element |
| PyText.SortedSet | src/mineru_mcp_server/main.py:73 | `sorted(s)` is strictly increasing, as long as the set, and holds exactly the set's elements |
| PyText.FirstIsMember | src/mineru_mcp_server/main.py:73 | proof helper for `SortNames`: the first element of a non-empty sequence belongs to it |
| PyText.StrictlySortedUnique | src/mineru_mcp_server/main.py:73 | two strictly sorted sequences with the same elements are equal, so `sorted` has one answer |
| PyText.SortNames | src/mineru_mcp_server/main.py:73 | the sorting loop returns `sorted(s)` |
| Records.CountSuccess | src/mineru_mcp_server/main.py:413 | the success count never exceeds the number of records |
| Records.SuccessfulFilesCount | src/mineru_mcp_server/main.py:402 | the list of successfully uploaded names is as long as the success count, and each name on it has a success record |
| Records.CountSuccessAppend | src/mineru_mcp_server/main.py:412-413 | success counts add up over concatenated record lists |
| Records.CountFor | src/mineru_mcp_server/main.py:412 | the number of records for a name never exceeds the number of records |
| Records.CountForAbsent | src/mineru_mcp_server/main.py:412 | a name that no record carries has count 0 |
| Records.CountForPositive | src/mineru_mcp_server/main.py:412 | a name with a positive count is carried by some record |
| Records.Dedup | src/mineru_mcp_server/main.py:267 | the keys of `{name: False for name in expected_files}` have no repeats, are exactly the expected names, and are no more numerous |
| Records.DedupPrefix | src/mineru_mcp_server/main.py:267 | later names never reorder the keys: the keys of a prefix of the names are a prefix of the keys |
| Records.DedupFirstOccurrence | src/mineru_mcp_server/main.py:267 | keys are in order of first occurrence: the keys before a name's key are exactly the keys of the names before that name's first occurrence |
| Records.DistinctCardinality | src/mineru_mcp_server/main.py:267 | a sequence without repeats has as many elements as its set |
| Formats.NormalizeOutputFormat | src/mineru_mcp_server/main.py:46-52 | the result is only ever "html" or "markdown"; it is "html" exactly when the stripped, lowered input is "html", and "markdown" exactly when that is "markdown" or "md"; any other input is rejected with the unsupported-format error |
| Formats.NormalizeHtml | src/mineru_mcp_server/main.py:46-52 | "html" normalizes to "html" |
| Formats.NormalizeMarkdown | src/mineru_mcp_server/main.py:46-52 | "markdown" normalizes to "markdown" |
| Formats.NormalizeOutputFormatIdempotent | src/mineru_mcp_server/main.py:46-52 | normalizing an accepted format a second time gives the same result |
| Formats.NormalizeOutputFormatRejectsTxt | src/mineru_mcp_server/main.py:50-51 | "txt" is rejected |
| Formats.NormalizeOutputFormatRejectsEmpty | src/mineru_mcp_server/main.py:50-51 | "" is rejected |
| Formats.NormalizeOutputFormatIgnoresPadding | src/mineru_mcp_server/main.py:47 | whitespace around a format name changes neither whether it is accepted nor what it becomes |
| Formats.NormalizeEntry | src/mineru_mcp_server/main.py:57 | one caller entry yields at most one normalized entry, which is non-empty and lower-case |
| Formats.NormalizeEntries | src/mineru_mcp_server/main.py:57 | the comprehension keeps at most as many entries as it is given, each non-empty and lower-case |
| Formats.NormalizeEntriesSingle | src/mineru_mcp_server/main.py:57 | a blank entry is dropped; any other entry is kept stripped and lowered |
| Formats.NormalizeEntriesAppend | src/mineru_mcp_server/main.py:57 | the comprehension keeps the input order: it distributes over concatenation |
| Formats.BaseFormats | src/mineru_mcp_server/main.py:56 | a non-empty caller list is used as given; otherwise the default rendition list is used |
| Formats.AddRequiredFormats | src/mineru_mcp_server/main.py:58-61 | the normalized entries stay first and unchanged; what is appended is exactly `RequiredTail`: "html" if it is missing, then "markdown" if the output is Markdown and it is missing, in that order; nothing appended was already present; so "html" is always present, and "markdown" is present for Markdown output |
| Formats.BuildExtraFormats | src/mineru_mcp_server/main.py:55-62 | the result starts with the normalized caller entries in their order; after them come exactly the missing required formats, "html" first and then "markdown" for Markdown output only, none already among the entries; so it contains "html", and "markdown" for Markdown output |
| Formats.RequiredTailOnce | src/mineru_mcp_server/main.py:58-61 | the appended formats have no repeats, and "html", when appended, comes first |
| Formats.BuildExtraFormatsNoBlank | src/mineru_mcp_server/main.py:55-62 | no entry of the result is empty |
| Formats.BuildExtraFormatsDefault | src/mineru_mcp_server/main.py:56 | with no list or an empty one, the result is ["html"], or ["html", "markdown"] for Markdown output |
| Formats.AddRequiredToHtml | src/mineru_mcp_server/main.py:58-61 | starting from ["html"], only "markdown" is appended, and only for Markdown output |
| Formats.NormalizeEntriesHtml | src/mineru_mcp_server/main.py:57 | the default entry "html" normalizes to itself |
| Uploads.BaseNames | src/mineru_mcp_server/main.py:80 | the names sent are the files' base names, one per file, in order |
| Uploads.Repeated | src/mineru_mcp_server/main.py:66-71 | every name collected as a duplicate is one of the names |
| Uploads.RepeatedSpec | src/mineru_mcp_server/main.py:68-71 | a name lands among the duplicates exactly when it stands at two different positions |
| Uploads.HasRepeatsIff | src/mineru_mcp_server/main.py:72 | some duplicate exists exactly when two paths share a base name |
| Uploads.CollectDuplicates | src/mineru_mcp_server/main.py:66-71 | the `seen`/`duplicates` loop collects exactly the repeated names |
| Uploads.EnsureUniquePdfNames | src/mineru_mcp_server/main.py:65-76 | it fails exactly when two paths share a base name, and the failure lists the repeated names once each, sorted |
| Uploads.EnsureUniqueAcceptsDistinct | src/mineru_mcp_server/main.py:72 | distinct base names give no duplicates |
| Uploads.ZipNames | src/mineru_mcp_server/main.py:104 | the upload map's keys are exactly the names |
| Uploads.ZipNamesLastWins | src/mineru_mcp_server/main.py:104 | each name is bound to the URL at its last position |
| Uploads.ZipNamesDistinct | src/mineru_mcp_server/main.py:104 | with distinct names, each name is bound to the URL at its own position |
| Uploads.RequestUploadUrls | src/mineru_mcp_server/main.py:95-105 | it succeeds exactly when the code is 0, the batch id is non-empty and there is one URL per file; the checks come in the source's order (code, then batch id, then count), each with its own error; on success it returns the batch id and the names zipped with the URLs |
| Uploads.RequestUploadUrlsPairs | src/mineru_mcp_server/main.py:104-105 | on success, a file whose name is not repeated later is bound to the URL at its own index |
| Uploads.UploadOutcomes | src/mineru_mcp_server/main.py:108-143 | there is one record per file |
| Uploads.UploadOutcome | src/mineru_mcp_server/main.py:110-142 | the record names the file and the `upload` stage; it is a success exactly when the file has a non-empty URL and its PUT succeeds; a file without a URL gets "no upload URL" |
| Uploads.Attempted | src/mineru_mcp_server/main.py:111-124 | no more PUTs are sent than there are files |
| Uploads.UploadOutcomesSpec | src/mineru_mcp_server/main.py:110-142 | record i is the outcome of file i |
| Uploads.UploadSuccessesWereAttempted | src/mineru_mcp_server/main.py:122-133 | the successful uploads never outnumber the PUTs sent |
| Uploads.UploadWithoutUrls | src/mineru_mcp_server/main.py:111-121 | with no URLs, nothing is sent and nothing succeeds |
| Uploads.UploadFiles | src/mineru_mcp_server/main.py:108-143 | one `upload`-stage record per file, in input order and for that file; a record is a success exactly when the file had a non-empty URL and its PUT succeeded; a file without a URL gets "no upload URL" and no PUT is sent for it |
| Uploads.AttemptedOnlyWithUrl | src/mineru_mcp_server/main.py:111-124 | a PUT is sent only for a file with a URL |
| Trees.SplitUnder | src/mineru_mcp_server/main.py:197-205 | proof helper for the moves: a path below a directory is the directory's path followed by the rest |
| Trees.UnderAppend | src/mineru_mcp_server/main.py:197-205 | proof helper for the moves: a directory's path followed by more components lies below it |
| Trees.BuildTree | src/mineru_mcp_server/main.py:158-159 | every listed directory and every listed file is in the unpacked tree |
| Trees.ChildFileNames | src/mineru_mcp_server/main.py:235-237 | a name is listed exactly when the directory holds a file of that name |
| Trees.RemoveTree | src/mineru_mcp_server/main.py:203 | `rmtree` removes exactly the directory and what lies below it; everything else keeps its content |
| Trees.DetachFiles | src/mineru_mcp_server/main.py:197-205 | the files below a directory, named relative to it, with their contents |
| Trees.DetachDirs | src/mineru_mcp_server/main.py:197-205 | the directories below a directory, named relative to it |
| Trees.AttachFiles | src/mineru_mcp_server/main.py:197-205 | relative files placed below a target keep their contents, and nothing else appears |
| Trees.AttachDirs | src/mineru_mcp_server/main.py:197-205 | relative directories placed below a target, and nothing else |
| Trees.MoveDir | src/mineru_mcp_server/main.py:200-205 | the moved directory leaves the source tree, which otherwise stays as it was |
| Trees.MoveDirMerges | src/mineru_mcp_server/main.py:201-203 | merging into an existing directory yields the union of both directories' files: every incoming file with its incoming content, every file already there without an incoming namesake with its content, and nothing else below the target |
| Trees.MoveDirKeepsOthers | src/mineru_mcp_server/main.py:200-205 | files of the output folder outside the target are left alone |
| Trees.MoveDirWholesale | src/mineru_mcp_server/main.py:204-205 | moving into an absent target yields below it exactly the moved directory's files |
| AssetRenamer.Extensions | src/mineru_mcp_server/main.py:240 | element i is the lower-cased suffix of name i |
| AssetRenamer.Images | src/mineru_mcp_server/main.py:239-242 | the image files are no more numerous than the files |
| AssetRenamer.ImagesSpec | src/mineru_mcp_server/main.py:240-242 | the image files are exactly the files with one of the six image extensions, each with its own extension |
| AssetRenamer.Numbering | src/mineru_mcp_server/main.py:238-244 | a directory yields no more renames than files |
| AssetRenamer.NumberingSpec | src/mineru_mcp_server/main.py:238-244 | the i-th image file of the sorted listing, and only it, becomes `{base}_{i+1}{ext}`: the counter starts at 1 and moves only for renamed files |
| AssetRenamer.NumberingSnoc | src/mineru_mcp_server/main.py:239-244 | one more file can only add a rename at the end |
| AssetRenamer.NumberingPrefix | src/mineru_mcp_server/main.py:239-244 | a later file never changes the renames of earlier files |
| AssetRenamer.NumberingStep | src/mineru_mcp_server/main.py:239-244 | one more file adds one numbered rename exactly when it is an image |
| AssetRenamer.DictPut | src/mineru_mcp_server/main.py:249 | `rename_map[k] = v`: the binding is updated, a new key goes to the end of the insertion order, and a known key keeps its place |
| AssetRenamer.ChildInjective | src/mineru_mcp_server/main.py:246-247 | proof helper for the renames: two children of one directory are the same path only when their names are equal |
| AssetRenamer.RenameKeyInjective | src/mineru_mcp_server/main.py:247-249 | two map keys of one directory are equal only when the file names are |
| AssetRenamer.RenameOne | src/mineru_mcp_server/main.py:245-249 | the rename succeeds exactly when the file exists and no directory has the new name; then the new path holds the old file's content, the old path is gone unless the names are equal, every other path keeps its presence and content, and the map binds `"dir/old"` to `"dir/new"` and stays a valid dictionary |
| AssetRenamer.ApplyRenames | src/mineru_mcp_server/main.py:239-249 | the renames of a directory keep the map a valid dictionary |
| AssetRenamer.ApplyRenamesErr | src/mineru_mcp_server/main.py:246 | once a rename fails, the whole directory fails |
| AssetRenamer.ApplyRenamesSnoc | src/mineru_mcp_server/main.py:239-249 | one more pair is one more rename, unless an earlier one failed |
| AssetRenamer.ApplyRenamesKeepsOthers | src/mineru_mcp_server/main.py:245-246 | paths that are neither renamed nor renamed to keep their presence and their content |
| AssetRenamer.ImageExtensionShape | src/mineru_mcp_server/main.py:241 | each image extension is a dot followed by small letters and no further dot |
| AssetRenamer.NewNameIsImage | src/mineru_mcp_server/main.py:243 | a new name keeps the image extension it was given |
| AssetRenamer.NumberingIsImages | src/mineru_mcp_server/main.py:240-243 | both the old and the new name of every rename are image names |
| AssetRenamer.RenamesKeepNonImages | src/mineru_mcp_server/main.py:240-242 | a file that is not an image is neither renamed nor overwritten, and keeps its content |
| AssetRenamer.RenameAllDirs | src/mineru_mcp_server/main.py:234-249 | the renames of all asset directories keep the map a valid dictionary |
| AssetRenamer.RenameAllDirsErr | src/mineru_mcp_server/main.py:234-249 | once a directory fails, the whole renaming fails |
| AssetRenamer.ApplyRenamesPlaces | src/mineru_mcp_server/main.py:239-249 | when no rename of a directory targets another's file, each image file's old content ends up at its new name, and the old name is gone |
| AssetRenamer.ApplyRenamesBinds | src/mineru_mcp_server/main.py:247-249 | after a directory's renames, the map binds each renamed file's `"dir/old"` to its `"dir/new"`, as long as no later rename has the same old name |
| AssetRenamer.ImagesFrom | src/mineru_mcp_server/main.py:238-242 | every image file found is one of the listed files and has an image extension |
| AssetRenamer.ImagesDistinct | src/mineru_mcp_server/main.py:238-242 | distinct file names give distinct image files |
| AssetRenamer.NewNamesDistinct | src/mineru_mcp_server/main.py:243 | two new names are equal only when their counters are, so each counter value names one file |
| AssetRenamer.NumberingUnclashing | src/mineru_mcp_server/main.py:238-244 | the renames of a sorted listing have distinct old names and distinct new names; unless a new name is also an old one, no rename touches another's file |
| AssetRenamer.SortedDistinct | src/mineru_mcp_server/main.py:236-237 | a strictly sorted listing has no repeats |
| AssetRenamer.RenameDirPlaces | src/mineru_mcp_server/main.py:234-249 | renaming a directory's images in listing order leaves each image's content at its new name, removes the old name, and binds the two names in the map |
| AssetRenamer.ApplyRenamesKeepsKey | src/mineru_mcp_server/main.py:247-249 | a directory's renames touch no map key outside that directory's `"name/"` prefix |
| AssetRenamer.RenameAllDirsStep | src/mineru_mcp_server/main.py:234-249 | the renaming of k+1 directories is that of k directories followed by the renames of the next one, listed at that moment |
| AssetRenamer.RenameAllDirsKeepsFile | src/mineru_mcp_server/main.py:234-249 | directories renamed later never touch a file outside them |
| AssetRenamer.RenameAllDirsKeepsKey | src/mineru_mcp_server/main.py:234-249 | directories renamed later never rebind a key of another directory's name |
| AssetRenamer.RenameAllDirsBefore | src/mineru_mcp_server/main.py:234-249 | before a directory's turn, its files are as they were at the start |
| AssetRenamer.RenameAllDirsMoves | src/mineru_mcp_server/main.py:234-249 | an image renamed in its directory's turn keeps its content at its new name to the end |
| AssetRenamer.RenameAllDirsBinds | src/mineru_mcp_server/main.py:234-249 | a key bound in a directory's turn keeps its binding to the end |
| AssetRenamer.RenameAllDirsPlaces | src/mineru_mcp_server/main.py:234-249 | after all directories, every renamed image's original content is at its new `{base}_{i}{ext}` name in its directory, its old name is gone, and the map binds `"dir/old"` to `"dir/new"` |
| AssetRenamer.ImagesNone | src/mineru_mcp_server/main.py:238-242 | a listing without image extensions yields no image files |
| AssetRenamer.DirWithoutImages | src/mineru_mcp_server/main.py:235-242 | a directory without images yields no renames |
| AssetRenamer.RenameAllDirsNoImages | src/mineru_mcp_server/main.py:234-249 | without any image in the asset directories, renaming changes neither the files nor the map |
| AssetRenamer.RenameAssetsNoImages | src/mineru_mcp_server/main.py:230-251 | without any image in the asset directories, `rename_assets` returns the tree unchanged |
| AssetRenamer.RenameAssetsPlaces | src/mineru_mcp_server/main.py:230-257 | after `rename_assets`, every renamed image's original content is at its new name, unless that path is also a text file, and the old name is gone |
| AssetRenamer.RewriteWithNoReferences | src/mineru_mcp_server/main.py:254-256 | a text that quotes none of the old paths, in either quote style, is left unchanged |
| AssetRenamer.RewriteTextsErr | src/mineru_mcp_server/main.py:252-257 | once a text file cannot be read, the rewriting fails |
| AssetRenamer.RewriteTexts | src/mineru_mcp_server/main.py:252-257 | rewriting the texts keeps the set of files, and it fails only when a listed text file is missing |
| AssetRenamer.RewriteTextsKeeps | src/mineru_mcp_server/main.py:252-257 | rewriting the texts keeps the set of files, and every file that is not a text file keeps its content |
| AssetRenamer.RenameAssetsSpec | src/mineru_mcp_server/main.py:230-257 | without asset directories the tree comes back unchanged, and a success never changes the tree's directories |
| AssetRenamer.RenameNext | src/mineru_mcp_server/main.py:239-249 | one turn of the inner loop performs exactly the next numbered rename, and advances the counter only for an image |
| AssetRenamer.RenameDirFiles | src/mineru_mcp_server/main.py:238-249 | the inner loop performs exactly the directory's numbered renames, in order, and stops at the first failure |
| AssetRenamer.RewriteText | src/mineru_mcp_server/main.py:253-256 | one text is rewritten key by key in insertion order, double-quoted references first, then single-quoted |
| AssetRenamer.RenameDirs | src/mineru_mcp_server/main.py:234-249 | the outer loop renames each asset directory in turn, listing its files when it is reached |
| AssetRenamer.RewriteFiles | src/mineru_mcp_server/main.py:252-257 | each text file is read, rewritten with the whole map and written back |
| AssetRenamer.RenameAssets | src/mineru_mcp_server/main.py:230-257 | `rename_assets` returns what `RenameAssetsSpec` defines: it does nothing without asset directories or without any image in them; otherwise it renames and then rewrites; the directories of the tree are unchanged |
| Archive.Kinds | src/mineru_mcp_server/main.py:163-169 | each entry is classified by the traversal's three tests |
| Archive.KindOf | src/mineru_mcp_server/main.py:164-169 | an entry is classified as HTML, Markdown or an asset directory exactly when it is a file with suffix ".html", a file with suffix ".md", or a directory whose lowered name is "figure", "images" or "assets" |
| Archive.LastOfKind | src/mineru_mcp_server/main.py:163-167 | no document is chosen exactly when no entry is of the kind |
| Archive.OfKind | src/mineru_mcp_server/main.py:168-169 | no more asset directories are collected than there are entries |
| Archive.LastOfKindSpec | src/mineru_mcp_server/main.py:163-167 | the chosen document is the last match in traversal order, and none is chosen exactly when nothing matches |
| Archive.NoLaterKind | src/mineru_mcp_server/main.py:163-167 | no match after a position in the prefix and none at the end means no match after that position |
| Archive.OfKindSpec | src/mineru_mcp_server/main.py:168-169 | the collected asset directories are exactly the paths of the entries labelled `AssetDir` |
| Archive.ClassificationOfEntries | src/mineru_mcp_server/main.py:163-169 | with each entry classified by the traversal's tests, the asset directories are exactly the directories with an asset name, and no HTML or Markdown document is found exactly when no file has that suffix |
| Archive.Classify | src/mineru_mcp_server/main.py:160-169 | the traversal loop overwrites the documents on every match and collects every asset directory |
| Archive.PlaceDocument | src/mineru_mcp_server/main.py:192-196 | the document is saved as `{stem}{ext}` in the output folder, or inside the directory of that name if one exists, unless an entry of its name is already there; a missing document fails |
| Archive.MoveAssetsKeeps | src/mineru_mcp_server/main.py:197-205 | output files outside every asset directory's name are left alone by the asset moves |
| Archive.MoveAssets | src/mineru_mcp_server/main.py:197-205 | the asset moves only take files out of the scratch tree, keeping the content of what stays, and never remove a file from the output folder; where the files go is stated by `MoveAssetsPlaces`, `MoveAssetsKeepsOld` and `MoveAssetsNothingElse` |
| Archive.MoveAssetDirs | src/mineru_mcp_server/main.py:197-205 | the loop skips directories already gone, fails on a name taken by a file, and otherwise merges or moves; it computes what `MoveAssets` defines |
| Archive.MoveAssetsStop | src/mineru_mcp_server/main.py:197-205 | after a failed move, the later directories change nothing |
| Archive.NotUnderUnrelated | src/mineru_mcp_server/main.py:197-205 | proof helper for the moves: a path below one of two unrelated directories is not below the other |
| Archive.MoveAssetsBefore | src/mineru_mcp_server/main.py:197-205 | moving directories that lie neither below nor above a directory leaves that directory and its files in the scratch tree |
| Archive.MoveAssetsCompose | src/mineru_mcp_server/main.py:197-205 | the loop over two lists, the first one succeeding, is the loop over the second started where the first left off |
| Archive.MoveAssetsAfter | src/mineru_mcp_server/main.py:197-205 | a file of the output folder keeps its content through later moves of directories without its first name |
| Archive.MoveAssetsPrefixOk | src/mineru_mcp_server/main.py:197-205 | a successful loop succeeds on every prefix of its directories |
| Archive.MoveAssetsAt | src/mineru_mcp_server/main.py:197-205 | a successful loop up to a directory leaves each of that directory's files below its name in the output folder, with its content |
| Archive.MoveAssetsPlaces | src/mineru_mcp_server/main.py:197-205 | after a successful loop, each file of an asset directory is below the directory's name in the output folder with its scratch content |
| Archive.MoveAssetsKeepsOld | src/mineru_mcp_server/main.py:197-205 | an output file below an asset name keeps its content when no directory of that name brings a file of the same relative path |
| Archive.MoveAssetsNothingElse | src/mineru_mcp_server/main.py:197-205 | every output file after the loop was already there or came from the scratch tree: its first name is an asset directory's name and the rest of its path is a file of that directory |
| Archive.KindsAreSound | src/mineru_mcp_server/main.py:168 | everything classified as an asset directory has an asset directory name |
| Archive.HandleArchive | src/mineru_mcp_server/main.py:160-211 | a success always names the saved `{stem}.md` or `{stem}.html`, and anything else is an error; a missing HTML or Markdown document is an error that leaves the output folder untouched |
| Archive.DownloadOutcome | src/mineru_mcp_server/main.py:146-227 | one `download` record for the file; a failed fetch is a download error and an unreadable archive a processing error, and neither changes the output folder |
| Archive.Handle | src/mineru_mcp_server/main.py:160-211 | the steps after unpacking, in the source's order |
| Archive.DownloadAndExtract | src/mineru_mcp_server/main.py:146-227 | `download_and_extract` returns the record and the output folder `Archive.DownloadOutcome` defines |
| Archive.DownloadOneRecord | src/mineru_mcp_server/main.py:171-225 | every way out yields one `download`-stage record for the file, which is a success exactly when it names the saved `{stem}.md` or `{stem}.html` |
| Archive.DownloadMissingDocument | src/mineru_mcp_server/main.py:171-184 | an archive without the document the format needs gives an error, and nothing is moved |
| Archive.DocumentNameIsNoAssetName | src/mineru_mcp_server/main.py:193-200 | a document name never collides with an asset directory name |
| Archive.HandleSavesDocument | src/mineru_mcp_server/main.py:192-205 | after a success, the document, as renamed and rewritten, is in the output folder at its final name, even after the asset moves |
| Archive.HandleSuccessSteps | src/mineru_mcp_server/main.py:171-211 | a success went through every step: known format, renaming, placing the document, and every asset move, and its output folder is what the moves leave |
| Archive.AssetDirInScratch | src/mineru_mcp_server/main.py:168-169 | each collected asset directory is a directory of the unpacked tree |
| Archive.PlaceThenMove | src/mineru_mcp_server/main.py:196-205 | placing the document and then moving the asset directories puts each other file of an asset directory below the directory's name in the output folder |
| Archive.HandleMovesAssets | src/mineru_mcp_server/main.py:160-205 | after a success, each file of an asset directory, as renamed, other than the document, is below the directory's name in the output folder with its content |
| Archive.DownloadSavesDocument | src/mineru_mcp_server/main.py:192-211 | after a successful download, the document, as renamed and rewritten, is at `{stem}{ext}` in the output folder, or inside the directory of that name when there is one, with its content |
| Poller.DownloadsApply | src/mineru_mcp_server/main.py:295 | handling a "done" result is a call of `download_and_extract` |
| Poller.DownloadsSound | src/mineru_mcp_server/main.py:295 | the download gives back a record for the file it was asked about, and a success only in the `download` stage |
| Poller.Step | src/mineru_mcp_server/main.py:278-307 | processing a result never adds or removes expected names |
| Poller.StepAll | src/mineru_mcp_server/main.py:278-307 | processing a reply never adds or removes expected names |
| Poller.Rounds | src/mineru_mcp_server/main.py:271-309 | the polling loop never adds or removes expected names |
| Poller.Pending | src/mineru_mcp_server/main.py:267 | `completed` starts with every expected name and all of them pending |
| Poller.CountDone | src/mineru_mcp_server/main.py:271 | no more names are terminal than there are names |
| Poller.CountDoneMark | src/mineru_mcp_server/main.py:296-307 | marking a pending name terminal counts it once |
| Poller.CountForSnoc | src/mineru_mcp_server/main.py:286-306 | appending one record adds to its name's count only |
| Poller.Complete | src/mineru_mcp_server/main.py:286-307 | making a pending name terminal with one record keeps the loop invariant, see `Poller.Inv` |
| Poller.StepInv | src/mineru_mcp_server/main.py:279-307 | each result keeps the invariant: every terminal name has one record, every pending one none, and a success is always a download |
| Poller.StepAllInv | src/mineru_mcp_server/main.py:278-307 | each reply keeps the invariant |
| Poller.RoundsInv | src/mineru_mcp_server/main.py:271-309 | the polling loop keeps the invariant |
| Poller.Timeouts | src/mineru_mcp_server/main.py:310-319 | the closing loop adds at most one record per expected name |
| Poller.TimeoutsTimedOut | src/mineru_mcp_server/main.py:310-319 | every record of the closing loop is a `convert`-stage timeout error |
| Poller.TimeoutsSpec | src/mineru_mcp_server/main.py:310-319 | one timeout error for each name still pending, none for the others |
| Poller.CountForAppend | src/mineru_mcp_server/main.py:310-319 | per-name counts add up over concatenated record lists |
| Poller.FinalRecords | src/mineru_mcp_server/main.py:310-320 | after the timeouts, every expected name has exactly one record and no other name has any |
| Poller.PollOneRecordEach | src/mineru_mcp_server/main.py:260-320 | `poll_results` gives every distinct expected name exactly one record and no other name any, so there are as many records as distinct names, and every success is a download |
| Poller.PollResults | src/mineru_mcp_server/main.py:260-320 | only a status request can raise, so with no request left the poll cannot fail |
| Poller.PollWithoutTime | src/mineru_mcp_server/main.py:267-320 | with no status request allowed, nothing is downloaded, the output folder is unchanged, every record is a timeout error, and each expected name has exactly one record and no other name any, so there are as many records as distinct names |
| Poller.CountDoneNone | src/mineru_mcp_server/main.py:267 | at the start no name is terminal |
| Poller.StepSkips | src/mineru_mcp_server/main.py:280-281 | a result for an unknown or already terminal name changes nothing |
| Poller.ProcessResult | src/mineru_mcp_server/main.py:279-307 | one result is skipped or handled: "done" downloads or records a missing link, "failed" records the error message or the default one, and any other state is ignored |
| Poller.ProcessReply | src/mineru_mcp_server/main.py:278-307 | the results of one reply are processed in order |
| Poller.AddTimeouts | src/mineru_mcp_server/main.py:310-319 | the closing loop appends the timeout records in the order of the expected names |
| Poller.RunRounds | src/mineru_mcp_server/main.py:271-309 | the `while` loop makes at most `fuel` status requests, stops once every name is terminal, and raises on a failed request or a non-zero code |
| Poller.Poll | src/mineru_mcp_server/main.py:260-320 | `poll_results` returns the loop's records followed by the timeouts, or the error it raises |
| Orchestrator.FirstNonPdf | src/mineru_mcp_server/main.py:379-383 | the position of the first suffix that is not ".pdf": all before it are ".pdf", and the one there is not |
| Orchestrator.Prechecks | src/mineru_mcp_server/main.py:366-385 | the run goes on only with a token, a supported format and a non-empty list; the only early success is the empty-list report |
| Orchestrator.Submitted | src/mineru_mcp_server/main.py:400-420 | after the checks, the only errors come from the upload-URL request, its reply, or the polling; every report counts all the files |
| Orchestrator.CheckPdfSuffixes | src/mineru_mcp_server/main.py:379-383 | the suffix loop stops at the first file that is not a PDF |
| Orchestrator.RunPrechecks | src/mineru_mcp_server/main.py:366-385 | the checks run in the source's order: token, format, empty list, suffixes, then duplicates when asked for |
| Orchestrator.ConvertPdfFiles | src/mineru_mcp_server/main.py:348-420 | `convert_pdf_files_with_mineru` returns the report, or the error it raises, and the output folder, as `Orchestrator.ConvertOutcome` defines them |
| Orchestrator.ConvertOutcome | src/mineru_mcp_server/main.py:348-420 | a report is produced only with a token and a supported format; it always counts every given file, and it carries the "no PDF" note exactly when no file was given |
| Orchestrator.Submit | src/mineru_mcp_server/main.py:400-420 | request the URLs, upload, return early when no upload succeeded, else poll and report |
| Orchestrator.MissingTokenFirst | src/mineru_mcp_server/main.py:366-368 | without a token the run fails before anything else is looked at |
| Orchestrator.NotAPdfIsFirst | src/mineru_mcp_server/main.py:379-383 | a file is rejected as no PDF exactly when some file's lowered suffix is not ".pdf", and the file named is the first such file |
| Orchestrator.DuplicatesRejected | src/mineru_mcp_server/main.py:384-385 | once every suffix is ".pdf", the run fails on repeated names exactly when the check is asked for and two files share a base name |
| Orchestrator.SubmittedCounts | src/mineru_mcp_server/main.py:402-420 | `pdf_total` is the number of files, and `completed <= uploaded <= pdf_total`; the upload records come first and hold `uploaded` successes; in a full report the rest holds one record per uploaded name, `completed` of them successes |
| Orchestrator.ConvertCounts | src/mineru_mcp_server/main.py:348-420 | every report of the whole conversion has the counts `SubmittedCounts` states |
| Orchestrator.ConvertEmpty | src/mineru_mcp_server/main.py:371-378 | with a token and a supported format, an empty list gives the all-zero "nothing to convert" report and leaves the output folder alone |
| Orchestrator.SubmittedAllUploadsFailed | src/mineru_mcp_server/main.py:402-410 | when no upload succeeds, nothing is polled: the report holds only the upload records, counts nothing as uploaded or completed, and the output folder is unchanged |

## Left out

- Network I/O (`requests.post`, `put` and `get`, and `raise_for_status`) is left out. Each service's answer is a parameter: the upload-URL reply (`None` when the request raises), `putOk` for an upload, `fetch` for an archive, and the status replies by request number.
- The HTTP headers, the bearer token's value, and the request body fields `language`, `enable_table`, `is_ocr` and `pdf_folder` are left out. They influence nothing the client decides; the request keeps only the names and the extra formats.
- Zip decoding and `extractall` are left out: an archive arrives already unpacked as a sequence of entries, and one that cannot be decoded arrives as `NotAZip`.
- The `uuid` scratch directory is a separate tree, and its final `rmtree` amounts to dropping that tree. A scratch directory that is always removed cannot clash with the output folder.
- Time (`time.monotonic`, `time.sleep`) is left out: the deadline is a number of status requests (`fuel`). How many requests fit into `max_wait` is not modelled.
- The float clamps `max(1.0, poll_interval)` and `max(60.0, max_wait)` are left out, since the interval and the deadline are not modelled.
- The CLI, the transport, the FastMCP tool registration and the thin tool wrappers around `convert_pdf_files_with_mineru` are not part of this model.
- `list_pdf_files` is left out because it depends on `glob`. `expanduser` is left out as well.
- Sorting the input paths is left out (`sorted(...)` in `convert_pdf_files_with_mineru`). The model takes the paths in the order given, as already sorted.
- The `exists()`/`is_file()` checks on the input PDFs are left out: every given path is taken to be an existing file.
- The output folder's `mkdir` is left out, and so is the `mkdir` of the document's parent. The output folder is a tree that exists.
- Exception messages and the Chinese message texts are left out. Each record's message is a `Message` value, and errors are datatypes; the library's exception text `{exc}` is dropped.
- `str.strip()` and `str.lower()` are modelled over ASCII only: the whitespace is space, `\t`..`\r` and `\x1c`..`\x1f`, and only `A`..`Z` are lowered.
- `pathlib` is modelled for POSIX paths split on '/' only. A PDF path is a pair (parent, name), and `Path.suffix` follows Python 3.12's rule.
- A directory entry is modelled only as a file or a directory: symbolic links and other kinds of entry are left out.
- The listing of an unpacked archive is taken as given, entry by entry. The order of `rglob` is part of the input.
- A failure inside `shutil.move`, `copytree` or `rmtree` beyond the ones modelled is left out. Modelled are a missing document, a document name already taken inside a same-named directory, and an asset name taken by a file; what a partial copy leaves behind is not modelled.
- Trees.MoveDir: the result tree may hold a path as both a file and a directory when the destination had a file where an incoming directory lands. Python would raise there; the model does not.
- Formats.NormalizeOutputFormat: the error `UnsupportedOutputFormat(given)` carries the rejected input so that the model can state which inputs are rejected; the source raises one fixed message that does not mention the input.
- Uploads.UploadFiles: an `OSError` from opening a PDF (`file_path.open("rb")`, main.py:123) is not caught by `upload_files` and would end the whole run; the model has every path be a readable file, as stated above, so this error path does not arise in it.
- AssetRenamer.RenameAllDirsPlaces: it assumes the asset directories are distinct, no later one has the same last name, no last name contains '/', and no new name in a directory equals another image's old name. `NumberingUnclashing` covers the last hypothesis except when a file already carries a `{base}_{i}{ext}` name. Outside these hypotheses, files can be overwritten and map keys rebound; the lemma does not describe that case.
- Archive.MoveAssetsPlaces: it assumes the directory is in the scratch tree, lies neither below nor above any other asset directory, and no later asset directory has the same name. Outside these hypotheses a later directory may overwrite the file or move it away first; the lemma does not describe that case. `MoveAssetsKeepsOld` and `MoveAssetsNothingElse` hold without them.
- Archive.HandleMovesAssets: the same hypotheses as `MoveAssetsPlaces`, on the collected asset directories. The unpacked tree puts every collected directory in the scratch tree, so that hypothesis is discharged.
- AssetRenamer.RenameAssetsPlaces: the same hypotheses as `RenameAllDirsPlaces`. An image whose new path is also one of the text files has its content rewritten, and the lemma then states only that the path exists.
