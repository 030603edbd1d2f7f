# bagger asset packager — a Dafny model

bagger prepares the static files of a web application for deployment. It has
five parts, and this project models each of them:

- **`Bagit::FileList`** lists the files and directories below a source
  directory, leaving out every path that matches an exclusion pattern. The
  list is computed once and then remembered.
- **`Bagger::Packager`** copies every file to the target directory. Each copy
  gets a revisioned name: `.<revision><suffix>` goes before the extension.
  The packager records the new url and the size of every file in the
  file-info table (`@file_info`). When a combined stylesheet is configured,
  the packager builds the map that the url rewriter works from. It then
  renames the combined stylesheet after the first eight characters of its
  digest and records it in the table as well.
- **`Bagger::CssPackager`** concatenates the stylesheets of a directory in
  sorted path order, with a blank line between them. From each stylesheet it
  drops the `@import url(...)` lines that name no absolute URI. An excluded
  file leaves an empty slot.
- **`Bagit::CssUrlChanger`** handles every line of a stylesheet. It takes the
  first quoted, colon-free `url(...)` of the line. It resolves the url
  against the stylesheet's directory, as `File.expand_path` does. When the
  map has a url for the resolved path, it replaces the first literal
  occurrence of the payload in the line with that url. Like every `sub` in
  the program, it reads backslash escapes such as `\0` in the replacement.
- **`Bagger::FTPSync`** works on a remote FTP directory tree:
  - it deletes old revisions from the tree;
  - it deletes the files that are not in a manifest;
  - it syncs a local tree to the remote tree in one direction only.

How the model is built:

- The FTP server and the local disk are tree values. Every FTP operation is
  a function that returns the sequence of commands it would send
  (`Delete`, `Upload`, `MakeDir`). Each command carries the directory it is
  issued in.
- Ruby hashes keep their keys in insertion order. They are modelled as
  sequences of rows (`Table`), with `Get`/`Put` and a view as a `map`.
- The Ruby path functions the code calls (`File.basename`, `dirname`,
  `extname`, `join` and `expand_path`) are written out in `RubyPath`. They
  follow Ruby on a Unix system. `File.extname` follows Ruby 1.9: the
  basename's leading dots are skipped, and a name that ends in a dot has no
  extension.
- The regular expressions the core uses are written as predicates that
  state where the pattern matches. A matcher function is proved equal to
  each predicate:
  - `url\(['"]([^:]+)['"]\)`;
  - `@import\s+url\(.+\)`;
  - `\.[0-9]{1,5}[^<suffix>]?\.`.
- Some inputs come from code outside the model, so they are parameters:
  - the revision control system's answer for a path;
  - `File.size`;
  - the MD5 digest;
  - `URI.extract`;
  - the user's exclusion patterns;
  - the directory enumerations;
  - the process working directory.

Files:

- `file_list.dfy`: module `AssetFileList`.
- `packager.dfy`: module `BaggerPackager`.
- `css_packager.dfy`: module `CssPackager`.
- `css_url_changer.dfy`: module `CssUrlChanger`.
- `ftp_sync.dfy`: module `FtpSync`.
- `ruby_path.dfy`: module `RubyPath`.
- `strings.dfy`: module `Strings`, for lines, joins, first occurrence and `Array#-`.
- `wrappers.dfy`: module `Wrappers`, for `Option` and `Result`.

## Model

| member | source | states |
|---|---|---|
| AssetFileList.FileList.constructor | lib/bagit/file_list.rb:4-7 | a new list keeps the source directory and the pattern, and nothing is calculated yet |
| AssetFileList.FileList.CalculateList | lib/bagit/file_list.rb:29-42 | the walk leaves `list`, `files` and `directories` equal to the selections of the enumeration, and returns `list` |
| AssetFileList.FileList.Files | lib/bagit/file_list.rb:9-14 | returns the non-excluded file paths; the list is calculated only if it was not calculated before |
| AssetFileList.FileList.Directories | lib/bagit/file_list.rb:16-21 | returns the non-excluded directory paths; the list is calculated only if it was not calculated before |
| AssetFileList.FileList.List | lib/bagit/file_list.rb:23-25 | `@list \|\|= calculate_list`: returns all non-excluded paths and calculates at most once |
| AssetFileList.SelectedSnoc | lib/bagit/file_list.rb:34-38 | one more enumerated path is appended to exactly the lists that want it |
| AssetFileList.SelectedMembership | lib/bagit/file_list.rb:35-37 | a path is listed iff some enumerated entry has it, is not excluded and has the right kind |
| AssetFileList.ExcludedNowhere | lib/bagit/file_list.rb:35 | a path the pattern matches is in none of `list`, `files`, `directories` |
| AssetFileList.KeptPerPath | lib/bagit/file_list.rb:35 | exclusion is decided path by path: a path the pattern does not match is listed, whatever happened to its parent |
| AssetFileList.NoPatternKeepsAll | lib/bagit/file_list.rb:35 | without a pattern `list` is the whole enumeration, in order |
| AssetFileList.SelectedInOrder | lib/bagit/file_list.rb:34-38 | each list is a subsequence of the enumeration |
| AssetFileList.ListIsPartitioned | lib/bagit/file_list.rb:36-37 | `list` is, as a multiset, exactly `files` plus `directories` |
| AssetFileList.ExactlyOneKind | lib/bagit/file_list.rb:36-37 | every listed path is in `files` iff it is not a directory and in `directories` iff it is |
| BaggerPackager.Get | lib/bagit/css_url_changer.rb:26 | a hash lookup finds a value iff the key is one of the hash's keys |
| BaggerPackager.AsMap | lib/bagger/packager.rb:101-105 | the hash seen as a map has the same keys and values as lookups in the hash |
| BaggerPackager.PutGet | lib/bagger/packager.rb:21 | after `h[key] = v`, `h[key]` is `v` and every other key keeps its value |
| BaggerPackager.PutKeys | lib/bagger/packager.rb:21 | an existing key keeps its place; a new key goes last |
| BaggerPackager.PutDistinct | lib/bagger/packager.rb:21 | storing keeps the keys distinct |
| BaggerPackager.Prefix | lib/bagger/packager.rb:109 | `s[0, n]` is the first `min(n, \|s\|)` characters of `s` |
| BaggerPackager.TargetPaths | lib/bagger/packager.rb:60-62 | one target path per directory, `File.join(target_dir, d)`, in order |
| BaggerPackager.Packager.constructor | lib/bagger/packager.rb:4-13 | the options are stored (the suffix defaults to ""); the file list is new and not calculated |
| BaggerPackager.Packager.Package | lib/bagger/packager.rb:15-33 | makes the target directories of the listed directories and copies the listed files to their revisioned names; `@file_info` has one row per file, in order, and one more row for the combined stylesheet only when one is configured; the map handed to the rewriter is built before that row is added |
| BaggerPackager.Packager.CopyFiles | lib/bagger/packager.rb:17-22 | the loop leaves `@file_info` equal to the rows of the files in order, with distinct keys, and makes one copy per file |
| BaggerPackager.Packager.ProcessCombinedCss | lib/bagger/packager.rb:100-104 | the loop builds the rewriter's hash: each row of `@file_info` re-keyed by its target path, holding only its url |
| BaggerPackager.Packager.UpdateFileInfoForCombinedCss | lib/bagger/packager.rb:116-119 | the combined stylesheet's row is stored under its configured path and the keys stay distinct |
| BaggerPackager.RevisionBeforeExtension | lib/bagger/packager.rb:70-86 | `stem.e` becomes `stem.<rev><suffix>.e`, or `stem<suffix>.e` without a revision, when no part holds a backslash |
| BaggerPackager.RevisionAppendedWithoutExtension | lib/bagger/packager.rb:74-75 | a name without a dot gets `.<rev><suffix>` appended |
| BaggerPackager.RevisionAtFirstOccurrence | lib/bagger/packager.rb:73 | the versioned extension, with its backslash escapes read by `sub`, replaces the first occurrence of the extension text, which is no later than the extension itself; the rest of the name is kept |
| BaggerPackager.MatchEscapeRepeatsExtension | lib/bagger/packager.rb:73 | a `\0` in the suffix stands for the matched extension: `stem.e` becomes `stem.<rev>.e.e` (`bar.png` at 1956 becomes `bar.1956.png.png`) |
| BaggerPackager.EarlierOccurrenceVersioned | lib/bagger/packager.rb:73 | when the extension text also occurs earlier, that earlier place is versioned (`a.jst.js` becomes `a.<rev>.jst.js`) |
| BaggerPackager.NoRevisionNoSuffixUnchanged | lib/bagger/packager.rb:82-85 | without a revision and with an empty suffix every name whose extension holds no backslash is kept |
| BaggerPackager.DigestedCssName | lib/bagger/packager.rb:109-111 | the renamed combined file is `<basename without .css>.<first 8 digest chars>.css` |
| BaggerPackager.BuildTableGet | lib/bagger/packager.rb:17-22 | after the loop, `@file_info[f]` is the row of `f` for every listed file and nil for any other key |
| BaggerPackager.BuildTableKeys | lib/bagger/packager.rb:17-22 | the keys of `@file_info` are the listed files, in order |
| BaggerPackager.RewriterKeys | lib/bagger/packager.rb:100-104 | the rewriter's hash has one key per row of `@file_info`: the target path of that row, in order |
| BaggerPackager.RewriterGet | lib/bagger/packager.rb:102-104 | under each row's target path the rewriter's hash holds that row's url and nothing else |
| BaggerPackager.RewriterMapsPackagedFiles | lib/bagger/packager.rb:100-105 | the map handed to the rewriter sends the target path of every packaged file to its revisioned url |
| BaggerPackager.CombinedUrlIsDirectoryJoin | lib/bagger/packager.rb:117-118 | the combined stylesheet's url is its configured directory joined with the new name |
| BaggerPackager.TopLevelCombinedUrl | lib/bagger/packager.rb:117-118 | a combined stylesheet right in the target directory gets the url `/` + name |
| CssPackager.MatchesImport | lib/bagger/css_packager.rb:29 | the matcher says yes iff `@import\s+url\(.+\)` matches somewhere in the line |
| CssPackager.ImportAtSpec | lib/bagger/css_packager.rb:29 | the matcher at one position agrees with the pattern at that position |
| CssPackager.ImportFromSpec | lib/bagger/css_packager.rb:29 | the search from a position agrees with the pattern from that position on |
| CssPackager.Slots | lib/bagger/css_packager.rb:22-23 | one slot per path: "" for an excluded path, the processed file otherwise |
| CssPackager.KeptLinesSpec | lib/bagger/css_packager.rb:28-30 | a line is kept iff it does not both match the pattern and lack a URI; the kept lines are in their order |
| CssPackager.KeptLine | lib/bagger/css_packager.rb:28-30 | a single line is kept exactly when it is not dropped |
| CssPackager.KeptLinesAppend | lib/bagger/css_packager.rb:28-30 | the kept lines of `a + b` are those of `a` followed by those of `b`, so each kept line keeps its place and its repetitions |
| CssPackager.NothingDroppedUnchanged | lib/bagger/css_packager.rb:28-30 | a file none of whose lines is dropped comes out as it went in: nothing is added between lines |
| CssPackager.ImportLineDropped | lib/bagger/css_packager.rb:29 | a line starting `@import url(<target>)` without a URI is dropped |
| CssPackager.WithoutImportKept | lib/bagger/css_packager.rb:29 | a line without `@import` is never dropped |
| CssPackager.ExclusionLeavesEmptySlot | lib/bagger/css_packager.rb:22-24 | excluding a file gives the same output as packaging it as an empty file |
| CssPackager.FilesInPathOrder | lib/bagger/css_packager.rb:21-24 | every non-excluded file's text is in the output, in path order |
| CssPackager.OutputLength | lib/bagger/css_packager.rb:24 | the output is the slots plus one two-character separator between each two |
| CssUrlChanger.LongestCapture | lib/bagit/css_url_changer.rb:24 | the capture found at a position is the longest one that matches there |
| CssUrlChanger.FindUrlFrom | lib/bagit/css_url_changer.rb:24 | the search from `i` finds the leftmost match there with its longest capture, and finds none when there is none |
| CssUrlChanger.FindUrl | lib/bagit/css_url_changer.rb:24 | `line.match`: a match is found iff the pattern matches; it is the leftmost one, with the longest capture |
| CssUrlChanger.Capture | lib/bagit/css_url_changer.rb:24-26 | `match[1]` is the colon-free text right after `url(` and the quote |
| CssUrlChanger.ProcessLines | lib/bagit/css_url_changer.rb:22-31 | the lines keep their number and order, and each is processed on its own |
| CssUrlChanger.ProcessLinesWithMap | lib/bagit/css_url_changer.rb:22-31 | the array is rewritten in place, each element by its own processing |
| CssUrlChanger.ProcessFileWithMap | lib/bagit/css_url_changer.rb:4-12 | the new text is the processed lines of the file, joined, resolved against the file's directory; a text without matches is written back unchanged |
| CssUrlChanger.ProcessedEach | lib/bagit/css_url_changer.rb:22-31 | lines rewritten one by one are the processed lines |
| CssUrlChanger.UnmatchedLinesKept | lib/bagit/css_url_changer.rb:23-30 | lines without a match come out unchanged |
| CssUrlChanger.NoMatchUnchanged | lib/bagit/css_url_changer.rb:23-28 | a line without a quoted, colon-free `url(...)` is unchanged |
| CssUrlChanger.ColonPayloadUntouched | lib/bagit/css_url_changer.rb:24 | a url reaching a colon before a quote (`http://`, `data:`) is not matched; as the line's only `url(` it leaves the line unchanged |
| CssUrlChanger.ProcessLineRewrites | lib/bagit/css_url_changer.rb:26-27 | with a url for the resolved path, the first occurrence of the payload (no later than the match) is replaced by the url with its `sub!` escapes read, in that one place only; a url without a backslash goes in as it is |
| CssUrlChanger.ProcessLineKeeps | lib/bagit/css_url_changer.rb:26-27 | without a url for the resolved path the line is unchanged |
| CssUrlChanger.DotRelativeKey | lib/bagit/css_url_changer.rb:26 | `./x` in `<dir>/<name>.css` is looked up as `<dir>/x` |
| FtpSync.HasCapital | lib/bagger/ftp_sync.rb:43 | `/[A-Z]/ =~ s` holds iff some character of `s` is a capital letter |
| FtpSync.CleanUp | lib/bagger/ftp_sync.rb:40-46 | fails with `ArgumentError` iff the suffix is missing or has no capital letter |
| FtpSync.RevisionMatchFound | lib/bagger/ftp_sync.rb:78 | wherever the deletion pattern matches, the search finds a match |
| FtpSync.RevisionMatchWitness | lib/bagger/ftp_sync.rb:78 | whatever the search finds is a match of the deletion pattern |
| FtpSync.TwoDotName | lib/bagger/ftp_sync.rb:78 | `stem.mid.ext` is deleted iff `mid` is 1 to 5 digits, maybe followed by one character outside the suffix |
| FtpSync.ListingNameOfColumns | lib/bagger/ftp_sync.rb:170 | the name taken from an `ls -l` line is what follows its eight columns |
| FtpSync.ClassifyFiles | lib/bagger/ftp_sync.rb:168-177 | the remote files are exactly the names of the `-` lines |
| FtpSync.ClassifyDirs | lib/bagger/ftp_sync.rb:168-177 | the remote directories are exactly the names of the `d` lines |
| FtpSync.LocalListing | lib/bagger/ftp_sync.rb:152-163 | every local entry is either a file or a directory |
| FtpSync.LocalListingMembership | lib/bagger/ftp_sync.rb:152-163 | the local files are the file entries and the local directories are all other entries |
| FtpSync.DeleteOld | lib/bagger/ftp_sync.rb:77-82 | one listing's deletes are the files that look like an old revision, and none in a dry run |
| FtpSync.CleanUpFolder | lib/bagger/ftp_sync.rb:74-87 | cleaning only deletes, and never in a dry run |
| FtpSync.CleanUpDeletes | lib/bagger/ftp_sync.rb:74-87 | the files deleted are exactly the old-revision files of the whole tree, and none in a dry run |
| FtpSync.CleanUpDirsDeletes | lib/bagger/ftp_sync.rb:83-85 | the same holds for the cleaning of the listed directories |
| FtpSync.DeleteUnlisted | lib/bagger/ftp_sync.rb:59-67 | one listing's deletes are the files whose full path is not in the manifest, and none in a dry run |
| FtpSync.CleanUpWithManifest | lib/bagger/ftp_sync.rb:56-72 | manifest cleaning only deletes, and never in a dry run |
| FtpSync.ManifestDeletes | lib/bagger/ftp_sync.rb:56-72 | the files deleted are exactly the files of the whole tree whose full path is not in the manifest, and none in a dry run |
| FtpSync.ManifestDirsDeletes | lib/bagger/ftp_sync.rb:68-70 | the same holds for every subdirectory visited |
| FtpSync.PutAll | lib/bagger/ftp_sync.rb:114-116 | one upload per name, in the order of the names, into the current directory |
| FtpSync.UploadFolder | lib/bagger/ftp_sync.rb:102-120 | uploading a folder never deletes and stays inside the new folder |
| FtpSync.UploadDirs | lib/bagger/ftp_sync.rb:110-112 | uploading the subfolders never deletes and stays inside them |
| FtpSync.SyncFolder | lib/bagger/ftp_sync.rb:122-150 | a sync never deletes and stays inside its directory |
| FtpSync.SyncDirs | lib/bagger/ftp_sync.rb:144-146 | syncing the existing directories stays inside them |
| FtpSync.UploadPuts | lib/bagger/ftp_sync.rb:102-120 | an uploaded folder puts exactly the files of the local tree below it |
| FtpSync.UploadDirsPuts | lib/bagger/ftp_sync.rb:110-112 | uploading the subfolders puts exactly the files below them |
| FtpSync.UploadMakesDirs | lib/bagger/ftp_sync.rb:102-120 | an uploaded folder makes itself and exactly the local directories below it |
| FtpSync.UploadDirsMakeDirs | lib/bagger/ftp_sync.rb:110-112 | uploading the subfolders makes them and exactly the directories below them |
| FtpSync.SyncPuts | lib/bagger/ftp_sync.rb:131-146 | a sync puts exactly the local files that the remote tree lacks at the same place; existing files are not put again |
| FtpSync.SyncMakesDirs | lib/bagger/ftp_sync.rb:131-146 | a sync makes exactly the local directories that the remote tree lacks at the same place |
| RubyPath.ExtName | lib/bagger/packager.rb:71 | `File.extname` is empty or a dot and dot-free, slash-free text found in the path where the extension starts |
| RubyPath.ExtNameOfStemExt | lib/bagger/packager.rb:71 | the extension of `stem.e` is `.e` |
| RubyPath.ExtNameWithoutDot | lib/bagger/packager.rb:71-75 | a name without a dot has no extension |
| RubyPath.BaseNameOfJoin | lib/bagger/packager.rb:32 | `File.basename(File.join(a, n))` is `n` for a single component `n` |
| RubyPath.JoinDirNameBaseName | lib/bagger/packager.rb:111 | `File.join(File.dirname(p), File.basename(p))` is `p` when `p` has a directory part and no doubled or trailing slash |
| RubyPath.DirNameOfChild | lib/bagger/packager.rb:111 | `File.dirname(d + "/" + n)` is `d` |
| RubyPath.DirNameOfTopLevel | lib/bagger/packager.rb:117 | the directory of `/name` is `/` |
| RubyPath.JoinInjective | lib/bagger/packager.rb:103 | joining the target directory with different relative paths gives different keys |
| RubyPath.ExpandPlainFromRoot | lib/bagger/packager.rb:117 | a relative path of plain components expands against `/` to `/` followed by the path |
| RubyPath.DirNameNotHomeRelative | lib/bagit/css_url_changer.rb:5 | the directory of a path not starting with `~` does not start with `~` |
| RubyPath.DirNameOfRendered | lib/bagit/css_url_changer.rb:5 | the directory of a normal file path is its parent's path |
| RubyPath.ExpandNormalIsIdentity | lib/bagit/css_url_changer.rb:26 | an absolute path that is already normal expands to itself |
| RubyPath.ExpandRelative | lib/bagit/css_url_changer.rb:26 | a relative path is resolved on top of the resolved directory |
| RubyPath.ExpandPathIsNormal | lib/bagit/css_url_changer.rb:26 | `expand_path` returns a path without empty, `.` or `..` components |
| RubyPath.ExpandAgainstExpandedDir | lib/bagit/css_url_changer.rb:26 | expanding against a directory is the same as expanding against the directory's expansion |
| RubyPath.ExpandPlainRelative | lib/bagit/css_url_changer.rb:26 | `image/x.png` against `/css` is `/css/image/x.png` |
| RubyPath.ExpandDotRelative | lib/bagit/css_url_changer.rb:26 | a leading `./` changes nothing |
| RubyPath.ExpandParentRelative | lib/bagit/css_url_changer.rb:26 | a leading `../` steps out of the last directory component |
| RubyPath.SplitJoin | lib/bagit/css_url_changer.rb:26 | cutting slash-joined components at the slashes gives back the components |
| RubyPath.JoinSplit | lib/bagit/css_url_changer.rb:26 | joining the pieces of a path cut at its slashes gives back the path |
| RubyPath.SplitSlashConcat | lib/bagit/css_url_changer.rb:26 | cutting `x/y` gives the pieces of `x` followed by those of `y` |
| RubyPath.ResolveAppend | lib/bagit/css_url_changer.rb:26 | resolving two runs of components one after the other is resolving them together |
| RubyPath.ResolveRender | lib/bagit/css_url_changer.rb:26 | resolving a normal path gives back its components |
| Strings.ConcatSplitLines | lib/bagit/css_url_changer.rb:7-9 | joining the lines `readlines` gives back the whole text |
| Strings.SplitLinesAreLines | lib/bagger/css_packager.rb:28 | `readlines` gives non-empty lines; each ends in its only newline, and only the last line may lack one |
| Strings.IndexOf | lib/bagit/css_url_changer.rb:27 | finds the first occurrence of the pattern, and none when there is none |
| Strings.ReplaceFirstAt | lib/bagit/css_url_changer.rb:27 | `sub` replaces the first occurrence and keeps everything around it |
| Strings.SubBefore | lib/bagger/packager.rb:73 | given any occurrence, `sub` replaces the first occurrence, which is no later, by the replacement with its escapes read (a replacement without a backslash as it is), and keeps the text after the given occurrence |
| Strings.SubAtEnd | lib/bagger/packager.rb:73 | a pattern found only at the end is where `sub` replaces |
| Strings.SubLiteral | lib/bagit/css_url_changer.rb:27 | with no backslash in the replacement, `sub` is the plain first-occurrence replacement |
| Strings.SubExpandLiteral | lib/bagit/css_url_changer.rb:27 | a replacement without a backslash is inserted as it is |
| Strings.SubExpandLiteralPrefix | lib/bagit/css_url_changer.rb:27 | a backslash-free start of a replacement is inserted as it is, before the expansion of the rest |
| Strings.MatchEscapeExpands | lib/bagger/packager.rb:73 | `\0` in a replacement stands for the matched text |
| Strings.ReplaceFirstSame | lib/bagger/packager.rb:73 | replacing a text by itself changes nothing |
| Strings.ReplaceFirstAtEnd | lib/bagger/packager.rb:73 | a text found only at the end is replaced there |
| Strings.JoinWithContains | lib/bagger/css_packager.rb:24 | every part is in the joined text |
| Strings.JoinWithOrdered | lib/bagger/css_packager.rb:24 | the parts are in the joined text in their order |
| Strings.JoinWithLength | lib/bagger/css_packager.rb:24 | joining n parts adds n - 1 separators |
| Strings.Minus | lib/bagger/ftp_sync.rb:131-134 | `a - b` keeps exactly the elements of `a` that are not in `b`, in order |
| Strings.MinusOne | lib/bagger/ftp_sync.rb:131-134 | a single element is kept exactly when it is not in `b` |
| Strings.MinusAppend | lib/bagger/ftp_sync.rb:131-134 | `(a1 + a2) - b` is `(a1 - b) + (a2 - b)`, so each kept element keeps its place and its repetitions |

## Left out

- FTP transport: connecting, logging in, passive mode, `put`, `mkdir`, `delete`, the `FTPPermError` rescue and its true/false result, and logging. These are network I/O and console output. A run is the sequence of commands it would send.
- `chdir` on both sides: a command carries the directory it is issued in, relative to the start. The server's working directory at the start of a manifest cleanup is the parameter `pwd`. The `chdir(target_dir)` before a cleanup or sync is taken as having been done: the trees passed in are the target directories.
- Remote directories are entered by name. The model enters the directory of the first `d` line that carries that name.
- The revision from `SVNInfo` and the MD5 digest: they come from an external program and a hash function, so they are parameters (`revisionOf`, `combinedDigest`).
- `File.size`, `Dir.glob` and `sort`: they read the disk, so sizes, enumerations and the sorted paths are inputs.
- Filesystem effects: `mkdir_p`, the copies, the rename, the in-place rewrite of a stylesheet, `CssPackager#package`'s write and `write_file_info_file` (JSON). `Package` returns the directories it would make and the copies it would do.
- `URI.extract` and the user's exclusion regular expressions: they are a library and user-supplied patterns, so they are predicates given as parameters.
- `process_directory_with_map`: it only applies `process_file_with_map` to every stylesheet a glob finds.
- `generate_file_list`: not part of the five parts above. `lib/bagger.rb` and `lib/bagger.old/runner.rb` are not part of this model either.
- `package_css`: it calls `CssPackager.new` with three arguments, but `CssPackager#initialize` takes one options hash. So `Packager.Package` does not call the CSS packager. It models the other steps of `combine_css`, each by its own definition. The combined file's digest is an input.
- `existing_files` in `sync_folder` is computed but never used.
- BaggerPackager.Packager.Package: requires that a configured combined stylesheet path does not start with `~`. This is because `File.expand_path` home expansion is not modelled.
- CssUrlChanger.ProcessLinesWithMap: requires that no matched payload starts with `~`, which would expand against a home directory. The same requirement applies to `CssUrlChanger.ProcessFileWithMap` and `CssUrlChanger.ProcessLines`.
- BaggerPackager.RevisionBeforeExtension: stated for a revision, suffix and extension without a backslash. With one, `sub` reads an escape in the versioned extension; `BaggerPackager.RevisionAtFirstOccurrence` states the general name and `BaggerPackager.MatchEscapeRepeatsExtension` shows one such case.
- BaggerPackager.EarlierOccurrenceVersioned: stated for a revision, suffix and extension without a backslash, for the same reason.
- BaggerPackager.NoRevisionNoSuffixUnchanged: stated for an extension without a backslash. `sub` would read a backslash in the extension as an escape, so such a name can change.
- Named group references `\k<name>` in a `sub` replacement: Ruby raises an error for them, because a string pattern has no named groups. `Strings.SubExpand` keeps them as written.
- CssUrlChanger.ColonPayloadUntouched: stated for a line whose only `url(` is the one with the colon. Another url on the same line can still be matched and rewritten.
- FtpSync.CleanUp: requires that the suffix to keep is made of letters and digits only. Inside the `[^...]` character class other characters would be regular-expression syntax.
- FtpSync.ListingNameOfColumns: stated for names that do not start with white space. `ListingName` removes only the match at the start of the line. A `gsub` would also remove a later match inside a name made of eight or more blank-separated fields.
