# Regulation pipeline of yiu-ops/MarkDown, modelled in Dafny

The repository keeps a university's regulation book as Markdown files, one file
per regulation. It lists them in a catalogue (`regulations.json`), refreshes them
from converted PDF/DOCX sources, repairs what the MDX compiler rejects, and
builds the Docusaurus sidebar. This project models the string-level core of
those scripts as pure Dafny functions over immutable values and proves what
they promise:

- **Title normalization** (`Normalize`). There are two normalizers. The basic
  one removes whitespace, `.`, `·` and `-` and lower-cases; it is used by
  `smart_update.py`, `process_regulation.py` and `regenerate_regulations_db.py`.
  The splitter's one also removes `()[]:` and the full-width colon.
- **Catalogue rebuild** (`Catalog`). Titles come from the first non-empty
  heading. Only `.md` files that are not backups are kept. Each entry gets its
  code, path and category. Entries are saved sorted by code, and categories are
  tallied.
- **Heading matcher** (`Matcher`). Leading `#`s are stripped. Then come the
  exact and space-removed tiers, the normalized tier and, for short lines only,
  the suffix tier.
- **Document splitter** (`Splitter`). It makes one walk over the lines with a
  "current code" cursor. It is written as a method whose loop invariant ties it
  to a declarative description of the blocks.
- **MDX sanitizer** (`Sanitize`) of `split_and_update.py`.
- **Compare-and-update** (`Update`). It skips unknown codes, rewrites a file iff
  the stripped texts differ, renames the old file to a backup and then sweeps
  the file's backups older than seven days, terminates written files with a
  newline, and keeps the counters. The file system is a map from path to text
  and age.
- **Backup retention** (`Backups`). File ages are a map from path to seconds;
  failed deletions are a set.
- **Single-file update** (`SmartUpdate`). It parses a code from the file name,
  looks up by code, does tiered title matching with a confidence, applies the
  code-first priority and the `< 0.8` confirmation gate.
- **Routing** (`Process`). It dispatches on the file extension, counts
  catalogue headings, and chooses the single or the split path.
- **MDX repair rewriters** (`MdxFix`) of `fix-mdx-issues.py`, with a small
  regex-substitution engine (`Sub`) and the write-iff-changed rule.
- **Sidebar builder** (`Sidebar`) of `generate-sidebar.js`, over an in-memory
  directory tree.

Shared helpers:

- `Text`: Python and JavaScript string operations.
- `Dict`: insertion-ordered dictionaries, because iteration order matters.
- `Sorting`: a stable sort by a string key, and the uniqueness of sorted
  permutations.
- `Wrappers`: `Option`.

The files form one program and are given to Dafny together:

```
dafny verify --resource-limit 2000000 --verification-time-limit 0 --warn-contradictory-assumptions *.dfy
```

## Model

| member | source | states |
|---|---|---|
| Normalize.NormalizeWith | scripts/split_and_update.py:36-38 | the normal form is never longer than the title and contains none of the characters its class removes |
| Normalize.DroppedNotKept | scripts/process_regulation.py:40-42 | a character of the removed class (whitespace, `.`, `·`, `-`) never occurs in the normal form, wherever it stood in the title |
| Normalize.NormalizeIdempotent | scripts/split_and_update.py:36-38 | normalizing a normal form changes nothing, for either character set |
| Normalize.KeepLower | scripts/smart_update.py:67-70 | removing the class and lower-casing commute, because lower-casing neither creates nor removes a removed character |
| Normalize.NormalizeAppend | scripts/smart_update.py:67-70 | normalization works character by character: the normal form of a concatenation is the concatenation of the normal forms |
| Normalize.RichOfBasic | scripts/split_and_update.py:38 | applying the splitter's normalizer after the basic one gives the splitter's normal form, since the splitter's class contains the basic one |
| Catalog.LineTitle | scripts/regenerate_regulations_db.py:20-25 | a line offers a title only when its stripped form starts with `#`, and the title it offers is never empty |
| Catalog.ExtractTitleFirst | scripts/regenerate_regulations_db.py:19-26 | the title is the one offered by the first line that offers one; heading lines with nothing after their markers are passed over |
| Catalog.ExtractTitleNone | scripts/regenerate_regulations_db.py:19-26 | there is no title when no line offers one |
| Catalog.HeadingTitleRoundTrip | scripts/regenerate_regulations_db.py:15-26 | a document whose first line is `# t`, for a title `t` without surrounding whitespace, has title `t` whatever follows |
| Catalog.LineTitleOfHeading | scripts/regenerate_regulations_db.py:20-25 | a heading line made of whitespace, one or more `#`, whitespace, a text `x` without surrounding whitespace and whitespace again offers `x`, and offers nothing when `x` is empty |
| Catalog.HeadingTitleDecided | scripts/regenerate_regulations_db.py:20-25 | every line whose stripped form starts with `#` has that shape, so the title it offers is the text after its markers, or nothing when there is none |
| Catalog.ExtractTitleFromMd | scripts/regenerate_regulations_db.py:15-26 | a title that is found is never empty |
| Catalog.NormalizeTitle | scripts/regenerate_regulations_db.py:31-35 | a missing title normalizes to the empty string, any other title to its basic normal form |
| Catalog.Kept | scripts/regenerate_regulations_db.py:43-69 | a file yields an entry iff its name ends in `.md`, does not contain `.backup.` and its text has a title. The entry keeps the file name; its code is the name with every `.md` removed; its title is the one `extract_title_from_md` finds and is normalized; its category is the directory with `regulations/` and `regulations\` removed; its path is the directory and the name joined by `/` with every `\` turned into `/` |
| Catalog.ScanFilesNone | scripts/regenerate_regulations_db.py:43 | a directory none of whose files is a non-backup `.md` file contributes no entry |
| Catalog.ScanFiles | scripts/regenerate_regulations_db.py:45-69 | every entry of a directory comes from one of its files, and every file that yields an entry has it listed |
| Catalog.ScanRegulations | scripts/regenerate_regulations_db.py:37-71 | the entries of the walk are exactly those the files of its directories yield |
| Catalog.ScanFilesByFile | scripts/regenerate_regulations_db.py:43-69 | the entries of a run of files are those of its parts in turn, and one file contributes exactly its entry or nothing: one entry per kept file, in listing order |
| Catalog.ScanRegulationsByListing | scripts/regenerate_regulations_db.py:41-71 | the entries of a walk are those of its directories in walk order, and one directory contributes the entries of its files |
| Catalog.CategoryOfSubdirectory | scripts/regenerate_regulations_db.py:60 | a directory `regulations/d` has category `d` when `d` itself contains neither `regulations/` nor `regulations\` |
| Catalog.CategoryOfTop | scripts/regenerate_regulations_db.py:60 | files directly in `regulations` get the category `regulations`, since there is no separator after the name to remove |
| Catalog.PathOfUnixName | scripts/regenerate_regulations_db.py:67 | a path without backslashes is recorded as the directory and the name joined by `/` |
| Catalog.CodeOfFileName | scripts/regenerate_regulations_db.py:50 | the file `<code>.md` is catalogued under `<code>` when the code has no dot |
| Catalog.SaveRegulationsDb | scripts/regenerate_regulations_db.py:73-83 | the saved list is a permutation of the entries, sorted by code; the total is its length; the version is `1.0` and the date is the day of the run |
| Catalog.CategoryCountsCorrect | scripts/regenerate_regulations_db.py:115-120 | the tally holds, for each category, the number of entries in it; a category without entries has no key |
| Catalog.CategoryCountsTotal | scripts/regenerate_regulations_db.py:115-120 | the per-category counts add up to the number of entries |
| Catalog.Regenerate | scripts/regenerate_regulations_db.py:90-132 | a missing `regulations` folder and an empty scan are the two failures; a saved catalogue is non-empty and holds exactly the scanned entries |
| Matcher.ExactMapGet | scripts/split_and_update.py:57-61 | looking a key up in `exact_map` finds the last entry filed under it, by stripped title or by title without spaces |
| Matcher.NormMapGet | scripts/split_and_update.py:58-62 | looking a key up in `normalized_map` finds the last entry with that normal form |
| Matcher.HeadingTextOfHeading | scripts/split_and_update.py:66-70 | the text of a heading line `#…# x` is `x`, for any number of markers and any whitespace after them |
| Matcher.HeadingIgnored | scripts/split_and_update.py:66-70 | a heading line matches exactly what its text without the markers matches |
| Matcher.ExactTitleMatches | scripts/split_and_update.py:59-74 | a line whose text is an entry's stripped title matches that entry, provided no other entry is filed under the same key |
| Matcher.FindMatching | scripts/split_and_update.py:64-92 | a line whose text is a key of `exact_map` gets that entry; a line of 80 characters or more can only match through the exact key, the key without spaces or the normal form |
| Matcher.SuffixTier | scripts/split_and_update.py:83-90 | when the exact and normalized tiers fail, a match needs the line to be shorter than 80 characters and an entry whose normal form is longer than 4 and ends the line's normal form |
| Matcher.SuffixTierFirst | scripts/split_and_update.py:84-90 | among the suffix candidates the one earliest in `normalized_map` wins |
| Matcher.MatchIsCatalogued | scripts/split_and_update.py:64-92 | everything the matcher returns is a catalogue entry |
| Splitter.SplitBlocks | scripts/split_and_update.py:94-113 | the one-pass walk with its cursor produces exactly the blocks of the declarative description, with no code listed twice |
| Splitter.SplitMarkdownContent | scripts/split_and_update.py:40-115 | splitting a document gives, for the codes its lines match, the blocks the declarative description assigns them |
| Splitter.NoMatchNoBlocks | scripts/split_and_update.py:94-115 | a document in which no line matches yields an empty result |
| Splitter.PreambleDropped | scripts/split_and_update.py:106-109 | lines before the first matching line belong to no block |
| Splitter.BlockShape | scripts/split_and_update.py:103-113 | every block starts with a line matched to its code and runs, in order, over the unmatched lines after it up to the next matched line or the end |
| Splitter.LastMatchWins | scripts/split_and_update.py:99-113 | when a code is matched more than once, its block is the section of its last match |
| Splitter.StepKeepsInv | scripts/split_and_update.py:95-109 | one pass of the loop body keeps the relation between the cursor state and the blocks of the lines seen so far |
| Splitter.BoundaryStep | scripts/split_and_update.py:97-104 | a matched line starts a new one-line block for its code and leaves every other block as it was |
| Splitter.OpenBlockStep | scripts/split_and_update.py:106-109 | an unmatched line joins the block of the open code and changes no other block |
| Splitter.NoOpenBlockStep | scripts/split_and_update.py:106-109 | an unmatched line with no block open changes nothing |
| Sanitize.RemoveStyle | scripts/split_and_update.py:126 | removing ` style="…"` attributes never lengthens the text |
| Sanitize.RemoveStyleUnchanged | scripts/split_and_update.py:126 | removing style attributes changes the text exactly when it contains one |
| Sanitize.BreakCellCloseUnchanged | scripts/split_and_update.py:130 | breaking `</p></td>` and `</blockquote></td>` changes the text exactly when one occurs |
| Sanitize.BreakCellOpenUnchanged | scripts/split_and_update.py:134 | breaking `<td…><p>` and `<td…><blockquote>` changes the text exactly when one occurs |
| Sanitize.SanitizeUnchanged | scripts/split_and_update.py:126-134 | text with no ` style="`, no closing pair and no opening pair is returned unchanged |
| Sanitize.BreakCellCloseClean | scripts/split_and_update.py:130 | after the closing step neither `</p></td>` nor `</blockquote></td>` occurs |
| Sanitize.BreakCellOpenClean | scripts/split_and_update.py:134 | the opening step creates no `</p></td>` or `</blockquote></td>` |
| Sanitize.SanitizeForMdx | scripts/split_and_update.py:122-139 | after `sanitize_for_mdx` no `</p></td>` and no `</blockquote></td>` remains |
| Sanitize.JoinedStyle | scripts/split_and_update.py:126 | removing one style attribute from `  style="v"style="w"` joins the text on either side into a new ` style="w"` |
| Sanitize.NotIdempotent | scripts/split_and_update.py:122-139 | for every quote-free `v` and every `w` free of quotes, spaces and `<`, one pass over `  style="v"style="w"` leaves ` style="w"` and a second pass leaves nothing |
| Update.CodeMapGet | scripts/split_and_update.py:177 | looking a code up in `reg_map` finds the last catalogue entry with that code |
| Update.Decide | scripts/split_and_update.py:198-237 | a file is rewritten iff the stripped new text differs from the stripped old text; what is written is the new text, ending with a newline |
| Update.Terminated | scripts/split_and_update.py:229-233 | the written text ends with a newline and is the new text with at most one newline added |
| Update.DecideSettles | scripts/split_and_update.py:191-233 | once a rewrite is done, reading the file back and deciding again gives no change |
| Update.UnknownSkipped | scripts/split_and_update.py:182-183 | a block whose code the catalogue does not know changes nothing |
| Update.KnownVisited | scripts/split_and_update.py:185-237 | a known code counts as an update iff the stripped texts differ. Then the file holds the new text, and a file that existed survives under its backup name iff it was modified within the last seven days or the backup's deletion fails; otherwise the disk is untouched |
| Update.RecordFiles | scripts/split_and_update.py:215-233 | a rewrite writes the target as a fresh file; an existing file moves, with its age, to `path.backup.<stamp>`, and then every backup of `path` older than seven days whose deletion does not fail is removed, the new one included; no other file changes or appears. No rewrite, no change on disk |
| Update.Record | scripts/split_and_update.py:208-237 | an update adds one to `updated`, anything else one to `unchanged`; a rewrite leaves the new content at the path as a fresh file, and no rewrite leaves the disk as it was |
| Update.BackupSurvives | scripts/split_and_update.py:216-224 | for a timestamp without `/`, the new backup survives the sweep iff the replaced file was modified within the last seven days or its deletion fails, and then it holds the replaced file |
| Update.FreshBackupLost | scripts/split_and_update.py:216-224 | as written, a file last modified more than seven days before it is rewritten loses its previous content: its backup is swept at once |
| Update.RecordKeepingBackup | scripts/split_and_update.py:215-233 | with the sweep before the rename, a rewrite leaves the new content at the path as a fresh file, and no rewrite leaves the disk as it was |
| Update.FreshBackupKept | scripts/split_and_update.py:215-233 | with the sweep first, the backup just made always holds the replaced file whatever its age, older backups are swept as before, and the counters, diffs and writes are those of the source's order |
| Update.Visit | scripts/split_and_update.py:181-237 | a block is counted, as updated or unchanged, iff `reg_map` knows its code |
| Update.RunCounts | scripts/split_and_update.py:181-237 | after any number of blocks, updated plus unchanged is the number of blocks with a known code, one diff and one write are recorded per update, and every write ends with a newline |
| Update.UpdateFiles | scripts/split_and_update.py:171-239 | for `update_files` as a whole, updated plus unchanged is the number of blocks with a known code, there is one diff and one write per update and at most one backup, and every written file ends with a newline |
| Backups.CleanupOldBackups | scripts/smart_update.py:130-158 | a file is removed iff it is a backup of the target, its age exceeds `days` and its deletion does not fail; every other file is kept with its age; the count is the number removed |
| Backups.TargetNotBackup | scripts/smart_update.py:136 | the target file itself is never among its backups |
| Backups.BackupNameMatches | scripts/split_and_update.py:147-148 | the glob `path.backup.*` lists the backup named with a timestamp iff the timestamp has no `/` |
| Backups.ExpiredIsAgeInDays | scripts/smart_update.py:148-150 | the whole-second test is the source's test `age / 86400 > days` over the reals |
| SmartUpdate.SearchFromLeftmost | scripts/smart_update.py:35 | the search returns the leftmost position where three digit runs joined by the separator start |
| SmartUpdate.SearchFromNone | scripts/smart_update.py:35 | the search finds nothing iff no position starts such a match |
| SmartUpdate.ExtractCodeDashFirst | scripts/smart_update.py:35-37 | when the `\d+-\d+-\d+` form occurs, the code is its leftmost occurrence |
| SmartUpdate.ExtractCodeUnderscore | scripts/smart_update.py:39-41 | when only the `\d+_\d+_\d+` form occurs, the code is its leftmost occurrence with `_` turned into `-` |
| SmartUpdate.ExtractCodeNone | scripts/smart_update.py:32-43 | there is no code iff neither form occurs anywhere in the name |
| SmartUpdate.ExtractCodeFromFilename | scripts/smart_update.py:32-43 | every code extracted is three non-empty digit runs joined by `-` |
| SmartUpdate.FindByCode | scripts/smart_update.py:72-77 | nothing is found iff no entry has the code; what is found has it |
| SmartUpdate.FindByCodeFirst | scripts/smart_update.py:72-77 | the entry found is the earliest one with the code |
| SmartUpdate.ExactTitleWins | scripts/smart_update.py:81-86 | when an entry's normalized title equals the normalized query, the first such entry is returned with confidence 1.0 |
| SmartUpdate.ScanBest | scripts/smart_update.py:92-106 | a tier pass returns an eligible entry with the highest ratio, the earliest among equals (a later one must be strictly better), and ratio 0 with no entry when none scores above 0 |
| SmartUpdate.ScanNone | scripts/smart_update.py:92-106 | a tier pass picks nothing iff no eligible entry scores above 0 |
| SmartUpdate.ContainmentDecides | scripts/smart_update.py:88-101 | when the containment tier finds a candidate, the similarity tier does not run |
| SmartUpdate.FindByTitleResult | scripts/smart_update.py:79-108 | the result is `(None, 0.0)` iff no normalized title is equal, no containment candidate scores above 0 and no ratio exceeds 0.6; a returned entry has a ratio above 0 |
| SmartUpdate.FindByTitle | scripts/smart_update.py:79-108 | no entry comes with confidence 0; a returned entry is a catalogue entry with a confidence above 0, and unless it is 1.0 the confidence is the ratio of the normalized query to that entry's normalized title |
| SmartUpdate.TitleFromPlain | scripts/smart_update.py:56-62 | a title taken from pandoc's plain text is a stripped line of more than two characters |
| SmartUpdate.CodeTakesPriority | scripts/smart_update.py:215-221 | a code in the file name that the catalogue knows decides the match with confidence 1.0 and no confirmation, whatever the title |
| SmartUpdate.TitleFallback | scripts/smart_update.py:224-256 | without a usable code the title match decides, and confirmation is asked iff its confidence is below 0.8 |
| Process.CatalogHeading | scripts/process_regulation.py:152-158 | only a heading line is ever counted, and the text it offers has a catalogue title as its normal form |
| Process.CatalogHeadingOf | scripts/process_regulation.py:152-158 | a heading line made of whitespace, one or more `#`, whitespace, a text `x` without surrounding whitespace and whitespace again counts iff the normal form of `x` is a catalogue title, and then offers `x` |
| Process.HeadingLineDecided | scripts/process_regulation.py:152-158 | every heading line has that shape, so whether it counts is decided by the text after its markers alone |
| Process.AnalyzeMdContent | scripts/process_regulation.py:142-160 | the count is the number of lines of `splitlines` that are catalogue headings |
| Process.AnalyzeBound | scripts/process_regulation.py:147-158 | the number of catalogue headings never exceeds the number of heading lines |
| Process.CatalogTitleCounted | scripts/process_regulation.py:142-158 | a line `# t` counts when `t` is a catalogue title without surrounding whitespace |
| Process.PlainLineIgnored | scripts/process_regulation.py:152 | a line that is not a heading is never counted, whatever the catalogue |
| Process.CollectAppend | scripts/process_regulation.py:150-158 | counting over two runs of lines counts each run in turn, so a repeated heading counts each time |
| Process.Extension | scripts/process_regulation.py:47 | the extension is a suffix of the path and is empty or starts with `.` |
| Process.ExtensionOf | scripts/process_regulation.py:47 | the extension of `dir/stem.ext` is `.ext` when the stem does not start with a dot |
| Process.ConversionByExtension | scripts/process_regulation.py:231-235 | the converter depends on the lower-cased extension only |
| Process.UpperPdfAccepted | scripts/process_regulation.py:47-83 | a `.PDF` file is accepted and converted through DOCX |
| Process.MixedDocxAccepted | scripts/process_regulation.py:84-87 | a `.DocX` file is accepted and converted directly |
| Process.NoExtensionRejected | scripts/process_regulation.py:88-91 | a file without an extension is rejected |
| Process.ProcessFile | scripts/process_regulation.py:207-266 | a file is rejected iff its extension is unsupported; otherwise it is converted by its extension and routed by the count of catalogue headings in the converted text |
| Process.RouteRule | scripts/process_regulation.py:256-266 | the split path is taken iff at least two catalogue headings are counted, and never for a text with fewer than two heading lines |
| MdxFix.FixPandocAttributes | scripts/fix-mdx-issues.py:15-23 | removing attribute blocks never lengthens the text, and a text without `{` has none to remove |
| MdxFix.PandocClassRemoved | scripts/fix-mdx-issues.py:18 | a `{.name}` class block is deleted and the text after it is processed as if it stood alone |
| MdxFix.LazyFinds | scripts/fix-mdx-issues.py:28-32 | on a stretch without a newline, the lazy `.+?` match ends at the first position where the closing text follows |
| MdxFix.LazyStopsAtNewline | scripts/fix-mdx-issues.py:28-32 | without `re.DOTALL`, a lazy match that meets a newline before any closing text fails: it does not cross a newline |
| MdxFix.CellMarkDropped | scripts/fix-mdx-issues.py:27-32 | `<td>~~x~~</td>`, `<td>**x**</td>` and `<td>*x*</td>` each become `<td>x</td>`, for a single-line `x` without the marker character |
| MdxFix.StyleRemoved | scripts/fix-mdx-issues.py:36-37 | a tag whose first attribute is `style="…"` or `style='…'` keeps its name and its other attributes and loses the style |
| MdxFix.EscapeTildesIsReplace | scripts/fix-mdx-issues.py:43-46 | the escaping is `str.replace('~', '&#126;')` |
| MdxFix.EscapeTildesClean | scripts/fix-mdx-issues.py:43-46 | no `~` survives the escaping |
| MdxFix.TildeCellSpan | scripts/fix-mdx-issues.py:49 | a `<td…>x</td>` cell is matched up to its first `</td>` and replaced by itself with every `~` escaped |
| MdxFix.TildeCellClean | scripts/fix-mdx-issues.py:49 | the replacement of a matched cell contains no `~` |
| MdxFix.FixHtmlMarkdownMix | scripts/fix-mdx-issues.py:25-51 | a text without `<` passes through the HTML clean-up unchanged |
| MdxFix.MediaImageAttrsCommented | scripts/fix-mdx-issues.py:56-60 | `![alt](media/NAME){…}` becomes the missing-image comment carrying `alt` |
| MdxFix.MediaImageCommented | scripts/fix-mdx-issues.py:62-66 | `![alt](media/NAME)` becomes the missing-image comment carrying `alt` |
| MdxFix.FixBrokenImages | scripts/fix-mdx-issues.py:53-67 | a text without `!` has no image to comment out |
| MdxFix.AcornLinesKept | scripts/fix-mdx-issues.py:77-91 | the loop appends every line unchanged, inside code blocks and out |
| MdxFix.FixAcornExpressionErrors | scripts/fix-mdx-issues.py:69-93 | splitting on `\n`, keeping every line and joining again returns the input |
| MdxFix.FixMarkdownFile | scripts/fix-mdx-issues.py:95-118 | the file is written iff the three substituting rewriters change the text, because the acorn step changes nothing; what is written is the repaired text; a file with no `{`, `<` or `!` is never written |
| Sidebar.FirstLine | scripts/generate-sidebar.js:30 | the first line contains no `\n` |
| Sidebar.GetTitleFromMd | scripts/generate-sidebar.js:27-37 | there is a title iff the file can be read; it contains no `\n` and has no whitespace at either end |
| Sidebar.TitleFromFirstLine | scripts/generate-sidebar.js:27-33 | only the first line counts toward the title |
| Sidebar.HeadingTitle | scripts/generate-sidebar.js:30-33 | a first line `#…# x` has title `x`, whatever follows it |
| Sidebar.PlainTitle | scripts/generate-sidebar.js:30-33 | a first line that is not a heading is the title once trimmed |
| Sidebar.DocLabel | scripts/generate-sidebar.js:76 | the label starts with the code, and is the code alone exactly when there is no non-empty title |
| Sidebar.UntitledLabel | scripts/generate-sidebar.js:70-76 | a file `code.md` with a dot-free code that is unreadable, or whose first line is blank after its markers, is labelled by its code alone |
| Sidebar.DocItem | scripts/generate-sidebar.js:63-77 | a `.md` file becomes a document whose id has no `\`; its label starts with the code as line 71 computes it, and is that code alone iff there is no non-empty title |
| Sidebar.FileCode | scripts/generate-sidebar.js:71 | the code followed by `.md` is the file name again (the trailing extension is removed) |
| Sidebar.FileCodeAgrees | scripts/generate-sidebar.js:71 | for a code without dots, removing the first `.md` and removing the trailing one give the same code |
| Sidebar.FileCodeFirstMatch | scripts/generate-sidebar.js:71 | on the name `a.mdx.md` the source's first-occurrence replace gives `ax.md`, not `a.mdx` |
| Sidebar.DocId | scripts/generate-sidebar.js:65-67 | a document id contains no `\` |
| Sidebar.DocIdRoundTrip | scripts/generate-sidebar.js:65-67 | for paths without `\`, appending `.md` to the id gives back the path of the file below the docs directory |
| Sidebar.FolderLabel | scripts/generate-sidebar.js:52 | a category shows the display name of `folderNameMap` when there is one, and its directory name exactly when there is none |
| Sidebar.Listing | scripts/generate-sidebar.js:44 | a listing is walked in name order and holds the directory's entries |
| Sidebar.ListingOrderIrrelevant | scripts/generate-sidebar.js:44 | any two listings of the same entries with distinct names give the same sidebar |
| Sidebar.OtherFileSkipped | scripts/generate-sidebar.js:63 | a file that is not a `.md` file yields nothing |
| Sidebar.DanglingStops | scripts/generate-sidebar.js:43-82 | an entry whose `stat` fails ends the walk of its directory |
| Sidebar.Scan | scripts/generate-sidebar.js:46-79 | a directory yields at most one item per entry |
| Sidebar.GenerateSidebarItems | scripts/generate-sidebar.js:40-85 | a directory yields at most one item per entry, and anything else nothing |
| Sidebar.ScanWellFormed | scripts/generate-sidebar.js:50-62 | no category of the sidebar is empty or collapsed, at any depth |
| Sidebar.ScanCountsFiles | scripts/generate-sidebar.js:40-85 | when every entry can be stat'ed, the walk yields exactly one document per `.md` file of the tree, at any depth |
| Sidebar.SidebarCountsFiles | scripts/generate-sidebar.js:93-105 | the sidebar lists one document per `.md` file of the docs tree, plus the home page |
| Sorting.SortBy | scripts/regenerate_regulations_db.py:76 | sorting by a key yields a sorted permutation of its input |
| Sorting.SortByStable | scripts/regenerate_regulations_db.py:76 | the sort is stable: the entries sharing a key keep their input order |
| Sorting.SortedUnique | scripts/generate-sidebar.js:44 | two sorted permutations of the same elements, no two of them sharing a key, are equal |
| Dict.PutGet | scripts/split_and_update.py:100 | after `d[k] = v` the key `k` gives `v` and every other key is as before |
| Dict.PutKeys | scripts/split_and_update.py:100 | assigning a present key keeps its place in iteration order, and a new key goes last |
| Text.JoinSplitOn | scripts/fix-mdx-issues.py:73-93 | splitting on a separator and joining with it gives back the text |
| Text.JoinSplitLines | scripts/split_and_update.py:194-206 | when `\n` is the only line boundary, joining the lines of `splitlines` with `\n` gives the text without its final newline |

## Left out

- File and process I/O are not modelled. This covers reading, writing, `os.walk`, `readdirSync`/`statSync`, `glob`, `os.rename`/`cp`/`mv`, `os.makedirs` and the pandoc and `pdf2docx` converters. Their inputs and outputs are parameters: the file system is a map or a tree, and converted text is a string.
- Printing, `sys.exit` codes other than the routing outcome, the `input()` prompt (only the `< 0.8` gate is modelled), `sys.stdout.reconfigure`, and the git hint printed at the end are not modelled.
- The HTML diff (`generate_diff_html`) and the report file (`split_and_update.py:117-120, 281-314`) are not modelled. A diff is recorded as the title it would carry.
- `difflib.SequenceMatcher.ratio` is an uninterpreted parameter `(string, string) -> real`. The properties of the title tiers hold for any ratio function.
- Clocks are parameters. The timestamp in backup names is a string, and the catalogue's date is a string. File ages are whole seconds, not float seconds.
- Update.UpdateFiles: one `stamp` names every backup of a run, and all file ages are taken at one instant. The source reads `datetime.now()` once per rewritten file (`split_and_update.py:217`) and `time.time()` once per sweep (`split_and_update.py:153`), so two backups of one run may carry different timestamps.
- `scripts/sync_rag_folder.py`, `scripts/batch_smart_update.py` and `website/docusaurus.config.ts` are not part of this model.
- `main` of `fix-mdx-issues.py` (the fixed list of problem files and the `rglob` sweep) is not modelled; its per-file step `fix_markdown_file` is.
- `update_regulation_file` and the archive move of `smart_update.py` are copies between files and are not modelled.
- Text.Lower: `str.lower()` is modelled on ASCII letters only. The regulation titles are Korean, and Hangul has no case.
- MdxFix.IsWordChar: Python's Unicode `\w` is approximated by ASCII letters, digits and `_`, Hangul and CJK ideographs. Other scripts' letters are not word characters here.
- SmartUpdate.ExtractCodeFromFilename: `\d` is modelled as the ASCII digits. Python's Unicode `\d` also matches other decimal digits.
- Update.RecordFiles: a failing `os.rename` is not modelled. The backup is always made, and the sweep always follows it; in the source a failed rename skips the sweep and the old file is overwritten.
- Backups.IsBackupOf: the glob `target.backup.*` is matched with the target taken literally. `glob.glob` would also read `*`, `?` and `[` inside the target path as patterns, so a path holding them can list other files, or miss its own backups.
- Catalog.Kept: `os.path.relpath` is taken to leave the walk's relative path as it is. The path is the directory and the file name joined by `/`.
- Sidebar.Listing: JavaScript's default sort compares UTF-16 code units; the model compares code points. The two orders agree on names in the Basic Multilingual Plane, which Korean and ASCII names are.
- Sidebar.FolderLabel: names that are keys of `Object.prototype` (such as `constructor`) are treated as unmapped.
- Sidebar.DocId: `path.join` is modelled for names that are single path components, and `.`/`..` segments are not normalised.
- Sidebar.ScanCountsFiles: a directory whose listing fails is modelled as an empty directory.
- The `sidebars.js` text and its JSON layout (`generate-sidebar.js:96-118`) are not modelled, only the item list with its `intro` home document in front (`Sidebar.SidebarCountsFiles`).
- MdxFix.FixHtmlMarkdownMix: the self-closing style rules (`fix-mdx-issues.py:39-40`) are modelled as substitutions, but no lemma singles them out. The general style rule before them already rewrites most self-closing tags.

## Properties the scripts do not have

- **No ratio tier in the splitter.** `find_matching_regulation` scores nothing by similarity. After the exact and normalized lookups, its third tier is a plain suffix test, on lines shorter than 80 characters, against normalized titles longer than 4 characters (`Matcher.SuffixTier`). Ratio-scored tiers exist only in `smart_update.find_regulation_by_title` (`SmartUpdate.ScanBest`).
- **The empty normal form is indexed.** `normalized_map` files every entry under its normal form, the empty one included (`Matcher.NormMapGet`). A line whose normal form is empty, a blank line for one, therefore matches an entry whose title normalizes to nothing when the catalogue has one.
- **The sanitizer is not idempotent.** Removing ` style="v"` from `  style="v"style="w"` (two leading spaces) joins the space before it to `style="w"` after it. The result is a new ` style="w"`, which a second pass of `sanitize_for_mdx` removes. `Sanitize.NotIdempotent` proves this for a whole family of such inputs. What does hold after one pass is that no closing pair survives (`Sanitize.SanitizeForMdx`).

## Findings

| source | as written | input that shows it | evidently intended | confidence | as-written member | corrected member |
|---|---|---|---|---|---|---|
| scripts/generate-sidebar.js:71 | `file.replace('.md', '')` with a string pattern removes the first `.md` in the name, wherever it is | the file `a.mdx.md` is labelled with code `ax.md` | remove the trailing `.md` extension, as the id on lines 65-67 does with `/\.md$/`, giving `a.mdx` | low, not executed (names with an inner `.md` may not occur in the docs tree) | Sidebar.FileCodeFirstMatch | Sidebar.FileCode |
| scripts/split_and_update.py:216-224 | `os.rename` keeps the file's modification time, and `cleanup_old_backups(file_path, days=7)` runs right after it, so the backup just made is swept with the old ones | an existing regulation file last modified eight days ago whose text changes: it is renamed to `path.backup.<stamp>`, that backup is deleted at once, and the previous text is gone | sweep the old backups before making the new one, so that the backup of the replaced text always survives | medium, not executed (depends on the file's modification time, which any later edit refreshes) | Update.FreshBackupLost | Update.FreshBackupKept |
