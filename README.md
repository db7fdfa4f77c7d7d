# PDF page export and markdown comparison, modelled in Dafny

This project models a small PDF tool and proves properties of the model. The tool:

- parses a page-range expression such as `1,3,5-7` or `all` into an ascending list of 0-indexed pages;
- exports the selected pages of a document as markdown files (`<stem>/md/page_NNNN.md`) and as PNG renderings (`<stem>/png/page_NNNN.png`);
- makes a grayscale, contrast-enhanced copy of every PNG (`<stem>/png_bw/`);
- offers a dashboard that pairs a folder's `md/` and `llm_md/` markdown files by name and navigates them with Previous/Next buttons and a dropdown.

The model is built in these terms:

- The filesystem is a value: a map from directory to the files directly inside it, each file an `Artifact`. Artifacts are a page's markdown, a page's rendering at some dpi, an enhanced copy of an image, or a file of the user's that may or may not be an image.
- An exporter is a method that returns its result together with the log of effects it performs: open or close the document, create a directory, write a file. The disk afterwards is `Disk.Apply(fs, effects)`.
- Creating a directory creates the missing ones above it, as `mkdir(parents=True)` does. Each exporter method is proved equal to a reference function: `ExportOutcome`, `BwOutcome` or `CombinedOutcome`. The promises of the code are proved as lemmas about those functions.
- The dashboard keeps its page index in a `Session` object. One run of the script is a method on it, proved equal to the pure `Compare.Script`.

Modules, in dependency order:

- `Wrappers`: `Option` and `Result`.
- `Text`: `str.strip`, `str.lower`, `str.split`, `str.endswith`.
- `Numerals`: `str(n)`, the `:04d` padding, `int(s)`.
- `StringOrder`: Python's ordering of strings, and `sorted` of a set of names.
- `PageRange`: `parse_page_range`.
- `PageFiles`: the file-naming rules.
- `Disk`: the filesystem and the effect log.
- `Export`: the two exporters.
- `Grayscale`: `process_images_to_bw`.
- `Pipeline`: `export_pages_combined`.
- `Compare`: `load_markdown_files` and the dashboard's navigation.

Behaviour of the code that the model keeps, though a reader might expect otherwise:

- An exception on one page ends the exporter's loop through the outer `except`. The function then returns `False` and keeps the files already written; the pages after the failing one are not attempted.
- `export_pages_to_images` closes the document only after the loop, so a page that raises leaves it open (`Export.DocumentLeftOpen`). The markdown exporter closes it before its loop.
- The `all` keyword is compared after `lower()` but without `strip()`, so `" all"` is a malformed clause (`PageRange.PaddedAllIsAClause`).
- The grayscale step of the combined export always runs, whatever the two exports returned. It reads every `*.png` in `<stem>/png`, including files left by earlier runs (`Pipeline.GrayscaleRunsAfterFailedSelection`, `Pipeline.CombinedSucceedsIff`). Its result counts towards the combined result on its own, not as a consequence of an export failing.
- The grayscale directory is derived by textual replacement of `/png`. A path without `/png` therefore maps to itself, and the copies overwrite the originals (`PageFiles.GrayscaleInPlace`).

## Model

| member | source | states |
|---|---|---|
| PageRange.Parse | main.py:16-55 | a successful parse yields pages strictly ascending and all below the page count |
| PageRange.ParsePageRange | main.py:16-55 | the imperative parser (keyword test, loop over the comma clauses, sort) returns exactly `Parse` |
| PageRange.AddClause | main.py:39-53 | one loop iteration adds the clause's pages to the set, or reports why the clause is malformed; its inner `range` loop adds exactly the clipped span |
| PageRange.Collect | main.py:55 | `sorted(list(pages))` restricted to the document: ascending, and holding exactly the set's pages in range |
| PageRange.Iota | main.py:33 | `list(range(n))` holds `0..n-1` in order |
| PageRange.AllSelectsEveryPage | main.py:32-33 | `all` in any letter case selects every page of the document, in order |
| PageRange.PaddedAllIsAClause | main.py:32 | `" all"` and `"all "` are not the keyword; they fail as the non-number clause `all` |
| PageRange.ParseSucceedsIff | main.py:32-53 | a parse succeeds exactly when the string is the keyword or every comma clause is well-formed |
| PageRange.ParseFailsAtFirstMalformedClause | main.py:38-53 | a failing parse reports the error of the first malformed clause, whatever follows it |
| PageRange.ParseSelectsUnion | main.py:35-55 | a successful parse selects exactly the pages some clause contributes |
| PageRange.AscendingUnique | main.py:55 | two ascending lists with the same elements are equal, so the result is fixed by the set of selected pages |
| PageRange.ClauseOrderIrrelevant | main.py:35-55 | swapping two halves of an expression changes neither success nor the selection |
| PageRange.ClauseWithinDocument | main.py:46-53 | every page a clause contributes lies in `[0, total)` |
| PageRange.RangeClause | main.py:40-48 | a clause `a-b` selects pages `a-1 .. b-1`, clipped to the document |
| PageRange.ReversedRangeClause | main.py:46-48 | a reversed range (`a > b`) selects nothing and is not an error |
| PageRange.SingleClause | main.py:49-53 | a clause `n` selects page `n-1` when `1 <= n <= total`, and nothing otherwise |
| PageRange.ClausePages | main.py:38-53 | one clause after `strip()`: a range when it holds `-`, otherwise a single page; what it selects is stated by `ClauseWithinDocument`, `RangeClause`, `SingleClause` and `ClausePadding` |
| PageRange.ClausePadding | main.py:39 | whitespace of any length on either side of a clause does not change its meaning |
| PageRange.RangeBounds | main.py:40-44 | a clause with one `-` means what its two bounds mean, each stripped of whitespace |
| PageRange.RangePadding | main.py:42-44 | whitespace of any length around either bound of a range does not change its meaning |
| PageRange.SerializeParses | main.py:16-55 | a non-empty ascending selection of document pages, written as its 1-based numbers joined by `,`, parses back to itself |
| PageRange.EmptySelectionUnwritable | main.py:36-51 | the empty selection writes out as the empty string, which does not parse |
| PageRange.ExpandedRange | main.py:21 | `"1,3,5,6,7"` and `"1,3,5-7"` select the same pages |
| PageRange.BlankClause | main.py:51 | a blank clause is malformed (`int('')` raises) |
| PageRange.ExampleRange | main.py:28 | `"1-5"` selects `[0, 1, 2, 3, 4]` |
| PageRange.ExampleList | main.py:29 | `"1,3,5"` selects `[0, 2, 4]` |
| PageRange.ExampleMixed | main.py:21 | `"1,3,5-7"` selects `[0, 2, 4, 5, 6]` |
| PageRange.ExampleReversed | main.py:46 | `"5-1"` selects the empty list |
| PageRange.ExampleOutOfRange | main.py:52 | `"999"` on a 10-page document selects the empty list |
| PageRange.ExampleOverlap | main.py:35 | `"1-3,2-4"` selects each of pages 0-3 once |
| PageRange.ExampleFirstFour | main.py:46-48 | `"1-4"` selects `[0, 1, 2, 3]`, the same as the overlapping pair |
| PageRange.ExampleWord | main.py:51 | `"abc"` is `NotANumber("abc")` |
| PageRange.ExampleEmpty | main.py:36-51 | the empty string is one blank clause, and malformed |
| PageRange.ExampleBlankBound | main.py:42-43 | `"1,"` and `"-3"` fail on a blank number |
| PageRange.ExampleMalformedRange | main.py:42 | `"1-2-3"` fails unpacking into two bounds; `"1-"` fails on a blank bound |
| Text.LowerIsAll | main.py:32 | `lower()` gives `"all"` exactly for the eight case variants of `all` |
| Text.Lower | main.py:32 | `str.lower()`, character by character, on the ASCII letters; `LowerIsAll` states when it gives `all` |
| Text.StripSpec | main.py:39 | `strip()` keeps a contiguous middle of the string and removes only whitespace |
| Text.Strip | main.py:39 | `str.strip()`: `lstrip()` then `rstrip()` of whitespace; `StripSpec` and `StripPadded` state what it keeps |
| Text.StripPadded | main.py:39 | `strip()` ignores whitespace of any length added on either side |
| Text.SplitSpec | main.py:36 | the pieces of `split(sep)` hold no separator, and joining them gives the string back |
| Text.Split | main.py:36 | `str.split(sep)`, at least one piece; `SplitSpec` and `SplitJoin` tie it to `join` |
| Text.SplitJoin | main.py:36 | splitting a join of separator-free pieces gives the pieces back |
| Numerals.Padded | main.py:119 | `f"{n:04d}"` denotes `n` and is four characters long, or longer when `n` needs more digits |
| Numerals.Decimal | main.py:119 | `str(n)`: a canonical numeral, digits only and no leading zero; `ValueOfDecimal` states that it denotes `n` |
| Numerals.PyIntOfPadded | main.py:43-51 | `int()` reads back what `str()` and the zero padding wrote |
| Numerals.DecimalOfValue | main.py:43-51 | every canonical numeral is `str` of its value |
| Numerals.PyIntRejects | main.py:43-51 | `int()` rejects blank strings and tokens with a non-digit |
| Numerals.PyInt | main.py:43-51 | `int(s)`: the value of the stripped string when it is a non-empty run of digits, otherwise the `ValueError`, as `None`; `PyIntOfDigits` and `PyIntRejects` are its two directions |
| PageFiles.PageStem | main.py:119 | `page_` followed by the 1-based page number padded to four digits |
| PageFiles.PageFileName | main.py:190 | the stem followed by the extension, `.png` or `.md` |
| PageFiles.PageStemReadsBack | main.py:119 | a page file name starts with `page_`, ends with its extension, and its digits read back as the 1-based page number |
| PageFiles.PageFileNameExamples | main.py:119 | pages 0, 6 and 9999 are named `page_0001.png`, `page_0007.md` and `page_10000.png` |
| PageFiles.PageFileNameInjective | main.py:119 | different pages get different file names, so no page overwrites another |
| PageFiles.PageFileOrder | main.py:233 | up to page 9999, sorting page files by name sorts them by page |
| PageFiles.PageFileOrderBreaks | main.py:233 | past page 9999 the name order breaks: `page_10000` sorts before `page_9999` |
| PageFiles.GrayscaleDirectory | main.py:228 | for a stem without `/`, the grayscale directory of `<stem>/png` is `<stem>/png_bw` |
| PageFiles.GrayscaleInPlace | main.py:228 | a directory path without `/` maps to itself |
| PageFiles.ReplaceAll | main.py:228 | `str.replace(pat, rep)`: every occurrence, left to right, without overlap; `ReplaceAbsent`, `GrayscaleDirectory` and `GrayscaleInPlace` state what it gives here |
| Grayscale.GrayscaleDir | main.py:228 | the grayscale directory: `/png` replaced by `/png_bw` throughout the input path |
| PageFiles.LastDot | llm_ocr.py:170 | finds the position of the last `.` in a name, or none |
| PageFiles.OcrMarkdownName | llm_ocr.py:170 | the OCR step names the markdown of `page_NNNN.png` `page_NNNN.md`, the name the exporter uses |
| PageFiles.PathStem | llm_ocr.py:170 | `Path.stem` of a file name: the name without the suffix from its last dot, unless that dot opens or ends the name; `OcrMarkdownName` applies it |
| StringOrder.Sorted | compare_md.py:44 | `sorted` of a set of names is strictly ascending and holds each element exactly once |
| StringOrder.BelowTotal | compare_md.py:44 | Python's string order is total on distinct strings |
| StringOrder.Below | compare_md.py:44 | Python's `<` on strings: by code point at the first difference, a proper prefix first; `BelowIrreflexive`, `BelowTransitive` and `BelowTotal` make it a strict total order |
| Disk.MakeDirs | main.py:104 | `mkdir(parents=True, exist_ok=True)` adds the directory and each missing one above it, empty, and changes no listing |
| Disk.ParentInLineage | main.py:179 | creating `parent/name` creates `parent` too |
| Disk.ApplyDirectories | main.py:104 | a directory exists afterwards exactly when it existed, the run created it or a directory below it, or wrote into it; nothing is removed |
| Disk.ApplyContent | main.py:119-122 | a file holds what its last write stored, or what it held before |
| Export.ExportOutcome | main.py:57-132 | the meaning of both exporters: `False` and no effect when the document does not open, `False` after opening and closing it when the range does not parse or selects nothing, otherwise the prologue, the pages before the first that raises, and the epilogue; `ExportSucceedsIff`, `ExportWrites` and `ExportedFiles` state its properties |
| Export.CleanRun | main.py:112-124 | the loop gets through exactly the pages before the first one that raises |
| Export.WritePages | main.py:112-124 | the page loop writes the files of the pages before the first failing one and reports whether it got through all of them |
| Export.ExportPagesToImages | main.py:57-132 | the image exporter returns exactly `ExportOutcome` for `Raster(dpi)`: result and effects |
| Export.ExportPagesToMarkdown | main.py:134-203 | the markdown exporter returns exactly `ExportOutcome` for `Markdown` |
| Export.ExportSucceedsIff | main.py:85-128 | an export returns `True` exactly when the document opens, the range selects at least one page, and no selected page raises |
| Export.EarlyFailureWritesNothing | main.py:85-95 | a range that fails to parse or selects nothing returns `False` and leaves the disk unchanged |
| Export.ExportWrites | main.py:99-124 | an export that reaches its pages creates its output directory and the missing ones above it, and no other; it writes one distinct file per page before the first failure, all of them on success |
| Export.ExportedFiles | main.py:119-122 | after a successful export, every selected page's file in the output directory holds that page's content |
| Export.PageNamesCount | main.py:119 | distinct pages give as many distinct file names |
| Export.DocumentLeftOpen | main.py:112-131 | the markdown exporter always closes the document; the image exporter leaves it open exactly when a selected page raised |
| Grayscale.PngFiles | main.py:233 | `sorted(glob("*.png"))` lists each PNG file of the directory once, in ascending order |
| Grayscale.EnhanceEach | main.py:241-258 | the loop writes, under the same name, the enhanced copy of each file it reads, stopping at the first non-image; it reads correctly even when the output directory is the input one |
| Grayscale.ReadBack | main.py:244 | each file read back from the disk mid-loop holds what it held before the step, even when the output directory is the input one |
| Grayscale.ProcessImagesToBw | main.py:205-265 | the step returns exactly `BwOutcome`: success, count and effects |
| Grayscale.BwOutcome | main.py:205-265 | the meaning of the grayscale step: `(False, 0)` and no effect for a missing directory, `(False, 0)` after creating the output for one without PNG files, otherwise the output directory and one enhanced copy per PNG, in name order, before the first that is no image, with the count on success; `BwSucceedsIff`, `BwCount` and `BwWrites` state its properties |
| Grayscale.BwSucceedsIff | main.py:220-261 | the step succeeds exactly when the input directory exists, holds a PNG file, and every PNG file is an image |
| Grayscale.BwCount | main.py:241-265 | the count reported is the number of PNG files on success, 0 otherwise |
| Grayscale.BwTouched | main.py:228-230 | the step creates no directory but the grayscale one and the missing ones above it |
| Grayscale.BwWrites | main.py:241-258 | a successful step writes exactly the input's PNG names into the grayscale directory, and nothing elsewhere |
| Grayscale.BwCopies | main.py:244-255 | after success, each PNG's copy holds the enhanced form of the original |
| Pipeline.ExportPagesCombined | main.py:267-350 | the combined export returns exactly `CombinedOutcome`: markdown export, image export, then the grayscale step on the resulting disk |
| Pipeline.CombinedOutcome | main.py:267-350 | the meaning of the combined export: the two exports, then the grayscale step on the disk they leave, successful when all three are; `CombinedSucceedsIff` and `CombinedLayout` state its properties |
| Pipeline.CombinedSucceedsIff | main.py:308-346 | success exactly when both exports succeed and every earlier PNG this run does not overwrite is an image |
| Pipeline.CombinedLayout | main.py:271-281 | after success, each selected page has its markdown in `md/`, its rendering in `png/` and its enhanced rendering in `png_bw/` |
| Pipeline.GrayscaleRunsAfterFailedSelection | main.py:325 | when the selection fails, the run returns `False` yet does exactly what the grayscale step alone does |
| Pipeline.MarkdownSparesPng | main.py:307-317 | the markdown export leaves `<stem>/png` unchanged |
| Pipeline.PngDirAfterExport | main.py:316-317 | after the image export, `<stem>/png` holds the earlier files plus one image per selected page; other files keep their content |
| Pipeline.SeparateTrees | main.py:307-316 | `md`, `png` and `png_bw` are three different directories |
| Pipeline.CombinedMakesFolder | main.py:179 | once the selection is made, the combined run creates `<stem>` itself, as the parent of `<stem>/md` |
| Pipeline.DashboardFindsExport | compare_md.py:114-116 | so the dashboard pointed at `<stem>` after such a run does not report the folder missing |
| Compare.LoadMarkdownFiles | compare_md.py:20-45 | strictly ascending, holding exactly the `.md` names present in both `md/` and `llm_md/`; empty when either is missing |
| Compare.ExportedPageOffered | compare_md.py:37-44 | a page exported as markdown and OCR-ed from its PNG is offered by the dashboard |
| Compare.IndexOf | compare_md.py:155 | `pages.index(x)` is the first position holding `x` |
| Compare.IndexOfAscending | compare_md.py:155 | in a list without repeats, each position is the index of what it holds |
| Compare.StartIndex | compare_md.py:126-133 | the starting index lies in `[0, count)`: 0 when absent, unchanged when valid, clamped otherwise |
| Compare.Navigate | compare_md.py:126-183 | the widget part of a run on a known page list: previous button, dropdown, next button, then the pair shown; `NavigateInRange`, `PreviousStep`, `NextStep` and `PickShows` state what it does |
| Compare.ScriptStops | compare_md.py:114-123 | a run stops exactly when the folder is missing or offers no page, and then leaves the session alone |
| Compare.Script | compare_md.py:114-183 | one run of the dashboard: the folder check, the page list, then `Navigate`; `ScriptStops` and `ShownPagePaired` state its properties |
| Compare.NavigateInRange | compare_md.py:126-183 | navigation leaves a valid index; a shown page is the one at that index, read from `md/` and `llm_md/` under its name, with caption position `1..count` |
| Compare.ShownPagePaired | compare_md.py:180-183 | the page shown exists under that name in both subdirectories |
| Compare.IdleRun | compare_md.py:148-158 | a run without input shows the page at a valid index and keeps the index |
| Compare.PreviousStep | compare_md.py:141-144 | "Previous" moves back one and reruns; on the first page it does nothing |
| Compare.NextStep | compare_md.py:161-164 | "Next" moves on one and reruns; on the last page it does nothing |
| Compare.PreviousNextInverse | compare_md.py:141-164 | "Previous" then "Next", and "Next" then "Previous", restore the index |
| Compare.PickShows | compare_md.py:148-158 | picking a page in the dropdown shows that page, at once or on the rerun |
| Compare.Session.constructor | compare_md.py:126 | a new session holds no page index |
| Compare.Session.StartRun | compare_md.py:126-133 | the session index becomes `StartIndex` of the old one, and is valid |
| Compare.Session.Previous | compare_md.py:141-144 | reruns exactly when clicked and not on the first page, after decrementing the index |
| Compare.Session.Select | compare_md.py:148-158 | the index becomes `pages.index(selected)`, with a rerun exactly when it changed |
| Compare.Session.Next | compare_md.py:161-164 | reruns exactly when clicked and not on the last page, after incrementing the index |
| Compare.Session.Navigation | compare_md.py:126-183 | the widget part of a run gives exactly `Navigate` of the old index: screen and new index |
| Compare.Session.RunScript | compare_md.py:114-183 | one run gives exactly `Script` of the old index: screen and new index |

## Left out

- PDF rendering, markdown extraction and the PIL image arithmetic (`convert('L')`, `ImageEnhance.Contrast`, the `zoom = dpi / 72` matrix) are not modelled. A document is a page count plus the pages whose rendering or extraction raises. An image copy is the artifact `Enhanced(source, contrast)`.
- `pymupdf.open` raising is the document being `None`. Other raising calls are not modelled: `mkdir`, `save`, `open(...).write`, `Path` construction. So a file that `open(..., 'w')` or `save` leaves behind when the write then raises is not modelled: a page that raises writes nothing. Printing is not modelled.
- The outer `except` of `export_pages_combined` is not modelled, because each step it calls catches its own exceptions. The unused `bw_count` is dropped.
- Paths are plain strings joined with `/`. Normalisation is not modelled: trailing slashes, `.` and `..`, absolute paths. `Path.exists()` is "a directory of that name is in the map".
- `PageFiles.PathStem` follows the `Path.stem` rule for a single file name (the suffix starts at the last dot unless that dot opens or ends the name). It does not model directory components or the version-dependent handling of names such as `a.`.
- `Numerals.PyInt` accepts ASCII digits with ASCII whitespace around them. It does not model `+`/`-` signs, `_` separators or non-ASCII digits. `Text.Strip` and `Text.Lower` cover ASCII only; the comparison with `all` depends only on ASCII letters.
- `glob("*.png")` and `glob("*.md")` are modelled as "every name in the directory ending in the suffix". Subdirectories named that way are not told apart from files, and no rule for hidden files is modelled.
- The command-line entry point, `batch_extract`, `extract_markdown_from_pdf` and the OCR program are not modelled. The one exception is the OCR naming rule (llm_ocr.py:170).
- The rest of the dashboard is not modelled: Streamlit rendering, the view-mode radio, `read_markdown_file` and the character counts. `st.stop` and `st.rerun` are modelled as the end of a run, returning the screen reached. Each run takes at most one user input. The dropdown returns the chosen page, or otherwise the option at the index it is given. Streamlit's own memory of an earlier dropdown choice is not modelled.
- Compare.Session.RunScript: requires a dropdown choice to be one of the offered pages, which Streamlit guarantees; `pages.index` would raise otherwise.
