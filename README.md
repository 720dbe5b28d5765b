# image-sorter core, modelled in Dafny

image-sorter shows the images of one directory one at a time and sorts each
into a category folder under a new, tag-composed name. This project models
its non-GUI bookkeeping:

- `ImageManager` of `src/image_manager.rs`: the ordered list of image names
  with a cursor (`next_image`, `prev_image`, `seek_to_image`), the listing
  filter `get_file_list` with its extension allow-list, and `move_current`,
  which copies the current file to `dir/category/<tags>__<file>`, deletes the
  original and removes the entry from the list (`image_manager.dfy`,
  `file_list.dfy`, `destination.dfy`, `cursor.dfy`);
- `get_segments` of `src/text_suggest.rs`: splitting a composed name on the
  separator `"--"` and dropping empty pieces (`text_suggest.dfy`);
- the earlier revision in `src/main.rs`: its `ImageManager` cursor logic, the
  seed corpus of `TextSuggester::new` and the suggestion label folded in
  `update` (`main_app.dfy`).

The cursor arithmetic both revisions share is defined once, in `Cursor`, and
each revision's class proves its methods against it. The list and cursor are
class fields updated in place; `Vec::remove` is `RemoveAt` on the list field.
Directory listings are inputs (a sequence of entries in enumeration order),
and a directory holds each name once. The outcome of each file operation
(`fs::copy`, `fs::remove_file`) and of loading the first texture in the older
revision is a boolean input, and the files present are a set of paths; a copy
also fails when its source is not among them. The panics the model covers
(the `expect`s of `move_current`, the out-of-range index in `reload_image`,
the `unwrap`s and the empty-list index of the older `new`) are reported in a
result value (`MoveStatus`, `null` from a constructor-like `New`); the
panics listed under "Left out" are not. Paths are sequences of components,
so `dir.join(c)` is `dir + [c]`.

Two constants and one predicate carry no contract of their own and are
stated through the members that use them: `TextSuggest.Separator` is
`SEPARATOR` (src/text_suggest.rs:9), used by `FindSeparator` and `Split`;
`FileList.AllowedFileTypes` is `ALLOWED_FILE_TYPES`
(src/image_manager.rs:15-18) and `FileList.IsManagedImage` the test of
src/image_manager.rs:199-203, both stated by `Keep`, `GetFileList` and
`GetFileListMembership`.

Behaviour worth noting, as the code has it:

- the extension match is case-sensitive (`"A.PNG"` is skipped), and a name
  without a dot is its own extension (a file named `png` is kept);
- category folders are `dir/<category>`, directly under the image directory;
- the cursor is not clamped after a move (see Findings);
- failures of copy and delete are panics, not typed errors, and the list
  changes only when both have succeeded;
- the source has no join function; segments are rejoined with `"--"` between
  consecutive segments and no trailing separator. With a trailing separator,
  or after a name ending in `-`, leftmost matching pairs the dashes
  differently: `"a-" + "--"` segments as `["a", "-"]`.

## Model

| member | source | states |
|---|---|---|
| TextSuggest.FindSeparator | src/text_suggest.rs:39 | the position found holds the separator and none occurs earlier; no position is found exactly when the name contains no separator |
| TextSuggest.Split | src/text_suggest.rs:38-39 | `split("--")` yields at least one piece, and joining the pieces with `"--"` gives the name back, so the pieces are in input order and nothing is lost |
| TextSuggest.SplitWellFormed | src/text_suggest.rs:38-39 | no piece of a split contains the separator and no piece but the last ends in `-` |
| TextSuggest.DropEmpty | src/text_suggest.rs:40 | the filter keeps only pieces of the input, none of them empty |
| TextSuggest.Segments | src/text_suggest.rs:37-42 | no returned segment is empty and none contains `"--"` |
| TextSuggest.SplitAppend | src/text_suggest.rs:38-39 | splitting `a + "--" + b` gives the pieces of `a` then those of `b` when `a` does not end in `-` |
| TextSuggest.SegmentsAppend | src/text_suggest.rs:37-42 | the segments of `a + "--" + b` are those of `a` followed by those of `b` when `a` does not end in `-` |
| TextSuggest.SplitJoin | src/text_suggest.rs:38-39 | splitting the join of pieces shaped like a split result returns exactly those pieces |
| TextSuggest.SegmentsIdempotent | src/text_suggest.rs:37-42 | joining the segments with `"--"` and segmenting again gives the same segments |
| TextSuggest.OnlySeparatorsHaveNoSegments | src/text_suggest.rs:38-41 | the empty name and any run of `"--"` have no segments |
| TextSuggest.PlainNameIsOneSegment | src/text_suggest.rs:38-41 | a non-empty name without `"--"` is exactly one segment, itself |
| TextSuggest.TrailingSeparatorsAddNoSegment | src/text_suggest.rs:38-41 | appending any run of `"--"` to a name not ending in `-` leaves its segments unchanged |
| TextSuggest.TrailingSeparatorAfterDash | src/text_suggest.rs:38-41 | `"a-"` is one segment but `"a---"` is `["a", "-"]`: a trailing separator can change the segments |
| Cursor.NextIndex | src/image_manager.rs:101-103 | the cursor rises by exactly one, and stays only when it is on the last entry; it stays in range |
| Cursor.PrevIndex | src/image_manager.rs:107-108 | the cursor drops by exactly one, and stays only when it is 0 |
| Cursor.SeekIndex | src/image_manager.rs:112-115 | the new cursor is `min(pos, len - 1)`: `pos` itself when in range, the last entry otherwise |
| Cursor.NextThenPrev | src/image_manager.rs:101-108 | next then previous returns to the start unless it was on the last entry |
| Cursor.PrevThenNext | src/image_manager.rs:101-108 | previous then next returns to the start unless it was on entry 0 |
| Cursor.NextTimesIsSeek | src/image_manager.rs:101-115 | pressing next `k` times is a seek to `i + k` |
| Cursor.PrevTimesIsSaturatingSubtraction | src/image_manager.rs:107-108 | pressing previous `k` times lands on `max(i - k, 0)` |
| Cursor.SeekToCurrent | src/main.rs:67-77 | seeking to the current position leaves the cursor unchanged, so skipping that seek changes nothing |
| Cursor.RemoveAt | src/image_manager.rs:152 | `Vec::remove` shortens the list by one; entries before the index stay, later ones move down by one |
| Cursor.RemoveAtMultiset | src/image_manager.rs:152 | removal takes out exactly one occurrence of the removed name |
| Cursor.RemoveAtDistinct | src/image_manager.rs:152 | in a list without duplicates the removed name is gone afterwards |
| FileList.Extension | src/image_manager.rs:202 | the extension contains no `.` and is no longer than the name |
| FileList.ExtensionIsLastDotFreeSuffix | src/image_manager.rs:202 | the extension is the text after the last `.`, the whole name when there is none |
| FileList.ExtensionAfterDot | src/image_manager.rs:202 | a dot-free final part after a `.` (or a dot-free name) is the extension |
| FileList.GetFileList | src/image_manager.rs:193-222 | every listed name has an allowed extension and the list is no longer than the listing |
| FileList.GetFileListAppend | src/image_manager.rs:193-222 | filtering is per entry and keeps enumeration order |
| FileList.Keep | src/image_manager.rs:197-220 | an entry contributes at most its own name, and does so exactly when it is a regular file with an allowed extension |
| FileList.GetFileListMembership | src/image_manager.rs:193-222 | a name is listed exactly when some entry of the listing is a regular file of that name whose extension is `png`, `jpg`, `jpeg` or `webp` |
| FileList.GetFileListDistinct | src/image_manager.rs:193-222 | distinct names in the directory give a list without duplicates |
| FileList.TextFileIsInvisible | src/image_manager.rs:193-222 | a directory with `a.png` and `b.txt` lists only `a.png` |
| FileList.UpperCaseExtensionIsSkipped | src/image_manager.rs:15-18 | the allow-list match is case-sensitive: `A.PNG` is not listed |
| FileList.DotlessNameIsItsOwnExtension | src/image_manager.rs:202-204 | a regular file named `png` is listed |
| Destination.ReplaceSpaces | src/image_manager.rs:137-139 | the sanitised name has the source name's length, no spaces, spaces became `_` and every other character is kept |
| Destination.TrimEndSeparators | src/image_manager.rs:144 | the trimmed name does not end in `"--"`, and the input is it followed by a run of `"--"` |
| Destination.TrimRemovesTrailingRun | src/image_manager.rs:144 | trimming a stem followed by any run of `"--"` gives the stem back, so trimming is idempotent |
| Destination.TrimKeepsSegments | src/image_manager.rs:144 | trimming keeps the tags of the name when what is left does not end in `-` |
| Destination.TrimAfterDashChangesSegments | src/image_manager.rs:144 | `"a---"` trims to `"a-"`, whose segments differ from those of `"a---"` |
| Destination.DestinationPath | src/image_manager.rs:141-144 | the destination is `dir/category/<name>` |
| Destination.DestinationName | src/image_manager.rs:144 | the name is the trimmed new name (no longer ending in `"--"`), `__`, then the space-free source name of the same length |
| Destination.DestinationExample | src/image_manager.rs:137-144 | `funny--cat--` and `my cat.png` in `pics/cats` give `pics/cats/funny--cat__my_cat.png` |
| Destination.ReplaceSpacesFixesSpaceFreeNames | src/image_manager.rs:137-139 | sanitising is idempotent and leaves space-free names alone |
| Destination.OutputDirs | src/image_manager.rs:56-63 | one directory per button path and one for the default folder, each directly under the image directory |
| ImageManagement.ImageManager.constructor | src/image_manager.rs:70-77 | a non-empty list, cursor 0, total count equal to the list length |
| ImageManagement.ImageManager.New | src/image_manager.rs:40-79 | an empty file list ends the process before any directory is created; otherwise the list is `get_file_list`'s (without duplicates), the cursor is 0, the total is the list length and the output directories are created |
| ImageManagement.ImageManager.GetTotalFiles | src/image_manager.rs:81-83 | the total found at start-up is at least the current list length |
| ImageManagement.ImageManager.GetImagesLen | src/image_manager.rs:85-87 | the list length is positive and at most the total |
| ImageManagement.ImageManager.GetCurrentPos | src/image_manager.rs:89-91 | the cursor is inside the list |
| ImageManagement.ImageManager.GetCurrentFilename | src/image_manager.rs:97-99 | the current file name is one of the listed names |
| ImageManagement.ImageManager.GetCurrentPath | src/image_manager.rs:93-95 | the current path is the image directory joined with a listed name |
| ImageManagement.ImageManager.ReloadImage | src/image_manager.rs:120-124 | the image loaded is `dir/images[image_index]`; an out-of-range cursor panics |
| ImageManagement.ImageManager.NextImage | src/image_manager.rs:101-105 | the cursor moves as `NextIndex`, stays in range, and the list and total are unchanged |
| ImageManagement.ImageManager.PrevImage | src/image_manager.rs:107-110 | the cursor moves as `PrevIndex`, stays in range, and the list and total are unchanged |
| ImageManagement.ImageManager.SeekToImage | src/image_manager.rs:112-118 | the cursor becomes `min(pos, len - 1)` for any `pos`, and the list and total are unchanged |
| ImageManagement.ImageManager.CopyAndRemove | src/image_manager.rs:134-152 | a failed copy (or a missing source file) changes nothing; a failed delete leaves the file in both places and the list unchanged; after both succeed the destination exists, the source is gone, exactly the current entry is removed and its name is no longer listed |
| ImageManagement.ImageManager.MoveCurrent | src/image_manager.rs:129-154 | as written: the list loses exactly the current entry, order kept, and the moved name is no longer listed; the cursor is unchanged, and the reload panics exactly when the moved entry was the last one |
| ImageManagement.ImageManager.MoveCurrentReclamped | src/image_manager.rs:129-154 | corrected: the cursor is clamped into the shortened list and the manager stays valid unless no image is left |
| ImageManagement.MoveLastImageAsWritten | src/image_manager.rs:152-153 | two images, cursor on the second: moving it panics on reload |
| ImageManagement.MoveLastImageReclamped | src/image_manager.rs:152-153 | the same session with re-clamping completes and shows `a.png` |
| ImageManagement.MovedNameIsGone | src/image_manager.rs:152 | after a move the moved name is no longer listed and every other name is kept once |
| MainApp.ListRegularFiles | src/main.rs:30-38 | the listing panics exactly when some entry's file type cannot be read, and lists no more names than there are entries |
| MainApp.ListRegularFilesMembership | src/main.rs:30-38 | where the listing succeeds, a name is listed exactly when some entry is a regular file of that name, whatever its extension |
| MainApp.ListRegularFilesAppend | src/main.rs:30-38 | listing is per entry and keeps enumeration order; it panics when any part does |
| MainApp.FileListRefinesRegularFiles | src/main.rs:30-38 | the later `get_file_list` is this revision's list with the extension filter applied |
| MainApp.ImageManager.constructor | src/main.rs:48-54 | cursor 0, an empty new name, and a total equal to the list length |
| MainApp.ImageManager.New | src/main.rs:27-55 | every regular file of the fixed directory, unfiltered; panics on an unreadable file type, an empty directory, or a first file that does not load as a texture |
| MainApp.ImageManager.ReloadImage | src/main.rs:80-84 | the image loaded is `dir/images[current]` |
| MainApp.ImageManager.NextImage | src/main.rs:56-60 | the cursor moves as `NextIndex` and nothing else changes |
| MainApp.ImageManager.PrevImage | src/main.rs:62-65 | the cursor moves as `PrevIndex` and nothing else changes |
| MainApp.ImageManager.SeekToImage | src/main.rs:67-78 | the cursor ends at `min(pos, len - 1)`; it reloads exactly when `pos` differs from the cursor, and warns exactly when it also exceeds the last index |
| MainApp.NewTextSuggester | src/main.rs:140-152 | the corpus is exactly `{"programming", "warframe", "linux"}`, with no seed lost |
| MainApp.FoldLabel | src/main.rs:289-294 | the fold keeps its start as a prefix and adds each item's length plus two |
| MainApp.FoldLabelAppendsJoin | src/main.rs:289-294 | folding from an accumulator appends `", "` and the suggestions joined by `", "` |
| MainApp.SuggestionLabel | src/main.rs:284-294 | the label is the suggestions joined by `", "`, or `" "` when there are none |
| MainApp.SuggestionsLine | src/main.rs:284-295 | the widget text is `Suggestions: `, the `", "`-joined suggestions (or `" "`), then ` (TAB to cycle)` |
| MainApp.KeepImages | src/image_manager.rs:202-204 | a name is kept exactly when it is in the list and its extension is allowed |
| MainApp.JoinCommaLength | src/main.rs:284-295 | the label's length is the suggestions' lengths plus two per separator |
| MainApp.NoSuggestionsLine | src/main.rs:284-295 | with no suggestions the label reads `Suggestions:   (TAB to cycle)` |
| MainApp.TwoSuggestionsLine | src/main.rs:284-295 | `linux` and `warframe` read `Suggestions: linux, warframe (TAB to cycle)` |

## Left out

- Image decoding and textures (`open_image_or_default`, the file read of `reload_image`, `convert_img`, `update_texture`, `get_texture`, the placeholder image): calls into the image and GPU libraries. `ReloadImage` only says which path is loaded and when indexing panics.
- File-system effects: `read_dir`, `create_dir_all`, `fs::copy`, `fs::remove_file` are I/O. The listing is an input, directory creation is assumed to succeed, and copy and delete outcomes are inputs. A failure of `read_dir` itself, and of `create_dir_all`, which both panic, is not modelled.
- `fs::copy` overwrites an existing destination; the model only records that the destination exists afterwards, and has no collision policy.
- `into_string().unwrap()` on a non-UTF-8 file name: names are Dafny strings.
- `process::exit(1)` and the log lines (`println!`, `eprintln!`): the exit is `null` from `New`, the out-of-range warning of the older `seek_to_image` is a boolean result; output text is not modelled.
- `PathBuf::join` with an absolute or multi-component argument: paths are component sequences and each join appends one component.
- `hashset_search` (src/text_suggest.rs:16-35) and `get_results` (src/main.rs:118-137): ranking and filtering rest on floating-point fuzzy scores of `rust_fuzzy_search`, and the memoization is the `cached` crate's sized cache. Its key is the prompt alone, so a cached prompt would not see a changed corpus.
- `src/data_store.rs` (file open and YAML) and `src/config.rs` (declarations only): `Config` and `ButtonConfig` are datatypes used for the output directories.
- GUI and CLI: the egui layout of `update`, image scaling in `view`, the progress bar, `raw_window_event`, the `clap` arguments and the event loop, including the older revision's per-frame `seek_to_image` call from the slider.
- Integer widths: indices are unbounded naturals. Every call happens with the cursor inside a non-empty list, so `len - 1` never underflows.

## Findings

| source | as written | input that shows it | evidently intended | confidence | as-written member | corrected member |
|---|---|---|---|---|---|---|
| src/image_manager.rs:152-153 | after `self.images.remove(self.image_index)` the cursor is not clamped, and `reload_image` indexes `images[image_index]` | images `["a.png", "b.png"]`, cursor 1, a successful `move_current`: the list becomes `["a.png"]`, the cursor stays 1 and the reload panics | clamp the cursor to the last entry of the shortened list; only an empty list cannot be shown | high, not executed | ImageManagement.ImageManager.MoveCurrent, ImageManagement.MoveLastImageAsWritten | ImageManagement.ImageManager.MoveCurrentReclamped, ImageManagement.MoveLastImageReclamped |
