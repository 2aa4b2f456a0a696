# Handwriting preview, glyph picker and SVG style compressor

A Dafny model of the three pieces of logic in the handwriting tool
(`src/utils`):

- **Preview layout** (`Gui`, from `gui.py`). `HandwritingGUI.preview` strips
  the input text and shows a prompt when nothing is left. Otherwise it
  clears the scene, cuts the text to `columns * rows` characters and lays it
  out row by row, one 15-pixel cell per character with a 10-pixel margin.
  Each character becomes an SVG glyph item at its cell's corner when the
  picker finds a glyph for it. Otherwise it becomes a text item holding a
  blank, moved `cell_size // 4` into the cell. Last, the scene rectangle is
  set to enclose the grid. The scene is a `seq<Item>` field of a class; the
  loop appends one item per character.
- **Glyph picker** (`Picker`, from `picker.py`). `HandwritingPicker` keeps
  the `.svg` names of a character's folder in the asset directory and
  returns one of them, chosen arbitrarily, joined to the folder. It returns
  no path when the folder is missing or holds no `.svg` file.
  `is_chinese` tests the CJK Unified Ideographs block U+4E00..U+9FFF, and
  `get_fallback_char` gives the full-width space U+3000 for a CJK character
  and the ASCII space otherwise. The picker has no mutable state, so it is a
  datatype and its operations are pure.
- **SVG style compressor** (`Compress`, from `compress.py`).
  `compress_svg_style` counts the `style` values of the `path` elements,
  ignoring the namespace. Each style with `len(style) * (count - 1) > 40`
  gets a class `s0`, `s1`, ... in the order its style first occurs. Those
  paths trade `style` for `class`, and a `<style>` element holding the class
  definitions becomes the root's first child when any class exists. The
  parsed tree is a class (`SvgTree`) over its elements in `root.iter()`
  order. `compress_svg` runs svgo on every `.svg` file that the ledger
  `last_compress` does not have up to date. It stamps each file svgo
  compresses with the run's start time and then restyles it. The ledger is
  a class (`CompressionLedger`) holding that map.
- `Strings` holds the Python string operations these rely on:
  `str.strip`/`isspace`, `str.endswith`, `posixpath.join`, decimal
  rendering and `str.join`.

The layout is plain:
- the grid is filled strictly row-major;
- a newline takes one cell like any other character;
- `random.choice` picks from all candidates;
- truncation is silent.

Representation choices:
- The asset directory is a `map<char, seq<string>>` from a character to its
  folder listing, where a missing key means no folder. `random.choice` is
  Dafny's arbitrary choice `:|`, so the model promises only that the result
  is one of the candidates.
- A document is a sequence of elements (tag, attribute map, text) in
  document order, with the root first. A new first child of the root
  therefore sits at position 1.
- Modification times and the ledger's stamps are `real`; they are only
  compared.

## Model

| member | source | states |
|---|---|---|
| Strings.Strip | src/utils/gui.py:66 | `str.strip()` gives the slice of the input from its first to its last non-whitespace character; only whitespace lies outside it. The result is empty exactly when the input is all whitespace. |
| Strings.Join | src/utils/picker.py:10 | `os.path.join(a, b)` is `b` itself when `b` is absolute. Otherwise it starts with `a`, ends with `b`, and between them holds a single `/` exactly when `a` is non-empty and does not end in `/`, and nothing otherwise. |
| Strings.JoinBaseName | src/utils/picker.py:10 | Joining a folder with a file name free of `/` and taking the basename gives the file name back, so the joined path names the chosen file. |
| Strings.NatToString | src/utils/compress.py:73 | The decimal rendering of the class index is a non-empty string of digits without a leading zero (except `0` itself). |
| Strings.ParseNatToString | src/utils/compress.py:73 | Reading the decimal rendering of `n` back gives `n`. |
| Strings.NatToStringInjective | src/utils/compress.py:73 | Different indices have different decimal renderings. |
| Strings.JoinWithSplit | src/utils/compress.py:88 | `sep.join(parts)` cut between parts `k-1` and `k` is the join of the first `k` parts, one `sep`, and the join of the rest; so the parts appear in order with exactly one separator between neighbours. |
| Picker.SvgFiles | src/utils/picker.py:13 | Every name the filter keeps ends in `.svg`. |
| Picker.SvgFilesSpec | src/utils/picker.py:13 | The filter keeps exactly the names ending in `.svg`, each as often as in the listing, in listing order (a subsequence of the listing). |
| Picker.HandwritingPicker.PickSvgForChar | src/utils/picker.py:9-17 | No path exactly when the character has no folder or its folder has no `.svg` name. Otherwise the path is the folder joined with one of those names. |
| Picker.HandwritingPicker.GetFallbackChar | src/utils/picker.py:22-26 | A one-character whitespace string: U+3000 exactly for CJK characters and `" "` exactly for the others. |
| Picker.PickIsSvgOfListing | src/utils/picker.py:13-17 | Any returned path is the folder joined with a name from the folder's listing that ends in `.svg`. So the path itself ends in `.svg` and is never empty. |
| Picker.PickExists | src/utils/picker.py:13-17 | When the folder holds a `.svg` name, the filtered list is non-empty and the choice always succeeds. |
| Picker.ChineseRangeEnds | src/utils/picker.py:19-26 | The CJK test holds at U+4E00 and U+9FFF and fails at U+4DFF and U+A000, both ends included. Sample characters get the matching fallback. |
| Gui.Truncate | src/utils/gui.py:77-78 | `text[:max_chars]` is the prefix of length `min(len(text), max_chars)`. |
| Gui.HandwritingGUI.constructor | src/utils/gui.py:13-16 | The window starts with a picker on the default asset directory `asset`, an empty scene and no scene rectangle. |
| Gui.HandwritingGUI.PlaceChar | src/utils/gui.py:82-95 | The item for index `idx` is a glyph item at `(margin + col*cell_size, margin + row*cell_size)` holding a path the picker may return. Exactly when the character has no `.svg` file, it is instead a text item holding the fallback blank at that point plus `cell_size // 4`. |
| Gui.HandwritingGUI.PlaceAll | src/utils/gui.py:72-95 | The loop clears the scene and leaves exactly one placed item per character of the text, item `i` for character `i`. |
| Gui.HandwritingGUI.Preview | src/utils/gui.py:65-97 | Stripped text that is empty gives the prompt and leaves the scene and its rectangle untouched. Otherwise the scene holds exactly `min(len(stripped), columns*rows)` items, item `i` placed for stripped character `i`, and the rectangle is `(0, 0, 2*margin + columns*cell_size, 2*margin + rows*cell_size)`. |
| Gui.TruncatedLayout | src/utils/gui.py:77-95 | A scene laid out for the text cut to `max_chars` holds `min(len(text), max_chars)` items, item `i` placed for character `i` of the uncut text. |
| Gui.GridCoordinates | src/utils/gui.py:77-83 | Every index below `columns*rows` has column below `columns`, row below `rows`, and equals `row*columns + col`. |
| Gui.RowMajorOrder | src/utils/gui.py:82-83 | A later index lies in a later row, or in the same row further right. |
| Gui.PositionsDistinct | src/utils/gui.py:82-85 | Distinct indices get distinct positions; a later index lies lower, or on the same line further right. |
| Gui.CellInsideScene | src/utils/gui.py:84-97 | The cell `[x, x+cell_size) x [y, y+cell_size)` of every index below `columns*rows` lies inside the scene rectangle. |
| Gui.PlacedItemKind | src/utils/gui.py:86-95 | An item is a glyph item exactly when the character has a `.svg` file. A glyph item sits at the cell corner with a `.svg` path; a text item sits 3 pixels into the cell and holds the fallback. |
| Compress.LocalNameIsLastSegment | src/utils/compress.py:62 | `tag.split('}')[-1]` is the longest suffix of the tag without `}`: the whole tag, or the part after its last `}`. |
| Compress.PathIndicesSpec | src/utils/compress.py:61-65 | `paths` holds the position of every element whose local name is `path` and that has a `style` attribute, and only those, in document order. |
| Compress.StylesOfPaths | src/utils/compress.py:63-65 | The counted styles are the `style` values of the collected paths, one per path, in the same order. |
| Compress.PrefixStep | src/utils/compress.py:61-65 | One more pass of the counting loop adds that element's style and position exactly when it is a styled path. Otherwise nothing is added. |
| Compress.Distinct | src/utils/compress.py:64-71 | The Counter's keys are exactly the counted styles, without duplicates. |
| Compress.Selected | src/utils/compress.py:71-72 | The styles given a class are exactly the keys with `len(style)*(count-1) > 40`, without duplicates. |
| Compress.SvgTree.constructor | src/utils/compress.py:55-56 | A parsed tree is its root followed by its descendants in document order. |
| Compress.SvgTree.CountStyles | src/utils/compress.py:59-65 | The loop yields the counts of the collected styles, the Counter's keys in insertion order and the `paths` list. The counts sum to the number of collected paths. |
| Compress.SelectedStep | src/utils/compress.py:71-76 | In one pass of the selection loop, the next Counter key is added to the selection exactly when it is worth a class, and it was not selected before. |
| Compress.SelectClasses | src/utils/compress.py:68-76 | Each Counter key, in order, whose style is worth a class gets the next name `s<k>`; `style_to_class` and `class_defs` are exactly those of the selected styles. |
| Compress.SvgTree.RestyleElement | src/utils/compress.py:80-83 | One collected path trades `style` for its class when its style has one; nothing else changes. |
| Compress.RestyleStep | src/utils/compress.py:79-83 | Before its turn in the replacement loop, each collected path is still as parsed, so it still has its `style`; rewriting it adds exactly its position to those rewritten. |
| Compress.RestyledAll | src/utils/compress.py:79-83 | Once every collected path is rewritten, every element of the document is. |
| Compress.SvgTree.ReplaceStyles | src/utils/compress.py:79-83 | After the loop over `paths`, every element is rewritten by the class map and no element is missing or added. |
| Compress.SvgTree.InsertStyle | src/utils/compress.py:86-90 | A `<style>` element holding the definitions one per indented line becomes the root's first child, and only when there are definitions. |
| Compress.SvgTree.CompressSvgStyle | src/utils/compress.py:48-90 | The tree after the pass is the compressed document of the tree before it. |
| Compress.ClassIffWorthIt | src/utils/compress.py:71-72 | A style gets a class exactly when some collected path has it and `len(style)*(count-1) > 40`; a style used once never gets one. |
| Compress.ClassNamesConsecutive | src/utils/compress.py:70-76 | The `k`-th selected style gets `s<k>`, the names are exactly `s0 .. s(k-1)`, and different styles get different names. |
| Compress.ClassNameInjective | src/utils/compress.py:73 | Different indices give different class names. |
| Compress.DistinctInFirstOccurrenceOrder | src/utils/compress.py:64-71 | The Counter's keys come in the order in which the styles first occur. |
| Compress.SelectedKeepsOrder | src/utils/compress.py:71-72 | Filtering the keys keeps their first-occurrence order. |
| Compress.ClassesInFirstOccurrenceOrder | src/utils/compress.py:59-76 | Classes are handed out in first-occurrence order of their styles among the collected paths. |
| Compress.RewriteEffect | src/utils/compress.py:79-83 | A collected path whose style is mapped loses `style`, gets `class` equal to its mapped name, and keeps its tag, text and other attributes. Every other element is unchanged. |
| Compress.CompressedShape | src/utils/compress.py:79-90 | A `<style>` element with the class definitions is inserted right after the root exactly when some class is defined; otherwise the document keeps its length. Every original element keeps its place, shifted past the `<style>` element, rewritten. |
| Compress.CompressionLedger.constructor | src/utils/compress.py:7-8 | The ledger starts as loaded. |
| Compress.CompressionLedger.CompressSvg | src/utils/compress.py:17-43 | Without svgo nothing changes. Otherwise the ledger and the restyled files are those of the walk loop, file by file, with the skip rule and the update after svgo succeeds. |
| Compress.LedgerStamps | src/utils/compress.py:27-43 | After a run the ledger holds the old entries and the restyled files. Every restyled file is a walked `.svg` file that svgo compressed, and carries its recorded time. Every other old entry keeps its time. |
| Compress.SameStampPerRun | src/utils/compress.py:27-40 | Every file one run compresses gets the same ledger time, the run's start time. |
| Compress.LedgerKeepsOthers | src/utils/compress.py:33-40 | A file that was not restyled has the same ledger entry, or none, as before the run. |
| Compress.StepRestyled | src/utils/compress.py:30-41 | One walked file is restyled exactly when it is a `.svg` file that is not up to date and svgo compresses it. |
| Compress.SkipRule | src/utils/compress.py:30-41 | A walked `.svg` file that svgo can compress is restyled exactly when the loaded ledger did not have it with a recorded time at or after its modification time. |
| Compress.StampBeforeWriteRecompresses | src/utils/compress.py:27-41 | As written, a compressed file whose modification time ends up after the run's start time, which it does because svgo and the restyling rewrite it, is compressed again by the next run over the same files. |
| Compress.RecompressExample | src/utils/compress.py:27-41 | A file last modified at time 1 and compressed by a run starting at time 2 is recorded at time 2. Once rewritten at time 3, it is compressed again by the next run. |
| Compress.FreshStampSkipsUnchanged | src/utils/compress.py:30-40 | When the ledger records each compressed file's modification time after it was rewritten, the next run skips a file nothing touched since. |

## Findings

| source | as written | input that shows it | evidently intended | confidence | as-written member | corrected member |
|---|---|---|---|---|---|---|
| src/utils/compress.py:27-41 | The ledger records `current_time`, read at the start of the run, for each file svgo compresses. svgo (`-o svg_file`) and then `compress_svg_style` (`tree.write`) rewrite the file after that, so its modification time is later than its recorded time. | `data/font/a.svg`, modified at time 1 and not in the ledger. A run starting at time 2 compresses it and rewrites it at time 3. The next run finds 3 > 2 and compresses it again, and so does every later run. | A file the tool compressed and nothing touched since is skipped. For example, record `os.path.getmtime(svg_file)` after `compress_svg_style` returns. | high; reasoned from the code, not executed | Compress.StampBeforeWriteRecompresses, Compress.RecompressExample | Compress.FreshStampSkipsUnchanged |

The ledger functions (`Step`, `RunLedger`) take the recorded time as a
parameter `stamp`, so `LedgerStamps` and `SkipRule` hold for both
versions. `AtTime(now)` is the code as written, which
`CompressionLedger.CompressSvg` models. A per-file stamp equal to the
rewritten file's modification time is the correction.

## Left out

- PyQt widgets, layouts, the message box and the actual rendering of
  `QGraphicsSvgItem` and `addText`. The scene is a sequence of item
  records, `setSceneRect` is kept as its argument, and the prompt becomes
  the `prompted` result.
- The scale `cell_size / 15` applied to glyph items: floating point, and 1
  for the constant cell size.
- The inner workings of `random.choice`: the choice is an arbitrary one
  among the candidates.
- `parse_svg_path`: a wrapper over the XML parser that swallows exceptions;
  the parser is not part of this model.
- The filesystem. `os.path.isdir` and `os.listdir` become the asset
  listing map. `os.walk` becomes the `walk` sequence, `os.path.getmtime`
  the `mtime` parameter and `time.time()` the `now` parameter.
- svgo and `check_svg_installed`. Whether svgo is installed, and whether it
  compresses a given file without error, are the parameters
  `svgoInstalled` and `svgoSucceeds`.
- The JSON load at import time and the save at the end of `compress_svg`.
  The ledger object starts from the loaded map, and its final map is what
  would be saved.
- XML parsing, `ET.indent` and writing the file back. The tree is its
  elements in document order, and the child structure below the root is
  not modelled.
- Compress.CompressionLedger.CompressSvg: an exception raised by
  `compress_svg_style` (a file that fails to parse) ends the whole run in
  the source. The model assumes every compressed file parses.
- The `print` messages of `compress_svg`, and `src/main.py`, which only
  starts the application.
