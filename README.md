# pid-parts: a verified model of the ingestion core

pid-parts extracts the parts (instruments, valves, line classes) of a piping
and instrumentation diagram. It renders the PDF page as an image and slices the
image into overlapping square tiles. A multimodal language model is asked for
each tile's parts as JSON. The ingestor then merges the replies into one
dictionary of items keyed by tag, and renders that dictionary as a Markdown
table.

This Dafny project models the deterministic core of that pipeline:

- `tiler.dfy` (module `Tiler`): `slice_image` as a method with two nested loops.
  It is proved equal to a row-major grid function. Lemmas give that grid's size,
  order, bounds and coverage of every pixel.
- `fence.dfy` (module `Fence`): how a reply wrapped in a Markdown code fence is
  cut down to the JSON body.
- `ingestor.dfy` (module `Ingestor`): the body of `drawing_ingestor`. That is:
  decoding each reply, moving each bounding box by its tile's offset, the field
  defaults, the pydantic validation of `Item`, and the merge that keeps the more
  confident detection. The error handling is modelled too: which exceptions
  skip a detection, which skip a tile, and which escape the run. The merge loop
  and the whole run are methods on the mutable `State`. Each is proved against
  the fold functions `MergeEntries` and `RunTiles`.
- `markdown.dfy` (module `Markdown`): `render_md`, with the sort by tag proved to
  be a stable, ordered permutation.
- `state.dfy` (module `PidState`): `Item`, the insertion-ordered `dict` of items,
  and the class `State`.
- `cli.dfy` (module `Cli`): the default Markdown file name `pid-ingest` derives from
  the PDF path.
- `strings.dfy`, `json.dfy`, `wrappers.dfy`: the Python string operations, the
  decoded JSON values and `Option`/`Result` that the models above are written in.

Python library behaviour that the core only calls is passed in as the
`Ingestor.Builtins` record:

- `json.loads` (a reply decodes to a JSON value or raises `JSONDecodeError`);
- `str()` of a list;
- pydantic's parse of a float from a string;
- the `.2%` format of a confidence.

Every property is proved for all such functions. The image is represented by
its width and height only. The tiles' model replies are a parameter: one string
per tile, in tile order.

Where the code and the design text disagree, the model follows the code:

- The prompt tells the model that bounding-box coordinates are absolute page
  pixels. The ingestor still adds each tile's offset to them
  (`src/pid_parts/drawing_ingestor.py:40` against `:148-154`).
- `conf` is described as a score but is never range-checked. Any number, or a
  string pydantic parses as a float, is stored.
- Only `json.JSONDecodeError` is caught around a tile
  (`src/pid_parts/drawing_ingestor.py:177`). A reply that decodes to a list,
  string or number makes `json_data.items()` raise `AttributeError`. That
  exception ends the run (`Ingestor.EscapesIff`), and no markdown is written
  (`Ingestor.DrawingIngestor`).
- `asyncio.gather` is called without `return_exceptions`
  (`src/pid_parts/drawing_ingestor.py:140`). A failing model call therefore
  ends the run rather than counting as a tile with no detections. The model
  calls are outside this model, which takes one reply per tile as given.

## Model

| member | source | states |
|---|---|---|
| Tiler.SliceImage | src/pid_parts/tiler.py:54-84 | y runs over range(0, height, stride) and x over range(0, width, stride). The emitted list equals `Grid`: one tile per (x, y), row after row, each crop clamped to the image. |
| Tiler.TileCount | src/pid_parts/tiler.py:78-82 | The grid has ceil(height/stride) * ceil(width/stride) tiles. It is empty exactly when the width or the height is 0. |
| Tiler.GridCell | src/pid_parts/tiler.py:78-82 | The tile at row r and column c sits at index r*cols + c. Its offset is (c*stride, r*stride) and its crop ends at min(offset + tile, image size). |
| Tiler.GridIndex | src/pid_parts/tiler.py:78-82 | The k-th tile is the cell at row k / cols, column k % cols. |
| Tiler.TileInside | src/pid_parts/tiler.py:79-82 | Every tile's offset is a multiple of the stride and lies inside the image. Its crop is non-empty and ends at min(offset + tile, image size). It is shorter than a full tile only where it meets the right or bottom edge. |
| Tiler.RowMajor | src/pid_parts/tiler.py:78-79 | Of two tiles, the earlier one has a smaller y, or the same y and a smaller x. |
| Tiler.Coverage | src/pid_parts/tiler.py:59-63 | When stride <= tile, every pixel of the image lies in the crop of some tile. |
| Tiler.StepsAntitone | src/pid_parts/tiler.py:74-79 | A smaller stride never gives fewer steps along an axis. |
| Tiler.CountAntitone | src/pid_parts/tiler.py:74-79 | A smaller stride never yields fewer tiles, whatever the tile size. |
| Tiler.NoOverlapGrid | tests/test_tiler.py:43-57 | A 1000 x 800 image at tile 500, stride 500 gives exactly the tiles at (0,0), (500,0), (0,500), (500,500), with their crops. |
| Tiler.OverlapCounts | tests/test_tiler.py:25-40 | On a 1000 x 800 image, tile 500 at overlap 0.1 gives 6 tiles and tile 200 gives 30. Tile 300 at overlap 0.05 gives 12 and at overlap 0.3 gives 20. |
| Fence.BodyStart | src/pid_parts/drawing_ingestor.py:123-128 | The start index of the body never passes the end of the reply. |
| Fence.BodyEnd | src/pid_parts/drawing_ingestor.py:130-133 | The end index of the body lies between its start and the end of the reply. |
| Fence.StripFence | src/pid_parts/drawing_ingestor.py:121-135 | A reply that does not start with ``` is handed on unchanged. |
| Fence.BodyStartSpec | src/pid_parts/drawing_ingestor.py:123-128 | For a fenced reply, the body starts just after the first "```json" when there is one, and at 3 otherwise. |
| Fence.BodyEndSpec | src/pid_parts/drawing_ingestor.py:130-133 | The body ends at the last ``` of the whole reply when a ``` occurs at or after the start. Otherwise it runs to the end of the reply. |
| Fence.JsonFenced | src/pid_parts/drawing_ingestor.py:121-135 | "```json" + body + "```" yields body.strip(). |
| Fence.PlainFenced | src/pid_parts/drawing_ingestor.py:121-135 | "```" + body + "```", with no "```json" inside, yields body.strip(). |
| Ingestor.AddOffsetCoord | src/pid_parts/drawing_ingestor.py:149-154 | Adding a tile offset to a coordinate keeps it an int-valued value pydantic accepts, exactly when it was one before. The accepted value grows by the offset. |
| Ingestor.TranslateBBox | src/pid_parts/drawing_ingestor.py:148-154 | The translated bbox reads back as a BBox exactly when the raw bbox is a list of four acceptable coordinates. It reads back as each coordinate plus its axis offset. |
| Ingestor.NormalisedFields | src/pid_parts/drawing_ingestor.py:148-167 | After the in-place edits `Normalise` makes: the tag defaults to "unknown_" + key when missing or null; a list size becomes str(list); conf defaults to 0.5 when missing or null; the bbox is the translated one; every other field is as in the reply. |
| Ingestor.EntryAccepted | src/pid_parts/drawing_ingestor.py:148-176 | `ParseEntry` yields an Item for a detection exactly when it is `Acceptable`. That is: it is a dict without its own "status"; its bbox is four int-valued numbers; "type" is a str; tag, size and conf are missing, null or of an accepted kind. Every other detection is skipped. |
| Ingestor.EntryFields | src/pid_parts/drawing_ingestor.py:148-171 | The Item `ParseEntry` builds from a detection has: the bbox moved by the tile offset; the reply's type; the tag or "unknown_" + key; the size (None when missing or null, str(list) for a list); the conf or 0.5; status "INGESTED". |
| Ingestor.MergeItem | src/pid_parts/drawing_ingestor.py:172-173 | Storing an item keeps the dict well formed. Each key is listed once, in insertion order. |
| Ingestor.MergeDetection | src/pid_parts/drawing_ingestor.py:145-176 | One detection is merged when it yields an Item and skipped when it raises. Either way the dict stays well formed. |
| Ingestor.MergeOne | src/pid_parts/drawing_ingestor.py:144-173 | A reply holding one accepted detection merges exactly its Item by the merge rule. |
| Ingestor.MergeRule | src/pid_parts/drawing_ingestor.py:172-173 | An absent key gets the item. A present key's item is replaced only by a strictly more confident one. No other key changes, no key is removed, and a stored conf never goes down. |
| Ingestor.MergeEntries | src/pid_parts/drawing_ingestor.py:144-176 | Merging a reply's detections keeps the dict well formed. No key is lost, and no stored conf goes down. |
| Ingestor.RunTiles | src/pid_parts/drawing_ingestor.py:140-180 | The run over all tiles keeps the dict well formed, whether or not an exception escapes. No key is lost, and no stored conf goes down. |
| Ingestor.MergeKeys | src/pid_parts/drawing_ingestor.py:144-173 | The keys after a reply are the old keys plus the keys of its accepted detections. No key is ever removed. |
| Ingestor.MergeKeepsBest | src/pid_parts/drawing_ingestor.py:170-173 | After a reply, the item under a key is at least as confident as each accepted detection of that key. |
| Ingestor.MergeSource | src/pid_parts/drawing_ingestor.py:144-173 | An item stored after a reply was already stored, or is the Item of an accepted detection of that key in the reply. |
| Ingestor.SkipBadEntry | src/pid_parts/drawing_ingestor.py:174-176 | A detection that raises is skipped. The reply merges as if it were absent. |
| Ingestor.MergeIngested | src/pid_parts/drawing_ingestor.py:171 | Merging a reply keeps every stored item at status "INGESTED". |
| Ingestor.RunIngested | src/pid_parts/drawing_ingestor.py:140-180 | A whole run keeps every stored item at status "INGESTED". |
| Ingestor.UndecodableReplies | src/pid_parts/drawing_ingestor.py:177-180 | Replies none of which decodes as JSON leave the items unchanged, and the run completes. |
| Ingestor.EscapesIff | src/pid_parts/drawing_ingestor.py:141-180 | An exception escapes the run exactly when some reply decodes to a JSON value that is not an object. |
| Ingestor.TranslateExample | src/pid_parts/drawing_ingestor.py:148-154 | The bbox [10, 20, 30, 40] in the tile at (100, 50) becomes [110, 70, 130, 90]. |
| Ingestor.TieBreakExample | src/pid_parts/drawing_ingestor.py:172-173 | A 0.8 then a 0.7 detection keep the first. A 0.6 then a 0.95 keep the second. Equal confidences keep the first. |
| Ingestor.FixtureRead | tests/test_ingestor_schema.py:128-130 | The fields read from the test's PIT-102 detection are its tag, type, size, bbox and conf, with no status. |
| Ingestor.FixtureTranslate | tests/test_ingestor_schema.py:120-124 | In a tile at the origin, the bbox [10, 20, 30, 40] is unchanged. |
| Ingestor.FixtureValid | src/pid_parts/state.py:12-24 | pydantic builds the Item PIT-102 / PT / "2" / (10, 20, 30, 40) / 0.95 / INGESTED from those fields. |
| Ingestor.FixtureEntry | tests/test_ingestor_schema.py:116-153 | In a tile at the origin, that detection becomes that Item. |
| Ingestor.UnmovedEntry | src/pid_parts/drawing_ingestor.py:148-171 | When the tile leaves a detection's bbox unchanged, the detection validates on its own fields with the defaults applied. |
| Ingestor.FencedReplyExample | tests/test_ingestor_schema.py:116-153 | The test's reply, "```json", a line break, its JSON line, a line break and "```", in a tile at the origin and from an empty state, stores exactly the item PIT-102 with the fields the test checks. The run completes. Only json.loads of the JSON line is taken as given. |
| Ingestor.FixtureUnfenced | tests/test_ingestor_schema.py:128-130 | Unfencing the test's reply hands exactly its JSON line to json.loads. |
| Ingestor.JsonLineFenced | src/pid_parts/drawing_ingestor.py:121-135 | A JSON line between a "```json" line and a "```" line is unfenced to exactly that line, when it neither starts nor ends with whitespace. |
| Ingestor.TileStep | src/pid_parts/drawing_ingestor.py:140-180 | One tile of the run (`ProcessTile` inside `RunTiles`), by what its reply decodes to. A JSONDecodeError skips the tile. An object merges its detections and the run goes on. Any other value ends the run with an escaped exception. |
| Ingestor.RunOne | src/pid_parts/drawing_ingestor.py:140-180 | A single tile whose reply decodes to an object merges that object's detections, and the run completes. |
| Ingestor.MergeReply | src/pid_parts/drawing_ingestor.py:144-176 | The loop over `json_data.items()` updates `state.items` to `MergeEntries` of the old items. The markdown and pending questions are untouched. |
| Ingestor.DrawingIngestor | src/pid_parts/drawing_ingestor.py:140-184 | The tiles are `Grid` at 1200 px, stride 1020. The new items and the escape flag are `RunTiles` over those tiles. When nothing escapes, the markdown is `render_md` of the new items; otherwise it is unchanged. The pending questions are untouched. |
| Markdown.Rows | src/pid_parts/markdown.py:34-37 | One row per item, in the given order. |
| Markdown.SortByTagCorrect | src/pid_parts/markdown.py:36 | `SortByTag`, the model of sorted(values, key=tag), is ordered by tag and is a permutation of its input. It is stable: items with equal tags keep their order. |
| Markdown.RenderEmpty | src/pid_parts/markdown.py:24-25 | The report is "" exactly when there are no items. |
| Markdown.RenderHeader | src/pid_parts/markdown.py:28-31 | A non-empty report starts with the header line and the separator line. |
| Markdown.RenderJoin | src/pid_parts/markdown.py:28-40 | `RenderMd` of a non-empty dict is "\n".join of the header, the separator and the rows of the items sorted by tag. |
| Markdown.RenderLines | src/pid_parts/markdown.py:11-40 | When no field spans lines, the report's lines are the header, the separator and one row per item. There are 2 + len(items) lines, rows in tag order, every item once. |
| Markdown.RowCells | src/pid_parts/markdown.py:35 | Cut at "\|", a `Row` gives "", tag, type, size (empty for None), formatted conf, status and "", each cell padded by one space. This holds when no field contains "\|". |
| Markdown.RowHasTag | src/pid_parts/markdown.py:35 | An item's tag starts at the third character of its row. |
| Markdown.RenderHasTag | src/pid_parts/markdown.py:34-40 | Every stored item's tag occurs in the report. |
| PidState.ItemDefaults | src/pid_parts/state.py:12-24 | An Item built without size and status has size None and status "INGESTED". |
| PidState.ItemDict.Set | src/pid_parts/drawing_ingestor.py:173 | `d[k] = v` stores v under k. A new key goes last and an existing key keeps its place. No other key or value changes, and the keys stay distinct. |
| PidState.ItemDict.Values | src/pid_parts/markdown.py:36 | `d.values()` lists the item of each key, in insertion order. |
| PidState.State.constructor | src/pid_parts/state.py:27-36 | `State()` has no items, no markdown and no pending questions. |
| Cli.Stem | src/pid_parts/cli.py:65 | `pdf.rsplit('.', 1)[0]` is never longer than the path. |
| Cli.DefaultOutputName | src/pid_parts/cli.py:65 | A non-empty output name given by the user is used as is. |
| Cli.StemSpec | src/pid_parts/cli.py:65 | The stem is the path up to its last '.', or the whole path when it has no '.'. |
| Cli.DefaultName | src/pid_parts/cli.py:65 | With no output name, or an empty one, the name is the stem + ".md". |
| Cli.SampleName | tests/test_cli.py:68-92 | sample.pdf gives sample.md, with no output name and with "". |
| Cli.TwoExtensionsName | src/pid_parts/cli.py:65 | archive.tar.gz gives archive.tar.md: only one extension is removed. |
| Cli.DirectoryDotName | src/pid_parts/cli.py:65 | v1.2/drawing gives v1.md: a '.' in a directory name counts. |
| Cli.NoDotName | src/pid_parts/cli.py:65 | drawing gives drawing.md. |
| Strings.Find | src/pid_parts/drawing_ingestor.py:124-126 | str.find returns the lowest index where the pattern occurs, or -1 exactly when it occurs nowhere. |
| Strings.RFind | src/pid_parts/drawing_ingestor.py:131 | str.rfind returns the highest index where the pattern occurs, or -1 exactly when it occurs nowhere. |
| Strings.StripSlice | src/pid_parts/drawing_ingestor.py:135 | `Strip`, the model of str.strip, keeps a middle slice. What it drops on each side is whitespace, and what it keeps neither starts nor ends with whitespace. |
| Strings.StripFramed | src/pid_parts/drawing_ingestor.py:135 | str.strip removes one whitespace character on each side of a body with non-whitespace ends, and keeps the body. |
| Strings.LexLeTotal | src/pid_parts/markdown.py:36 | Any two tags are ordered one way or the other. |
| Strings.LexLeTransitive | src/pid_parts/markdown.py:36 | The tag order is transitive. |
| Strings.LexLeAntisymmetric | src/pid_parts/markdown.py:36 | Tags ordered both ways are equal. |
| Strings.SplitJoin | src/pid_parts/markdown.py:40 | Splitting a join of separator-free parts at the separator gives the parts back. |
| Strings.JoinContains | src/pid_parts/markdown.py:40 | Every part of a join occurs in it. |
| Json.GetPut | src/pid_parts/drawing_ingestor.py:149-167 | After `det[k] = v`, `det.get(k)` is v and every other key reads as before. |
| Json.GetDistinct | src/pid_parts/drawing_ingestor.py:158-166 | In a dict with no repeated key, `det.get(k)` of a member's key is that member's value. |

## Left out

- Rendering the PDF page (`pdf_page_to_image`, `src/pid_parts/tiler.py:38-51`) and the pixels of each crop. A tile is only its offset and crop rectangle, and the image only its width and height.
- Tiler.SliceImage: takes the stride itself, not `int(tile * (1 - overlap))`, because the model has no floating point. The default 1020 is that product for 1200 and 0.15 (`src/pid_parts/constants.py:11-16`). The test cases use the strides their overlaps give.
- The language-model call, the prompt messages and the base64 encoding (`src/pid_parts/drawing_ingestor.py:27-58`, `:93-117`). The replies are a parameter, one per tile in tile order.
- The `asyncio.gather` concurrency. `gather` returns results in tile order, so the merge is modelled as the sequential fold it is.
- `json.loads`, `str()` of a list, pydantic's float parse of a string and the `.2%` format: passed in as `Builtins`, and every property holds for all of them.
- Python floats are modelled as exact reals. Rounding in `x + x_off` on a float coordinate is not modelled, and neither are NaN and infinity.
- A JSON object is its members in insertion order. `json.loads` never returns an object with a repeated key, but the datatype does not enforce that (`Json.DistinctKeys` names the property). Since `Builtins.loads` is any function, it may return repeated members. For such a `loads`, the run merges every repeated top-level member in turn by the merge rule, and `Get` reads the first of a repeated field inside a detection. Under `Json.DistinctKeys` both agree with Python's dict, which keeps the last value.
- Ingestor.ValidateFields: models pydantic's lax mode only for the kinds of value a decoded reply holds. A str field takes only a str; an int takes an int, a bool or an integral float; a float takes a number or a numeric str. Pydantic's error messages are not modelled, only that validation fails.
- Ingestor.EntryError: only approximates the Python exception types. The inner handler catches every `Exception` and only prints it, so the model keeps only that a detection was skipped.
- Exceptions from the runtime itself (memory, recursion in the decoder) are not modelled.
- The `print` calls of the ingestor and the CLI, the JSON dump of the items, and writing the Markdown file (`src/pid_parts/cli.py`, apart from line 65).
- The `IngestUpdate` dictionary the ingestor returns. It holds `state.items` and `state.markdown`, which `DrawingIngestor` states.
- `State.pending_questions`: only its initial value is modelled. The ingestor never touches it.
- `models.py`, `configure.py`, `graph_dummy.py` and `__init__.py` are not part of this model; they hold configuration and wiring only.
