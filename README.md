# Glyph loading, image buffers and `match` — a Dafny model

This project models four pieces of a map renderer's style and text pipeline, and proves what
they promise.

- **The glyph manager** (`Manager`, `glyph_manager.dfy`) keeps one entry per font stack. Each
  entry holds a cache of glyphs by codepoint (`null` for requested-but-missing), the waiters
  of every range being loaded, and an optional local rasterizer.
  - `getGlyphs` flattens a request into (stack, id) units and resolves them in order. A unit is
    answered from the cache, by local synthesis of a CJK or Hangul glyph, or by failing above
    codepoint 65535. Otherwise it waits on its 256-codepoint range, and only the first waiter
    of a range starts the load.
  - When a load completes, its response is merged into the cache, every waiter is told in push
    order, and the waiter list is deleted.
  - A batch's callback fires once all its units have reported. It gets the error last reported
    or the glyphs grouped by stack.
  - The manager is a `class` whose methods are proved against transition functions on a pure
    `State`. The state has an invariant `Inv`, preserved by every transition. It holds that:
    - batches are consistent;
    - every pending unit waits on exactly one load;
    - each (stack, range) has at most one outstanding load;
    - each stack's rasterizer is created once.
- **Loading one glyph range** (`GlyphRange`, `load_glyph_range.dfy`) covers:
  - the range's bounds;
  - the URL built from the template with `String.prototype.replace`;
  - a result map pre-filled with `null` for the whole range;
  - the tag-dispatched decoding of the range payload, where a later field or record overwrites
    an earlier one.
- **Image buffers** (`ImageUtil`, `image.dfy`): zero-filled allocation, a bounds-checked
  rectangle copy between two distinct buffers, and a resize that keeps the top-left corner.
- **The `match` expression** (`Match`, `match.dfy`):
  - parsing, which reports the first bad label under its key path and otherwise wraps each
    label as a literal;
  - compilation to a map from type-tagged values to the LAST label holding them;
  - the meaning of the compiled code at evaluation time.

`common.dfy` holds `Option`, `Result`, a byte type and the decimal rendering of integers,
which is proved injective.

Inputs and effects that are not part of this code become parameters:
- the URL normaliser and the request-transform hook;
- the rasterizer's `draw`;
- what the transport delivers for a request;
- the field stream the protocol-buffer reader yields.

## Model

| member | source | states |
|---|---|---|
| Manager.GlyphManager.constructor | src/render/glyph_manager.js:24-28 | the hook and fallback family are kept; no entries, no loads, no batches; the invariant holds |
| Manager.InitialInv | src/render/glyph_manager.js:24-28 | the empty manager state satisfies the invariant |
| Manager.GlyphManager.SetURL | src/render/glyph_manager.js:30-32 | only the URL template changes |
| Manager.GlyphManager.GetGlyphs | src/render/glyph_manager.js:34-107 | the new state is the batch of the request's units resolved in order, and the invariant is preserved |
| Manager.GetGlyphsKeeps | src/render/glyph_manager.js:34-93 | `getGlyphs` preserves the invariant |
| Manager.GetGlyphsKeepsCache | src/render/glyph_manager.js:34-93 | `getGlyphs` never changes or removes a cached glyph; it only adds loads and exactly one batch, of the flattened units |
| Manager.GlyphManager.FlattenRequest | src/render/glyph_manager.js:35-41 | the loop lists the units stack by stack, ids in order |
| Manager.FlattenMembers | src/render/glyph_manager.js:35-41 | a unit is listed exactly when the request asks for that id under that stack |
| Manager.GlyphManager.ResolveBatch | src/render/glyph_manager.js:43-93 | resolving the units one after the other gives the state `ResolveFrom` describes |
| Manager.GlyphManager.ResolveUnit | src/render/glyph_manager.js:43-93 | the method's new state is the resolver transition of that unit |
| Manager.Resolve | src/render/glyph_manager.js:43-93 | the resolver transition of one unit keeps every batch's units and outcome count; its four cases are stated by `ResolveHit`, `ResolveSynthesis`, `ResolveOutOfRange` and `ResolveWaits` |
| Manager.ResolveFrom | src/render/glyph_manager.js:34-93 | the rest of a batch resolved unit by unit keeps every batch's units and outcome count; `ResolveFromKeeps` and `ResolveFromKeepsGlyphs` state what it does to the invariant and the cache |
| Manager.GetGlyphsStep | src/render/glyph_manager.js:34-107 | `getGlyphs` adds exactly one batch, holding the flattened request, and leaves the units of every earlier batch alone; `GetGlyphsKeeps` and `GetGlyphsKeepsCache` state the rest |
| Manager.ResolveKeeps | src/render/glyph_manager.js:43-93 | resolving a pending unit preserves the invariant and removes that unit from those still to resolve |
| Manager.ResolveFromKeeps | src/render/glyph_manager.js:43-93 | resolving the rest of a batch re-establishes the full invariant |
| Manager.ResolveKeepsGlyphs | src/render/glyph_manager.js:43-93 | a resolution keeps every cached glyph and every started load |
| Manager.ResolveFromKeepsGlyphs | src/render/glyph_manager.js:43-93 | the same for the rest of a batch |
| Manager.GlyphManager.EnsureEntry | src/render/glyph_manager.js:44-50 | a missing entry is created empty; an existing one is left as it is |
| Manager.ResolveHit | src/render/glyph_manager.js:52-56 | a cached value, glyph or `null`, answers the unit, and nothing else changes: no load and no rasterizer |
| Manager.ResolveSynthesis | src/render/glyph_manager.js:58-62 | an eligible id gets the glyph drawn by the stack's rasterizer, which is created only if missing; the glyph is not cached and no load starts |
| Manager.ResolveOutOfRange | src/render/glyph_manager.js:64-68 | an id above 65535 that is neither cached nor synthesised fails with the range error and starts no load |
| Manager.RangeBoundIsIdBound | src/render/glyph_manager.js:64-65 | `floor(id / 256) * 256 > 65535` holds exactly for ids above 65535 |
| Manager.ResolveWaits | src/render/glyph_manager.js:70-93 | any other unit is appended to its range's waiters; a load starts only when the range had no waiter list, so a second lookup joins the first one's load |
| Manager.GlyphManager.WaitOn | src/render/glyph_manager.js:70-93 | the method's new state is the wait transition: the list is created and the load started only when the range had none |
| Manager.GlyphManager.WaitRequestsFilledUrl | src/render/glyph_manager.js:70-73 | a unit waiting on a range with no load starts exactly one load, and for a template `a{fontstack}b{range}c` that load hands the hook `a` + stack + `b` + `begin-end` + `c` with the `Glyphs` type |
| Manager.GlyphManager.TinySDF | src/render/glyph_manager.js:109-143 | returns a glyph exactly when the family is set and non-empty and the id is CJK Unified Ideograph or Hangul Syllable; the rasterizer is created only when the stack has none; otherwise nothing changes |
| Manager.WithTinySdfOnce | src/render/glyph_manager.js:119-130 | creating the rasterizer keeps each stack's rasterizer created exactly once, with the configured family and the stack's weight |
| Manager.FontWeight | src/render/glyph_manager.js:121-128 | weight 900 when the stack mentions bold (ignoring case), otherwise 500 for medium, otherwise 200 for light, otherwise 400 |
| Manager.ContainsIgnoringCase | src/render/glyph_manager.js:122-126 | `/word/i.test(s)` holds exactly when some position spells the word ignoring ASCII case |
| Manager.SynthGlyph | src/render/glyph_manager.js:132-142 | the synthesised glyph has the unit's id, a bitmap and the fixed metrics 24, 24, 0, -8, 24 |
| Manager.GlyphManager.ReportUnit | src/render/glyph_manager.js:54-91 | a unit's callback stores its outcome in its batch |
| Manager.ReportKeeps | src/render/glyph_manager.js:54-91 | a unit's report preserves the invariant: a batch's error is one some unit reported, and its callback has fired exactly when every unit has reported, with the error or the grouped glyphs |
| Manager.GlyphManager.CompleteLoad | src/render/glyph_manager.js:74-84 | the new state is the completion of that load for the transport's result, and the invariant is preserved |
| Manager.Complete | src/render/glyph_manager.js:74-84 | without a callback nothing changes; otherwise the range stops being outstanding, one completion is recorded, no load starts and every batch keeps its units; `CompleteEffects` states each waiter's outcome and the cache |
| Manager.CompleteKeeps | src/render/glyph_manager.js:74-93 | a completed load preserves the invariant |
| Manager.GlyphManager.Settle | src/render/glyph_manager.js:74-84 | merge, notify, then delete the waiter list, in the code's order |
| Manager.GlyphManager.MergeResponse | src/render/glyph_manager.js:75-79 | the response is merged into the stack's cache, and the response wins |
| Manager.GlyphManager.MergeGlyphs | src/render/glyph_manager.js:76-78 | copying a response id by id gives the cache overridden by the response |
| Manager.MergeDone | src/render/glyph_manager.js:76-78 | once every id is copied, the merge is the map override |
| Manager.GlyphManager.NotifyWaiters | src/render/glyph_manager.js:80-82 | each waiter is told in push order |
| Manager.NotifyAllOutcomes | src/render/glyph_manager.js:80-93 | each waiter of the list gets the glyph at its own id or the load's error; no other unit's outcome changes |
| Manager.GlyphManager.Detach | src/render/glyph_manager.js:83 | the range's waiter list is deleted and the completion recorded |
| Manager.CompleteEffects | src/render/glyph_manager.js:74-93 | after a completion, each waiter has its outcome and no other unit changed; the range is no longer outstanding and loads are unchanged; an error leaves the cache alone; a response makes every id of the range cached; no cached id disappears |
| Manager.RangeResultCoversRange | src/style/load_glyph_range.js:55-57 | a loaded result holds every id of its range |
| Manager.RetryAfterFailure | src/render/glyph_manager.js:70-83 | after a failed load, the next lookup of an uncached id of that range starts a new load |
| Manager.GlyphManager.AggregateGlyphs | src/render/glyph_manager.js:98-102 | the grouping loop computes the grouped result of the batch |
| Manager.AggregateLookup | src/render/glyph_manager.js:98-102 | the grouped result has an entry for exactly the looked-up stacks and (stack, id) pairs, each holding what the last unit for that pair reported |
| Manager.LastIndex | src/render/glyph_manager.js:100-101 | the position of the last occurrence of a unit, absent exactly when it does not occur |
| GlyphRange.RangeBounds | src/style/load_glyph_range.js:38-39 | `end = begin + 255`, and the ids in `begin..end` are exactly those whose range is `range` |
| GlyphRange.RangeLabelInjective | src/style/load_glyph_range.js:44 | different ranges have different `begin-end` labels |
| GlyphRange.FindFrom | src/style/load_glyph_range.js:43-44 | the first occurrence of a pattern at or after a position, with none before it; none anywhere when absent |
| GlyphRange.ReplaceFirst | src/style/load_glyph_range.js:43-44 | a string-pattern `replace` substitutes only the first occurrence and leaves a string without one unchanged |
| GlyphRange.GlyphUrlFills | src/style/load_glyph_range.js:42-44 | a template with one `{fontstack}` before one `{range}` gets the stack and the label in place |
| GlyphRange.RequestFillsTemplate | src/style/load_glyph_range.js:41-45 | the hook passed in receives the filled URL and the `Glyphs` resource type |
| GlyphRange.PlainCallMakesNoRequest | src/style/load_glyph_range.js:41 | as written, a plain call makes no request for any stack, range or hook, and the hook passed as the parameter never changes the outcome |
| Manager.FirstWaitAsWrittenStrands | src/render/glyph_manager.js:70-73 | as written, the first lookup of a range leaves an empty waiter list with no load behind it: the range is outstanding, every load started for it has completed, the coalescing invariant fails, and the unit reports nothing |
| Manager.LaterWaitAsWrittenNeverLoads | src/render/glyph_manager.js:70-93 | as written, no lookup starts a load; a stranded range stays outstanding, and each later lookup of it joins the list |
| GlyphRange.ZigZagRoundTrip | src/style/load_glyph_range.js:28-29 | signed-varint decoding inverts the zig-zag encoding of every integer |
| GlyphRange.LastVarintFound | src/style/load_glyph_range.js:24-30 | a varint field of a glyph is set exactly when some field with its tag is a varint |
| GlyphRange.LastVarintLatest | src/style/load_glyph_range.js:24-30 | the value set is that of the last such field |
| GlyphRange.LastBytesFound | src/style/load_glyph_range.js:25 | the bitmap is set exactly when some tag-2 field is a byte string |
| GlyphRange.LastBytesLatest | src/style/load_glyph_range.js:25 | the bitmap is the last tag-2 byte string |
| GlyphRange.GlyphOf | src/style/load_glyph_range.js:23-31 | the glyph a record's fields describe: it has an id exactly when some tag-1 field is a varint, and a bitmap exactly when some tag-2 field is a byte string; `LastVarintLatest`, `LastBytesLatest` and `RepeatedTagOverwrites` say which value wins |
| GlyphRange.GlyphOfAppend | src/style/load_glyph_range.js:18-31 | reading starts from an empty glyph and each field updates only the property its tag names |
| GlyphRange.UnknownTagIgnored | src/style/load_glyph_range.js:23-31 | a field with a tag other than 1 to 7 changes nothing |
| GlyphRange.RepeatedTagOverwrites | src/style/load_glyph_range.js:24-28 | a repeated tag overwrites the earlier value |
| GlyphRange.ReadGlyph | src/style/load_glyph_range.js:23-31 | the field loop yields the glyph the fields describe, or an error when a field with tag 1 to 7 has a wire type other than the one its property takes |
| GlyphRange.ReadFontstack | src/style/load_glyph_range.js:16-21 | the field loop stores every tag-3 glyph record under its id, in order |
| GlyphRange.ReadFontstacks | src/style/load_glyph_range.js:10-14 | the top-level loop does so for every tag-1 font stack message, in order |
| GlyphRange.FontstackUnreadablePersists | src/style/load_glyph_range.js:16-21 | once a record cannot be read, the font stack cannot be read |
| GlyphRange.PayloadUnreadablePersists | src/style/load_glyph_range.js:10-14 | once a font stack cannot be read, the payload cannot be read |
| GlyphRange.LastWithId | src/style/load_glyph_range.js:19 | the last record with a given id, or none when no record has it |
| GlyphRange.StoreLookup | src/style/load_glyph_range.js:19 | after storing, an id is present exactly when it was before or some record has it; the last such record wins |
| GlyphRange.StoreConcat | src/style/load_glyph_range.js:12-19 | storing the records of two font stacks one after the other is storing them all in order |
| GlyphRange.Store | src/style/load_glyph_range.js:19 | storing records never removes a codepoint; `StoreLookup` gives each codepoint's value |
| GlyphRange.Prefill | src/style/load_glyph_range.js:55-57 | the `null`-filled map holds every codepoint of the range |
| GlyphRange.RangeResult | src/style/load_glyph_range.js:47-62 | a transport error, and only that, is a failure with its message; no response gives no callback; a loaded result comes from a response and holds every codepoint of the range; `LoadedContents` gives each value |
| GlyphRange.HandleResponse | src/style/load_glyph_range.js:47-64 | the transport's callback yields the range result |
| GlyphRange.LoadedContents | src/style/load_glyph_range.js:51-62 | a loaded map holds every id of the range, plus any id a record carries; each id's value is the last record with that id, else `null` |
| GlyphRange.ExampleGlyphDecodes | src/style/load_glyph_range.js:23-31 | a concrete glyph message decodes to the expected glyph |
| GlyphRange.ExampleRecord | src/style/load_glyph_range.js:51-62 | a concrete one-glyph payload for range 0 gives that glyph at its id and `null` at every other id from 0 to 255 |
| ImageUtil.Image.Create | src/util/image.js:28-34 | the requested size and a zero-filled buffer of `width * height * channels` bytes |
| ImageUtil.CreateRgba | src/util/image.js:95-97 | the same with 4 channels |
| ImageUtil.CreateAlpha | src/util/image.js:113-115 | the same with 1 channel |
| ImageUtil.CopyImage | src/util/image.js:53-86 | an empty size copies nothing; a rectangle outside the source, then one outside the destination, is the matching range error with the destination unchanged; otherwise exactly the rectangle is copied and every other byte is kept |
| ImageUtil.CopyRows | src/util/image.js:77-83 | the row loop copies the whole rectangle |
| ImageUtil.CopyRow | src/util/image.js:78-82 | one row is copied and no byte outside it changes |
| ImageUtil.RegionInBounds | src/util/image.js:58-70 | when both rectangles fit, every byte read or written lies inside its buffer |
| ImageUtil.RegionRowsOrdered | src/util/image.js:77-83 | the destination rows of the rectangle do not overlap |
| ImageUtil.CopiedIsUnique | src/util/image.js:53-86 | the copy specification determines the destination completely |
| ImageUtil.ResizeImage | src/util/image.js:36-44 | the same size returns the image itself; otherwise a new zero-filled image of the new size holds the overlapping top-left corner |
| ImageUtil.ResizeRgba | src/util/image.js:99-101 | the same with 4 channels |
| ImageUtil.ResizeAlpha | src/util/image.js:117-119 | the same with 1 channel |
| ImageUtil.CopyRgba | src/util/image.js:103-105 | success exactly when the size is empty or both rectangles fit; then the rectangle is copied; an error changes nothing |
| ImageUtil.CopyAlpha | src/util/image.js:121-123 | the same with 1 channel |
| Match.Parse | src/style-spec/function/definitions/match.js:26-73 | fewer than two arguments is that error; otherwise the first bad label gives its error under `key[i+1]`; success exactly when every label is valid, with labels wrapped as literals and everything else unchanged |
| Match.CheckLabel | src/style-spec/function/definitions/match.js:36-64 | one label's values, and its error (an empty label first of all, then the first bad value) |
| Match.CheckGroup | src/style-spec/function/definitions/match.js:43-63 | the value loop finds the first object or first value typed unlike the first value of the first label; the input type is then set |
| Match.FirstValueError | src/style-spec/function/definitions/match.js:43-63 | there is no error exactly when no value of the list has one |
| Match.FirstErrorAt | src/style-spec/function/definitions/match.js:43-63 | the error found is that of the first bad value |
| Match.OnlyFirstBadLabel | src/style-spec/function/definitions/match.js:34-68 | the first bad label is unique, so the error reported is determined |
| Match.ParsedIsCompilable | src/style-spec/function/definitions/match.js:64-72 | a successful parse gives an argument list whose labels are literal lists of literals, as compilation asserts |
| Match.KeyStringInjective | src/style-spec/function/definitions/match.js:100-101 | distinct literal values have distinct `type-value` keys, so `0` and `"0"` are told apart |
| Match.CompileFromArgs | src/style-spec/function/definitions/match.js:75-103 | the outputs are arguments 2, 4, … then the last; a key is in the map exactly when some label holds it, and it maps to the last such label |
| Match.SplitArgs | src/style-spec/function/definitions/match.js:79-89 | the first loop collects the label values in order and the output positions |
| Match.BuildInputMap | src/style-spec/function/definitions/match.js:95-103 | the second loop builds the map from each key to the last label holding it |
| Match.AddLabel | src/style-spec/function/definitions/match.js:97-102 | one label's pass extends that property from the first `g` labels to the first `g + 1` |
| Match.PutKeys | src/style-spec/function/definitions/match.js:99-102 | the inner loop rebinds each of the label's keys to the label and keeps every other binding |
| Match.LastInIsLast | src/style-spec/function/definitions/match.js:96-102 | the label found holds the key and no later one does; no label holds it when none is found |
| Match.LastGroupWithIsLast | src/style-spec/function/definitions/match.js:96-102 | the same, stated for the labels of the argument list |
| Match.CompiledIsWellFormed | src/style-spec/function/definitions/match.js:105-111 | every index in the map selects an output |
| Match.Evaluate | src/style-spec/function/definitions/match.js:105-112 | the compiled code selects one of the outputs, and an object input selects the last argument; `EvaluateSelects` says which output |
| Match.EvaluateSelects | src/style-spec/function/definitions/match.js:105-112 | at run time a literal input held by some label evaluates the output right after the last such label; any other input evaluates the last argument |
| Common.DecimalRoundTrip | src/style/load_glyph_range.js:44 | the digits written for a number read back as that number |
| Common.IntStringInjective | src/style-spec/function/definitions/match.js:101 | `String(n)` is injective on integers |

## Left out

- `getImageData` reads pixels through a DOM canvas, so it is browser I/O and is not modelled.
- `TinySDF`'s rasterization is left out as foreign code. Its constructor arguments are modelled; `draw` is a parameter.
- Three other pieces of code are not visible to this model, so they are parameters:
  - `normalizeGlyphsURL`;
  - the request-transform hook;
  - `getArrayBuffer`, whose result arrives as the `Transport` value given to `CompleteLoad`.
- `is_char_in_unicode_block` is not part of this model. The two blocks are written out as ranges: CJK Unified Ideographs U+4E00–U+9FFF and Hangul Syllables U+AC00–U+D7AF.
- `asyncAll` is not part of this model. A batch records each unit's outcome by position and keeps the error most recently reported. Its callback fires once, when the last unit reports, with `{}` at once for an empty request.
- The protocol-buffer reader (`pbf`) is not part of this model. It is modelled as the stream of fields it yields: tag plus varint, byte string or nested message. Byte-level framing is not modelled.
- A field with tag 1 to 7 whose wire type differs from the one its property takes is treated as an unreadable payload, and the load's callback does not fire (`Silent`).
- A transport that reports neither an error nor a response also leaves the callback unfired (`Silent`). Its waiters then never report; the model keeps them pending.
- A glyph record without an id is stored by the code under the key `"undefined"`. The manager's `+id` turns that key into `NaN`, and no lookup reaches it. The model skips such a record.
- `String.prototype.replace` with `$` patterns in the replacement text is not modelled. The stack name and range label are inserted literally.
- Font stacks are map keys. A stack named like an inherited object property (`constructor`, `__proto__`) would find an inherited value in the code's plain-object lookup, and the later glyph lookup would throw. Prototype keys are not modelled.
- The as-written loader is followed only through the wait step (`WaitAsWritten`). That the units after the throw in the same batch are never resolved is not modelled.
- Callback scheduling, re-entrancy between callbacks, and JavaScript object key order are not modelled. A request is an ordered list of (stack, ids), and loads complete one at a time, in any order.
- Style `match` numbers are integers, so floating point values are not modelled.
- In `match`, `undefined` and `null` are one value, `JNull`.
- Image sizes and coordinates are natural numbers. A negative size, which makes the buffer allocation throw a `RangeError`, and negative points, are not modelled.
- The compiled `match` is modelled by its meaning, the argument selected for an input, not by the JavaScript source text it generates.
- The generic signature check that `parse` hands over to (`super.parse`) is not part of this model.
- Three behaviours of the code a reader may not expect, all modelled as written:
  - a synthesised glyph is not cached, so each lookup draws it again;
  - response ids outside the requested range are also written into the cache, and can be overwritten by a later response;
  - when the transport gives neither an error nor a response, no callback runs.

## Findings

| source | as written | input that shows it | evidently intended | confidence | as-written member | corrected member |
|---|---|---|---|---|---|---|
| src/style/load_glyph_range.js:41 | the loader calls `this.transformRequestCallback(...)`, but the manager calls the loader as a plain function, so `this` has no such property | any lookup that loads a range, e.g. stack `"Arial"`, id 65, no fallback family: the range's waiter list is created empty, then the undefined hook throws a `TypeError`; no request is made, the exception leaves `getGlyphs` so the batch never reports, and every later lookup of that range joins the empty list and waits for ever | call the `transformRequestCallback` parameter, which is otherwise unused | high, not executed | Manager.FirstWaitAsWrittenStrands | Manager.GlyphManager.WaitRequestsFilledUrl |
