# tmemes decision logic in Dafny

tmemes is Tailscale's meme generator. Users pick a template image and lay
text lines over it. The server draws each line, animated over the frames of
a GIF, and keeps templates, macros (a template plus text), votes and a cache
of rendered images in a store on disk.

This project models the deterministic decisions of that service and proves
what its code and its documentation promise about them:

- the frame scheduler of a text line (`memedraw/utils.go`): frames per area,
  the active area, the visibility window and tween interpolation; also the
  image bounds and the palette order;
- text layout and GIF composition (`memedraw/draw.go`): the shrink loop,
  the outline disc, the one-frame scheduler of `Draw`, and the backdrop
  recurrence that GIF89a disposal methods drive (section 23 of the GIF89a
  specification);
- the shared types (`types.go`, `colors.go`): the colour text codec and its
  name tables, the object-or-array encoding of `Areas`, and the
  `ValidForCreate` checks;
- the store (`store/store.go`, `store/db.go`): a class holding the macro
  and template maps and the ID counters. It covers loading, ID allocation,
  template visibility, name canonicalisation, cache file names, vote
  pinning and the cache janitor;
- listing helpers (`tmemes/utils.go`, `tmemes/ui.go`): sort orders,
  pagination, ETags, the hashing reader, `removeItem`, ID paths, vote flags
  and generated names;
- request decisions (`cmd/tmemes/api.go`, `tmemes/api.go`): the creator
  filter, context-link edits with rollback, the extension dispatch, and the
  cache-hit / generate / clean-up sequence over an abstract file set and
  ETag map.

`tmemes/` and `cmd/tmemes/` are two revisions of the same server. Each
file is its own module: `TmemesUtils` (tmemes/utils.go), `TmemesUI`
(tmemes/ui.go), `CmdApi` (cmd/tmemes/api.go) and `TmemesApi`
(tmemes/api.go). The later revision's helpers are related to the earlier
ones by lemmas (`TmemesUI.SortedByAgrees`, `TmemesUI.ParsePageOptionsAgrees`,
`TmemesUI.SlicePageIs`). tmemes/api.go's `creatorUserID`, its generation
steps and its cache-hit flow are the same as cmd/tmemes/api.go's. They are
modelled once, in `CmdApi`, and the rows below cite both files. Its
`overlayTextOnImage` is the renderer's and is modelled in `MemedrawDraw`.

Other modules:

- `Wrappers`: Option, Result and a pass/fail outcome.
- `GoStrings`: the parts of Go's `strings`, `strconv`, `path/filepath` and
  hex formatting that the decisions depend on. Parsers are paired with the
  printers they invert.
- `Sorting`: one sorted permutation, standing for `slices.SortFunc` and
  `sort.Slice`.
- `Colors` (colors.go, and the identical table in types.go).
- `Tmemes` (types.go).
- `MemedrawUtils`, `MemedrawDraw`.
- `StoreDb` (the loops of store/db.go) and `Store` (the `DB` class over
  store.go and db.go).

Inputs the code gets from outside are parameters. This covers the clock
(`now`, `micros`), the map iteration order (`order`), the word lists
(`tails`, `scales`), the digest (`sum`, `sha`), `url.Parse` (`parse`), word
wrapping and font metrics (`wrap`, `fh`), the renderer (`render`), and the
outcomes of file and SQL operations (`Env`, `written`, `updateErr`,
`removable`, `listing`).

## Model

| member | source | states |
|---|---|---|
| MemedrawUtils.Ceil | memedraw/utils.go:20 | the result is the least integer not below x, as math.Ceil then int() gives |
| MemedrawUtils.CeilDiv | memedraw/utils.go:20 | q*b >= a and (q-1)*b < a: the exact ceiling of a/b |
| MemedrawUtils.NewFrames | memedraw/utils.go:18-34 | fpa >= 1 when there are frames; fpa*na >= frameCount; fpa is the least such; start and end are the ceilings of Start and End times frameCount; start is 0 unless Start > 0; end is frameCount unless End > Start |
| MemedrawUtils.FramesPerAreaBounds | memedraw/utils.go:19-20 | with na >= 1 and frameCount >= 1, framesPerArea >= 1 and framesPerArea*na >= frameCount |
| MemedrawUtils.FrameAt | memedraw/utils.go:50-56 | one area gives pos 0, i 0, fpa 1; otherwise pos = (i / fpa) % na, with i and fpa kept |
| MemedrawUtils.NextPos | memedraw/utils.go:72 | the tween target index is within the field |
| MemedrawUtils.AreaOf | memedraw/utils.go:65-84 | the area has the width and tween flag of the active area (only X and Y move) |
| MemedrawUtils.SingleArea | memedraw/utils.go:51-70 | with one area, every frame's area is Field[0], unchanged |
| MemedrawUtils.BandPosition | memedraw/utils.go:54 | frame b*fpa + k (k < fpa) shows area b mod na: each area holds for fpa consecutive frames, cyclically |
| MemedrawUtils.EightFramesTwoAreas | memedraw/utils.go:18-54 | with 8 frames and 2 areas, fpa is 4, frames 0-3 show Field[0] and frames 4-7 Field[1] |
| MemedrawUtils.VisibleWindow | memedraw/utils.go:21-47 | visibleAt(i) holds iff start <= i <= end, with start and end from the line's fractions |
| MemedrawUtils.AlwaysVisible | memedraw/utils.go:21-47 | Start = End = 0 gives start 0 and end frameCount, so every frame is visible |
| MemedrawUtils.NoInterpolationAtBoundary | memedraw/utils.go:66-70 | a fixed area, or a tweened one at i % fpa == 0, is returned exactly |
| MemedrawUtils.NextIsFollowingArea | memedraw/utils.go:72 | the tween target ((i + fpa) / fpa) % na equals (pos + 1) % na |
| MemedrawUtils.TweenOnSegment | memedraw/utils.go:70-81 | X = cur.X + rem*(next.X - cur.X)/fpa, and the same for Y |
| MemedrawUtils.Normalize | memedraw/utils.go:91 | the rectangle moves to Min = (0,0) and keeps its width and height |
| MemedrawUtils.ImageBounds | memedraw/utils.go:86-92 | the loop's result is the normalised union of all frame bounds |
| MemedrawUtils.UnionAllBounds | memedraw/utils.go:88-90 | the union is empty iff every frame is empty, contains every non-empty frame, and is the least rectangle that does |
| MemedrawUtils.Histogram | memedraw/utils.go:105-110 | the map holds exactly the colours produced, each with its count |
| MemedrawUtils.Keys | memedraw/utils.go:111 | the keys of the map, each exactly once |
| MemedrawUtils.TruncatedTop | memedraw/utils.go:115-117 | cutting a sorted list to 256 keeps it sorted, and everything cut ranks at most as high as what is kept |
| MemedrawUtils.PaletteFacts | memedraw/utils.go:111-118 | a palette cut from the sorted keys has distinct colours that occur, in non-increasing count; a colour left out means 256 colours, each at least as frequent |
| MemedrawUtils.MakeColorPalette | memedraw/utils.go:104-119 | at most 256 distinct colours that occur, by non-increasing count; any colour left out is no more frequent than each kept one |
| MemedrawDraw.Canvas.constructor | memedraw/draw.go:122-192 | a fresh context has drawn nothing |
| MemedrawDraw.Canvas.SetRGB | memedraw/draw.go:100-114 | sets the current colour only |
| MemedrawDraw.Canvas.SetFontFace | memedraw/draw.go:73-89 | sets the current font size only |
| MemedrawDraw.Canvas.DrawStringAnchored | memedraw/draw.go:109-116 | appends one stroke with the current colour and size |
| MemedrawDraw.OneForZero | memedraw/draw.go:57-62 | the result is never 0, and is v whenever v is not 0 |
| MemedrawDraw.FitSize | memedraw/draw.go:86-91 | the size never grows; a size of 6 or less is kept as it is; one above 6 stays >= 6; the result wraps to at most two lines or is 6 or less, and every larger size tried wrapped to more than two lines |
| MemedrawDraw.ShrinkToFit | memedraw/draw.go:84-91 | the loop leaves the size at FitSize and the lines wrapped at that size, drawing nothing |
| MemedrawDraw.OutlineDisc | memedraw/draw.go:102-111 | the outline offsets are exactly (dx, dy) in [-6,6]² with dx² + dy² < 36, each once, in row-major order |
| MemedrawDraw.RowMembers | memedraw/draw.go:104-110 | one row holds exactly the in-disc offsets of that dy, in increasing dx |
| MemedrawDraw.RowsMembers | memedraw/draw.go:103-111 | the rows hold exactly the in-disc offsets of their dy values, in row-major order |
| MemedrawDraw.StrokeAt | memedraw/draw.go:105-109 | the inner loop body strokes at (dx, dy) only inside the disc |
| MemedrawDraw.StrokeRow | memedraw/draw.go:104-110 | the inner loop strokes the kept offsets of row dy in order |
| MemedrawDraw.DrawOutline | memedraw/draw.go:102-111 | the nested loops stroke exactly the outline offsets, in order, in the current colour and size |
| MemedrawDraw.DrawLine | memedraw/draw.go:98-117 | one line is the outline in the stroke colour, then one fill at (x, y) in the text colour |
| MemedrawDraw.DrawLines | memedraw/draw.go:98-118 | line k is drawn at y0 + k*advance, with the advance from the font height |
| MemedrawDraw.DrawBlock | memedraw/draw.go:93-118 | the block is centred on the anchor with the height formula of MeasureMultilineString, then drawn line by line |
| MemedrawDraw.LinesOpsLen | memedraw/draw.go:98-118 | every line takes one stroke per outline offset plus one fill |
| MemedrawDraw.LinesOpsAt | memedraw/draw.go:98-118 | stroke j of line k is at the offset's position, in the stroke colour; the last stroke of each line is the fill |
| MemedrawDraw.LayoutAt | memedraw/draw.go:94-117 | line k is filled at the anchor's x and at the block top plus k advances |
| MemedrawDraw.OverlayText | memedraw/draw.go:65-119 | overlayTextOnImage appends exactly OverlayOps for the frame; see also tmemes/api.go:536-591 |
| MemedrawDraw.OverlayBlock | memedraw/draw.go:71-118 | past the empty-text check: the wrap width from Field[0], the shrink loop, then the block |
| MemedrawDraw.OverlayIsLayout | memedraw/draw.go:71-118 | the overlay is the layout of the wrapped lines at the fitted size, with the font height read before the loop |
| MemedrawDraw.OverlayEmptyIff | memedraw/draw.go:66-69 | nothing is drawn iff the trimmed text is empty or wraps to no line |
| MemedrawDraw.OverlayGeometry | memedraw/draw.go:75-117 | line k is filled in the text colour, at the fitted size, wrapped at oneForZero(Field[0].Width)*Dx, spaced by the font height of the first size; see also tmemes/api.go:557-583 |
| MemedrawDraw.Over | memedraw/draw.go:130-199 | draw.Over keeps the length, and a layer's opaque pixels replace those below |
| MemedrawDraw.Opaque | memedraw/draw.go:164-167 | a full image is opaque at every pixel |
| MemedrawDraw.Uniform | memedraw/draw.go:150-151 | a uniform fill is p pixels of one colour |
| MemedrawDraw.StillFrame | memedraw/draw.go:125 | newFrames(1, tl).frame(0) is a valid frame of tl |
| MemedrawDraw.SingleFrameFirstArea | memedraw/draw.go:125 | on a still image a line sits at Field[0], unmoved |
| MemedrawDraw.Draw | memedraw/draw.go:121-132 | the strokes are each line's overlay through its one-frame scheduler, and the output is the text over the source |
| MemedrawDraw.OverlayLine | memedraw/draw.go:124-126 | one step of Draw's loop adds line k's overlay |
| MemedrawDraw.Backdrop | memedraw/draw.go:149-189 | every backdrop has p pixels |
| MemedrawDraw.BackdropProvenance | memedraw/draw.go:170-189 | each backdrop pixel is the background or a pixel an earlier frame drew: overlay text never reaches a later backdrop |
| MemedrawDraw.Unpainted | memedraw/draw.go:150-189 | a pixel no earlier frame drew keeps the background colour |
| MemedrawDraw.PreviousChain | memedraw/draw.go:178-180 | after frames with DisposalPrevious the backdrop is that of the first of them |
| MemedrawDraw.NoneAccumulates | memedraw/draw.go:181-184 | with DisposalNone throughout, each backdrop is all earlier frames drawn over the background |
| MemedrawDraw.RestoredBackground | memedraw/draw.go:175-186 | DisposalBackground or any unrecognised value gives backdrop[0] |
| MemedrawDraw.InvisibleAddsNothing | memedraw/draw.go:193-197 | a line not visible at frame i adds nothing to it |
| MemedrawDraw.LineFrames | memedraw/draw.go:135-138 | one schedule per text line, each newFrames over the frame count |
| MemedrawDraw.MakeLineFrames | memedraw/draw.go:135-138 | the first loop builds exactly LineFrames |
| MemedrawDraw.NextBackdrop | memedraw/draw.go:172-189 | the disposal switch yields the next backdrop of the recurrence |
| MemedrawDraw.DrawText | memedraw/draw.go:192-197 | a fresh canvas with every line visible at i drawn on it, in order |
| MemedrawDraw.TextOver | memedraw/draw.go:192-200 | the text goes over the frame drawn over its backdrop |
| MemedrawDraw.ComposeFrame | memedraw/draw.go:158-200 | frame i is composed over its backdrop, and the next backdrop is taken before the text is drawn |
| MemedrawDraw.ComposeFrames | memedraw/draw.go:155-203 | every frame of the array becomes its composed frame |
| MemedrawDraw.DrawGIF | memedraw/draw.go:134-207 | every output frame is its backdrop, with the frame over it and the visible text over that |
| Colors.Inverse | colors.go:30-36 | for a table with distinct codes, the reverse table maps each code back to its name |
| Colors.N2CInjective | colors.go:9-26 | no two names of the table share a code; see also types.go:291-308 |
| Colors.BuildC2N | colors.go:30-36 | the init loop yields a reverse table whose keys are the codes; each code keeps the first name visited; with distinct codes this is the inverse; see also types.go:312-320 |
| Colors.FirstWith | colors.go:31-35 | the index of the first visited name with code c |
| Colors.FirstWinsFirst | colors.go:32-35 | first-wins insertion keeps, for each code, the first name visited, and never overwrites |
| Colors.FirstWinsReverse | colors.go:30-36 | visiting every name gives a reverse table |
| Colors.ReverseUnique | colors.go:6-8 | with distinct codes there is only one reverse table |
| Colors.C2NInvertsN2C | colors.go:6-26 | c2n[n2c[n]] == n for every name |
| Tmemes.HexCode | types.go:244-245 | "#" and six lower-case hex digits |
| Tmemes.MarshalText | types.go:243-252 | the colour's name when the reverse table has its code, else "#rrggbb" |
| Tmemes.Widen | types.go:273-275 | r \| r<<4 on a nibble is 17 times the nibble |
| Tmemes.HexByte | types.go:277 | the byte two hex digits spell |
| Tmemes.ScanHexPart | types.go:268-283 | the switch is on the length in UTF-8 bytes: "invalid hex color" unless it is 3 or 6 |
| GoStrings.ScanHex | types.go:272-277 | one "%<w>x" verb of fmt.Sscanf: spaces are skipped before the width starts; on success the value is below 16^w and is the value of a run of at most w hex digits after spaces |
| GoStrings.ScanHexRun | types.go:272-277 | a verb skips the spaces before the digits and reads them up to the width, the end of the text or a rune outside the token |
| GoStrings.ScanHexUnderscore | types.go:277 | a token holding "_" (fmt takes it as a digit) fails with strconv's syntax error |
| GoStrings.Utf8Len | types.go:270 | len of a string: between one and four bytes per rune |
| GoStrings.Utf8LenAscii | types.go:270 | a string has as many bytes as runes exactly when it is all ASCII |
| Tmemes.UnmarshalTextAsWritten | types.go:254-286 | empty text is white (255,255,255); otherwise a name is mapped to its code, one "#" is dropped and the rest is scanned as ScanHexPart; see Tmemes.AsWrittenAgrees and the examples below |
| Tmemes.ParseHexPart | types.go:270-280 | the strict hex parse: exactly 3 or 6 hex digits |
| Tmemes.UnmarshalText | types.go:254-286 | the strict decoder: empty text is white, names map to codes, 3 digits widen |
| Tmemes.AsWrittenAgrees | types.go:254-286 | wherever the strict decoder succeeds, the code as written gives the same colour |
| Tmemes.AcceptsTrailingGarbage | types.go:276-277 | the code accepts "#", five hex digits and any one-byte rune that ends a token, giving the bytes of digits 1-2, 3-4 and digit 5; the strict decoder rejects it |
| Tmemes.ScanTrailingUnderscore | types.go:276-277 | with "_" in the last place the third token is "<digit>_" and strconv's syntax error is returned |
| Tmemes.TrailingGarbageExample | types.go:276-277 | "#12345z" is such an input |
| Tmemes.AcceptsLeadingSpace | types.go:276-277 | the code accepts a space and five hex digits as the bytes of digits 1-2, 3-4 and digit 5, since the first verb skips the space before its width; the strict decoder rejects it |
| Tmemes.LeadingSpaceExample | types.go:276-277 | " 12345" is such an input and decodes to (0x12, 0x34, 0x05) |
| Tmemes.ScanInnerSpace | types.go:276-277 | a digit, two spaces and three digits: a space ends the first token and is skipped by the second verb, giving (d0, d3d4, d5) |
| Tmemes.InnerSpaceExample | types.go:276-277 | "1  234" decodes to (0x01, 0x23, 0x04) |
| Tmemes.SevenBytesExample | types.go:270-282 | a no-break space and five digits are seven bytes: "invalid hex color" |
| Tmemes.NoBreakSpaceExample | types.go:270-277 | "1", a no-break space, "2", a space, "3" are six bytes and decode to (1, 2, 3) |
| Tmemes.CodeShape | types.go:291-308 | every code of the table is a lower-case "#rrggbb" |
| Tmemes.DecodeCode | types.go:243-286 | decoding a lower-case code and printing the colour's hex gives the code back |
| Tmemes.ColorRoundTrip | types.go:243-286 | printing a colour and decoding the text gives the colour back |
| Tmemes.ColorNames | types.go:248-265 | every name decodes to its code's colour, and that colour prints as the name again |
| Tmemes.MarshalAreas | types.go:98-111 | one area encodes as a plain object, any other number as an array |
| Tmemes.UnmarshalAreas | types.go:113-130 | "{" gives one area, "[" a list; empty input is "empty input" and any other first byte "invalid input"; no range check |
| Tmemes.AreasRoundTrip | types.go:98-130 | every list of areas, of any length and values, survives encoding and decoding |
| Tmemes.AreaValidForCreate | types.go:152-163 | passes iff X, Y and Width each lie in [0,1], in that order of checks |
| Tmemes.FirstAreaError | types.go:211-215 | passes iff every area passes; a failure is the error of an area all of whose predecessors pass, so the first invalid area's |
| Tmemes.TextLineValidForCreate | types.go:200-217 | fails on empty text, no fields, Start or End out of [0,1], or an invalid area, in that order |
| Tmemes.FirstLineError | types.go:85-89 | passes iff every line passes; a failure is the error of a line all of whose predecessors pass, so the first invalid line's |
| Tmemes.HeaderError | types.go:58-71 | rejects in order: non-zero ID, TemplateID <= 0, no overlay, votes, Creator > 0, more than 3 links |
| Tmemes.FirstBadLink | types.go:76-84 | the index of the first link that is not an http or https URL |
| Tmemes.FirstBadLinkIs | types.go:76-84 | the first bad link is at i iff every earlier link is good and the one at i is not |
| Tmemes.SanitizeLinks | types.go:76-84 | the loop rewrites each link to its escaped form until the first bad one, whose error it returns |
| Tmemes.CheckLines | types.go:85-89 | the loop returns the first failing line's error |
| Tmemes.MacroValidForCreate | types.go:55-91 | the header checks in order, then link sanitising (earlier links stay rewritten), then the text lines |
| StoreDb.MaxID | store/db.go:65-95 | the largest id among the rows, and 0 when none is larger |
| StoreDb.Index | store/db.go:71-99 | every loaded id comes from a row that decodes |
| StoreDb.FirstUndecodable | store/db.go:68-98 | the row where the load stops |
| StoreDb.LoadError | store/db.go:68-70 | no error exactly when every row decodes; otherwise the id of the first row that does not |
| StoreDb.LoadRows | store/db.go:49-103 | the load loop fills the index, stops with the error LoadError names at the first row that does not decode, and sets the counter |
| StoreDb.NextAboveLoaded | store/db.go:51-101 | after a load without error the next ID is at least 1 and above every loaded ID |
| StoreDb.Candidates | store/db.go:197-211 | at most one candidate per directory entry |
| StoreDb.CandidatesExactly | store/db.go:197-211 | a path is a candidate iff it names a regular file with a readable access time older than maxAccessAge |
| StoreDb.TotalSizeAppend | store/db.go:213-214 | the counted size adds up over a split of the listing |
| StoreDb.TotalSizeOfUncounted | store/db.go:198-206 | entries that are not regular files with a readable access time add nothing |
| StoreDb.SelectCandidates | store/db.go:195-215 | the phase-2 loop yields exactly the total size and the candidates |
| StoreDb.RemoveCandidates | store/db.go:230-237 | every removable candidate is removed and nothing else; a failure does not stop the loop |
| StoreDb.CleanPass | store/db.go:187-238 | a listing error removes nothing; otherwise candidates are removed only above the threshold and when there are some |
| StoreDb.CleanPassRemovesCandidates | store/db.go:219-237 | a pass removes only candidates, removes nothing at or below minPruneBytes, and removes every removable candidate above it |
| StoreDb.StoredMacro | store/db.go:123-127 | the persisted copy has zero votes and otherwise equals the macro |
| StoreDb.ApplyTotals | store/db.go:157-166 | only vote counts of macros in the map change; no key and no other field changes |
| StoreDb.ApplyTotalsUnnamed | store/db.go:162-165 | a macro no row names keeps its counts |
| StoreDb.ApplyTotalsLast | store/db.go:162-165 | a macro takes the counts of the last row naming it |
| Store.MinPruneBytes | store/store.go:72-77 | a nil or non-positive option gives 50<<20; others pass through |
| Store.MaxAccessAge | store/store.go:79-84 | a nil or non-positive option gives 30 minutes; others pass through |
| Store.OptionsResolved | store/store.go:72-84 | resolved settings resolve to themselves |
| Store.ToLower | store/store.go:241 | lower-cases ASCII letters, letter by letter |
| Store.Hyphenate | store/store.go:237-241 | spaces and underscores become "-" |
| Store.CanonicalShape | store/store.go:239-242 | a canonical name has no white space, no space, no underscore and no upper-case letter |
| Store.CanonicalFixed | store/store.go:239-242 | a name of that shape is its own canonical form |
| Store.CanonicalIdempotent | store/store.go:239-247 | canonicalising twice is canonicalising once |
| Store.CacheKey | store/store.go:332-335 | the seed, or "0000" when it is empty |
| Store.CachePathShape | store/store.go:331-338 | a cache path starts with dir/macros/key- |
| Store.CachePathExt | store/store.go:336 | a cache file has its template image's extension |
| Store.CachePathInjective | store/store.go:331-338 | macros of one template get distinct cache paths |
| Store.FileExt | store/store.go:388-392 | "" gives "png"; otherwise the extension without one leading "." |
| Store.TemplateFileExt | store/store.go:406 | the template file's extension is "." and the stored one |
| Store.VoteFlag | store/store.go:473-477 | the pinned vote: +1 for a positive vote, -1 for a negative one |
| Store.VoteTotalsCount | store/store.go:473-479 | with pinned votes every vote on a macro counts once, as up or down |
| Store.ListedInAt | store/store.go:168-190 | a listed template among the keys is one collected |
| Store.ListedInMembers | store/store.go:168-190 | visiting every key collects exactly the listed templates |
| Store.ListedInCard | store/store.go:168-172 | with distinct keys, as many are collected as there are listed keys |
| Store.ListedInCount | store/store.go:168-172 | the number collected is the number of listed keys of the map |
| Store.SortByID | store/store.go:174-193 | a permutation in non-decreasing ID order |
| Store.DB.constructor | store/store.go:92-129 | a store with the resolved options, empty maps and zero counters |
| Store.DB.LoadIndex | store/db.go:38-111 | the maps and counters are those the load loops leave; the seed is read if stored; every load runs and the error is the errors.Join of the two table loads, so no error iff every row decodes; then the store is valid |
| Store.DB.SetCacheSeed | store/store.go:148-161 | the seed is set; it is persisted only when it changes |
| Store.DB.Template | store/store.go:199-207 | found iff present and not hidden; otherwise "template N not found" |
| Store.DB.AnyTemplate | store/store.go:211-219 | found iff present, hidden or not |
| Store.DB.TemplatePath | store/store.go:265-275 | the path of any present template, hidden included |
| Store.DB.TemplateVisibility | store/store.go:199-275 | Template agrees with AnyTemplate when it finds one; AnyTemplate finds only hidden ones beyond it; TemplatePath exactly when AnyTemplate finds |
| Store.DB.Macro | store/store.go:278-286 | found iff present |
| Store.DB.CachePath | store/store.go:323-329 | the cache path when the template is present, hidden included |
| Store.DB.TemplateByName | store/store.go:248-261 | "empty template name" for an empty canonical name; otherwise a non-hidden template whose name is the canonical name, or not found only when none has it; the canonical name's properties are the lemmas below |
| Store.CanonicalOfLowerFields | store/store.go:238-246 | the canonical name is the hyphenated join of the words of the lower-cased name |
| Store.CanonicalCaseBlind | store/store.go:243-246 | names whose lower-cased words agree have the same canonical name, so they find the same template |
| Store.CanonicalIgnoresCase | store/store.go:243-246 | lower-casing a name does not change its canonical name |
| Store.CanonicalTrims | store/store.go:244-245 | white space around a name is dropped |
| Store.CanonicalWords | store/store.go:244-246 | a run of white space between two words becomes one "-" |
| Store.DB.CollectListed | store/store.go:167-190 | exactly the listed templates, each once |
| Store.DB.ListTemplates | store/store.go:165-195 | the listed templates, each once, in ascending ID order |
| Store.DB.Templates | store/store.go:165-178 | exactly the non-hidden templates, each once (the count is the number of such IDs), ascending by ID |
| Store.DB.TemplatesByCreator | store/store.go:182-195 | exactly the non-hidden templates of the creator, each once (the count is the number of such IDs), ascending by ID |
| Store.DB.UpdateMacroRow | store/db.go:123-134 | the row holds the copy with zero votes |
| Store.DB.UpdateTemplateRow | store/db.go:113-121 | the row holds the template |
| Store.DB.AddMacro | store/store.go:342-360 | errors for a non-zero ID, a zero TemplateID, a nil overlay; otherwise the macro gets the old nextMacroID and the current time, the counter increments, the macro is stored and persisted |
| Store.DB.DeleteMacro | store/store.go:363-376 | an unknown ID is an error; otherwise the macro is dropped, its row deleted, and its cache file named when its template is present |
| Store.DB.FillAllMacroVotes | store/db.go:147-168 | the macros become ApplyTotals of the view rows |
| Store.DB.SetVote | store/store.go:449-489 | an unknown macro is an error; 0 deletes the vote; others store the pinned flag; pinned votes stay pinned; the counts are refreshed |
| Store.DB.SetTemplateHidden | store/store.go:223-235 | an unknown ID is an error; otherwise only that template's flag changes, and Template finds it iff it is not hidden |
| Store.DB.CheckNewTemplate | store/store.go:385-398 | the canonical name and the first of "template ID must be zero", "empty template name", "duplicate template name" |
| Store.DB.AddTemplate | store/store.go:384-423 | the checks; then on a written file the template gets the old nextTemplateID, its canonical name and path under templates, and the counter increments |
| Store.DB.StoreTemplate | store/store.go:403-422 | the allocation half of AddTemplate, succeeding iff the image file was written |
| Sorting.Sort | tmemes/utils.go:49-65 | a permutation of the input in non-increasing key order; see also store/store.go:174-176 |
| TmemesUtils.RecentOnes | tmemes/utils.go:38-41 | every element kept is less than an hour old |
| TmemesUtils.OlderOnes | tmemes/utils.go:38-41 | every element left is at least an hour old |
| TmemesUtils.PartitionPermutes | tmemes/utils.go:38-41 | the recent and older parts together are a permutation of the input |
| TmemesUtils.SortedByPermutes | tmemes/utils.go:25-47 | every sort order is a permutation of the input |
| TmemesUtils.PopularityOrder | tmemes/utils.go:55-65 | non-increasing in Upvotes - Downvotes, ties newest first |
| TmemesUtils.RecencyOrder | tmemes/utils.go:49-53 | newest first |
| TmemesUtils.SortedByOrders | tmemes/utils.go:25-47 | "recent", "popular" and "score" sort by their keys; "", "default", "id" and unknown keys leave the order unchanged |
| TmemesUtils.TopPopularShape | tmemes/utils.go:36-43 | top-popular: a prefix of exactly the recent macros, newest first, then the rest by popularity |
| TmemesUtils.Assign | tmemes/utils.go:25-47 | writes the computed order into the slice |
| TmemesUtils.SortMacros | tmemes/utils.go:25-47 | errors iff the key is not one of the seven, with "invalid sort order" and the key; the slice becomes SortedBy |
| TmemesUtils.ParsePageOptions | tmemes/utils.go:97-124 | no page gives (-1, defaultCount); the page must parse and be > 0; an absent or zero count is defaultCount; a bad or negative count is an error |
| TmemesUtils.PageOptionsRoundTrip | tmemes/utils.go:97-124 | printed positive page and count parse back to themselves |
| TmemesUtils.SlicePageIs | tmemes/utils.go:130-144 | with exact offsets: past the end is empty and last; otherwise vs[start : min(end, len)], last iff end >= len |
| TmemesUtils.SlicePageAsWritten | tmemes/utils.go:130-144 | with the 64-bit wrap of the offsets: a panic exactly when the wrapped start is below len and is negative, or the wrapped end is below both len and the start; otherwise a slice of vs at the wrapped start, last iff the wrapped end reaches len |
| TmemesUtils.SlicePageInRange | tmemes/utils.go:134-135 | while page*count fits in an int64 the code gives the page with exact offsets |
| TmemesUtils.SlicePageWrapPanics | tmemes/utils.go:134-135 | page 3 with count 2^62 panics on any non-empty list, where the intended page is empty |
| TmemesUtils.SlicePageWrapWrongPage | tmemes/utils.go:134-135 | page 2^62+1 with count 4 returns the first four elements as not the last, where the intended page is empty |
| TmemesUtils.PagesCover | tmemes/utils.go:130-144 | with exact offsets, pages 1..k put together are the first min(k*count, len) elements |
| TmemesUtils.FormatEtag | tmemes/utils.go:146 | the digest in lower-case hex between double quotes |
| TmemesUtils.EtagRoundTrip | tmemes/utils.go:146 | the digest reads back from between the quotes |
| TmemesUtils.MakeFileEtag | tmemes/utils.go:165-176 | an open error or a copy error is returned; otherwise a quoted ETag |
| TmemesUtils.FileEtagNamesDigest | tmemes/utils.go:165-176 | the whole file's digest reads back from its ETag |
| TmemesUtils.HashPipe.constructor | tmemes/utils.go:150 | a reader over the input with the given hash state |
| TmemesUtils.HashPipe.Read | tmemes/utils.go:157-161 | returns nr = min(avail, len(data), what is left) bytes of what is left, and feeds exactly data[:nr] to the hash, so the hashed stream is everything read |
| TmemesUtils.WithoutIs | tmemes/utils.go:178-185 | s[:i] ++ s[i+1:] has length len(s)-1, shifts the tail down by one, and loses only s[i] |
| TmemesUtils.RemoveItem | tmemes/utils.go:180-185 | a fresh array holding s without index i; s is unchanged |
| TmemesUI.SortedByAgrees | tmemes/ui.go:388-426 | the older sort knows the newer keys but "score", and orders alike |
| TmemesUI.SortMacros | tmemes/ui.go:388-408 | an unknown key is an error and leaves the slice as it was; the result is a permutation |
| TmemesUI.ParsePageOptions | tmemes/ui.go:433-460 | no page gives (-1, 0) |
| TmemesUI.ParsePageOptionsAgrees | tmemes/ui.go:433-460 | the other rules are those of the newer parsePageOptions |
| TmemesUI.SlicePageIs | tmemes/ui.go:465-478 | with exact offsets: the input for page < 0, otherwise vs[(page-1)*count : min(page*count, len)], empty past the end; equals the newer slice |
| TmemesUI.SlicePageAsWritten | tmemes/ui.go:465-478 | with the 64-bit wrap: panics on the same inputs as the newer revision and otherwise returns the same page |
| TmemesUI.SlicePageWrapPanics | tmemes/ui.go:469-470 | page 3 with count 2^62 panics here too, where the intended page is empty |
| TmemesUI.GetSingleFromIDInPath | tmemes/ui.go:151-166 | a missing "/key/" prefix or empty id is not found with no error; a non-integer is "invalid key ID"; otherwise the lookup's result |
| TmemesUI.GetSingleRoundTrip | tmemes/ui.go:151-166 | the path of a printed id finds what the lookup gives for it |
| TmemesUI.VoteFlags | tmemes/ui.go:113-117 | a positive vote sets only Upvoted, a negative only Downvoted, 0 neither |
| TmemesUI.VoteFlagsAgree | tmemes/ui.go:113-117 | the flags agree with the pinned vote the store keeps; see also store/store.go:473-477 |
| TmemesUI.UIMacros | tmemes/ui.go:96-119 | one entry per macro in order, flagged by the caller's vote on it |
| TmemesUI.CheckOverlays | tmemes/ui.go:236-245 | passes iff there is an overlay and none has empty text, with the two messages |
| TmemesUI.UICreator | tmemes/ui.go:252-260 | anonymous needs the server's permission and gives -1; otherwise the caller |
| TmemesUI.Capitalize | tmemes/ui.go:136 | the first letter upper-cased, the rest kept |
| TmemesUI.TailyAsWrittenPanics | tmemes/ui.go:128-135 | two microseconds before the epoch the word index goes negative: the code panics |
| TmemesUI.TailyAgreesFromEpoch | tmemes/ui.go:128-135 | from the epoch on the corrected words are the ones the code picks |
| TmemesUI.Chosen | tmemes/ui.go:129-134 | each round's word comes from one of the lists and is not empty |
| TmemesUI.TailyWords | tmemes/ui.go:128-137 | as many words as rounds |
| TmemesUI.TailyWordsFrom | tmemes/ui.go:128-137 | every word is a capitalised member of a list |
| TmemesUI.TailyScalyName | tmemes/ui.go:126-139 | exactly three capitalised words of the lists, joined by spaces |
| CmdApi.CreatorWrapsToAnonymous | cmd/tmemes/api.go:602-609 | as written, creator "18446744073709551615" becomes -1, the anonymous filter; see also tmemes/api.go:686-693 |
| CmdApi.CreatorUserID | cmd/tmemes/api.go:594-610 | "" iff 0; "anon" or "anonymous" iff -1; otherwise a positive int64 ID or an error; see also tmemes/api.go:678-694 |
| CmdApi.CreatorZeroRefused | cmd/tmemes/api.go:602-609 | "0" is "invalid creator", as written and corrected |
| CmdApi.CreatorRoundTrip | cmd/tmemes/api.go:594-610 | a printed positive ID parses back to itself |
| CmdApi.CreatorAgrees | cmd/tmemes/api.go:594-610 | where no uint64 above MaxInt64 is given, the corrected filter is the code's |
| CmdApi.IndexOf | cmd/tmemes/api.go:562 | slices.Index: the first index holding x, or -1 iff absent |
| CmdApi.EditNeedsUpdateIffChanged | cmd/tmemes/api.go:551-572 | a store update is needed iff the links change |
| CmdApi.EditAdd | cmd/tmemes/api.go:552-560 | adds only an absent link, at the end; a present one is a no-op; a full list is an error |
| CmdApi.EditRemove | cmd/tmemes/api.go:561-565 | drops the first match; no-op when absent |
| CmdApi.EditClear | cmd/tmemes/api.go:566-568 | empties the list; needs an update iff it was non-empty |
| CmdApi.EditRefused | cmd/tmemes/api.go:544-571 | an empty URL outside "clear" is "missing context URL"; an unknown action is refused |
| CmdApi.EditKeepsInvariant | cmd/tmemes/api.go:552-568 | edits keep links distinct and within the limit |
| CmdApi.MacroRef.constructor | cmd/tmemes/api.go:529-533 | holds the macro looked up |
| CmdApi.MacroRef.PostContext | cmd/tmemes/api.go:521-584 | only the creator or a superuser may edit; a failed update restores the saved links; success stores the edited links |
| CmdApi.EncoderFor | cmd/tmemes/api.go:383-424 | ".gif" iff GIF, ".jpg"/".jpeg" iff JPEG, ".png" iff PNG, else unknown; see also tmemes/api.go:473-523 |
| CmdApi.StoredTemplateDispatch | cmd/tmemes/api.go:383-386 | a stored gif, jpg, jpeg or png template reaches its encoder; see also store/store.go:388-406 |
| CmdApi.GenerateDispatch | cmd/tmemes/api.go:371-427 | success means an output was created with a known encoder; unknown extensions and zero-frame GIFs fail; see also tmemes/api.go:461-526 |
| CmdApi.ContentPathRoundTrip | cmd/tmemes/api.go:252-262 | "/content/macro/<id><ext>" parses back to the id and extension |
| CmdApi.CanonicalURLReachesCache | cmd/tmemes/api.go:252-280 | the UI's image URL of a stored macro reaches its cache path; see also tmemes/ui.go:108 |
| CmdApi.ContentCache.constructor | cmd/tmemes/api.go:305-312 | an empty ETag map over the cached files |
| CmdApi.ContentCache.WriteOutput | cmd/tmemes/api.go:337-409 | a create error changes nothing; any later error removes the file and stores no ETag; success adds the file and its ETag; see also tmemes/api.go:420-433 |
| CmdApi.ContentCache.GenerateMacroGIF | cmd/tmemes/api.go:319-364 | decode error or zero frames ("no frames in GIF") before any file is created; otherwise as WriteOutput; see also tmemes/api.go:341-441 |
| CmdApi.ContentCache.GenerateMacro | cmd/tmemes/api.go:371-427 | the error is GenerateError; failure stores no ETag and removes any created file; success adds the file and its ETag; see also tmemes/api.go:461-526 |
| CmdApi.ContentCache.ServeContentMacro | cmd/tmemes/api.go:243-301 | a bad request changes nothing; a cache hit serves without generating; a miss generates; what is served is a file of the cache for the request; see also tmemes/api.go:265-323 |
| TmemesApi.NormaliseCreator | tmemes/api.go:650-658 | a negative creator becomes -1 if anonymous macros are allowed and is refused otherwise; any other becomes the caller; see also cmd/tmemes/api.go:486-493 |
| TmemesApi.NormaliseAgreesWithUI | tmemes/api.go:650-658 | the API and the web form decide the creator alike; see also tmemes/ui.go:252-260 |
| TmemesApi.PostMacro | tmemes/api.go:633-668 | validation (400), creator normalisation (403), then AddMacro, whose SQL write is modelled as succeeding; see also cmd/tmemes/api.go:469-504 |
| TmemesApi.MacroInPathRoundTrip | tmemes/api.go:763-779 | the path of a stored macro names it |
| TmemesApi.DeleteMacroRequest | tmemes/api.go:763-791 | only the creator or a superuser may delete (401 "permission denied"); then the store drops the macro; see also cmd/tmemes/api.go:680-713, the permission check at 697 |
| GoStrings.TrimSpaceSpec | store/store.go:240 | strings.TrimSpace leaves a slice of the text with only white space around it; see also types.go:77 |
| GoStrings.TrimSpaceEnds | store/store.go:240 | the trimmed text neither starts nor ends with white space; see also types.go:77 |
| GoStrings.Fields | store/store.go:240 | every field is non-empty and holds no white space; the lemmas below fix which fields there are |
| GoStrings.FieldsWord | store/store.go:240 | a word followed by white space or the end is the first field |
| GoStrings.FieldsLeadingSpace | store/store.go:240 | leading white space adds no field |
| GoStrings.FieldsTrailingSpace | store/store.go:240 | trailing white space adds no field |
| GoStrings.FieldsEmptyIff | store/store.go:240 | there are no fields exactly when the text is all white space |
| GoStrings.FieldsOfTrimSpace | store/store.go:240 | trimming first does not change the fields |
| GoStrings.Ext | store/store.go:336 | filepath.Ext: empty or a suffix of the path starting with "." and holding no other "." and no "/" |
| GoStrings.ExtEmptyIff | store/store.go:336 | the extension is empty exactly when every "." of the path has a "/" after it |
| GoStrings.Wrap64 | tmemes/utils.go:134-135 | Go's int arithmetic: the result is in the int64 range, congruent to the exact value modulo 2^64, and equal to it when it fits |
| GoStrings.JoinErrors | store/db.go:46 | errors.Join: no error exactly when every argument is nil; otherwise a text that starts with the first argument's when that one is non-nil |
| GoStrings.AtoiItoa | tmemes/ui.go:159 | strconv.Atoi reads back any printed int64; see also cmd/tmemes/api.go:254 |
| GoStrings.HexRoundTrip | tmemes/utils.go:146 | lower-case hex of bytes parses back to the bytes |

## Left out

- SQL and JSON: the tables are maps of rows, and JSON decoding is a row that decodes or not (`Row.raw`). Only the UpdateMacro of serveAPIContextPost has a SQL outcome parameter (`updateErr`); every other SQL write is modelled as succeeding, as listed below.
- The filesystem: files are a set of paths, the directory listing and access times are given, and create, write, close and remove outcomes are parameters (`Env`, `written`, `removable`).
- Map iteration order: loops over Go maps take the visiting order as a parameter (`order`), and the results are proved for every order.
- Sorting: `slices.SortFunc` and `sort.Slice` are not stable; `Sorting.Sort` is one sorted permutation. The other elements of `slice.Partition` are permuted arbitrarily; the model keeps their order. This is one of the outcomes the code allows.
- `sortMacrosByScore` uses floating point; its key is the parameter `scoreKey`.
- Concurrency: goroutines, taskgroup, the backdropReady channels, singleflight, sync.Map, mutexes and the janitor's ticker. DrawGIF and the janitor are sequential loops, and generation happens once per request.
- Image codecs, gg drawing and freetype: word wrapping (`wrap`), font height (`fh`), the rendering of strokes (`render`) and quantize.Image (the quantised colours per image) are parameters.
- Floats: colours are bytes (`byte(c*255)`); `fontSizeForImage` is the parameter `size0`; areas and fractions are `real`.
- MemedrawUtils.NewFrames: a line with no areas makes Go divide by zero; the model requires at least one area.
- The disposal values are Go's image/gif constants (None 1, Background 2, Previous 3); the code sends 0 and unknown values to backdrop[0], and the model follows the code.
- DrawGIF's shared `backdrops[0]` aliasing is modelled as values.
- url.Parse and `u.String()` are the parameter `parse`; SHA-256 is the parameter `sum` or `sha`.
- words.Tails and words.Scales are the parameters `tails` and `scales`.
- tmemes.MaxContextLinks is not part of this model's sources; it is the parameter `maxLinks`.
- The store's UpdateMacro, used by serveAPIContextPost, is not part of this model's sources; its outcome is the parameter `updateErr`.
- HTTP plumbing: muxes, response writing, headers, `http.ServeFile`, checkAccess and WhoIs. The caller's identity and superuser status are parameters.
- `%q` quoting of error messages is plain double quotes.
- Case mapping (`strings.ToLower`, `strings.ToUpper`) is ASCII only.
- TmemesUtils.HashPipe.Read: models a reader that returns io.EOF only with no data; a reader returning data together with EOF is not modelled.
- store.go's MacrosByCreator, Macros, GetVote, UserMacroVote, UserVotes and Close: SQL reads and listing outside the modelled decisions (UserVotes is the parameter `uv`).
- tmemes/ui.go's HTML templates, userDisplayName and the UI handlers beyond the decisions above; tmemes/main.go and bot/bot.go.
- types.go's copy of the colour table is the same as colors.go's and is modelled once, in Colors.
- `MustColor` panics on a bad colour; it is not modelled separately from UnmarshalText.
- Store.DB.LoadIndex: the Meta table read has no failure outcome in the model, so the joined error holds only the two table loads.
- Error texts drop the parts Go fills from elsewhere: the wrapped `%w` cause ("decode macro id 3" without the JSON error, store/db.go:70 and :96, and the "loading"/"scanning" SQL errors) and the `%g` value of an area or a time ("x out of range" without the number, types.go:154-160).
- Store.DB.AddMacro: the INSERT is modelled as succeeding. When it fails (store/store.go:359), Go has already stored the macro in memory and raised nextMacroID, and returns the error, which serveAPIMacroPost sends as a 400.
- Store.DB.DeleteMacro: the DELETE is modelled as succeeding. When it fails (store/store.go:374-375), the macro is already gone from memory and its cache file removed, and the error is returned.
- Store.DB.SetCacheSeed: the Meta write is modelled as succeeding. When it fails (store/store.go:155-160), Go keeps the old seed and returns the error.
- Store.DB.SetTemplateHidden: the row write is modelled as succeeding. When it fails (store/store.go:232), the flag has already changed in memory and the error is returned.
- Store.DB.AddTemplate and Store.DB.StoreTemplate: the row write is modelled as succeeding. When it fails (store/store.go:422), the template is already in memory with its ID, path and image file, and the error is returned.
- Store.DB.SetVote: Begin, Exec, Commit and the vote fill are modelled as succeeding. When one fails (store/store.go:456-488), Go returns the error with no vote stored; a failed fill after the commit leaves the vote stored and the counts stale.
- TmemesApi.PostMacro: AddMacro's SQL failure is not modelled, so neither is the 400 that tmemes/api.go:661 sends for it.
- Store.DB.StoreTemplate: a failed os.Create is reported as "open " and the path, the head of Go's *PathError; the operating system's reason after it is not modelled.
- Store.CachePathOf: joins with "/" where Go calls filepath.Join, which also cleans the result; a directory or cache seed holding "/", "." or ".." elements is kept as it is. The same holds for Store.TemplateFile.
- GoStrings.ScanHex: a verb that meets the end of the text reports "unexpected EOF"; depending on where the scan stops, fmt may report io.EOF ("EOF") instead.
- Tmemes.ScanHexPart: the text is a sequence of runes, so byte sequences that are not valid UTF-8 (which Go reads as one-byte U+FFFD runes) are not modelled.

## Findings

| source | as written | input that shows it | evidently intended | confidence | as-written member | corrected member |
|---|---|---|---|---|---|---|
| types.go:276-283 | `fmt.Sscanf(p, "%2x%2x%2x", ...)` checks neither that all six characters are hex digits nor that they are all consumed | "#12345z" decodes to (0x12, 0x34, 0x05) without error; " 12345" decodes to (0x12, 0x34, 0x05) too, and "1  234" to (0x01, 0x23, 0x04) | a colour is exactly 3 or 6 hex digits, as the Color documentation says | not executed | Tmemes.AcceptsTrailingGarbage | Tmemes.UnmarshalText |
| tmemes/ui.go:128-135 | `k := v % n` with Go's truncating `%` on a time before 1970 | UnixMicro -2 with two or more tails: k is -1 and `pick[j][k]` panics | an index in [0, n) for any time | not executed | TmemesUI.TailyAsWrittenPanics | TmemesUI.TailyScalyName |
| cmd/tmemes/api.go:602-609 (the same at tmemes/api.go:686-693) | the uint64 from ParseUint is converted to tailcfg.UserID (int64) without a range check | creator=18446744073709551615 becomes -1, the anonymous filter | "value out of range" for IDs above MaxInt64 | not executed | CmdApi.CreatorWrapsToAnonymous | CmdApi.CreatorUserID |
| tmemes/utils.go:134-135 (the same at tmemes/ui.go:469-470) | `start := (page-1)*count` and `end := start+count` in Go's 64-bit int, with page and count any positive int64 parsePageOptions accepts | page=3&count=4611686018427387904 makes start wrap to -2^63 and the slice panics; page=4611686018427387905&count=4 makes start wrap to 0 and returns the first page | the empty page past the end whenever (page-1)*count reaches the length | not executed | TmemesUtils.SlicePageWrapPanics | TmemesUtils.SlicePageIs |
