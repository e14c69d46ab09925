# darkseed-tools codecs in Dafny

This project models the two binary asset codecs of the darkseed-tools
converters and proves properties about them:

- **TosSprites.** A 4-bit sprite container is unpacked into sprites and
  packed back. The model covers the nibble codec of one sprite (`Sprite.cs`)
  with its 1x1 special cases. It covers the container of 96 slots
  (`Program.cs`): a 192-byte header of width/height byte pairs, then the
  packed bodies back to back. It also covers the mapping between palette
  indices and RGBA colours (`Converter.cs`): 15 greys and one transparent
  index.
- **TosText.** A text table is made of a 16-bit little-endian offset table,
  then CRLF-terminated entries, then the trailer `1A FF`. The model covers
  the byte helpers (`TosTextUtility.cs`): 16-bit reads and writes, and
  string decoding and encoding in single-byte or dual-byte mode. It covers
  table extraction and rebuilding (`TosText.cs`), including how the
  intermediate text file is split back into entries at `-----` lines.

There are two layers:

- **The value layer** holds datatypes and functions: `SpriteFormat.Loaded`,
  `SpriteFormat.Save`, `SpriteContainer.Decode`/`Encode`,
  `GifConversion.FromImage`/`ToImage`, `TextUtility.DecodeBytes`/`EncodeChars`,
  and `TextTable.DecodeTable`/`EncodeTable`. The round-trip lemmas are
  stated and proved here.
- **The imperative layer** follows the C# code loop for loop:
  - `Sprite` is a class over a pixel `array`. `Converter` is a class with
    the palette array and the colour dictionary. An image is an
    `array2<Rgba>`.
  - The reading and writing loops are methods with invariants. Each
    method's `ensures` ties its result, or the new object state, to the
    value layer.

Streams are modelled as a byte sequence plus a cursor; a writer is the
sequence of bytes written so far. C# `ushort` and `byte` casts are written
out as `ToU16`/`ToByte`, since Dafny integers are unbounded.

Some behaviour of the code is easy to misread; the model states it as the
code has it:

- **Dual-byte decoding does not restore characters below `0x8000`.**
  `0x3042` encodes to `B0 42` (`TosTextUtility.cs:93-94`) and decodes to
  `0xB042` (`TosTextUtility.cs:47`): the decoder keeps the high bit the
  encoder forces into the lead byte.
  - `TextUtility.WideCharExample` proves this instance.
  - `TextUtility.DecodeEncode` proves the general law: characters above 127
    come back as `0x8000 | c`.
  - `TextUtility.MultibyteExact` proves that a text survives exactly iff
    each character is at most 127 or at least `0x8000`.
- **Widths and heights above 255 are truncated, not rejected.** The
  header is written with a `(byte)` cast (`Program.cs:124-125`), and
  `SpriteContainer.EncodeLayout` states the truncated header bytes.
- **Line breaks inside an entry become CR LF.** `WriteLine` puts an entry
  that contains CR or LF on several lines of the text file
  (`TosText.cs:83`), `ReadLine` returns them one by one (`TosText.cs:111`),
  and the rebuild joins them with `AppendLine` (`TosText.cs:121-124`).
  `TextTable.SplitTextFile` proves that every entry comes back with each
  line break written as CR LF, and `TextTable.BreakNormalized` shows
  `A` LF `B` coming back as `A` CR LF `B`. An entry with a line that is
  exactly `-----` comes back split in two (`TextTable.SeparatorLineSplits`).
- **Truncation errors.** A truncated container is reported without naming
  the slot: the exception is caught and the run fails as a whole
  (`Program.cs:86-91`). The model returns `Err(Truncated)`.
- **Method names.** `TosText.cs` calls `ReadUInt16Le`/`WriteUInt16Le`
  (lines 28, 45, 166). `TosTextUtility.cs` declares `ReadUInt16LE` and
  `WriteUInt16LE`. The model treats these as the same functions.

## Model

| member | source | states |
|---|---|---|
| Common.ToU16 | TosText/TosText.cs:154 | the `(ushort)` cast keeps every value in 0..65535 unchanged and reduces others modulo 65536 |
| Common.ToU16Add | TosText/TosText.cs:158-161 | accumulating offsets with 16-bit casts after every addition equals one cast of the exact sum |
| Common.ToByte | TosSprites/Program.cs:124-125 | the `(byte)` cast keeps values below 256 unchanged |
| Common.BitOrDisjoint | TosText/TosTextUtility.cs:11 | ORing a value with another shifted past its bits is addition, in either operand order |
| Common.RunAt | TosSprites/Program.cs:76-81 | a reader that knows only the run sizes finds every run, written back to back after a prefix, at the running sum of the sizes before it |
| SpriteFormat.PackNibbles | TosSprites/Sprite.cs:91 | packing two 4-bit indices gives `16*hi+lo`, and the high and low nibbles of that byte are the two indices |
| SpriteFormat.PackSplit | TosSprites/Sprite.cs:53-60 | repacking the two nibbles of any byte gives that byte |
| SpriteFormat.Blank | TosSprites/Sprite.cs:12-26 | a new sprite has the given dimensions, `pitch*height` cells all holding the transparent index 15, and is not empty |
| SpriteFormat.EmptyValue | TosSprites/Sprite.cs:113-119 | the empty sprite is 1x1 with pitch 1, flagged empty, with its single cell transparent |
| SpriteFormat.Unpacked | TosSprites/Sprite.cs:46-62 | unpacking gives `n` 4-bit cells: cell `2k` is the high nibble and cell `2k+1` the low nibble of byte `k` |
| SpriteFormat.Loaded | TosSprites/Sprite.cs:28-63 | loading keeps the dimensions and leaves a codable sprite |
| SpriteFormat.LoadedGeneral | TosSprites/Sprite.cs:46-62 | outside the 1x1 case loading reads `ceil(pitch*height/2)` bytes, cell `k` is the high or low nibble of byte `k/2` by parity, and the empty flag is unchanged |
| SpriteFormat.LoadedIgnoresCells | TosSprites/Sprite.cs:46-62 | outside the 1x1 case the loaded state does not depend on the cells held before loading |
| SpriteFormat.SingleLoad | TosSprites/Sprite.cs:31-44 | a 1x1 load becomes empty iff it was empty or the byte is `0xFF`; cell 0 becomes 15 on `0xFF` and otherwise `b>>4`; no other cell changes |
| SpriteFormat.SaveLength | TosSprites/Sprite.cs:65-94 | a saved sprite is one byte in the 1x1 case and otherwise `height*ceil(pitch/2)` bytes, which for even pitch is the number of bytes loading reads |
| SpriteFormat.PackedRowsAt | TosSprites/Sprite.cs:81-93 | byte `k` of row `y` packs cell `2k` of that row as high nibble with the next cell as low nibble, rows in order |
| SpriteFormat.LowCellPadding | TosSprites/Sprite.cs:90 | the low nibble is the next cell, except at the last column of an odd pitch, where it is the transparent index |
| SpriteFormat.SingleSave | TosSprites/Sprite.cs:67-79 | a 1x1 sprite saves to one byte: `0xFF` when empty, otherwise low nibble 0 and high nibble equal to the 4-bit cell |
| SpriteFormat.SaveEmpty | TosSprites/Sprite.cs:67-72 | the empty sprite saves to `FF` |
| SpriteFormat.SaveAfterLoad | TosSprites/Sprite.cs:28-94 | with even pitch and outside the 1x1 case, saving what was loaded gives back exactly the bytes read |
| SpriteFormat.LoadAfterSave | TosSprites/Sprite.cs:28-94 | with even pitch and 4-bit cells, loading what was saved gives back the sprite, and the saved length is what loading reads |
| SpriteFormat.SingleSaveAfterLoad | TosSprites/Sprite.cs:31-44 | a loaded 1x1 byte is saved back unchanged iff it is `0xFF` or has low nibble 0 |
| SpriteFormat.SingleLoadAfterSave | TosSprites/Sprite.cs:68-79 | a 1x1 sprite with a 4-bit cell, transparent when empty, survives save then load |
| SpriteFormat.PairPackedUnpacked | TosSprites/Sprite.cs:53-60 | packing the unpacked nibbles of a byte sequence gives that sequence |
| SpriteFormat.UnpackedPairPacked | TosSprites/Sprite.cs:85-92 | unpacking the packed pairs of 4-bit cells gives those cells |
| Sprites.CellIndexInjective | TosSprites/Sprite.cs:100 | distinct in-range coordinates address distinct cells of the row-major buffer |
| Sprites.Sprite.constructor | TosSprites/Sprite.cs:12-26 | the new sprite's state is the blank sprite of the given dimensions, over a fresh buffer |
| Sprites.Sprite.Load | TosSprites/Sprite.cs:28-63 | loading succeeds iff the bytes loading reads remain; the cursor then advances by that count and the state becomes `Loaded` of the old state and the bytes read |
| Sprites.Sprite.Save | TosSprites/Sprite.cs:65-94 | the writer gains exactly the saved form of the current state, empty or 1x1 or packed rows |
| Sprites.Sprite.SaveRows | TosSprites/Sprite.cs:81-93 | the row loop appends all packed rows in order |
| Sprites.Sprite.SaveRow | TosSprites/Sprite.cs:85-92 | the column loop appends one row's packed bytes |
| Sprites.Sprite.GetPixel | TosSprites/Sprite.cs:96-103 | an in-range coordinate reads cell `y*pitch+x`, anything else reads 0 |
| Sprites.Sprite.SetPixel | TosSprites/Sprite.cs:105-111 | an in-range coordinate updates only cell `y*pitch+x`, anything else changes nothing; no other coordinate reads differently |
| Sprites.Sprite.CreateEmpty | TosSprites/Sprite.cs:113-119 | the new sprite is the empty sprite, which saves to `FF` |
| SpriteContainer.PitchFor | TosSprites/Program.cs:72 | the pitch is even and is the width or the width plus one |
| SpriteContainer.SlotSizes | TosSprites/Program.cs:65-74 | the header announces 96 body sizes |
| SpriteContainer.BodyStartMonotone | TosSprites/Program.cs:76-81 | body starts never decrease along the slots |
| SpriteContainer.SlotEnd | TosSprites/Program.cs:76-81 | each body starts where the previous one ends, as there is no per-slot offset |
| SpriteContainer.Decode | TosSprites/Program.cs:60-91 | decoding succeeds iff the input is empty or holds the header and every announced body; it gives 0 sprites for empty input and 96 otherwise |
| SpriteContainer.DecodedSlot | TosSprites/Program.cs:68-74 | decoded sprite `i` has width and height from header bytes `2i` and `2i+1`, the even pitch for that width, and is codable |
| SpriteContainer.HeaderParts | TosSprites/Program.cs:122-126 | the header holds one byte-truncated width/height pair per sprite |
| SpriteContainer.BodyParts | TosSprites/Program.cs:128-139 | the bodies are each sprite's saved form, in order |
| SpriteContainer.EncodeLayout | TosSprites/Program.cs:107-139 | encoding non-empty input succeeds; the output is `2n` header bytes followed by the bodies, with the truncated width and height of sprite `i` at `2i` and `2i+1` |
| SpriteContainer.HeaderOfEncoding | TosSprites/Program.cs:122-126 | for restorable sprites the header holds each width and height unchanged |
| SpriteContainer.SlotSizeOfSave | TosSprites/Program.cs:72 | for a restorable sprite the size the decoder derives from its header pair is that of its saved form |
| SpriteContainer.ReloadFromHeader | TosSprites/Program.cs:68-81 | a blank sprite made from the header pair, then loaded from the saved body, is the original sprite |
| SpriteContainer.EncodingFramed | TosSprites/Program.cs:122-139 | after the 192-byte header the encoding holds the bodies back to back, each of the size its header pair announces |
| SpriteContainer.SlotOfEncoding | TosSprites/Program.cs:65-81 | every slot of an encoding of restorable sprites fits and decodes to the sprite encoded there |
| SpriteContainer.DecodeAllSlots | TosSprites/Program.cs:65-81 | when every slot fits and decodes as given, decoding the container gives those 96 sprites |
| SpriteContainer.RoundTrip | TosSprites/Program.cs:65-139 | 96 restorable sprites (width and height at most 255, even-padded pitch, 4-bit cells, not 1x1, not empty) survive encode then decode |
| SpriteContainer.Values | TosSprites/Program.cs:122 | the value of every sprite object, in order |
| SpriteContainer.Extract | TosSprites/Program.cs:60-91 | extraction succeeds iff `Decode` does, returning fresh sprites whose states are the decoded sprites |
| SpriteContainer.ReadHeaders | TosSprites/Program.cs:68-74 | the header loop succeeds iff 192 bytes are present and creates 96 distinct blank sprites sized from their pairs |
| SpriteContainer.LoadBodies | TosSprites/Program.cs:76-81 | the body loop succeeds iff every announced body is present, leaving each sprite in the state its slot decodes to |
| SpriteContainer.LoadStep | TosSprites/Program.cs:78 | one iteration loads slot `i` at its body start, moves the cursor to the next body start and changes no other sprite |
| SpriteContainer.LoadSlot | TosSprites/Program.cs:78 | loading one slot succeeds iff its body fits, leaving the object in that slot's decoded state |
| SpriteContainer.Rebuild | TosSprites/Program.cs:107-139 | rebuilding fails with `NoInputSprites` for no sprites and otherwise writes `Encode` of the sprites' values |
| SpriteContainer.WriteHeaders | TosSprites/Program.cs:122-126 | the header loop writes the byte-truncated pairs in order |
| SpriteContainer.WriteBodies | TosSprites/Program.cs:128-139 | the body loop appends every saved body in order |
| GifConversion.GrayStrict | TosSprites/Converter.cs:17-22 | the 15 greys strictly increase, so no two indices share a colour |
| GifConversion.GrayEnds | TosSprites/Converter.cs:19 | the greys run from black 0 to white 255 |
| GifConversion.PaletteColor | TosSprites/Converter.cs:17-25 | indices 0..14 are opaque greys `i*255/14`, index 15 is fully transparent black |
| GifConversion.GrayMapInverts | TosSprites/Converter.cs:17-22 | the colour dictionary holds exactly the 15 greys and maps each back to its index |
| GifConversion.ExactColorIndexIff | TosSprites/Converter.cs:127-137 | a colour maps to index `i` iff it is transparent and `i` is 15, or opaque with its three channels equal to grey `i` |
| GifConversion.PaletteInverse | TosSprites/Converter.cs:127-137 | every palette colour maps back to its own index |
| GifConversion.ExactColorIndexRange | TosSprites/Converter.cs:127-137 | a matched index is at most 15 |
| GifConversion.IndexColor | TosSprites/Converter.cs:58-71 | a 4-bit cell is drawn in its palette colour |
| GifConversion.PixelRoundTrip | TosSprites/Converter.cs:58-71 | drawing a cell and matching the colour gives the cell back, or 0 for a cell above 15, which is drawn opaque black |
| GifConversion.EmptyImage | TosSprites/Converter.cs:78-83 | the empty sprite's image is well shaped |
| GifConversion.ToImage | TosSprites/Converter.cs:42-76 | the image of a sprite is well shaped, `width` by `height` |
| GifConversion.MatchedIndex | TosSprites/Converter.cs:106-113 | the index stored for a matched colour is at most 15 |
| GifConversion.FromImage | TosSprites/Converter.cs:85-125 | a converted sprite is well formed and all its cells are 4-bit |
| GifConversion.FromImageCell | TosSprites/Converter.cs:94-121 | a converted sprite's visible cell holds the matched index of its pixel, and its padding column is transparent |
| GifConversion.EmptyRoundTrip | TosSprites/Converter.cs:45-49 | an empty sprite becomes the 1x1 transparent image, which converts back to the empty sprite |
| GifConversion.SingleClearBecomesEmpty | TosSprites/Converter.cs:89-92 | a non-empty 1x1 sprite whose cell is transparent comes back as the empty sprite |
| GifConversion.ImageRoundTrip | TosSprites/Converter.cs:42-125 | converting a non-empty sprite to an image and back keeps its width and height, pads the pitch to even, keeps every visible 4-bit cell and makes the padding column transparent |
| GifConversion.CellAt | TosSprites/Sprite.cs:100 | every buffer index is the row-major cell of its own coordinates |
| GifConversion.SameCells | TosSprites/Sprite.cs:96-103 | two sprites with the same dimensions, flag and cells are equal |
| GifConversion.ImageRoundTripExact | TosSprites/Converter.cs:42-125 | a non-empty sprite with even-padded pitch, 4-bit cells and a transparent padding column survives image conversion exactly |
| GifConversion.SpriteRoundTrip | TosSprites/Converter.cs:42-125 | an image in palette colours only survives conversion to a sprite and back exactly |
| GifConversion.FilledSprite | TosSprites/Converter.cs:94-124 | a sprite of the image's dimensions holding each pixel's target cell is what conversion returns |
| GifConversion.ImageOf | TosSprites/Converter.cs:87 | the value of an image grid |
| GifConversion.Converter.constructor | TosSprites/Converter.cs:15-25 | palette entries 0..14 hold the greys, entry 15 is transparent, and the dictionary is the one `GrayMapInverts` describes |
| GifConversion.Converter.ToGif | TosSprites/Converter.cs:42-76 | the image drawn is the sprite's image, the empty image for an empty sprite |
| GifConversion.Converter.DrawRow | TosSprites/Converter.cs:56-72 | one row of pixels is drawn in the cells' colours and no other row changes |
| GifConversion.Converter.SaveEmptySprite | TosSprites/Converter.cs:78-83 | the empty sprite is drawn as one transparent pixel |
| GifConversion.Converter.FromGif | TosSprites/Converter.cs:85-125 | conversion succeeds iff every visible pixel has an exact palette match, returning a fresh sprite whose state is `FromImage` of the image |
| GifConversion.Converter.FillPixels | TosSprites/Converter.cs:100-122 | the pixel loops succeed iff every visible pixel matches, and leave each cell at its target index |
| GifConversion.Converter.FillRow | TosSprites/Converter.cs:102-137 | one row, looked up in the converter's colour dictionary, succeeds iff all its pixels match; it sets that row's cells and no other row's |
| TextUtility.ReadUInt16LE | TosText/TosTextUtility.cs:8-12 | a 16-bit read succeeds iff two bytes remain |
| TextUtility.ReadUInt16LEIsBitwise | TosText/TosTextUtility.cs:11 | the value read is `b0 OR (b1 << 8)` |
| TextUtility.WriteUInt16LE | TosText/TosTextUtility.cs:15-19 | a 16-bit write emits two bytes |
| TextUtility.ReadAfterWrite | TosText/TosTextUtility.cs:8-19 | reading where a value was written gives that value |
| TextUtility.WriteAfterRead | TosText/TosTextUtility.cs:8-19 | writing a value read gives back the two bytes read |
| TextUtility.MultibyteChar | TosText/TosTextUtility.cs:47 | a pair whose lead byte has its high bit set yields a character of at least `0x8000` |
| TextUtility.MultibyteCharIsBitwise | TosText/TosTextUtility.cs:47 | the joined character is `(char)((b << 8) OR b2)` |
| TextUtility.LeadByte | TosText/TosTextUtility.cs:93 | the lead byte of a wide character has its high bit set |
| TextUtility.LeadByteIsBitwise | TosText/TosTextUtility.cs:93 | the lead byte is `(byte)(((c >> 8) AND 0xFF) OR 0x80)` |
| TextUtility.EncodeChar | TosText/TosTextUtility.cs:87-104 | a character takes two bytes in dual-byte mode when above 127, otherwise one |
| TextUtility.Clamped | TosText/TosTextUtility.cs:22-39 | the bytes consumed are the request cut down to what remains, none at or past the end or for a non-positive length, and are the data from the cursor on |
| TextUtility.ReadString | TosText/TosTextUtility.cs:22-81 | the cursor advances by the clamped byte count and the text is those bytes decoded |
| TextUtility.ReadMultibyte | TosText/TosTextUtility.cs:34-61 | the dual-byte loop decodes the clamped bytes |
| TextUtility.ReadSingle | TosText/TosTextUtility.cs:62-78 | the single-byte loop decodes the clamped bytes |
| TextUtility.DecodeStep | TosText/TosTextUtility.cs:41-59 | one step joins a high-bit byte with a following byte in dual-byte mode, and otherwise takes one byte as one character |
| TextUtility.EncodeString | TosText/TosTextUtility.cs:83-108 | the loop emits the encoding of every character in order |
| TextUtility.EncodeCharsAppend | TosText/TosTextUtility.cs:89-100 | encoding distributes over concatenation |
| TextUtility.EncodeSingle | TosText/TosTextUtility.cs:104 | single-byte encoding is the byte cast of every character |
| TextUtility.EncodeLength | TosText/TosTextUtility.cs:87-104 | the encoding has one byte per character plus one per wide character in dual-byte mode |
| TextUtility.DecodeSingle | TosText/TosTextUtility.cs:66-72 | single-byte decoding maps every byte to the character of that code |
| TextUtility.DecodeEncodeChar | TosText/TosTextUtility.cs:41-59 | decoding an encoded character followed by more bytes gives its round-trip image followed by the decoding of the rest |
| TextUtility.WideSplit | TosText/TosTextUtility.cs:47 | the bytes written for a wide character join back to `0x8000 OR c` |
| TextUtility.RoundTripFixed | TosText/TosTextUtility.cs:83-108 | a character survives iff it is at most 127 or at least `0x8000` in dual-byte mode, or at most `0xFF` in single-byte mode |
| TextUtility.DecodeEncode | TosText/TosTextUtility.cs:22-108 | decoding an encoded text gives every character's image: low 8 bits in single-byte mode; in dual-byte mode unchanged up to 127 and `0x8000 OR c` above |
| TextUtility.MultibyteExact | TosText/TosTextUtility.cs:34-101 | a text survives dual-byte encode then decode iff every character is at most 127 or at least `0x8000` |
| TextUtility.SingleExact | TosText/TosTextUtility.cs:62-104 | a text survives single-byte encode then decode iff every character is at most `0xFF` |
| TextUtility.WideCharExample | TosText/TosTextUtility.cs:91-95 | `0x3042` encodes to `B0 42`, which decodes to `0xB042` |
| TextTable.TrimEnd | TosText/TosText.cs:67 | trimming keeps a prefix that does not end in CR or LF and removes only CR and LF characters |
| TextTable.TrimEndBreaks | TosText/TosText.cs:67 | appended line breaks make no difference to the trimmed text |
| TextTable.TrimEndKeeps | TosText/TosText.cs:67 | a text not ending in CR or LF is left unchanged |
| TextTable.DecodeTable | TosText/TosText.cs:28-76 | extraction fails with `MissingFirstOffset` below two bytes, fails when the first offset exceeds the file, and otherwise yields `firstOffset/2` entries |
| TextTable.Extract | TosText/TosText.cs:28-76 | the extraction code computes `DecodeTable` |
| TextTable.ReadOffsets | TosText/TosText.cs:40-47 | the offset loop reads the first `numEntries` 16-bit offsets from the start |
| TextTable.ReadTableEntries | TosText/TosText.cs:49-76 | the entry loop extracts every entry in order |
| TextTable.ReadEntry | TosText/TosText.cs:51-69 | one entry is the trimmed decoding of its clamped bytes, with its length up to the next offset or to two bytes before the end, cut to 16 bits |
| TextTable.Groups | TosText/TosText.cs:111-127 | the lines split into at least one run at the `-----` lines |
| TextTable.ReadEntries | TosText/TosText.cs:106-131 | the line loop yields `SplitEntries` of the lines |
| TextTable.SeparatorStep | TosText/TosText.cs:113-118 | a separator line closes the entry under construction and opens an empty one |
| TextTable.LineStep | TosText/TosText.cs:119-126 | any other line is appended, after a newline unless it is the entry's first line |
| TextTable.FinalState | TosText/TosText.cs:129-130 | at the end the open entry is kept only if it is not empty |
| TextTable.JoinAppend | TosText/TosText.cs:121-124 | joining one more line adds a newline before it unless the run was empty |
| TextTable.GroupsExtend | TosText/TosText.cs:119-126 | lines without a separator extend the open run |
| TextTable.GroupsOfClosed | TosText/TosText.cs:111-127 | runs each closed by a separator split back into those runs, plus an empty open one |
| TextTable.SplitClosed | TosText/TosText.cs:106-131 | closed runs followed by an open tail split back into each run joined, plus the tail when it joins to a non-empty text |
| TextTable.LinesAppend | TosText/TosText.cs:111 | `ReadLine` reads a text ending in a newline independently of what follows it |
| TextTable.ReadLinesAppend | TosText/TosText.cs:111 | reading two parts, the first empty or ending in a newline, gives the lines of the first and then of the second |
| TextTable.LinesPlain | TosText/TosText.cs:111 | a string without CR or LF, written by `WriteLine`, is read back as exactly that one line |
| TextTable.JoinCons | TosText/TosText.cs:121-124 | joining a line in front of at least one more adds one newline after it |
| TextTable.JoinLines | TosText/TosText.cs:111-127 | the lines read for a string written by `WriteLine` are at least one, and joined with CR LF they are the string with every CR LF, lone CR and lone LF written as CR LF |
| TextTable.BreakLength | TosText/TosText.cs:111 | a line break at the front is one or two characters, CR LF counting as one break |
| TextTable.BreakStep | TosText/TosText.cs:111 | a CR, LF or CR LF ends the current line, and normalises to one CR LF |
| TextTable.CharStep | TosText/TosText.cs:111 | any other character extends the current line and is kept as it is |
| TextTable.JoinBreak | TosText/TosText.cs:111-124 | the line-break step of `JoinLines` |
| TextTable.NormalizeKeeps | TosText/TosText.cs:121-124 | a text without CR or LF is its own normalisation |
| TextTable.SeparatorPlain | TosText/TosText.cs:84 | the separator line holds no break and is read back as one `-----` line |
| TextTable.FileTextEnds | TosText/TosText.cs:79-86 | the text file is empty or ends in a newline |
| TextTable.TextFileClosed | TosText/TosText.cs:79-86 | the text file is read back as the lines of every entry, each run of them followed by a `-----` line |
| TextTable.SplitTextFile | TosText/TosText.cs:79-131 | entries none of whose lines is `-----`, written to the text file, read back and split, are the entries with their line breaks normalised to CR LF |
| TextTable.PlainTextFile | TosText/TosText.cs:79-131 | entries without CR or LF that are not `-----` themselves come back unchanged |
| TextTable.BreakNormalized | TosText/TosText.cs:79-131 | the entry `A` LF `B` comes back as `A` CR LF `B` |
| TextTable.SeparatorLineSplits | TosText/TosText.cs:79-131 | the entry `A` LF `-----` comes back as the two entries `A` and the empty string |
| TextTable.Bodies | TosText/TosText.cs:143-149 | one encoded body per entry |
| TextTable.TableOffsets | TosText/TosText.cs:151-162 | there is one offset per entry, and a single offset for an empty table |
| TextTable.Rebuild | TosText/TosText.cs:135-175 | the rebuild code writes `EncodeTable` of the entries |
| TextTable.EncodeEntries | TosText/TosText.cs:143-149 | the encoding loop encodes every entry with CRLF appended |
| TextTable.OffsetsLoop | TosText/TosText.cs:151-162 | the offset loop computes the 16-bit running offsets |
| TextTable.FirstOffset | TosText/TosText.cs:151-156 | the first offset is the offset table's size cut to 16 bits, and the only one when there are at most one entry |
| TextTable.NextOffset | TosText/TosText.cs:158-161 | each further offset is the previous one plus the previous body's size, in 16-bit arithmetic |
| TextTable.WriteParts | TosText/TosText.cs:164-172 | a write loop appends its parts in order |
| TextTable.RebuildFromLines | TosText/TosText.cs:106-175 | rebuilding from the lines `ReadLine` returns writes `EncodeTable` of the entries the lines split into |
| TextTable.OffsetBytesLength | TosText/TosText.cs:164-167 | the offset table takes two bytes per offset |
| TextTable.LayoutLength | TosText/TosText.cs:164-175 | a rebuilt table is two bytes per offset, plus the bodies, plus the two trailer bytes |
| TextTable.EncodeTableLength | TosText/TosText.cs:138-175 | a rebuilt table's length counts the offsets, every encoded body and the trailer |
| TextTable.EmptyTable | TosText/TosText.cs:151-175 | an empty list of entries rebuilds to `00 00 1A FF` |
| TextTable.EmptyTableDecodes | TosText/TosText.cs:28-49 | `00 00 1A FF` extracts to no entries |
| TextTable.OffsetValue | TosText/TosText.cs:151-162 | when the table fits 16 bits, offset `i` is the offset table's size plus the sizes of the bodies before `i` |
| TextTable.ReadOffset | TosText/TosText.cs:40-47 | reading offset `i` of a written offset table gives the offset written |
| TextTable.LayoutOffsets | TosText/TosText.cs:28-47 | the first offset of a rebuilt table announces its entry count, and the offsets read back are the ones written |
| TextTable.LayoutEntryLength | TosText/TosText.cs:54-61 | the length the extractor derives for entry `i` is the size of its body |
| TextTable.LayoutSlice | TosText/TosText.cs:164-172 | body `i` lies at offset `i` of the rebuilt table |
| TextTable.LayoutBody | TosText/TosText.cs:49-66 | the bytes the extractor reads for entry `i` are exactly body `i` |
| TextTable.DecodeBody | TosText/TosText.cs:66-67 | decoding and trimming a body gives the entry's round-trip image, trimmed |
| TextTable.DecodeLayout | TosText/TosText.cs:28-76 | a table whose first offset counts its offsets, and whose offsets read back as given, extracts to the entries at those offsets |
| TextTable.DecodeEncodeTable | TosText/TosText.cs:28-175 | when the table fits 16-bit offsets, extracting a rebuilt table gives every entry's character round-trip image without trailing CR or LF |
| TextTable.DecodeNonEmpty | TosText/TosText.cs:28-175 | the non-empty case of the table round trip |
| TextTable.EntriesRestored | TosText/TosText.cs:49-76 | the entries extracted from a rebuilt table are the restored strings |
| TextTable.SingleByteRoundTrip | TosText/TosText.cs:28-175 | in single-byte mode, entries with characters up to `0xFF` and no trailing CR or LF extract back unchanged |
| TextTable.RestoredSingle | TosText/TosText.cs:66-67 | such a string is its own single-byte restoration |
| TextTable.MultibyteRoundTrip | TosText/TosText.cs:28-175 | in dual-byte mode, entries with characters up to 127 or from `0x8000`, and no trailing CR or LF, extract back unchanged |
| TextTable.RestoredMultibyte | TosText/TosText.cs:66-67 | such a string is its own dual-byte restoration |
| TextTable.HelloWorld | TosText/TosText.cs:143-175 | the entries `HELLO` and `WORLD` rebuild to offsets `04 00 0B 00`, the two CRLF-terminated bodies and `1A FF` |
| TextTable.HelloWorldOffsets | TosText/TosText.cs:151-162 | two seven-byte bodies get offsets 4 and 11 |

## Left out

- Command-line parsing, options, console messages and exception texts are
  not modelled. A failing run is a `Result` error.
- File and directory access is not modelled. Inputs are a byte sequence or
  a list of lines, and outputs are byte sequences or image grids. This
  covers file deletion and creation and `Seek`. The text file is its text
  as a sequence of UTF-16 code units (`TextTable.FileText`), its lines are
  `TextTable.ReadLines` of that text, and the newline is fixed as the
  Windows CR LF.
- The UTF-8 encoding of the text file, with its byte-order mark, is not
  modelled: characters pass through unchanged. The UTF-8 writer would
  replace an unpaired surrogate code unit (`0xD800`-`0xDFFF`, which
  dual-byte decoding can produce) by U+FFFD.
- `TextTable.ReadEntries`: the `ReadLine` calls of the loop are taken as
  the list `TextTable.ReadLines` computes, not as reads from a stream.
- The GIF files and the ImageSharp library are not modelled. This covers
  the encoder, its palette quantizer, `Image.Load` and `Image.Save`: an
  image is a grid of RGBA pixels.
- The file discovery of the sprite rebuild is not modelled: the pattern
  search and the natural sort order. The sprites arrive as a list in that
  order.
- The sprite extract loop writes a GIF per sprite between loads
  (`Program.cs:79-80`). `SpriteContainer.Extract` leaves those writes out.
  They are `Converter.ToGif`, modelled separately. The model also leaves
  out the GIFs already written when a later slot turns out truncated.
- `SpriteContainer.Rebuild` takes sprites that are already converted. In
  the code a `FromGif` exception escapes the rebuild uncaught; the model
  has `Converter.FromGif` return `Err(NoExactColorMatch)`.
- `Sprites.Sprite.Load`: the state after a failed load is left
  unspecified. The code has by then overwritten some cells before it runs
  out of bytes.
- `Sprites.Sprite.Load`, `Sprites.Sprite.Save`: these require pitch at
  least 1 for a 1x1 sprite. The code would index an empty buffer there and
  throw. The container and the converter never create such a sprite.
- `Sprites.Sprite.constructor`: the 32-bit `int` product `pitch * height`
  is not modelled. It wraps, so the buffer allocation fails for sprites
  beyond 2^31 cells. The model uses the exact product.
- `GifConversion.Converter.ToGif`: the image library's refusal of a zero
  width or height is not modelled, and neither is the GIF encoding. The
  model draws into an `array2` of the sprite's dimensions.
- `GifConversion.ImageRoundTrip`: this excludes width 65535, where the
  `ushort` pitch `width + 1` wraps to 0. `FromImage` itself models that
  wrap.
- The placeholder entry for a failed string read (`TosText.cs:71-75`) is
  not modelled, because it cannot be reached. Seeking is always
  permitted. `ReadString` clamps its length to the bytes that remain, and
  it stops at the end of the stream before every read. So neither branch
  can throw.
- The running total `totalDataSize` (`TosText.cs:141,148`) is only
  printed, so it is not modelled.
- `TextTable.DecodeEncodeTable`: the round trip is stated only when the
  rebuilt table fits 16-bit offsets. Beyond that, `TableOffsets` models
  the offsets' wrap-around, but no round trip is claimed.
- `TextUtility.ReadString`: the warning for an over-long request is text
  output only, so it is not modelled.
