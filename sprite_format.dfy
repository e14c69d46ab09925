/** The nibble-packed pixel format of one sprite, on values: a sprite's state
    as a `SpriteValue`, the bytes `Load` consumes and the pixels it produces,
    and the bytes `Save` emits. The class in module Sprites is proved against
    these functions. */
module SpriteFormat {
  import opened Common

  /** Pixel index 15 is the transparent sentinel, not a palette colour. */
  const TransparentPixel: byte := 0xF

  /** The single byte that marks an empty 1x1 sprite. */
  const EmptyMarker: byte := 0xFF

  /** The state of a sprite: its dimensions, its row-major pixel buffer of
      `pitch * height` cells and the empty flag. */
  datatype SpriteValue = SpriteValue(width: u16, height: u16, pitch: u16, pixels: seq<byte>, isEmpty: bool)

  predicate WellFormed(v: SpriteValue) {
    |v.pixels| == v.pitch * v.height
  }

  /** The 1x1 special case of `Load` and `Save`. */
  predicate IsSingle(width: int, height: int) {
    width == 1 && height == 1
  }

  /** `Load` and `Save` touch cell 0 of a 1x1 sprite, so it must exist. */
  predicate Codable(v: SpriteValue) {
    WellFormed(v) && (IsSingle(v.width, v.height) ==> v.pitch >= 1)
  }

  /** Every cell holds a 4-bit index. */
  predicate Nibbles(pixels: seq<byte>) {
    forall k :: 0 <= k < |pixels| ==> pixels[k] <= 15
  }

  /** `b >> 4` */
  function Hi(b: byte): byte { b / 16 }

  /** `b & 0xF` */
  function Lo(b: byte): byte { b % 16 }

  /** `(byte)((hi << 4) | lo)`: the shift and the OR are done on `int` and the
      cast keeps the low 8 bits. The low nibble is that of `lo`; the high
      nibble is the low nibble of `hi` ORed with the high nibble of `lo`. */
  function PackByte(hi: byte, lo: byte): byte {
    16 * (BitOr(hi % 16, lo / 16) % 16) + lo % 16
  }

  /** `(byte)(p << 4)`, the byte of a non-empty 1x1 sprite. */
  function SingleByte(p: byte): byte {
    (p * 16) % 0x100
  }

  /** Packing two 4-bit indices and splitting the byte again gives them back. */
  lemma PackNibbles(hi: byte, lo: byte)
    requires hi <= 15 && lo <= 15
    ensures PackByte(hi, lo) == 16 * hi + lo
    ensures Hi(PackByte(hi, lo)) == hi && Lo(PackByte(hi, lo)) == lo
  {
  }

  /** Splitting a byte into its nibbles and packing them again gives the byte back. */
  lemma PackSplit(b: byte)
    ensures PackByte(Hi(b), Lo(b)) == b
  {
    PackNibbles(Hi(b), Lo(b));
  }

  /** A new sprite: every cell transparent, not empty. */
  function Blank(width: u16, height: u16, pitch: u16): (v: SpriteValue)
    ensures WellFormed(v) && !v.isEmpty
    ensures v.width == width && v.height == height && v.pitch == pitch
    ensures forall k :: 0 <= k < |v.pixels| ==> v.pixels[k] == TransparentPixel
  {
    SpriteValue(width, height, pitch, seq(pitch * height, _ => TransparentPixel), false)
  }

  /** The state `CreateEmpty` returns: a 1x1 sprite of pitch 1 flagged empty. */
  function EmptyValue(): (v: SpriteValue)
    ensures Codable(v) && v.isEmpty && v.width == 1 && v.height == 1 && v.pitch == 1
    ensures v.pixels == [TransparentPixel]
  {
    Blank(1, 1, 1).(isEmpty := true)
  }

  /** Number of bytes `Load` consumes: one for a 1x1 sprite, otherwise one
      per pair of cells, rounded up. */
  function LoadSize(width: int, height: int, pitch: int): nat {
    if IsSingle(width, height) then 1
    else if pitch * height <= 0 then 0
    else (pitch * height + 1) / 2
  }

  /** The `n` cells the general path of `Load` unpacks from `bytes`: cell
      `2k` is the high nibble of byte `k`, cell `2k + 1` its low nibble. */
  function Unpacked(bytes: seq<byte>, n: nat): (r: seq<byte>)
    requires n <= 2 * |bytes|
    ensures |r| == n && Nibbles(r)
    ensures forall k :: 0 <= k < n ==> r[k] == if k % 2 == 0 then Hi(bytes[k / 2]) else Lo(bytes[k / 2])
  {
    seq(n, k requires 0 <= k < n => if k % 2 == 0 then Hi(bytes[k / 2]) else Lo(bytes[k / 2]))
  }

  /** The state after `Load` has consumed `bytes` into a sprite in state `v`.
      A 1x1 sprite only changes cell 0 (and sets, never clears, the empty
      flag); any other sprite has every cell overwritten. */
  function Loaded(v: SpriteValue, bytes: seq<byte>): (r: SpriteValue)
    requires Codable(v) && |bytes| == LoadSize(v.width, v.height, v.pitch)
    ensures Codable(r)
    ensures r.width == v.width && r.height == v.height && r.pitch == v.pitch
  {
    if IsSingle(v.width, v.height) then
      if bytes[0] == EmptyMarker then v.(isEmpty := true, pixels := v.pixels[0 := TransparentPixel])
      else v.(pixels := v.pixels[0 := Hi(bytes[0])])
    else
      v.(pixels := Unpacked(bytes, v.pitch * v.height))
  }

  /** The general path consumes `ceil(pitch * height / 2)` bytes and leaves
      only 4-bit indices behind. */
  lemma LoadedGeneral(v: SpriteValue, bytes: seq<byte>, k: nat)
    requires Codable(v) && |bytes| == LoadSize(v.width, v.height, v.pitch)
    requires !IsSingle(v.width, v.height) && k < |v.pixels|
    ensures 2 * |bytes| == |v.pixels| || 2 * |bytes| == |v.pixels| + 1
    ensures Loaded(v, bytes).pixels[k] == if k % 2 == 0 then Hi(bytes[k / 2]) else Lo(bytes[k / 2])
    ensures Nibbles(Loaded(v, bytes).pixels) && Loaded(v, bytes).isEmpty == v.isEmpty
  {
  }

  /** The general path depends on the old state only through its shape and
      flag: every old cell is overwritten. */
  lemma LoadedIgnoresCells(v: SpriteValue, w: SpriteValue, bytes: seq<byte>)
    requires Codable(v) && Codable(w) && |bytes| == LoadSize(v.width, v.height, v.pitch)
    requires v.width == w.width && v.height == w.height && v.pitch == w.pitch && v.isEmpty == w.isEmpty
    requires !IsSingle(v.width, v.height)
    ensures Loaded(v, bytes) == Loaded(w, bytes)
  {
  }

  /** The byte count of one packed row: one byte per column pair, rounded up. */
  function RowBytes(pitch: nat): nat {
    (pitch + 1) / 2
  }

  /** The low nibble `Save` uses at column `x`: the next cell, or the
      transparent sentinel when `x` is the last column of an odd pitch. */
  function LowCell(pixels: seq<byte>, rowStart: nat, pitch: nat, x: nat): byte
    requires x < pitch && rowStart + pitch <= |pixels|
  {
    if x + 1 < pitch then pixels[rowStart + x + 1] else TransparentPixel
  }

  /** The bytes `Save` emits for the row starting at `rowStart`: byte `k`
      packs columns `2k` and `2k + 1`. */
  function PackedRow(pixels: seq<byte>, rowStart: nat, pitch: nat): (r: seq<byte>)
    requires rowStart + pitch <= |pixels|
    ensures |r| == RowBytes(pitch)
  {
    seq(RowBytes(pitch), k requires 0 <= k < RowBytes(pitch) =>
      PackByte(pixels[rowStart + 2 * k], LowCell(pixels, rowStart, pitch, 2 * k)))
  }

  /** The packed rows of the first `rows` rows, one run per row. */
  function RowRuns(pixels: seq<byte>, pitch: nat, rows: nat): (r: seq<seq<byte>>)
    requires rows * pitch <= |pixels|
    ensures |r| == rows
  {
    seq(rows, y requires 0 <= y < rows =>
      RowFits(y, rows, pitch);
      PackedRow(pixels, y * pitch, pitch))
  }

  /** The bytes `Save` emits for the first `rows` rows, row after row. */
  function PackedRows(pixels: seq<byte>, pitch: nat, rows: nat): seq<byte>
    requires rows * pitch <= |pixels|
  {
    Flatten(RowRuns(pixels, pitch, rows))
  }

  /** The bytes `Save` emits for a sprite in state `v`. */
  function Save(v: SpriteValue): seq<byte>
    requires Codable(v)
  {
    if v.isEmpty && IsSingle(v.width, v.height) then [EmptyMarker]
    else if IsSingle(v.width, v.height) then [SingleByte(v.pixels[0])]
    else PackedRows(v.pixels, v.pitch, v.height)
  }

  /** Every row run has the same length. */
  lemma RowRunsUniform(pixels: seq<byte>, pitch: nat, rows: nat)
    requires rows * pitch <= |pixels|
    ensures forall y :: 0 <= y < rows ==> |RowRuns(pixels, pitch, rows)[y]| == RowBytes(pitch)
  {
  }

  /** Row `y` of `Save` output starts at byte `y * ceil(pitch / 2)`. */
  lemma RowRunStart(pixels: seq<byte>, pitch: nat, rows: nat, y: nat)
    requires rows * pitch <= |pixels| && y <= rows
    ensures RunStart(RowRuns(pixels, pitch, rows), y) == y * RowBytes(pitch)
  {
    RowRunsUniform(pixels, pitch, rows);
    FlattenUniformStart(RowRuns(pixels, pitch, rows), RowBytes(pitch), y);
  }

  lemma PackedRowsLength(pixels: seq<byte>, pitch: nat, rows: nat)
    requires rows * pitch <= |pixels|
    ensures |PackedRows(pixels, pitch, rows)| == rows * RowBytes(pitch)
  {
    var runs := RowRuns(pixels, pitch, rows);
    RowRunStart(pixels, pitch, rows, rows);
    assert runs[..rows] == runs;
  }

  /** Adding one row appends that row's packed bytes. */
  lemma RowsStep(pixels: seq<byte>, pitch: nat, y: nat)
    requires (y + 1) * pitch <= |pixels|
    ensures y * pitch + pitch <= |pixels|
    ensures PackedRows(pixels, pitch, y + 1) == PackedRows(pixels, pitch, y) + PackedRow(pixels, y * pitch, pitch)
  {
    RowFits(y, y + 1, pitch);
    var runs := RowRuns(pixels, pitch, y + 1);
    assert runs[..y] == RowRuns(pixels, pitch, y);
  }

  /** `Save` emits `1` byte for a 1x1 sprite and `height * ceil(pitch / 2)`
      bytes otherwise; for an even pitch that is exactly what `Load` consumes. */
  lemma SaveLength(v: SpriteValue)
    requires Codable(v)
    ensures |Save(v)| == if IsSingle(v.width, v.height) then 1 else v.height * RowBytes(v.pitch)
    ensures v.pitch % 2 == 0 ==> |Save(v)| == LoadSize(v.width, v.height, v.pitch)
  {
    if !IsSingle(v.width, v.height) {
      PackedRowsLength(v.pixels, v.pitch, v.height);
      if v.pitch % 2 == 0 {
        EvenArea(v.width, v.height, v.pitch);
      }
    }
  }

  lemma MulMonotone(a: nat, b: nat, c: nat)
    requires a <= b
    ensures a * c <= b * c
  {
  }

  /** Row `y` of `n` rows of `c` cells ends within the `n * c` cells. */
  lemma RowFits(y: nat, n: nat, c: nat)
    requires y < n
    ensures y * c + c <= n * c
  {
    assert y * c + c == (y + 1) * c;
    MulMonotone(y + 1, n, c);
  }

  /** `Save` is row-major: byte `k` of row `y` packs cells `(2k, y)` and
      `(2k + 1, y)` of the buffer. */
  lemma PackedRowsAt(pixels: seq<byte>, pitch: nat, rows: nat, y: nat, k: nat)
    requires rows * pitch <= |pixels| && y < rows && k < RowBytes(pitch)
    ensures y * pitch + pitch <= |pixels| && 2 * k < pitch
    ensures y * RowBytes(pitch) + k < |PackedRows(pixels, pitch, rows)|
    ensures PackedRows(pixels, pitch, rows)[y * RowBytes(pitch) + k]
         == PackByte(pixels[y * pitch + 2 * k], LowCell(pixels, y * pitch, pitch, 2 * k))
  {
    var runs := RowRuns(pixels, pitch, rows);
    RowFits(y, rows, pitch);
    RowRunStart(pixels, pitch, rows, y);
    RowRunStart(pixels, pitch, rows, y + 1);
    FlattenSlice(runs, y);
    var start := y * RowBytes(pitch);
    assert Flatten(runs)[start..start + RowBytes(pitch)] == runs[y];
    assert Flatten(runs)[start + k] == runs[y][k];
  }

  /** The transparent sentinel stands in for the second cell of a pair only
      at the last column of an odd pitch. */
  lemma LowCellPadding(pixels: seq<byte>, rowStart: nat, pitch: nat, x: nat)
    requires x % 2 == 0 && x < pitch && rowStart + pitch <= |pixels|
    ensures LowCell(pixels, rowStart, pitch, x)
         == if pitch % 2 == 1 && x == pitch - 1 then TransparentPixel else pixels[rowStart + x + 1]
  {
  }

  /** The first `n` byte-pairs of cells from `start`, packed: what `Save`
      emits when no row has a padding column. */
  function PairPacked(pixels: seq<byte>, start: nat, n: nat): (r: seq<byte>)
    requires start + 2 * n <= |pixels|
    ensures |r| == n
  {
    seq(n, j requires 0 <= j < n => PackByte(pixels[start + 2 * j], pixels[start + 2 * j + 1]))
  }

  /** A row of even pitch has no padding column. */
  lemma PackedRowEven(pixels: seq<byte>, rowStart: nat, pitch: nat)
    requires pitch % 2 == 0 && rowStart + pitch <= |pixels|
    ensures PackedRow(pixels, rowStart, pitch) == PairPacked(pixels, rowStart, RowBytes(pitch))
  {
  }

  /** An even pitch makes the cell count twice the packed byte count, and
      that is what `Load` consumes for a sprite that is not 1x1. */
  lemma EvenArea(width: int, height: nat, pitch: nat)
    requires pitch % 2 == 0 && !IsSingle(width, height)
    ensures pitch * height == 2 * (height * RowBytes(pitch))
    ensures LoadSize(width, height, pitch) == height * RowBytes(pitch)
  {
    var q := height * RowBytes(pitch);
    assert pitch == 2 * RowBytes(pitch);
    assert pitch * height == 2 * q;
    assert (2 * q + 1) / 2 == q;
  }

  lemma {:induction false} PackedRowsEven(pixels: seq<byte>, pitch: nat, rows: nat)
    requires pitch % 2 == 0 && rows * pitch <= |pixels|
    ensures rows * RowBytes(pitch) * 2 == rows * pitch
    ensures PackedRows(pixels, pitch, rows) == PairPacked(pixels, 0, rows * RowBytes(pitch))
    decreases rows
  {
    var rb := RowBytes(pitch);
    EvenRows(rows, pitch);
    if rows > 0 {
      EvenRows(rows - 1, pitch);
      RowFits(rows - 1, rows, rb);
      PackedRowsEven(pixels, pitch, rows - 1);
      RowsStep(pixels, pitch, rows - 1);
      PackedRowEven(pixels, (rows - 1) * pitch, pitch);
      PairPackedSplit(pixels, (rows - 1) * rb, rb);
    }
  }

  /** Arithmetic of `rows` rows of even pitch. */
  lemma EvenRows(rows: nat, pitch: nat)
    requires pitch % 2 == 0
    ensures rows * RowBytes(pitch) * 2 == rows * pitch
    ensures rows > 0 ==> (rows - 1) * RowBytes(pitch) + RowBytes(pitch) == rows * RowBytes(pitch)
  {
    var rb := RowBytes(pitch);
    assert pitch == 2 * rb;
    if rows > 0 {
      assert (rows - 1) * rb + rb == rows * rb;
    }
  }

  /** Pair packing of `m` pairs followed by `n` more pairs. */
  lemma PairPackedSplit(pixels: seq<byte>, m: nat, n: nat)
    requires 2 * (m + n) <= |pixels|
    ensures PairPacked(pixels, 0, m) + PairPacked(pixels, 2 * m, n) == PairPacked(pixels, 0, m + n)
  {
    var left := PairPacked(pixels, 0, m);
    var right := PairPacked(pixels, 2 * m, n);
    var whole := PairPacked(pixels, 0, m + n);
    forall j | 0 <= j < m + n
      ensures (left + right)[j] == whole[j]
    {
      if j >= m {
        assert right[j - m] == PackByte(pixels[2 * m + 2 * (j - m)], pixels[2 * m + 2 * (j - m) + 1]);
      }
    }
  }

  /** `Save` after `Load` reproduces the consumed bytes exactly for a sprite
      that is not 1x1 and has an even pitch. */
  lemma SaveAfterLoad(v: SpriteValue, bytes: seq<byte>)
    requires Codable(v) && |bytes| == LoadSize(v.width, v.height, v.pitch)
    requires !IsSingle(v.width, v.height) && v.pitch % 2 == 0
    ensures Save(Loaded(v, bytes)) == bytes
  {
    EvenArea(v.width, v.height, v.pitch);
    var cells := Unpacked(bytes, 2 * |bytes|);
    assert Loaded(v, bytes).pixels == cells;
    PackedRowsEven(cells, v.pitch, v.height);
    PairPackedUnpacked(bytes);
  }

  /** Packing the nibbles of `bytes` pairwise gives `bytes` back. */
  lemma PairPackedUnpacked(bytes: seq<byte>)
    ensures PairPacked(Unpacked(bytes, 2 * |bytes|), 0, |bytes|) == bytes
  {
    var cells := Unpacked(bytes, 2 * |bytes|);
    var packed := PairPacked(cells, 0, |bytes|);
    forall j | 0 <= j < |bytes|
      ensures packed[j] == bytes[j]
    {
      assert cells[2 * j] == Hi(bytes[j]);
      assert cells[2 * j + 1] == Lo(bytes[j]);
      PackSplit(bytes[j]);
    }
  }

  /** Unpacking the pairwise packing of 4-bit cells gives the cells back. */
  lemma UnpackedPairPacked(cells: seq<byte>, n: nat)
    requires |cells| == 2 * n && Nibbles(cells)
    ensures Unpacked(PairPacked(cells, 0, n), 2 * n) == cells
  {
    var bytes := PairPacked(cells, 0, n);
    var r := Unpacked(bytes, 2 * n);
    forall k | 0 <= k < 2 * n
      ensures r[k] == cells[k]
    {
      var j := k / 2;
      assert bytes[j] == PackByte(cells[2 * j], cells[2 * j + 1]);
      PackNibbles(cells[2 * j], cells[2 * j + 1]);
    }
  }

  /** `Load` after `Save` restores every cell of a sprite that is not 1x1,
      has an even pitch and holds only 4-bit indices. */
  lemma LoadAfterSave(v: SpriteValue)
    requires Codable(v) && Nibbles(v.pixels)
    requires !IsSingle(v.width, v.height) && v.pitch % 2 == 0
    ensures |Save(v)| == LoadSize(v.width, v.height, v.pitch)
    ensures Loaded(v, Save(v)) == v
  {
    var n := v.height * RowBytes(v.pitch);
    EvenArea(v.width, v.height, v.pitch);
    PackedRowsEven(v.pixels, v.pitch, v.height);
    UnpackedPairPacked(v.pixels, n);
  }

  /** A non-empty 1x1 sprite is saved as its cell shifted into the high
      nibble: the low nibble of the byte is always 0. */
  lemma SingleSave(v: SpriteValue)
    requires Codable(v) && IsSingle(v.width, v.height)
    ensures |Save(v)| == 1
    ensures v.isEmpty ==> Save(v) == [EmptyMarker]
    ensures !v.isEmpty ==> Lo(Save(v)[0]) == 0 && (v.pixels[0] <= 15 ==> Hi(Save(v)[0]) == v.pixels[0])
  {
    if !v.isEmpty {
      var p := v.pixels[0];
      assert (p as int * 16) % 0x100 == 16 * (p % 16);
    }
  }

  /** On a 1x1 sprite `Save` after `Load` reproduces the byte exactly when
      it is the empty marker or has a zero low nibble. */
  lemma SingleSaveAfterLoad(v: SpriteValue, b: byte)
    requires Codable(v) && IsSingle(v.width, v.height) && !v.isEmpty
    ensures Save(Loaded(v, [b])) == [b] <==> (b == EmptyMarker || Lo(b) == 0)
  {
    var r := Loaded(v, [b]);
    if b != EmptyMarker {
      assert r.pixels[0] == Hi(b);
      assert SingleByte(Hi(b)) == 16 * (b / 16);
    }
  }

  /** `Load` after `Save` restores a 1x1 sprite whose cell is a 4-bit index
      (transparent when it is flagged empty). */
  lemma SingleLoadAfterSave(v: SpriteValue)
    requires Codable(v) && IsSingle(v.width, v.height) && v.pixels[0] <= 15
    requires v.isEmpty ==> v.pixels[0] == TransparentPixel
    ensures Loaded(v, Save(v)) == v
  {
    if !v.isEmpty {
      var p := v.pixels[0];
      assert SingleByte(p) == 16 * p;
      assert Hi(16 * p) == p;
      assert v.pixels[0 := p] == v.pixels;
    } else {
      assert v.pixels[0 := TransparentPixel] == v.pixels;
    }
  }

  /** `Load` of the empty marker flags a 1x1 sprite empty and makes its cell
      transparent; any other byte leaves the flag alone and keeps only the
      high nibble. */
  lemma SingleLoad(v: SpriteValue, b: byte)
    requires Codable(v) && IsSingle(v.width, v.height)
    ensures Loaded(v, [b]).isEmpty == (v.isEmpty || b == EmptyMarker)
    ensures Loaded(v, [b]).pixels[0] == if b == EmptyMarker then TransparentPixel else b / 16
    ensures forall k :: 1 <= k < |v.pixels| ==> Loaded(v, [b]).pixels[k] == v.pixels[k]
  {
  }

  /** The empty sprite is saved as the single byte 0xFF. */
  lemma SaveEmpty()
    ensures Save(EmptyValue()) == [0xFF]
  {
  }
}
