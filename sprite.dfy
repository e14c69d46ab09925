/** One sprite as the tool holds it in memory: fixed dimensions, a pixel
    buffer updated in place and an empty flag. Every method is proved
    against the value-level format in module SpriteFormat. The reader is an
    input sequence with a cursor; the writer is an output sequence that
    `Save` appends to. */
module Sprites {
  import opened Common
  import opened SpriteFormat

  datatype ReadError = EndOfStream

  /** Cell `(x, y)` lies inside a `pitch` x `height` buffer. */
  predicate InCell(x: int, y: int, pitch: int, height: int) {
    0 <= x < pitch && 0 <= y < height
  }

  /** The row-major index of cell `(x, y)` lies inside the buffer. */
  lemma CellIndex(x: int, y: int, pitch: nat, height: nat)
    requires InCell(x, y, pitch, height)
    ensures 0 <= y * pitch + x < pitch * height
  {
    RowFits(y, height, pitch);
  }

  /** Distinct cells have distinct row-major indices. */
  lemma CellIndexInjective(x: int, y: int, x': int, y': int, pitch: nat, height: nat)
    requires InCell(x, y, pitch, height) && InCell(x', y', pitch, height)
    requires y * pitch + x == y' * pitch + x'
    ensures x == x' && y == y'
  {
    if y < y' {
      RowFits(y, y', pitch);
      assert false;
    } else if y' < y {
      RowFits(y', y, pitch);
      assert false;
    }
  }

  class Sprite {
    const Width: u16
    const Height: u16
    const Pitch: u16
    const pixels: array<byte>
    var IsEmptySprite: bool

    ghost predicate Valid() {
      pixels.Length == Pitch * Height
    }

    /** The state of this sprite as a value. */
    ghost function Value(): SpriteValue
      reads this, pixels
    {
      SpriteValue(Width, Height, Pitch, pixels[..], IsEmptySprite)
    }

    /** A new sprite has `pitch * height` cells, all transparent, and is not empty. */
    constructor (width: u16, height: u16, pitch: u16)
      ensures Valid() && fresh(pixels)
      ensures Value() == Blank(width, height, pitch)
    {
      Width := width;
      Height := height;
      Pitch := pitch;
      var cells := new byte[pitch * height];
      for i := 0 to cells.Length
        invariant forall j :: 0 <= j < i ==> cells[j] == TransparentPixel
      {
        cells[i] := TransparentPixel;
      }
      pixels := cells;
      IsEmptySprite := false;
    }

    /** Reads this sprite's body from `data` at `pos`. On success the cursor
        has advanced by exactly `LoadSize` bytes and the state is `Loaded`
        of the old state and those bytes; the read fails exactly when fewer
        bytes remain. */
    method Load(data: seq<byte>, pos: nat) returns (r: Result<nat, ReadError>)
      requires Valid() && (IsSingle(Width, Height) ==> Pitch >= 1) && pos <= |data|
      modifies this, pixels
      ensures Valid()
      ensures r.Ok? <==> pos + LoadSize(Width, Height, Pitch) <= |data|
      ensures r.Ok? ==> r.value == pos + LoadSize(Width, Height, Pitch)
      ensures r.Ok? ==> Value() == Loaded(old(Value()), data[pos..r.value])
    {
      if Width == 1 && Height == 1 {
        if pos >= |data| {
          return Err(EndOfStream);
        }
        var value := data[pos];
        if value == 0xFF {
          IsEmptySprite := true;
          pixels[0] := TransparentPixel;
        } else {
          pixels[0] := value / 16;
        }
        assert data[pos..pos + 1] == [value];
        return Ok(pos + 1);
      }

      var hasReadByte := false;
      var currentDataByte: byte := 0;
      var cursor := pos;
      var n := Pitch * Height;
      for i := 0 to n
        invariant cursor == pos + (i + 1) / 2 && cursor <= |data|
        invariant hasReadByte <==> i % 2 == 1
        invariant hasReadByte ==> currentDataByte == data[cursor - 1]
        invariant forall k :: 0 <= k < i ==>
          pixels[k] == if k % 2 == 0 then Hi(data[pos + k / 2]) else Lo(data[pos + k / 2])
        invariant IsEmptySprite == old(IsEmptySprite)
      {
        if !hasReadByte {
          if cursor >= |data| {
            return Err(EndOfStream);
          }
          currentDataByte := data[cursor];
          cursor := cursor + 1;
          hasReadByte := true;
          pixels[i] := currentDataByte / 16;
        } else {
          hasReadByte := false;
          pixels[i] := currentDataByte % 16;
        }
      }
      assert cursor == pos + LoadSize(Width, Height, Pitch);
      assert pixels[..] == Unpacked(data[pos..cursor], n);
      return Ok(cursor);
    }

    /** Appends this sprite's body to `writer`: exactly `Save` of its state. */
    method Save(writer: seq<byte>) returns (written: seq<byte>)
      requires Valid() && (IsSingle(Width, Height) ==> Pitch >= 1)
      ensures written == writer + SpriteFormat.Save(Value())
    {
      if IsEmptySprite && Width == 1 && Height == 1 {
        return writer + [0xFF];
      }
      if Width == 1 && Height == 1 && !IsEmptySprite {
        return writer + [(pixels[0] as int * 16) % 0x100];
      }
      written := SaveRows(writer);
    }

    /** The general path of `Save`: every row in order. */
    method SaveRows(writer: seq<byte>) returns (written: seq<byte>)
      requires Valid()
      ensures written == writer + PackedRows(pixels[..], Pitch, Height)
    {
      written := writer;
      for y := 0 to Height
        invariant y * Pitch <= pixels.Length
        invariant written == writer + PackedRows(pixels[..], Pitch, y)
      {
        RowFits(y, Height, Pitch);
        var rowStart := y * Pitch;
        written := SaveRow(written, rowStart);
        RowsStep(pixels[..], Pitch, y);
      }
    }

    /** One row of `Save`: columns in steps of two, one byte per step, the
        transparent sentinel standing in past the last column. */
    method SaveRow(writer: seq<byte>, rowStart: nat) returns (written: seq<byte>)
      requires Valid() && rowStart + Pitch <= pixels.Length
      ensures written == writer + PackedRow(pixels[..], rowStart, Pitch)
    {
      ghost var row := PackedRow(pixels[..], rowStart, Pitch);
      written := writer;
      var x := 0;
      ghost var n := 0;
      while x < Pitch
        invariant x == 2 * n && n <= RowBytes(Pitch)
        invariant written == writer + row[..n]
      {
        assert row[..n + 1] == row[..n] + [row[n]];
        var pixelIdx := rowStart + x;
        var highNibble := pixels[pixelIdx];
        var lowNibble := if x + 1 < Pitch then pixels[pixelIdx + 1] else TransparentPixel;
        written := written + [PackByte(highNibble, lowNibble)];
        x := x + 2;
        n := n + 1;
      }
      assert row[..n] == row;
    }

    /** The cell at `(x, y)`, or 0 outside `[0, Pitch) x [0, Height)`. */
    function GetPixel(x: int, y: int): (r: byte)
      reads this, pixels
      requires Valid()
      ensures !InCell(x, y, Pitch, Height) ==> r == 0
      ensures InCell(x, y, Pitch, Height) ==> 0 <= y * Pitch + x < pixels.Length && r == pixels[y * Pitch + x]
    {
      if 0 <= x < Pitch && 0 <= y < Height then
        CellIndex(x, y, Pitch, Height);
        pixels[y * Pitch + x]
      else 0
    }

    /** Writes cell `(x, y)` if it is inside the buffer and otherwise does
        nothing; no other cell changes. */
    method SetPixel(x: int, y: int, value: byte)
      requires Valid()
      modifies pixels
      ensures Valid()
      ensures InCell(x, y, Pitch, Height) ==> 0 <= y * Pitch + x < pixels.Length
      ensures pixels[..] == if InCell(x, y, Pitch, Height) then old(pixels[..])[y * Pitch + x := value] else old(pixels[..])
      ensures GetPixel(x, y) == if InCell(x, y, Pitch, Height) then value else 0
      ensures forall x', y' :: (x' != x || y' != y) ==> GetPixel(x', y') == old(GetPixel(x', y'))
    {
      if 0 <= x < Pitch && 0 <= y < Height {
        CellIndex(x, y, Pitch, Height);
        pixels[y * Pitch + x] := value;
        forall x', y' | (x' != x || y' != y) && InCell(x', y', Pitch, Height)
          ensures y' * Pitch + x' != y * Pitch + x
        {
          if y' * Pitch + x' == y * Pitch + x {
            CellIndexInjective(x, y, x', y', Pitch, Height);
          }
        }
      }
    }

    /** A 1x1 sprite of pitch 1 flagged empty; its body is the single byte 0xFF. */
    static method CreateEmpty() returns (s: Sprite)
      ensures fresh(s) && fresh(s.pixels) && s.Valid()
      ensures s.Value() == EmptyValue()
      ensures SpriteFormat.Save(s.Value()) == [0xFF]
    {
      s := new Sprite(1, 1, 1);
      s.IsEmptySprite := true;
    }
  }
}
