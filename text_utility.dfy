/** The byte-level helpers of the text tool: little-endian 16-bit values and
    the two character encodings of a table entry. A reader is an input
    sequence with a position; a writer is an output sequence. */
module TextUtility {
  import opened Common

  datatype ReadError = EndOfData

  /** The 16-bit value stored little-endian at `pos`, the low byte first. It
      fails when fewer than two bytes remain. `ReadUInt16LEIsBitwise` shows
      the value equals the bitwise form `b0 | (b1 << 8)`. */
  function ReadUInt16LE(data: seq<byte>, pos: nat): (r: Result<u16, ReadError>)
    ensures r.Ok? <==> pos + 2 <= |data|
  {
    if pos + 2 > |data| then Err(EndOfData)
    else Ok(data[pos] as int + 0x100 * (data[pos + 1] as int))
  }

  lemma ReadUInt16LEIsBitwise(data: seq<byte>, pos: nat)
    requires pos + 2 <= |data|
    ensures ReadUInt16LE(data, pos) == Ok(ToU16(BitOr(data[pos], Shl(data[pos + 1], 8))))
  {
    OrShifted(data[pos], data[pos + 1]);
  }

  /** The low byte, then the high byte, of `value`: `value & 0xFF` and
      `(value >> 8) & 0xFF`, masking being the remainder by 0x100. */
  function WriteUInt16LE(value: u16): (r: seq<byte>)
    ensures |r| == 2
  {
    [ToByte(value % 0x100), ToByte((value / 0x100) % 0x100)]
  }

  /** A byte ORed with another shifted left by 8 is their base-256 sum. */
  lemma OrShifted(lo: byte, hi: byte)
    ensures BitOr(lo, Shl(hi, 8)) == lo as int + 0x100 * hi
    ensures BitOr(Shl(hi, 8), lo) == lo as int + 0x100 * hi
  {
    assert Pow2(8) == 0x100;
    ShlIsProduct(hi, 8);
    BitOrDisjoint(lo, hi, 8);
  }

  /** Reading back the two bytes written for `value` gives `value`, wherever
      they sit in the stream. */
  lemma ReadAfterWrite(prefix: seq<byte>, value: u16, suffix: seq<byte>)
    ensures ReadUInt16LE(prefix + WriteUInt16LE(value) + suffix, |prefix|) == Ok(value)
  {
    var data := prefix + WriteUInt16LE(value) + suffix;
    ByteJoin(value);
    assert data[|prefix|] == value % 0x100 && data[|prefix| + 1] == (value / 0x100) % 0x100;
  }

  /** A 16-bit value is its low byte plus 0x100 times its high byte. */
  lemma ByteJoin(value: u16)
    ensures value % 0x100 + 0x100 * ((value / 0x100) % 0x100) == value
  {
    var q := value / 0x100;
    assert q < 0x100;
    assert q % 0x100 == q;
  }

  /** Writing the value read from two bytes reproduces those bytes. */
  lemma WriteAfterRead(data: seq<byte>, pos: nat)
    requires pos + 2 <= |data|
    ensures WriteUInt16LE(ReadUInt16LE(data, pos).value) == data[pos..pos + 2]
  {
    ByteSplit(data[pos], data[pos + 1]);
  }

  /** The low and high bytes of `lo + 0x100 * hi`. */
  lemma ByteSplit(lo: byte, hi: byte)
    ensures (lo as int + 0x100 * hi) % 0x100 == lo
    ensures ((lo as int + 0x100 * hi) / 0x100) % 0x100 == hi
  {
  }

  /** The character of a two-byte unit: the lead byte is its high byte and
      the second byte its low byte. It is at least 0x8000 when the lead byte
      has its high bit set. */
  function MultibyteChar(b: byte, b2: byte): (c: char16)
    ensures b >= 0x80 ==> c >= 0x8000
  {
    0x100 * (b as int) + b2
  }

  /** `MultibyteChar` is the bitwise `(char)((b << 8) | b2)`. */
  lemma MultibyteCharIsBitwise(b: byte, b2: byte)
    ensures MultibyteChar(b, b2) == ToU16(BitOr(Shl(b, 8), b2))
  {
    OrShifted(b2, b);
  }

  /** The lead byte of a wide character: the character's high byte with its
      top bit forced on, so always at least 0x80. */
  function LeadByte(c: char16): (b: byte)
    ensures b >= 0x80
  {
    0x80 + (c / 0x100) % 0x80
  }

  /** `LeadByte` is the bitwise `(byte)(((c >> 8) & 0xFF) | 0x80)`. */
  lemma LeadByteIsBitwise(c: char16)
    ensures LeadByte(c) == ToByte(BitOr((c / 0x100) % 0x100, 0x80))
  {
    HighByte(c);
    LeadBits((c / 0x100) % 0x100);
  }

  lemma HighByte(c: char16)
    ensures c / 0x100 < 0x100 && (c / 0x100) % 0x100 == c / 0x100
  {
  }

  lemma LeadBits(x: byte)
    ensures BitOr(x, 0x80) == 0x80 + x % 0x80
  {
    var l, h := x % 0x80, x / 0x80;
    assert Pow2(7) == 0x80 && Shl(1, 7) == 0x80;
    ShlIsProduct(h, 7);
    BitOrSplit(l, h, 1, 7);
    assert x == l + Shl(h, 7);
    assert BitOr(h, 1) == 1;
  }

  /** The bytes of one character. Single-byte mode keeps its low 8 bits.
      Multibyte mode keeps a character up to 127 as one byte and writes any
      other as its lead byte and its low byte. */
  function EncodeChar(c: char16, useMultibyte: bool): (r: seq<byte>)
    ensures |r| == if useMultibyte && c > 127 then 2 else 1
  {
    if useMultibyte && c > 127 then [LeadByte(c), ToByte(c % 0x100)]
    else [ToByte(c)]
  }

  /** `EncodeString` of a text: its characters' bytes in order. */
  function EncodeChars(text: Text, useMultibyte: bool): seq<byte>
    decreases |text|
  {
    if |text| == 0 then [] else EncodeChar(text[0], useMultibyte) + EncodeChars(text[1..], useMultibyte)
  }

  /** The text `ReadString` builds from the bytes it takes. Single-byte mode
      gives one character per byte. Multibyte mode reads a byte with its
      high bit set together with the next byte as one wide character, unless
      it is the last byte, which is kept alone like any other byte. */
  function DecodeBytes(bytes: seq<byte>, useMultibyte: bool): Text
    decreases |bytes|
  {
    if |bytes| == 0 then []
    else if useMultibyte && bytes[0] >= 0x80 && |bytes| >= 2 then
      [MultibyteChar(bytes[0], bytes[1])] + DecodeBytes(bytes[2..], useMultibyte)
    else [bytes[0]] + DecodeBytes(bytes[1..], useMultibyte)
  }

  function Min(a: int, b: int): int {
    if a <= b then a else b
  }

  /** The bytes `ReadString` consumes at `pos` for a requested `length`:
      the request is cut down to the bytes that remain, and nothing is read
      from a position at or past the end. */
  function Clamped(data: seq<byte>, pos: nat, length: int): (r: seq<byte>)
    ensures |r| == if pos >= |data| || length <= 0 then 0 else Min(length, |data| - pos)
    ensures pos + |r| <= |data| || |r| == 0
    ensures pos + |r| <= |data| ==> r == data[pos..pos + |r|]
  {
    if pos >= |data| || length <= 0 then [] else data[pos..pos + Min(length, |data| - pos)]
  }

  /** `ReadString`: consumes exactly the clamped bytes and decodes them. */
  method ReadString(data: seq<byte>, pos: nat, length: int, useMultibyte: bool) returns (str: Text, newPos: nat)
    ensures newPos == pos + |Clamped(data, pos, length)|
    ensures str == DecodeBytes(Clamped(data, pos, length), useMultibyte)
  {
    var len := length;
    var bytesAvailable := |data| - pos;
    if len > bytesAvailable {
      len := bytesAvailable;
    }
    assert Clamped(data, pos, length) == Clamped(data, pos, len);
    if useMultibyte {
      str, newPos := ReadMultibyte(data, pos, len);
    } else {
      str, newPos := ReadSingle(data, pos, len);
    }
  }

  /** The multibyte read loop of `ReadString`, once `len` is cut down to the
      bytes available: a lead byte with its high bit set that is not the
      last of the `len` bytes takes the next byte with it. */
  method ReadMultibyte(data: seq<byte>, pos: nat, len: int) returns (str: Text, newPos: nat)
    requires len <= |data| - pos
    ensures newPos == pos + |Clamped(data, pos, len)|
    ensures str == DecodeBytes(Clamped(data, pos, len), true)
  {
    ghost var bytes := Clamped(data, pos, len);
    ghost var n := if len <= 0 then 0 else len;
    assert |bytes| == n;
    str := [];
    newPos := pos;
    var i := 0;
    while i < len
      invariant i <= n
      invariant newPos == pos + i
      invariant str + DecodeBytes(bytes[i..], true) == DecodeBytes(bytes, true)
    {
      if newPos >= |data| {
        break;
      }
      DecodeStep(bytes, i, true);
      assert bytes[i] == data[newPos];
      var b := data[newPos];
      newPos := newPos + 1;
      if b >= 0x80 {
        if i < len - 1 && newPos < |data| {
          assert bytes[i + 1] == data[newPos];
          var b2 := data[newPos];
          newPos := newPos + 1;
          Regroup(str, [MultibyteChar(b, b2)], DecodeBytes(bytes[i + 2..], true));
          str := str + [MultibyteChar(b, b2)];
          i := i + 1;
        } else {
          Regroup(str, [b], DecodeBytes(bytes[i + 1..], true));
          str := str + [b];
        }
      } else {
        Regroup(str, [b], DecodeBytes(bytes[i + 1..], true));
        str := str + [b];
      }
      i := i + 1;
    }
  }

  /** The single-byte read loop of `ReadString`: one character per byte. */
  method ReadSingle(data: seq<byte>, pos: nat, len: int) returns (str: Text, newPos: nat)
    requires len <= |data| - pos
    ensures newPos == pos + |Clamped(data, pos, len)|
    ensures str == DecodeBytes(Clamped(data, pos, len), false)
  {
    ghost var bytes := Clamped(data, pos, len);
    ghost var n := if len <= 0 then 0 else len;
    assert |bytes| == n;
    str := [];
    newPos := pos;
    var i := 0;
    while i < len
      invariant i <= n
      invariant newPos == pos + i
      invariant str + DecodeBytes(bytes[i..], false) == DecodeBytes(bytes, false)
    {
      if newPos >= |data| {
        break;
      }
      DecodeStep(bytes, i, false);
      assert bytes[i] == data[newPos];
      Regroup(str, [data[newPos]], DecodeBytes(bytes[i + 1..], false));
      str := str + [data[newPos]];
      newPos := newPos + 1;
      i := i + 1;
    }
  }

  lemma Regroup(a: Text, b: Text, c: Text)
    ensures a + (b + c) == (a + b) + c
  {
  }

  /** One step of decoding from index `i`. */
  lemma DecodeStep(bytes: seq<byte>, i: nat, useMultibyte: bool)
    requires i < |bytes|
    ensures DecodeBytes(bytes[i..], useMultibyte) ==
      if useMultibyte && bytes[i] >= 0x80 && i + 1 < |bytes|
      then [MultibyteChar(bytes[i], bytes[i + 1])] + DecodeBytes(bytes[i + 2..], useMultibyte)
      else [bytes[i]] + DecodeBytes(bytes[i + 1..], useMultibyte)
  {
    var rest := bytes[i..];
    assert rest[1..] == bytes[i + 1..];
    if i + 1 < |bytes| {
      assert rest[2..] == bytes[i + 2..];
    }
  }

  /** `EncodeString`: the multibyte branch appends each character's bytes
      in a loop; the single-byte branch maps every character to a byte. */
  method EncodeString(text: Text, useMultibyte: bool) returns (bytes: seq<byte>)
    ensures bytes == EncodeChars(text, useMultibyte)
  {
    if useMultibyte {
      bytes := [];
      for i := 0 to |text|
        invariant bytes == EncodeChars(text[..i], true)
      {
        var c := text[i];
        if c > 127 {
          bytes := bytes + [LeadByte(c), ToByte(c % 0x100)];
        } else {
          bytes := bytes + [ToByte(c)];
        }
        assert text[..i + 1] == text[..i] + [c];
        EncodeCharsAppend(text[..i], [c], true);
      }
      assert text[..|text|] == text;
    } else {
      bytes := seq(|text|, i requires 0 <= i < |text| => ToByte(text[i]));
      EncodeSingle(text);
    }
  }

  /** Encoding distributes over concatenation. */
  lemma {:induction false} EncodeCharsAppend(a: Text, b: Text, useMultibyte: bool)
    ensures EncodeChars(a + b, useMultibyte) == EncodeChars(a, useMultibyte) + EncodeChars(b, useMultibyte)
    decreases |a|
  {
    if |a| > 0 {
      assert (a + b)[1..] == a[1..] + b;
      EncodeCharsAppend(a[1..], b, useMultibyte);
    } else {
      assert a + b == b;
    }
  }

  /** Single-byte encoding gives one byte per character: its low 8 bits. */
  lemma {:induction false} EncodeSingle(text: Text)
    ensures EncodeChars(text, false) == seq(|text|, i requires 0 <= i < |text| => ToByte(text[i]))
    decreases |text|
  {
    if |text| > 0 {
      EncodeSingle(text[1..]);
    }
  }

  /** Number of characters above 127: those multibyte mode writes as two bytes. */
  function Wide(text: Text): nat
    decreases |text|
  {
    if |text| == 0 then 0 else (if text[0] > 127 then 1 else 0) + Wide(text[1..])
  }

  /** The encoded length is one byte per character, plus one per wide
      character in multibyte mode. */
  lemma {:induction false} EncodeLength(text: Text, useMultibyte: bool)
    ensures |EncodeChars(text, useMultibyte)| == |text| + if useMultibyte then Wide(text) else 0
    decreases |text|
  {
    if |text| > 0 {
      EncodeLength(text[1..], useMultibyte);
    }
  }

  /** Single-byte decoding gives one character per byte, equal to the byte. */
  lemma {:induction false} DecodeSingle(bytes: seq<byte>)
    ensures DecodeBytes(bytes, false) == seq(|bytes|, i requires 0 <= i < |bytes| => bytes[i] as char16)
    decreases |bytes|
  {
    if |bytes| > 0 {
      DecodeSingle(bytes[1..]);
    }
  }

  /** What a character becomes after encoding and decoding: its low 8 bits
      in single-byte mode; in multibyte mode itself up to 127 and otherwise
      itself with bit 15 set (`c | 0x8000`). */
  function RoundTripChar(c: char16, useMultibyte: bool): char16 {
    if !useMultibyte then c % 0x100
    else if c <= 127 then c
    else 0x8000 + c % 0x8000
  }

  /** The characters of `text` mapped by `RoundTripChar`. */
  function RoundTripText(text: Text, useMultibyte: bool): (r: Text)
    ensures |r| == |text|
  {
    seq(|text|, i requires 0 <= i < |text| => RoundTripChar(text[i], useMultibyte))
  }

  /** One character's bytes decode to `RoundTripChar`, whatever follows. */
  lemma DecodeEncodeChar(c: char16, rest: seq<byte>, useMultibyte: bool)
    ensures DecodeBytes(EncodeChar(c, useMultibyte) + rest, useMultibyte) ==
      [RoundTripChar(c, useMultibyte)] + DecodeBytes(rest, useMultibyte)
  {
    var e := EncodeChar(c, useMultibyte) + rest;
    if useMultibyte && c > 127 {
      assert e[2..] == rest;
      WideSplit(c);
    } else {
      assert e[1..] == rest;
    }
  }

  /** The lead and low bytes of a wide character rejoin to it with bit 15 set. */
  lemma WideSplit(c: char16)
    ensures 0x100 * (0x80 + (c / 0x100) % 0x80) + c % 0x100 == 0x8000 + c % 0x8000
  {
    var q, r := c / 0x100, c % 0x100;
    assert c == 0x100 * q + r;
    var q1, q0 := q / 0x80, q % 0x80;
    assert q == 0x80 * q1 + q0;
    assert c == 0x8000 * q1 + (0x100 * q0 + r);
    assert 0x100 * q0 + r < 0x8000;
  }

  /** A character survives the round trip exactly when it fits the mode: at
      most 0xFF in single-byte mode; at most 127 or at least 0x8000 in
      multibyte mode. */
  lemma RoundTripFixed(c: char16, useMultibyte: bool)
    ensures RoundTripChar(c, useMultibyte) == c <==>
      if useMultibyte then c <= 127 || c >= 0x8000 else c <= 0xFF
  {
    if useMultibyte && c > 127 {
      assert c >= 0x8000 ==> c % 0x8000 == c - 0x8000;
      assert c < 0x8000 ==> c % 0x8000 == c;
    }
  }

  /** Decoding an encoded text gives `RoundTripText` of it, in both modes. */
  lemma {:induction false} DecodeEncode(text: Text, useMultibyte: bool)
    ensures DecodeBytes(EncodeChars(text, useMultibyte), useMultibyte) == RoundTripText(text, useMultibyte)
    decreases |text|
  {
    if |text| > 0 {
      DecodeEncode(text[1..], useMultibyte);
      DecodeEncodeChar(text[0], EncodeChars(text[1..], useMultibyte), useMultibyte);
      assert RoundTripText(text, useMultibyte) == [RoundTripChar(text[0], useMultibyte)] + RoundTripText(text[1..], useMultibyte);
    }
  }

  /** Multibyte encoding round-trips a text exactly when each of its
      characters is at most 127 or at least 0x8000. */
  lemma MultibyteExact(text: Text)
    ensures DecodeBytes(EncodeChars(text, true), true) == text <==>
      forall i :: 0 <= i < |text| ==> text[i] <= 127 || text[i] >= 0x8000
  {
    DecodeEncode(text, true);
    if forall i :: 0 <= i < |text| ==> text[i] <= 127 || text[i] >= 0x8000 {
      forall i | 0 <= i < |text|
        ensures RoundTripText(text, true)[i] == text[i]
      {
        RoundTripFixed(text[i], true);
      }
      assert RoundTripText(text, true) == text;
    } else {
      var i :| 0 <= i < |text| && !(text[i] <= 127 || text[i] >= 0x8000);
      RoundTripFixed(text[i], true);
      assert RoundTripText(text, true)[i] != text[i];
    }
  }

  /** Single-byte encoding round-trips a text exactly when all of its
      characters are at most 0xFF. */
  lemma SingleExact(text: Text)
    ensures DecodeBytes(EncodeChars(text, false), false) == text <==>
      forall i :: 0 <= i < |text| ==> text[i] <= 0xFF
  {
    DecodeEncode(text, false);
    if forall i :: 0 <= i < |text| ==> text[i] <= 0xFF {
      forall i | 0 <= i < |text|
        ensures RoundTripText(text, false)[i] == text[i]
      {
        RoundTripFixed(text[i], false);
      }
      assert RoundTripText(text, false) == text;
    } else {
      var i :| 0 <= i < |text| && text[i] > 0xFF;
      RoundTripFixed(text[i], false);
      assert RoundTripText(text, false)[i] != text[i];
    }
  }

  /** U+3042 encodes to `B0 42`, which decodes to 0xB042, not back to 0x3042. */
  lemma WideCharExample()
    ensures EncodeChars([0x3042], true) == [0xB0, 0x42]
    ensures DecodeBytes([0xB0, 0x42], true) == [0xB042]
  {
    var c: char16 := 0x3042;
    assert c / 0x100 == 0x30 && c % 0x100 == 0x42;
    var lead := LeadByte(c);
    assert EncodeChars([c], true) == [lead, 0x42] + EncodeChars([], true);
    var bytes: seq<byte> := [0xB0, 0x42];
    assert bytes[2..] == [];
    assert MultibyteChar(0xB0, 0x42) == 0xB042;
  }
}
