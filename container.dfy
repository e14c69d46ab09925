/** The 96-slot sprite container: a 192-byte header of (width, height) byte
    pairs, then the sprite bodies back to back in slot order, each as long
    as its own dimensions say. `Decode` and `Encode` describe the format on
    values; `Extract` and `Rebuild` are the tool's two loops over it. */
module SpriteContainer {
  import opened Common
  import opened SpriteFormat
  import opened Sprites

  /** Size of the fixed header: 96 (width, height) pairs. */
  const HeaderSize: nat := 0xC0

  /** Number of slots in a non-empty container. */
  const SlotCount: nat := 0xC0 / 2

  datatype ContainerError =
    | Truncated        // the input ended inside the header or a body
    | NoInputSprites   // rebuild was given no sprite at all

  /** `width + (width & 1)`: the width rounded up to even. */
  function PitchFor(width: byte): (p: u16)
    ensures p % 2 == 0 && p >= width && p <= width + 1
  {
    width + width % 2
  }

  /** The body size of a slot, from its header pair alone. */
  function SlotSize(width: byte, height: byte): nat {
    LoadSize(width, height, PitchFor(width))
  }

  /** The body sizes the 96 header pairs announce. */
  function SlotSizes(data: seq<byte>): (sizes: seq<nat>)
    requires |data| >= HeaderSize
    ensures |sizes| == SlotCount
  {
    seq(SlotCount, j requires 0 <= j < SlotCount => SlotSize(data[2 * j], data[2 * j + 1]))
  }

  /** Where the body of slot `i` starts: right after the header and the
      bodies of all earlier slots. */
  function BodyStart(data: seq<byte>, i: nat): nat
    requires |data| >= HeaderSize && i <= SlotCount
  {
    HeaderSize + Sum(SlotSizes(data), i)
  }

  lemma BodyStartMonotone(data: seq<byte>, i: nat, j: nat)
    requires |data| >= HeaderSize && i <= j <= SlotCount
    ensures BodyStart(data, i) <= BodyStart(data, j)
  {
    SumMonotone(SlotSizes(data), i, j);
  }

  /** Body `i` ends where body `i + 1` starts: its size after its start. */
  lemma SlotEnd(data: seq<byte>, i: nat)
    requires |data| >= HeaderSize && i < SlotCount
    ensures BodyStart(data, i + 1) == BodyStart(data, i) + SlotSize(data[2 * i], data[2 * i + 1])
  {
  }

  /** The body of slot `i` lies inside the input. */
  predicate SlotFits(data: seq<byte>, i: nat)
    requires |data| >= HeaderSize && i < SlotCount
  {
    BodyStart(data, i + 1) <= |data|
  }

  /** The sprite in slot `i`: a fresh sprite of the header's dimensions
      after `Load` of its body. */
  function SlotValue(data: seq<byte>, i: nat): SpriteValue
    requires |data| >= HeaderSize && i < SlotCount && SlotFits(data, i)
  {
    var w := data[2 * i];
    var h := data[2 * i + 1];
    Loaded(Blank(w, h, PitchFor(w)), data[BodyStart(data, i)..BodyStart(data, i + 1)])
  }

  /** Decoding a container: no slot for an empty input, otherwise 96 slots
      or a truncation error, which happens exactly when the input is shorter
      than the header and the bodies it announces. */
  function Decode(data: seq<byte>): (r: Result<seq<SpriteValue>, ContainerError>)
    ensures r.Ok? <==> |data| == 0 || (|data| >= HeaderSize && BodyStart(data, SlotCount) <= |data|)
    ensures r.Ok? ==> |r.value| == if |data| == 0 then 0 else SlotCount
  {
    if |data| == 0 then Ok([])
    else if |data| < HeaderSize || BodyStart(data, SlotCount) > |data| then Err(Truncated)
    else
      Ok(seq(SlotCount, i requires 0 <= i < SlotCount =>
        BodyStartMonotone(data, i + 1, SlotCount);
        SlotValue(data, i)))
  }

  /** Every decoded slot has the dimensions of its header pair, the even
      pitch derived from its width, and a buffer of `pitch * height` cells. */
  lemma DecodedSlot(data: seq<byte>, i: nat)
    requires Decode(data).Ok? && i < |Decode(data).value|
    ensures 2 * i + 1 < |data|
    ensures Codable(Decode(data).value[i])
    ensures Decode(data).value[i].width == data[2 * i]
    ensures Decode(data).value[i].height == data[2 * i + 1]
    ensures Decode(data).value[i].pitch == PitchFor(data[2 * i])
  {
    BodyStartMonotone(data, i + 1, SlotCount);
    assert Decode(data).value[i] == SlotValue(data, i);
  }

  /** One header pair: width and height cut to their low byte. */
  function HeaderPair(v: SpriteValue): seq<byte> {
    [ToByte(v.width), ToByte(v.height)]
  }

  function HeaderParts(vs: seq<SpriteValue>): (r: seq<seq<byte>>)
    ensures |r| == |vs| && forall i :: 0 <= i < |vs| ==> r[i] == HeaderPair(vs[i])
  {
    seq(|vs|, i requires 0 <= i < |vs| => HeaderPair(vs[i]))
  }

  predicate AllCodable(vs: seq<SpriteValue>) {
    forall i :: 0 <= i < |vs| ==> Codable(vs[i])
  }

  function BodyParts(vs: seq<SpriteValue>): (r: seq<seq<byte>>)
    requires AllCodable(vs)
    ensures |r| == |vs| && forall i :: 0 <= i < |vs| ==> r[i] == Save(vs[i])
  {
    seq(|vs|, i requires 0 <= i < |vs| => Save(vs[i]))
  }

  /** Encoding a container: every header pair first, then every body, in the
      same order; an empty list of sprites is an error. */
  function Encode(vs: seq<SpriteValue>): Result<seq<byte>, ContainerError>
    requires AllCodable(vs)
  {
    if |vs| == 0 then Err(NoInputSprites)
    else Ok(Flatten(HeaderParts(vs)) + Flatten(BodyParts(vs)))
  }

  /** The output holds `2 * count` header bytes, the pair of sprite `i` at
      `2i` and `2i + 1` with its dimensions cut to a byte, and then the
      bodies in order. */
  lemma EncodeLayout(vs: seq<SpriteValue>, i: nat)
    requires AllCodable(vs) && i < |vs|
    ensures Encode(vs).Ok?
    ensures |Encode(vs).value| == 2 * |vs| + |Flatten(BodyParts(vs))|
    ensures Encode(vs).value[2 * i] == vs[i].width % 0x100
    ensures Encode(vs).value[2 * i + 1] == vs[i].height % 0x100
    ensures Encode(vs).value[2 * |vs|..] == Flatten(BodyParts(vs))
  {
    var parts := HeaderParts(vs);
    FlattenUniformStart(parts, 2, i);
    FlattenUniformStart(parts, 2, |vs|);
    assert parts[..|vs|] == parts;
    FlattenSlice(parts, i);
    var h := Flatten(parts);
    assert h[2 * i..2 * i + 2] == HeaderPair(vs[i]);
    assert h[2 * i] == h[2 * i..2 * i + 2][0];
    assert h[2 * i + 1] == h[2 * i..2 * i + 2][1];
  }

  /** The conditions under which one sprite survives the container:
      dimensions that fit a byte, the pitch the decoder derives, 4-bit cells
      and no 1x1 special case. */
  predicate RestorableSprite(v: SpriteValue) {
    Codable(v) && v.width <= 0xFF && v.height <= 0xFF &&
    v.pitch == v.width + v.width % 2 &&
    Nibbles(v.pixels) && !IsSingle(v.width, v.height) && !v.isEmpty
  }

  /** A full container's worth of restorable sprites. */
  predicate Restorable(vs: seq<SpriteValue>) {
    |vs| == SlotCount && forall i :: 0 <= i < |vs| ==> RestorableSprite(vs[i])
  }

  /** The header of an encoding of restorable sprites holds their dimensions
      unchanged. */
  lemma HeaderOfEncoding(vs: seq<SpriteValue>, i: nat)
    requires Restorable(vs) && i < SlotCount
    ensures Encode(vs).Ok? && |Encode(vs).value| >= HeaderSize
    ensures Encode(vs).value[2 * i] == vs[i].width
    ensures Encode(vs).value[2 * i + 1] == vs[i].height
  {
    assert AllCodable(vs);
    assert vs[i].width <= 0xFF && vs[i].height <= 0xFF;
    EncodeLayout(vs, i);
  }

  /** The body size the decoder derives from the header of a restorable
      sprite is the length of its `Save` output. */
  lemma SlotSizeOfSave(v: SpriteValue)
    requires RestorableSprite(v)
    ensures SlotSize(v.width, v.height) == |Save(v)|
  {
    SaveLength(v);
  }

  /** The body size announced by a header pair that holds the dimensions of
      a restorable sprite is the length of its `Save` output. */
  lemma SlotSizeAt(data: seq<byte>, j: nat, v: SpriteValue)
    requires |data| >= HeaderSize && j < SlotCount && RestorableSprite(v)
    requires data[2 * j] == v.width && data[2 * j + 1] == v.height
    ensures SlotSizes(data)[j] == |Save(v)|
  {
    SlotSizeOfSave(v);
  }

  /** Header and bodies agree: each body run is as long as its header pair
      announces. */
  predicate Framed(data: seq<byte>, bodies: seq<seq<byte>>)
    requires |data| >= HeaderSize
  {
    |bodies| == SlotCount &&
    forall j :: 0 <= j < SlotCount ==> |bodies[j]| == SlotSizes(data)[j]
  }

  /** Loading the `Save` output of a restorable sprite into a fresh sprite
      of its header's dimensions restores it. */
  lemma ReloadFromHeader(v: SpriteValue)
    requires RestorableSprite(v)
    ensures Codable(Blank(v.width, v.height, PitchFor(v.width)))
    ensures |Save(v)| == LoadSize(v.width, v.height, PitchFor(v.width))
    ensures Loaded(Blank(v.width, v.height, PitchFor(v.width)), Save(v)) == v
  {
    var blank := Blank(v.width, v.height, PitchFor(v.width));
    LoadAfterSave(v);
    LoadedIgnoresCells(blank, v, Save(v));
  }

  /** Body `j` of the encoding of restorable sprites is as long as its
      header pair announces. */
  lemma FramedSlot(vs: seq<SpriteValue>, j: nat)
    requires Restorable(vs) && j < SlotCount
    ensures Encode(vs).Ok? && |Encode(vs).value| >= HeaderSize
    ensures |BodyParts(vs)[j]| == SlotSizes(Encode(vs).value)[j]
  {
    HeaderOfEncoding(vs, j);
    assert RestorableSprite(vs[j]);
    SlotSizeAt(Encode(vs).value, j, vs[j]);
  }

  /** The encoding of restorable sprites is framed by its own header. */
  lemma EncodingFramed(vs: seq<SpriteValue>)
    requires Restorable(vs)
    ensures Encode(vs).Ok? && |Encode(vs).value| >= HeaderSize
    ensures Encode(vs).value[HeaderSize..] == Flatten(BodyParts(vs))
    ensures Framed(Encode(vs).value, BodyParts(vs))
  {
    HeaderOfEncoding(vs, 0);
    EncodeLayout(vs, 0);
    assert 2 * |vs| == HeaderSize;
    FramedSlots(vs);
  }

  lemma FramedSlots(vs: seq<SpriteValue>)
    requires Restorable(vs)
    ensures Encode(vs).Ok? && |Encode(vs).value| >= HeaderSize
    ensures Framed(Encode(vs).value, BodyParts(vs))
  {
    HeaderOfEncoding(vs, 0);
    var data := Encode(vs).value;
    var bodies := BodyParts(vs);
    forall j | 0 <= j < SlotCount
      ensures |bodies[j]| == SlotSizes(data)[j]
    {
      FramedSlot(vs, j);
    }
  }

  /** In a framed input the decoder finds body `i` where it was written. */
  lemma BodyOfFramed(data: seq<byte>, bodies: seq<seq<byte>>, i: nat)
    requires |data| >= HeaderSize && Framed(data, bodies) && data[HeaderSize..] == Flatten(bodies)
    requires i < SlotCount
    ensures SlotFits(data, i) && data[BodyStart(data, i)..BodyStart(data, i + 1)] == bodies[i]
  {
    RunAt(data, HeaderSize, bodies, SlotSizes(data), i);
  }

  /** A slot whose header pair holds the dimensions of a restorable sprite
      and whose body is that sprite's `Save` output decodes to the sprite. */
  lemma SlotOfSave(data: seq<byte>, v: SpriteValue, i: nat)
    requires |data| >= HeaderSize && i < SlotCount && SlotFits(data, i) && RestorableSprite(v)
    requires data[2 * i] == v.width && data[2 * i + 1] == v.height
    requires data[BodyStart(data, i)..BodyStart(data, i + 1)] == Save(v)
    ensures SlotValue(data, i) == v
  {
    ReloadFromHeader(v);
  }

  /** Slot `i` of a framed input whose body `i` is `Save` of a restorable
      sprite with the header's dimensions decodes to that sprite. */
  lemma SlotOfFramed(data: seq<byte>, bodies: seq<seq<byte>>, v: SpriteValue, i: nat)
    requires |data| >= HeaderSize && Framed(data, bodies) && data[HeaderSize..] == Flatten(bodies)
    requires i < SlotCount && RestorableSprite(v) && bodies[i] == Save(v)
    requires data[2 * i] == v.width && data[2 * i + 1] == v.height
    ensures SlotFits(data, i) && SlotValue(data, i) == v
  {
    BodyOfFramed(data, bodies, i);
    SlotOfSave(data, v, i);
  }

  /** Slot `i` of the decoding of restorable sprites is sprite `i`. */
  lemma SlotOfEncoding(vs: seq<SpriteValue>, i: nat)
    requires Restorable(vs) && i < SlotCount
    ensures Encode(vs).Ok? && |Encode(vs).value| >= HeaderSize
    ensures SlotFits(Encode(vs).value, i)
    ensures SlotValue(Encode(vs).value, i) == vs[i]
  {
    EncodingFramed(vs);
    HeaderOfEncoding(vs, i);
    assert RestorableSprite(vs[i]);
    SlotOfFramed(Encode(vs).value, BodyParts(vs), vs[i], i);
  }

  /** An input whose every slot fits decodes to its slot values. */
  lemma DecodeAllSlots(data: seq<byte>, vs: seq<SpriteValue>)
    requires |data| >= HeaderSize && |vs| == SlotCount
    requires forall i :: 0 <= i < SlotCount ==> SlotFits(data, i) && SlotValue(data, i) == vs[i]
    ensures Decode(data) == Ok(vs)
  {
    assert SlotFits(data, SlotCount - 1);
    var r := Decode(data).value;
    assert forall i :: 0 <= i < SlotCount ==> r[i] == SlotValue(data, i);
    assert r == vs;
  }

  /** Decoding the encoding of 96 restorable sprites gives them back. */
  lemma RoundTrip(vs: seq<SpriteValue>)
    requires Restorable(vs)
    ensures Encode(vs).Ok? && Decode(Encode(vs).value) == Ok(vs)
  {
    HeaderOfEncoding(vs, 0);
    var data := Encode(vs).value;
    forall i | 0 <= i < SlotCount
      ensures SlotFits(data, i) && SlotValue(data, i) == vs[i]
    {
      SlotOfEncoding(vs, i);
    }
    DecodeAllSlots(data, vs);
  }

  /** The sprite list as values. */
  ghost function Values(sprites: seq<Sprite>): (vs: seq<SpriteValue>)
    reads set i | 0 <= i < |sprites| :: sprites[i]
    reads set i | 0 <= i < |sprites| :: sprites[i].pixels
    ensures |vs| == |sprites|
    ensures forall i :: 0 <= i < |sprites| ==> vs[i] == sprites[i].Value()
    decreases |sprites|
  {
    if sprites == [] then []
    else Values(sprites[..|sprites| - 1]) + [sprites[|sprites| - 1].Value()]
  }

  /** No two sprites share an object or a pixel buffer. */
  ghost predicate Distinct(sprites: seq<Sprite>) {
    forall j, k :: 0 <= j < k < |sprites| ==> sprites[j] != sprites[k] && sprites[j].pixels != sprites[k].pixels
  }

  /** Reads a container: the header loop creates every slot's sprite from
      its pair, then the body loop loads them in order from one cursor. An
      empty input has no slot, since both loops then run zero times. */
  method Extract(data: seq<byte>) returns (r: Result<seq<Sprite>, ContainerError>)
    ensures r.Ok? <==> Decode(data).Ok?
    ensures r.Ok? ==> |r.value| == |Decode(data).value|
    ensures r.Ok? ==> forall i :: 0 <= i < |r.value| ==>
      fresh(r.value[i]) && r.value[i].Valid() && r.value[i].Value() == Decode(data).value[i]
  {
    var spriteCount := if |data| > 0 then SlotCount else 0;
    if spriteCount == 0 {
      return Ok([]);
    }
    var headers := ReadHeaders(data);
    if headers.Err? {
      return Err(Truncated);
    }
    r := LoadBodies(data, headers.value);
    if r.Ok? {
      forall i | 0 <= i < SlotCount
        ensures r.value[i].Value() == Decode(data).value[i]
      {
        BodyStartMonotone(data, i + 1, SlotCount);
      }
    }
  }

  /** The header loop of `Extract`: one new transparent sprite per pair,
      with the pitch rounded up to even. */
  method ReadHeaders(data: seq<byte>) returns (r: Result<seq<Sprite>, ContainerError>)
    ensures r.Ok? <==> |data| >= HeaderSize
    ensures r.Ok? ==> |r.value| == SlotCount && Distinct(r.value)
    ensures r.Ok? ==> forall j :: 0 <= j < SlotCount ==>
      fresh(r.value[j]) && fresh(r.value[j].pixels) && r.value[j].Valid() &&
      r.value[j].Value() == Blank(data[2 * j], data[2 * j + 1], PitchFor(data[2 * j]))
  {
    var sprites: seq<Sprite> := [];
    var pos := 0;
    for i := 0 to SlotCount
      invariant |sprites| == i && pos == 2 * i && pos <= |data|
      invariant forall j :: 0 <= j < i ==>
        fresh(sprites[j]) && fresh(sprites[j].pixels) && sprites[j].Valid() &&
        sprites[j].Value() == Blank(data[2 * j], data[2 * j + 1], PitchFor(data[2 * j]))
      invariant Distinct(sprites)
    {
      if pos >= |data| {
        return Err(Truncated);
      }
      var width := data[pos];
      if pos + 1 >= |data| {
        return Err(Truncated);
      }
      var height := data[pos + 1];
      pos := pos + 2;
      var pitch: u16 := width as int + width % 2;
      var s := new Sprite(width, height, pitch);
      sprites := sprites + [s];
    }
    return Ok(sprites);
  }

  /** The body loop of `Extract`: every sprite loads its body in slot order
      from one cursor that starts after the header. */
  method LoadBodies(data: seq<byte>, sprites: seq<Sprite>) returns (r: Result<seq<Sprite>, ContainerError>)
    requires |data| >= HeaderSize && |sprites| == SlotCount && Distinct(sprites)
    requires forall j :: 0 <= j < SlotCount ==>
      sprites[j].Valid() && sprites[j].Value() == Blank(data[2 * j], data[2 * j + 1], PitchFor(data[2 * j]))
    modifies set j | 0 <= j < |sprites| :: sprites[j]
    modifies set j | 0 <= j < |sprites| :: sprites[j].pixels
    ensures r.Ok? <==> BodyStart(data, SlotCount) <= |data|
    ensures r.Ok? ==> r.value == sprites && forall j :: 0 <= j < SlotCount ==>
      sprites[j].Valid() && SlotFits(data, j) && sprites[j].Value() == SlotValue(data, j)
  {
    var pos := HeaderSize;
    for i := 0 to |sprites|
      invariant pos == BodyStart(data, i) && pos <= |data|
      invariant forall j :: 0 <= j < i ==> SlotFits(data, j) && sprites[j].Value() == SlotValue(data, j)
      invariant forall j :: i <= j < SlotCount ==>
        sprites[j].Value() == Blank(data[2 * j], data[2 * j + 1], PitchFor(data[2 * j]))
    {
      var loaded := LoadStep(data, sprites, i, pos);
      if loaded.Err? {
        BodyStartMonotone(data, i + 1, SlotCount);
        return Err(Truncated);
      }
      pos := loaded.value;
    }
    return Ok(sprites);
  }

  /** One step of the body loop: the sprite of slot `i` loads its body and
      no other sprite changes. */
  method LoadStep(data: seq<byte>, sprites: seq<Sprite>, i: nat, pos: nat) returns (r: Result<nat, ContainerError>)
    requires |data| >= HeaderSize && |sprites| == SlotCount && Distinct(sprites) && i < SlotCount
    requires pos == BodyStart(data, i) && pos <= |data|
    requires sprites[i].Valid() && sprites[i].Value() == Blank(data[2 * i], data[2 * i + 1], PitchFor(data[2 * i]))
    modifies sprites[i], sprites[i].pixels
    ensures r.Ok? <==> SlotFits(data, i)
    ensures r.Ok? ==> r.value == BodyStart(data, i + 1) && sprites[i].Value() == SlotValue(data, i)
    ensures forall j :: 0 <= j < SlotCount && j != i ==> sprites[j].Value() == old(sprites[j].Value())
  {
    var s := sprites[i];
    r := LoadSlot(data, s, i, pos);
    forall j | 0 <= j < SlotCount && j != i
      ensures sprites[j].Value() == old(sprites[j].Value())
    {
      assert sprites[j] != s && sprites[j].pixels != s.pixels by {
        assert Distinct(sprites);
      }
    }
  }

  /** One step of the body loop: the sprite of slot `i` loads its body. */
  method LoadSlot(data: seq<byte>, s: Sprite, i: nat, pos: nat) returns (r: Result<nat, ContainerError>)
    requires |data| >= HeaderSize && i < SlotCount && pos == BodyStart(data, i) && pos <= |data|
    requires s.Valid() && s.Value() == Blank(data[2 * i], data[2 * i + 1], PitchFor(data[2 * i]))
    modifies s, s.pixels
    ensures s.Valid()
    ensures r.Ok? <==> SlotFits(data, i)
    ensures r.Ok? ==> r.value == BodyStart(data, i + 1) && s.Value() == SlotValue(data, i)
  {
    SlotEnd(data, i);
    var loaded := s.Load(data, pos);
    if loaded.Err? {
      return Err(Truncated);
    }
    return Ok(loaded.value);
  }

  /** Writes a container: every header pair first, then every body, in the
      order given; no sprite at all is an error and nothing is written. */
  method Rebuild(sprites: seq<Sprite>) returns (r: Result<seq<byte>, ContainerError>)
    requires forall i :: 0 <= i < |sprites| ==>
      sprites[i].Valid() && (IsSingle(sprites[i].Width, sprites[i].Height) ==> sprites[i].Pitch >= 1)
    ensures AllCodable(Values(sprites)) && r == Encode(Values(sprites))
  {
    ghost var vs := Values(sprites);
    if |sprites| == 0 {
      return Err(NoInputSprites);
    }
    assert AllCodable(vs);
    var headers := WriteHeaders(sprites, vs);
    var written := WriteBodies(sprites, vs, headers);
    return Ok(written);
  }

  /** The header loop of `Rebuild`. */
  method WriteHeaders(sprites: seq<Sprite>, ghost vs: seq<SpriteValue>) returns (writer: seq<byte>)
    requires |vs| == |sprites| && forall i :: 0 <= i < |sprites| ==> vs[i] == sprites[i].Value()
    ensures writer == Flatten(HeaderParts(vs))
  {
    ghost var headers := HeaderParts(vs);
    writer := [];
    for i := 0 to |sprites|
      invariant writer == Flatten(headers[..i])
    {
      assert headers[..i + 1][..i] == headers[..i];
      assert headers[i] == HeaderPair(sprites[i].Value());
      writer := writer + [sprites[i].Width % 0x100, sprites[i].Height % 0x100];
    }
    assert headers[..|sprites|] == headers;
  }

  /** The body loop of `Rebuild`. */
  method WriteBodies(sprites: seq<Sprite>, ghost vs: seq<SpriteValue>, writer: seq<byte>) returns (written: seq<byte>)
    requires |vs| == |sprites| && forall i :: 0 <= i < |sprites| ==> vs[i] == sprites[i].Value()
    requires forall i :: 0 <= i < |sprites| ==>
      sprites[i].Valid() && (IsSingle(sprites[i].Width, sprites[i].Height) ==> sprites[i].Pitch >= 1)
    requires AllCodable(vs)
    ensures written == writer + Flatten(BodyParts(vs))
  {
    ghost var bodies := BodyParts(vs);
    written := writer;
    for i := 0 to |sprites|
      invariant written == writer + Flatten(bodies[..i])
    {
      assert bodies[..i + 1][..i] == bodies[..i];
      assert bodies[i] == Save(sprites[i].Value());
      written := sprites[i].Save(written);
    }
    assert bodies[..|sprites|] == bodies;
  }
}
