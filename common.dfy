/** Machine types shared by both codecs, and the flattening of a sequence
    of byte runs that both container formats use for their bodies. */
module Common {

  /** An unsigned 8-bit value (C# `byte`). */
  type byte = x: int | 0 <= x < 0x100

  /** An unsigned 16-bit value (C# `ushort`). */
  type u16 = x: int | 0 <= x < 0x1_0000

  /** A C# `char`: one UTF-16 code unit, kept as its integer code. */
  type char16 = x: int | 0 <= x < 0x1_0000

  /** A C# `string`: a sequence of UTF-16 code units. */
  type Text = seq<char16>

  datatype Option<+T> = None | Some(value: T)

  datatype Result<+T, +E> = Ok(value: T) | Err(error: E)

  /** The C# cast `(ushort)x`: keeps the low 16 bits, also of a negative `x`. */
  function ToU16(x: int): (r: u16)
    ensures 0 <= x < 0x1_0000 ==> r == x
  {
    x % 0x1_0000
  }

  /** Adding in 16-bit arithmetic and truncating once give the same value. */
  lemma ToU16Add(a: int, b: int)
    ensures ToU16(ToU16(a) + ToU16(b)) == ToU16(a + b)
  {
    var qa, qb := a / 0x1_0000, b / 0x1_0000;
    assert a == 0x1_0000 * qa + ToU16(a);
    assert b == 0x1_0000 * qb + ToU16(b);
    assert a + b == 0x1_0000 * (qa + qb) + (ToU16(a) + ToU16(b));
  }

  /** The C# cast `(byte)x`: keeps the low 8 bits. */
  function ToByte(x: int): (r: byte)
    ensures 0 <= x < 0x100 ==> r == x
  {
    x % 0x100
  }

  /** Bitwise OR of two non-negative integers. */
  function BitOr(a: nat, b: nat): (r: nat)
    ensures a == 0 ==> r == b
    ensures b == 0 ==> r == a
    decreases a
  {
    if a == 0 then b
    else if b == 0 then a
    else 2 * BitOr(a / 2, b / 2) + (if a % 2 == 1 || b % 2 == 1 then 1 else 0)
  }

  /** `2` to the power `k`. */
  function Pow2(k: nat): (r: nat)
    ensures r >= 1
  {
    if k == 0 then 1 else 2 * Pow2(k - 1)
  }

  /** `h << k` on non-negative integers. */
  function Shl(h: nat, k: nat): nat {
    if k == 0 then h else 2 * Shl(h, k - 1)
  }

  lemma {:induction false} ShlIsProduct(h: nat, k: nat)
    ensures Shl(h, k) == Pow2(k) * h
  {
    if k > 0 {
      ShlIsProduct(h, k - 1);
      Doubling(Pow2(k - 1), h);
    }
  }

  /** OR with a value shifted left by `k` bits: when `l` fits in the low `k`
      bits, the OR of the high parts is shifted back on top of `l`. */
  lemma {:induction false} BitOrSplit(l: nat, h: nat, b: nat, k: nat)
    requires l < Shl(1, k)
    ensures BitOr(l + Shl(h, k), Shl(b, k)) == l + Shl(BitOr(h, b), k)
  {
    if k > 0 {
      BitOrSplit(l / 2, h, b, k - 1);
      BitOrStep(l, Shl(h, k - 1), Shl(b, k - 1), Shl(BitOr(h, b), k - 1));
    }
  }

  /** One halving step of `BitOrSplit`, with the shifted operands `2 * x`
      and `2 * y` and the shifted result `2 * z`. */
  lemma BitOrStep(l: nat, x: nat, y: nat, z: nat)
    requires BitOr(l / 2 + x, y) == l / 2 + z
    ensures BitOr(l + 2 * x, 2 * y) == l + 2 * z
  {
    if l + 2 * x != 0 && y != 0 {
      BitOrHalves(l, x, y);
    }
  }

  lemma BitOrHalves(l: nat, x: nat, y: nat)
    requires l + 2 * x != 0 && y != 0
    ensures BitOr(l + 2 * x, 2 * y) == 2 * BitOr(l / 2 + x, y) + l % 2
  {
    Halve(l, x);
    Halve(0, y);
  }

  lemma Doubling(q: nat, h: nat)
    ensures (2 * q) * h == 2 * (q * h)
  {
  }

  lemma Halve(l: nat, x: nat)
    ensures (l + 2 * x) / 2 == l / 2 + x && (l + 2 * x) % 2 == l % 2
  {
  }

  lemma {:induction false} BitOrCommutes(a: nat, b: nat)
    ensures BitOr(a, b) == BitOr(b, a)
    decreases a
  {
    if a != 0 && b != 0 {
      BitOrCommutes(a / 2, b / 2);
    }
  }

  /** `l | (h << k)` is `l + h * 2^k` when `l` fits in the low `k` bits, in
      either operand order. */
  lemma BitOrDisjoint(l: nat, h: nat, k: nat)
    requires l < Pow2(k)
    ensures BitOr(l, Pow2(k) * h) == l + Pow2(k) * h
    ensures BitOr(Pow2(k) * h, l) == l + Pow2(k) * h
  {
    ShlIsProduct(1, k);
    BitOrSplit(l, 0, h, k);
    ShlIsProduct(0, k);
    ShlIsProduct(h, k);
    BitOrCommutes(l, Pow2(k) * h);
  }

  /** The runs of `parts` written one after the other. */
  function Flatten<T>(parts: seq<seq<T>>): seq<T>
    decreases |parts|
  {
    if parts == [] then [] else Flatten(parts[..|parts| - 1]) + parts[|parts| - 1]
  }

  /** Flattening distributes over concatenation of the list of runs. */
  lemma {:induction false} FlattenAppend<T>(a: seq<seq<T>>, b: seq<seq<T>>)
    ensures Flatten(a + b) == Flatten(a) + Flatten(b)
    decreases |b|
  {
    if b == [] {
      assert a + b == a;
    } else {
      var b' := b[..|b| - 1];
      var ab := a + b;
      assert ab[..|ab| - 1] == a + b';
      assert ab[|ab| - 1] == b[|b| - 1];
      FlattenAppend(a, b');
      assert Flatten(ab) == Flatten(a + b') + b[|b| - 1];
    }
  }

  /** Where run `i` starts in the flattened output. */
  function RunStart<T>(parts: seq<seq<T>>, i: nat): nat
    requires i <= |parts|
  {
    |Flatten(parts[..i])|
  }

  /** Run `i` occupies exactly the slice between its start and the next run's start. */
  lemma {:induction false} FlattenSlice<T>(parts: seq<seq<T>>, i: nat)
    requires i < |parts|
    ensures RunStart(parts, i) + |parts[i]| == RunStart(parts, i + 1) <= |Flatten(parts)|
    ensures Flatten(parts)[RunStart(parts, i)..RunStart(parts, i + 1)] == parts[i]
  {
    assert parts[..i + 1][..i] == parts[..i];
    assert parts == parts[..i + 1] + parts[i + 1..];
    FlattenAppend(parts[..i + 1], parts[i + 1..]);
  }

  /** If every run has the same length `k`, run `i` starts at `i * k`. */
  lemma {:induction false} FlattenUniformStart<T>(parts: seq<seq<T>>, k: nat, i: nat)
    requires i <= |parts|
    requires forall j :: 0 <= j < |parts| ==> |parts[j]| == k
    ensures RunStart(parts, i) == i * k
  {
    if i > 0 {
      FlattenUniformStart(parts, k, i - 1);
      assert parts[..i][..i - 1] == parts[..i - 1];
    }
  }

  /** The sum of the first `i` sizes. */
  function Sum(sizes: seq<nat>, i: nat): nat
    requires i <= |sizes|
  {
    if i == 0 then 0 else Sum(sizes, i - 1) + sizes[i - 1]
  }

  lemma {:induction false} SumMonotone(sizes: seq<nat>, i: nat, j: nat)
    requires i <= j <= |sizes|
    ensures Sum(sizes, i) <= Sum(sizes, j)
    decreases j
  {
    if i < j {
      SumMonotone(sizes, i, j - 1);
    }
  }

  /** Runs of the given sizes start at the running sums of those sizes. */
  lemma {:induction false} RunStartIsSum<T>(parts: seq<seq<T>>, sizes: seq<nat>, i: nat)
    requires |parts| == |sizes| && i <= |parts|
    requires forall j :: 0 <= j < |parts| ==> |parts[j]| == sizes[j]
    ensures RunStart(parts, i) == Sum(sizes, i)
  {
    if i > 0 {
      RunStartIsSum(parts, sizes, i - 1);
      FlattenSlice(parts, i - 1);
    }
  }

  /** A reader that knows only the sizes finds each run where it was written,
      also when the runs follow a prefix of length `offset`. */
  lemma RunAt<T>(whole: seq<T>, offset: nat, parts: seq<seq<T>>, sizes: seq<nat>, i: nat)
    requires offset <= |whole| && whole[offset..] == Flatten(parts)
    requires |parts| == |sizes| && i < |parts|
    requires forall j :: 0 <= j < |parts| ==> |parts[j]| == sizes[j]
    ensures offset + Sum(sizes, i) <= offset + Sum(sizes, i + 1) <= |whole|
    ensures whole[offset + Sum(sizes, i)..offset + Sum(sizes, i + 1)] == parts[i]
  {
    RunStartIsSum(parts, sizes, i);
    RunStartIsSum(parts, sizes, i + 1);
    FlattenSlice(parts, i);
    var a := RunStart(parts, i);
    var b := RunStart(parts, i + 1);
    assert whole[offset + a..offset + b] == Flatten(parts)[a..b];
  }
}
