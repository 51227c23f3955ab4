/**
 * Packing a camera frame's Y, U and V planes into one NV21 buffer: the
 * full-resolution luma rows, then for every 2x2 block one V byte and one U
 * byte, in row-major order; what the chroma loops do not reach stays zero.
 * Any out-of-range buffer access makes the whole conversion fail.
 */
module Nv21 {
  import opened Text

  /** A plane: its bytes from position 0 to the limit, and its strides. */
  datatype Plane = Plane(buffer: seq<byte>, rowStride: int, pixelStride: int)

  /** A YUV_420_888 frame: planes 0, 1 and 2 are Y, U and V. */
  datatype Image = Image(width: nat, height: nat, y: Plane, u: Plane, v: Plane)

  // ------------------------------------------------------------ arithmetic

  /**
   * `a · b`, for a count `a`, added up one row at a time; every product
   * of the conversion is written with it.
   */
  function Mul(a: nat, b: int): int {
    if a == 0 then 0 else Mul(a - 1, b) + b
  }

  lemma {:induction false} MulIsProduct(a: nat, b: int)
    ensures Mul(a, b) == a * b
  {
    if a > 0 {
      MulIsProduct(a - 1, b);
      assert (a - 1) * b + b == a * b;
    }
  }

  /** More rows of a non-negative width are no fewer bytes. */
  lemma {:induction false} MulMono(a: nat, c: nat, b: nat)
    requires a <= c
    ensures 0 <= Mul(a, b) <= Mul(c, b)
  {
    if a < c {
      MulMono(a, c - 1, b);
    } else if a > 0 {
      MulMono(a - 1, a - 1, b);
    }
  }

  lemma {:induction false} MulOne(a: nat)
    ensures Mul(a, 1) == a
  {
    if a > 0 {
      MulOne(a - 1);
    }
  }

  function YSize(img: Image): nat {
    MulMono(0, img.height, img.width);
    Mul(img.height, img.width)
  }

  /** The chroma share of the buffer, with Kotlin's integer division. */
  function UvSize(img: Image): nat { YSize(img) / 2 }

  /** The chroma bytes of one block row: a V and a U byte per block. */
  function RowBytes(img: Image): nat { 2 * (img.width / 2) }

  /** How many chroma bytes the loops write. */
  function ChromaLength(img: Image): nat {
    MulMono(0, img.height / 2, RowBytes(img));
    Mul(img.height / 2, RowBytes(img))
  }

  lemma MulLe(a: nat, b: nat, c: nat)
    requires a <= b
    ensures a * c <= b * c
  {
  }

  /** The chroma writes fit in the space sized for them: `2·⌊h/2⌋·⌊w/2⌋ ≤ ⌊w·h/2⌋`. */
  lemma ChromaFits(img: Image)
    ensures ChromaLength(img) <= UvSize(img)
  {
    var w, h := img.width, img.height;
    var a, b := h / 2, w / 2;
    MulIsProduct(h, w);
    MulIsProduct(a, 2 * b);
    MulLe(2 * a, h, w);
    MulLe(2 * b, w, 2 * a);
    assert (2 * b) * (2 * a) == 2 * (a * (2 * b));
  }

  /** Chroma row `row` ends inside the chroma area, where the next one starts. */
  lemma ChromaRowFits(img: Image, row: nat)
    requires row < img.height / 2
    ensures 0 <= Mul(row, RowBytes(img))
    ensures Mul(row, RowBytes(img)) + RowBytes(img) == Mul(row + 1, RowBytes(img)) <= ChromaLength(img)
  {
    MulMono(row + 1, img.height / 2, RowBytes(img));
    MulMono(0, row, RowBytes(img));
  }

  /** Luma row `row` ends inside the luma area. */
  lemma LumaRowFits(img: Image, row: nat)
    requires row < img.height
    ensures 0 <= Mul(row, img.width)
    ensures Mul(row, img.width) + img.width == Mul(row + 1, img.width) <= YSize(img)
  {
    MulMono(row + 1, img.height, img.width);
    MulMono(0, row, img.width);
  }

  // ------------------------------------------------------------ array contents

  /** `base` with `content` written over it from index `lo`. */
  function Overlay(base: seq<byte>, lo: nat, content: seq<byte>): (r: seq<byte>)
    requires lo + |content| <= |base|
    ensures |r| == |base|
  {
    base[..lo] + content + base[lo + |content|..]
  }

  /** Inside the written range the content shows, elsewhere the base. */
  lemma OverlayAt(base: seq<byte>, lo: nat, content: seq<byte>, k: nat)
    requires lo + |content| <= |base| && k < |base|
    ensures Overlay(base, lo, content)[k] == if lo <= k < lo + |content| then content[k - lo] else base[k]
  {
  }

  /** Two adjacent writes are one write of both contents. */
  lemma OverlayCompose(base: seq<byte>, lo: nat, c1: seq<byte>, c2: seq<byte>)
    requires lo + |c1| + |c2| <= |base|
    ensures Overlay(Overlay(base, lo, c1), lo + |c1|, c2) == Overlay(base, lo, c1 + c2)
  {
    var mid := Overlay(base, lo, c1);
    var l, r := Overlay(mid, lo + |c1|, c2), Overlay(base, lo, c1 + c2);
    forall k | 0 <= k < |base| ensures l[k] == r[k] {
      OverlayAt(mid, lo + |c1|, c2, k);
      OverlayAt(base, lo, c1, k);
      OverlayAt(base, lo, c1 + c2, k);
      if lo <= k < lo + |c1| {
        assert (c1 + c2)[k - lo] == c1[k - lo];
      } else if lo + |c1| <= k < lo + |c1| + |c2| {
        assert (c1 + c2)[k - lo] == c2[k - lo - |c1|];
      }
    }
  }

  /** `ByteBuffer.get(dst, offset, length)`: `src` copied into `dst` from `pos`. */
  method CopyInto(dst: array<byte>, pos: nat, src: seq<byte>)
    requires pos + |src| <= dst.Length
    modifies dst
    ensures dst[..] == Overlay(old(dst[..]), pos, src)
  {
    forall i | 0 <= i < |src| {
      dst[pos + i] := src[i];
    }
    forall k | 0 <= k < dst.Length ensures dst[..][k] == Overlay(old(dst[..]), pos, src)[k] {
      OverlayAt(old(dst[..]), pos, src, k);
    }
  }

  // ------------------------------------------------------------------ luma

  /** The fast path: tightly packed rows, copied in one piece. */
  predicate YFast(img: Image) { img.y.pixelStride == 1 && img.y.rowStride == img.width }

  /** Where luma row `row` starts in the Y plane: `row · rowStride`. */
  function YStart(img: Image, row: nat): int { Mul(row, img.y.rowStride) }

  /** Row `row` of the Y plane can be positioned at and read in full. */
  predicate YRowOk(img: Image, row: nat) {
    0 <= YStart(img, row) && YStart(img, row) + img.width <= |img.y.buffer|
  }

  /** The first `n` luma rows can all be read. */
  predicate YRowsOk(img: Image, n: nat) {
    forall row: nat :: row < n ==> YRowOk(img, row)
  }

  /** The luma copy raises no exception. */
  predicate YReadable(img: Image) {
    if YFast(img) then YSize(img) <= |img.y.buffer|
    else YRowsOk(img, img.height)
  }

  /** The first `n` luma rows, `width` bytes from each row start. */
  function YRows(img: Image, n: nat): (s: seq<byte>)
    requires n <= img.height && YRowsOk(img, n)
    ensures |s| == Mul(n, img.width)
  {
    if n == 0 then []
    else
      assert YRowOk(img, n - 1);
      var start := YStart(img, n - 1);
      YRows(img, n - 1) + img.y.buffer[start..start + img.width]
  }

  /** What the luma copy produces. */
  function YPart(img: Image): (s: seq<byte>)
    requires YReadable(img)
    ensures |s| == YSize(img)
  {
    if YFast(img) then img.y.buffer[..YSize(img)] else YRows(img, img.height)
  }

  /** Under the fast path's conditions the row-by-row copy would read the same bytes. */
  lemma {:induction false} YRowsFast(img: Image, n: nat)
    requires YFast(img) && YSize(img) <= |img.y.buffer| && n <= img.height
    ensures 0 <= Mul(n, img.width) <= YSize(img)
    ensures YRowsOk(img, n)
    ensures YRows(img, n) == img.y.buffer[..Mul(n, img.width)]
  {
    MulMono(n, img.height, img.width);
    if n > 0 {
      YRowsFast(img, n - 1);
      LumaRowFits(img, n - 1);
      var k := Mul(n - 1, img.width);
      assert YRowOk(img, n - 1);
      assert img.y.buffer[..k] + img.y.buffer[k..k + img.width] == img.y.buffer[..k + img.width];
    }
  }

  /** Byte `c` of luma row `row` comes from the row start plus `c`. */
  lemma {:induction false} YRowsIndex(img: Image, n: nat, row: nat, c: nat)
    requires n <= img.height && YRowsOk(img, n)
    requires row < n && c < img.width
    ensures YRowOk(img, row) && 0 <= Mul(row, img.width) && Mul(row, img.width) + c < |YRows(img, n)|
    ensures YRows(img, n)[Mul(row, img.width) + c] == img.y.buffer[YStart(img, row) + c]
  {
    assert YRowOk(img, row) && YRowOk(img, n - 1);
    var w := img.width;
    var prefix := YRows(img, n - 1);
    LumaRowFits(img, n - 1);
    LumaRowFits(img, row);
    assert YRows(img, n) == prefix + img.y.buffer[YStart(img, n - 1)..YStart(img, n - 1) + w];
    if row < n - 1 {
      MulMono(row + 1, n - 1, w);
      YRowsIndex(img, n - 1, row, c);
    }
  }

  /** Every luma byte is `Y[row · rowStride + col]`, on either path. */
  lemma YPartIndex(img: Image, row: nat, c: nat)
    requires YReadable(img) && row < img.height && c < img.width
    ensures 0 <= Mul(row, img.width) && Mul(row, img.width) + c < YSize(img)
    ensures 0 <= Mul(row, img.y.rowStride) + c < |img.y.buffer|
    ensures YPart(img)[Mul(row, img.width) + c] == img.y.buffer[Mul(row, img.y.rowStride) + c]
  {
    if YFast(img) {
      YRowsFast(img, img.height);
    }
    YRowsIndex(img, img.height, row, c);
  }

  // ---------------------------------------------------------------- chroma

  /**
   * Where the chroma bytes of block (row, col) sit, in the V and the U plane
   * alike: `row · rowStride + col · pixelStride`, with the U plane's strides
   * serving both.
   */
  function ChromaSrc(img: Image, row: nat, col: nat): int {
    Mul(row, img.u.rowStride) + Mul(col, img.u.pixelStride)
  }

  /** Block (row, col) can be read from both planes. */
  predicate CellOk(img: Image, row: nat, col: nat) {
    var o := ChromaSrc(img, row, col);
    0 <= o < |img.v.buffer| && o < |img.u.buffer|
  }

  /** The packed path positions both planes at the row start first. */
  predicate RowStartOk(img: Image, row: nat) {
    var s := Mul(row, img.u.rowStride);
    0 <= s <= |img.v.buffer| && s <= |img.u.buffer|
  }

  predicate CellsOk(img: Image, n: nat) {
    forall row: nat, col: nat :: row < n && col < img.width / 2 ==> CellOk(img, row, col)
  }

  /** One more readable row extends the readable prefix. */
  lemma CellsOkStep(img: Image, row: nat)
    requires CellsOk(img, row) && forall col: nat :: col < img.width / 2 ==> CellOk(img, row, col)
    ensures CellsOk(img, row + 1)
  {
  }

  /** Chroma row `row` is copied without an exception: on the packed path the row start is positioned first. */
  predicate ChromaRowReadable(img: Image, row: nat) {
    && (img.u.pixelStride == 1 ==> RowStartOk(img, row))
    && forall col: nat :: col < img.width / 2 ==> CellOk(img, row, col)
  }

  /** The chroma copy raises no exception. */
  predicate ChromaReadable(img: Image) {
    forall row: nat :: row < img.height / 2 ==> ChromaRowReadable(img, row)
  }

  /** One unreadable block makes the chroma copy fail. */
  lemma UnreadableCell(img: Image, row: nat, col: nat)
    requires row < img.height / 2 && col < img.width / 2 && !CellOk(img, row, col)
    ensures !ChromaReadable(img)
  {
    assert !ChromaRowReadable(img, row);
  }

  /** Packed rows, in the plain terms of where each row starts and ends. */
  lemma PackedRowIff(img: Image, row: nat)
    requires img.u.pixelStride == 1 && img.width / 2 > 0
    ensures ChromaRowReadable(img, row) <==>
      (var s := Mul(row, img.u.rowStride);
       0 <= s && s + img.width / 2 <= |img.v.buffer| && s + img.width / 2 <= |img.u.buffer|)
  {
    var s := Mul(row, img.u.rowStride);
    forall col: nat | col < img.width / 2 ensures ChromaSrc(img, row, col) == s + col {
      MulOne(col);
    }
    if ChromaRowReadable(img, row) {
      assert CellOk(img, row, img.width / 2 - 1);
    }
  }

  /** The V and U bytes of the first `n` blocks of chroma row `row`. */
  function ChromaRow(img: Image, row: nat, n: nat): (s: seq<byte>)
    requires forall col: nat :: col < n ==> CellOk(img, row, col)
    ensures |s| == 2 * n
  {
    if n == 0 then []
    else
      assert CellOk(img, row, n - 1);
      var o := ChromaSrc(img, row, n - 1);
      ChromaRow(img, row, n - 1) + [img.v.buffer[o], img.u.buffer[o]]
  }

  /** The first `n` chroma rows. */
  function ChromaRows(img: Image, n: nat): (s: seq<byte>)
    requires CellsOk(img, n)
    ensures |s| == Mul(n, RowBytes(img))
  {
    if n == 0 then []
    else
      assert CellsOk(img, n - 1);
      ChromaRows(img, n - 1) + ChromaRow(img, n - 1, img.width / 2)
  }

  lemma {:induction false} ChromaRowIndex(img: Image, row: nat, n: nat, col: nat)
    requires forall c: nat :: c < n ==> CellOk(img, row, c)
    requires col < n
    ensures CellOk(img, row, col)
    ensures ChromaRow(img, row, n)[2 * col] == img.v.buffer[ChromaSrc(img, row, col)]
    ensures ChromaRow(img, row, n)[2 * col + 1] == img.u.buffer[ChromaSrc(img, row, col)]
  {
    assert CellOk(img, row, n - 1);
    if col < n - 1 {
      ChromaRowIndex(img, row, n - 1, col);
    }
  }

  /** Block (row, col) is written at `row · 2⌊w/2⌋ + 2·col`, V first and U second. */
  lemma {:induction false} ChromaRowsIndex(img: Image, n: nat, row: nat, col: nat)
    requires CellsOk(img, n) && row < n && col < img.width / 2
    ensures CellOk(img, row, col) && 0 <= Mul(row, RowBytes(img))
    ensures Mul(row, RowBytes(img)) + 2 * col + 1 < |ChromaRows(img, n)|
    ensures ChromaRows(img, n)[Mul(row, RowBytes(img)) + 2 * col] == img.v.buffer[ChromaSrc(img, row, col)]
    ensures ChromaRows(img, n)[Mul(row, RowBytes(img)) + 2 * col + 1] == img.u.buffer[ChromaSrc(img, row, col)]
  {
    var rb := RowBytes(img);
    assert CellsOk(img, n - 1);
    MulMono(0, row, rb);
    MulMono(0, n - 1, rb);
    if row == n - 1 {
      ChromaRowIndex(img, row, img.width / 2, col);
    } else {
      MulMono(row + 1, n - 1, rb);
      ChromaRowsIndex(img, n - 1, row, col);
    }
  }

  // ----------------------------------------------------------------- packing

  /** The chroma copy succeeds only when every block is readable. */
  lemma ChromaReadableCells(img: Image)
    requires ChromaReadable(img)
    ensures CellsOk(img, img.height / 2)
  {
    forall row: nat, col: nat | row < img.height / 2 && col < img.width / 2
      ensures CellOk(img, row, col)
    {
      assert ChromaRowReadable(img, row);
    }
  }

  /** The whole conversion raises no exception. */
  predicate Readable(img: Image) { YReadable(img) && ChromaReadable(img) }

  function Zeros(n: nat): seq<byte> { seq(n, _ => 0) }

  /** The NV21 buffer: luma, then the V/U pairs, then zeros up to `w·h + ⌊w·h/2⌋`. */
  function Nv21Of(img: Image): (s: seq<byte>)
    requires Readable(img)
    ensures |s| == YSize(img) + UvSize(img)
  {
    ChromaFits(img);
    ChromaReadableCells(img);
    YPart(img) + ChromaRows(img, img.height / 2) + Zeros(UvSize(img) - ChromaLength(img))
  }

  /** The NV21 buffer in its three parts. */
  lemma Nv21Parts(img: Image)
    requires Readable(img)
    ensures CellsOk(img, img.height / 2) && ChromaLength(img) <= UvSize(img)
    ensures Nv21Of(img) == YPart(img) + ChromaRows(img, img.height / 2) + Zeros(UvSize(img) - ChromaLength(img))
  {
    ChromaReadableCells(img);
    ChromaFits(img);
  }

  /** The two planes' blocks land where NV21 places them: V first, then U. */
  lemma Nv21Layout(img: Image, row: nat, col: nat)
    requires Readable(img) && row < img.height / 2 && col < img.width / 2
    ensures CellOk(img, row, col) && 0 <= Mul(row, RowBytes(img))
    ensures YSize(img) + Mul(row, RowBytes(img)) + 2 * col + 1 < |Nv21Of(img)|
    ensures Nv21Of(img)[YSize(img) + Mul(row, RowBytes(img)) + 2 * col] == img.v.buffer[ChromaSrc(img, row, col)]
    ensures Nv21Of(img)[YSize(img) + Mul(row, RowBytes(img)) + 2 * col + 1] == img.u.buffer[ChromaSrc(img, row, col)]
  {
    Nv21Parts(img);
    ChromaRowsIndex(img, img.height / 2, row, col);
    var y, c := YPart(img), ChromaRows(img, img.height / 2);
    var z := Zeros(UvSize(img) - ChromaLength(img));
    var j := Mul(row, RowBytes(img)) + 2 * col;
    assert (y + c + z)[|y| + j] == c[j];
    assert (y + c + z)[|y| + j + 1] == c[j + 1];
  }

  /** The luma area holds the Y plane's rows. */
  lemma Nv21Luma(img: Image, row: nat, c: nat)
    requires Readable(img) && row < img.height && c < img.width
    ensures 0 <= Mul(row, img.width) && Mul(row, img.width) + c < YSize(img)
    ensures 0 <= Mul(row, img.y.rowStride) + c < |img.y.buffer|
    ensures Nv21Of(img)[Mul(row, img.width) + c] == img.y.buffer[Mul(row, img.y.rowStride) + c]
  {
    Nv21Parts(img);
    YPartIndex(img, row, c);
    var y, ch := YPart(img), ChromaRows(img, img.height / 2);
    var z := Zeros(UvSize(img) - ChromaLength(img));
    assert (y + ch + z)[Mul(row, img.width) + c] == y[Mul(row, img.width) + c];
  }

  /** What the chroma loops do not reach stays zero. */
  lemma Nv21Tail(img: Image, k: nat)
    requires Readable(img) && YSize(img) + ChromaLength(img) <= k < YSize(img) + UvSize(img)
    ensures Nv21Of(img)[k] == 0
  {
    Nv21Parts(img);
  }

  /** Writing `piece` right after `cur` extends the written range by `piece`. */
  method Append(nv21: array<byte>, pos: nat, piece: seq<byte>, ghost base: seq<byte>, ghost lo: nat, ghost cur: seq<byte>)
    requires pos == lo + |cur| && lo + |cur| + |piece| <= |base| == nv21.Length
    requires nv21[..] == Overlay(base, lo, cur)
    modifies nv21
    ensures nv21[..] == Overlay(base, lo, cur + piece)
  {
    CopyInto(nv21, pos, piece);
    OverlayCompose(base, lo, cur, piece);
  }

  /** One more luma row: the row's `width` bytes from its start. */
  lemma YRowsSnoc(img: Image, row: nat)
    requires row < img.height && YRowsOk(img, row)
    requires YRowOk(img, row)
    ensures YRowsOk(img, row + 1)
    ensures YRows(img, row + 1) == YRows(img, row) + img.y.buffer[YStart(img, row)..YStart(img, row) + img.width]
  {
  }

  /** One luma row of the strided path: positioned at `row · rowStride`, `width` bytes read. */
  method CopyLumaRow(img: Image, nv21: array<byte>, row: nat, pos: nat, ghost base: seq<byte>) returns (ok: bool)
    requires row < img.height && YRowsOk(img, row)
    requires pos == Mul(row, img.width) <= YSize(img) <= |base| == nv21.Length
    requires nv21[..] == Overlay(base, 0, YRows(img, row))
    modifies nv21
    ensures pos + img.width == Mul(row + 1, img.width) <= YSize(img)
    ensures ok <==> YRowOk(img, row)
    ensures ok ==> YRowsOk(img, row + 1)
    ensures ok ==> nv21[..] == Overlay(base, 0, YRows(img, row + 1))
  {
    LumaRowFits(img, row);
    var yBuffer := img.y.buffer;
    var start := Mul(row, img.y.rowStride);
    if start < 0 || start > |yBuffer| || |yBuffer| - start < img.width {
      return false;
    }
    YRowsSnoc(img, row);
    Append(nv21, pos, yBuffer[start..start + img.width], base, 0, YRows(img, row));
    return true;
  }

  /** The strided luma path: `width` bytes from each row start, row after row. */
  method CopyLumaRows(img: Image, nv21: array<byte>) returns (ok: bool)
    requires YSize(img) <= nv21.Length
    modifies nv21
    ensures ok <==> YRowsOk(img, img.height)
    ensures ok ==> nv21[..] == Overlay(old(nv21[..]), 0, YRows(img, img.height))
  {
    ghost var base := nv21[..];
    var pos := 0;
    var row := 0;
    while row < img.height
      invariant 0 <= row <= img.height && pos == Mul(row, img.width) <= YSize(img) && |base| == nv21.Length
      invariant YRowsOk(img, row)
      invariant nv21[..] == Overlay(base, 0, YRows(img, row))
    {
      ok := CopyLumaRow(img, nv21, row, pos, base);
      if !ok {
        return;
      }
      pos := pos + img.width;
      row := row + 1;
    }
    assert row == img.height;
    assert nv21[..] == Overlay(base, 0, YRows(img, img.height));
    return true;
  }

  /** The two copies over the zeroed buffer leave exactly the NV21 buffer. */
  lemma PackedFromZeros(img: Image, zeros: seq<byte>)
    requires Readable(img) && zeros == Zeros(YSize(img) + UvSize(img))
    ensures CellsOk(img, img.height / 2) && YSize(img) + ChromaLength(img) <= |zeros|
    ensures Overlay(Overlay(zeros, 0, YPart(img)), YSize(img), ChromaRows(img, img.height / 2)) == Nv21Of(img)
  {
    Nv21Parts(img);
    var y, c := YPart(img), ChromaRows(img, img.height / 2);
    OverlayCompose(zeros, 0, y, c);
    assert zeros[|y + c|..] == Zeros(UvSize(img) - ChromaLength(img));
  }

  /** The luma step: the fast bulk copy, or row by row. */
  method CopyLuma(img: Image, nv21: array<byte>) returns (ok: bool)
    requires YSize(img) <= nv21.Length
    modifies nv21
    ensures ok <==> YReadable(img)
    ensures ok ==> nv21[..] == Overlay(old(nv21[..]), 0, YPart(img))
  {
    if img.y.pixelStride == 1 && img.y.rowStride == img.width {
      var ySize := Mul(img.height, img.width);
      if |img.y.buffer| < ySize {
        return false;
      }
      CopyInto(nv21, 0, img.y.buffer[..ySize]);
      return true;
    }
    ok := CopyLumaRows(img, nv21);
  }

  /** One more chroma block: its V byte, then its U byte. */
  lemma ChromaRowSnoc(img: Image, row: nat, col: nat, done: seq<byte>)
    requires forall c: nat :: c < col ==> CellOk(img, row, c)
    requires CellOk(img, row, col)
    ensures forall c: nat :: c < col + 1 ==> CellOk(img, row, c)
    ensures done + ChromaRow(img, row, col + 1) ==
      (done + ChromaRow(img, row, col)) + [img.v.buffer[ChromaSrc(img, row, col)], img.u.buffer[ChromaSrc(img, row, col)]]
  {
  }

  /** One chroma row on the packed path: both planes read on from the row start. */
  method CopyPackedRow(img: Image, nv21: array<byte>, row: nat, start: int, pos0: nat, ghost base: seq<byte>, ghost lo: nat, ghost done: seq<byte>)
      returns (ok: bool)
    requires img.u.pixelStride == 1 && start == Mul(row, img.u.rowStride) && 0 <= start
    requires pos0 == lo + |done| && lo + |done| + RowBytes(img) <= |base| == nv21.Length
    requires nv21[..] == Overlay(base, lo, done)
    modifies nv21
    ensures ok <==> forall col: nat :: col < img.width / 2 ==> CellOk(img, row, col)
    ensures ok ==> nv21[..] == Overlay(base, lo, done + ChromaRow(img, row, img.width / 2))
  {
    var half := img.width / 2;
    var vBuffer, uBuffer := img.v.buffer, img.u.buffer;
    var pos := pos0;
    var col := 0;
    while col < half
      invariant 0 <= col <= half && pos == pos0 + 2 * col
      invariant forall c: nat :: c < col ==> CellOk(img, row, c)
      invariant nv21[..] == Overlay(base, lo, done + ChromaRow(img, row, col))
    {
      MulOne(col);
      assert ChromaSrc(img, row, col) == start + col;
      if start + col >= |vBuffer| || start + col >= |uBuffer| {
        assert !CellOk(img, row, col);
        return false;
      }
      ChromaRowSnoc(img, row, col, done);
      Append(nv21, pos, [vBuffer[start + col], uBuffer[start + col]], base, lo, done + ChromaRow(img, row, col));
      pos := pos + 2;
      col := col + 1;
    }
    return true;
  }

  /** One chroma row on the strided path: each block positioned on its own. */
  method CopyStridedRow(img: Image, nv21: array<byte>, row: nat, pos0: nat, ghost base: seq<byte>, ghost lo: nat, ghost done: seq<byte>)
      returns (ok: bool)
    requires pos0 == lo + |done| && lo + |done| + RowBytes(img) <= |base| == nv21.Length
    requires nv21[..] == Overlay(base, lo, done)
    modifies nv21
    ensures ok <==> forall col: nat :: col < img.width / 2 ==> CellOk(img, row, col)
    ensures ok ==> nv21[..] == Overlay(base, lo, done + ChromaRow(img, row, img.width / 2))
  {
    var half := img.width / 2;
    var vBuffer, uBuffer := img.v.buffer, img.u.buffer;
    var uvRowStride, uvPixelStride := img.u.rowStride, img.u.pixelStride;
    var pos := pos0;
    var col := 0;
    while col < half
      invariant 0 <= col <= half && pos == pos0 + 2 * col
      invariant forall c: nat :: c < col ==> CellOk(img, row, c)
      invariant nv21[..] == Overlay(base, lo, done + ChromaRow(img, row, col))
    {
      var offset := Mul(row, uvRowStride) + Mul(col, uvPixelStride);
      if offset < 0 || offset >= |vBuffer| || offset >= |uBuffer| {
        assert !CellOk(img, row, col);
        return false;
      }
      ChromaRowSnoc(img, row, col, done);
      Append(nv21, pos, [vBuffer[offset], uBuffer[offset]], base, lo, done + ChromaRow(img, row, col));
      pos := pos + 2;
      col := col + 1;
    }
    return true;
  }

  /** One chroma row, on the path the U plane's pixel stride selects. */
  method CopyChromaRow(img: Image, nv21: array<byte>, row: nat, pos: nat, ghost base: seq<byte>, ghost lo: nat, ghost done: seq<byte>)
      returns (ok: bool)
    requires pos == lo + |done| && lo + |done| + RowBytes(img) <= |base| == nv21.Length
    requires nv21[..] == Overlay(base, lo, done)
    modifies nv21
    ensures ok <==> ChromaRowReadable(img, row)
    ensures ok ==> nv21[..] == Overlay(base, lo, done + ChromaRow(img, row, img.width / 2))
  {
    if img.u.pixelStride == 1 {
      var start := Mul(row, img.u.rowStride);
      if start < 0 || start > |img.v.buffer| || start > |img.u.buffer| {
        return false;
      }
      ok := CopyPackedRow(img, nv21, row, start, pos, base, lo, done);
    } else {
      ok := CopyStridedRow(img, nv21, row, pos, base, lo, done);
    }
  }

  /** The chroma step: for every block row, V then U for each block, from offset `w·h` on. */
  method CopyChroma(img: Image, nv21: array<byte>) returns (ok: bool)
    requires nv21.Length == YSize(img) + UvSize(img)
    modifies nv21
    ensures ChromaLength(img) <= UvSize(img)
    ensures ok <==> ChromaReadable(img)
    ensures ok ==> CellsOk(img, img.height / 2)
    ensures ok ==> nv21[..] == Overlay(old(nv21[..]), YSize(img), ChromaRows(img, img.height / 2))
  {
    var halfHeight := img.height / 2;
    ghost var base := nv21[..];
    var pos := YSize(img);
    var row := 0;
    ChromaFits(img);
    while row < halfHeight
      invariant 0 <= row <= halfHeight && |base| == nv21.Length
      invariant 0 <= Mul(row, RowBytes(img)) <= ChromaLength(img) && pos == YSize(img) + Mul(row, RowBytes(img))
      invariant forall r: nat :: r < row ==> ChromaRowReadable(img, r)
      invariant CellsOk(img, row)
      invariant nv21[..] == Overlay(base, YSize(img), ChromaRows(img, row))
    {
      ghost var done := ChromaRows(img, row);
      ChromaRowFits(img, row);
      var rowOk := CopyChromaRow(img, nv21, row, pos, base, YSize(img), done);
      if !rowOk {
        return false;
      }
      CellsOkStep(img, row);
      assert ChromaRows(img, row + 1) == done + ChromaRow(img, row, img.width / 2);
      pos := pos + 2 * (img.width / 2);
      row := row + 1;
    }
    assert row == halfHeight;
    assert nv21[..] == Overlay(base, YSize(img), ChromaRows(img, img.height / 2));
    ChromaReadableCells(img);
    return true;
  }

  /**
   * The packing step of `imageProxyToJpegByteArray`: a zeroed buffer of
   * `w·h + ⌊w·h/2⌋` bytes, then luma, then chroma; `ok` is false where the
   * source throws.
   */
  method PackNv21(img: Image) returns (nv21: array<byte>, ok: bool)
    ensures ok <==> Readable(img)
    ensures ok ==> nv21[..] == Nv21Of(img)
  {
    var ySize := Mul(img.height, img.width);
    var uvSize := ySize / 2;
    MulMono(0, img.height, img.width);
    nv21 := new byte[ySize + uvSize](_ => 0);
    ghost var zeros := nv21[..];
    assert zeros == Zeros(ySize + uvSize);
    ok := CopyLuma(img, nv21);
    if !ok {
      return;
    }
    ok := CopyChroma(img, nv21);
    if !ok {
      return;
    }
    PackedFromZeros(img, zeros);
  }

  /** The JPEG quality the frame is compressed at. */
  const JpegQuality: nat := 80

  /**
   * `imageProxyToJpegByteArray`. `compress` stands for `YuvImage.compressToJpeg`
   * over the full frame (None when it throws). No image, a failed packing
   * or a failed compression all give the empty array.
   */
  method ImageToJpeg(image: Option<Image>, compress: (seq<byte>, nat, nat, nat) -> Option<seq<byte>>) returns (jpeg: seq<byte>)
    ensures image.None? ==> jpeg == []
    ensures image.Some? && !Readable(image.value) ==> jpeg == []
    ensures image.Some? && Readable(image.value) ==>
      var img := image.value;
      jpeg == match compress(Nv21Of(img), img.width, img.height, JpegQuality)
        case None => []
        case Some(out) => out
  {
    if image.None? {
      return [];
    }
    var img := image.value;
    var nv21, ok := PackNv21(img);
    if !ok {
      return [];
    }
    var out := compress(nv21[..], img.width, img.height, JpegQuality);
    if out.None? {
      return [];
    }
    return out.value;
  }
}
