/** The parts of the terrain painter widget that the baking of the colour texture rests
    on: the map connection struct, the bound the input check puts on the texture size,
    and the loop that fills the texture's pixel buffer row by row. */
module TerrainPainterWidget {
  import opened ConnectionEquality

  /** The engine's 32-bit signed integer; arithmetic on it must stay in range. */
  newtype int32 = i: int | -0x8000_0000 <= i < 0x8000_0000

  /** Texture sides must stay below this many pixels. */
  const MaxTextureSide: int := 8192

  /** FTerrainMapConnection, a value struct held inline in the widget's connection array:
      the positions of the two terrain map entries it joins. */
  datatype TerrainMapConnection = TerrainMapConnection(element1: int, element2: int) {
    /** operator==: same endpoints, in either order. */
    predicate Equals(other: TerrainMapConnection) {
      SameEndpoints(element1, element2, other.element1, other.element2)
    }

    /** Swap: the struct with its endpoints exchanged, which still compares equal to what
        it was. */
    function Swap(): (c: TerrainMapConnection)
      ensures c.element1 == element2 && c.element2 == element1
      ensures c.Equals(this) && this.Equals(c)
    {
      TerrainMapConnection(element2, element1)
    }
  }

  /** Swapping twice restores a map connection. */
  lemma SwapTwiceRestoresMapConnection(c: TerrainMapConnection)
    ensures c.Swap().Swap() == c
  {
  }

  /** The texture-size part of the input check: both sides positive and below the
      maximum. Baking refuses to start unless it holds. */
  predicate TextureSizeValid(sizeX: int, sizeY: int) {
    0 < sizeX < MaxTextureSide && 0 < sizeY < MaxTextureSide
  }

  /** FColor, stored in BGRA order. */
  datatype Color = Color(b: bv8, g: bv8, r: bv8, a: bv8)

  /** Multiplying by a non-negative factor keeps the order. */
  lemma {:induction false} MulMonotone(a: int, b: int, c: int)
    requires 0 <= a <= b && 0 <= c
    ensures a * c <= b * c
    decreases b - a
  {
    if a < b {
      MulMonotone(a + 1, b, c);
      assert (a + 1) * c == a * c + c;
    }
  }

  /** A texture that passes the check has fewer pixels than the largest int32. */
  lemma PixelCountFitsInt32(sizeX: int, sizeY: int)
    requires TextureSizeValid(sizeX, sizeY)
    ensures 0 < sizeX * sizeY < 0x8000_0000
  {
    MulMonotone(sizeX, MaxTextureSide, sizeY);
    MulMonotone(sizeY, MaxTextureSide, MaxTextureSide);
    assert sizeX * sizeY == sizeY * sizeX;
    assert MaxTextureSide * sizeY == sizeY * MaxTextureSide;
    MulMonotone(1, sizeX, sizeY);
  }

  /** The row-major index of pixel (x, y) lies inside the pixel buffer. */
  lemma PixelIndexInRange(sizeX: int, sizeY: int, x: int, y: int)
    requires 0 <= x < sizeX && 0 <= y < sizeY
    ensures 0 <= y * sizeX + x < sizeX * sizeY
  {
    MulMonotone(0, y, sizeX);
    MulMonotone(y + 1, sizeY, sizeX);
    assert (y + 1) * sizeX == y * sizeX + sizeX;
    assert sizeY * sizeX == sizeX * sizeY;
  }

  /** The row-major index of pixel (x, y) gives back its column and its row. */
  lemma PixelIndexDecodes(sizeX: int, x: int, y: int)
    requires 0 <= x < sizeX && 0 <= y
    ensures (y * sizeX + x) / sizeX == y && (y * sizeX + x) % sizeX == x
  {
    var k := y * sizeX + x;
    var q, r := k / sizeX, k % sizeX;
    assert k == q * sizeX + r && 0 <= r < sizeX;
    DivModUnique(sizeX, k, q, r, y, x);
  }

  /** Two ways of writing k as quotient times d plus a remainder in [0, d) agree. */
  lemma DivModUnique(d: int, k: int, q1: int, r1: int, q2: int, r2: int)
    requires 0 < d && 0 <= q1 && 0 <= q2
    requires k == q1 * d + r1 == q2 * d + r2
    requires 0 <= r1 < d && 0 <= r2 < d
    ensures q1 == q2 && r1 == r2
  {
    if q1 < q2 {
      MulMonotone(q1 + 1, q2, d);
    } else if q2 < q1 {
      MulMonotone(q2 + 1, q1, d);
    }
  }

  /** Different pixels have different indices, so no write overwrites another pixel. */
  lemma PixelIndexInjective(sizeX: int, x1: int, y1: int, x2: int, y2: int)
    requires 0 <= x1 < sizeX && 0 <= y1 && 0 <= x2 < sizeX && 0 <= y2
    requires y1 * sizeX + x1 == y2 * sizeX + x2
    ensures x1 == x2 && y1 == y2
  {
    DivModUnique(sizeX, y1 * sizeX + x1, y1, x1, y2, x2);
  }

  /** A quotient by a positive divisor is no larger than the dividend. */
  lemma QuotientAtMost(k: int, d: int)
    requires 0 <= k && 0 < d
    ensures 0 <= k / d <= k
  {
    MulMonotone(1, d, k / d);
  }

  /** The row-major index of pixel (x, y) in the buffer of a sizeX by sizeY texture. */
  function PixelIndex(sizeX: int, sizeY: int, x: int, y: int): (k: int)
    requires 0 <= x < sizeX && 0 <= y < sizeY
    ensures 0 <= k < sizeX * sizeY
  {
    PixelIndexInRange(sizeX, sizeY, x, y);
    y * sizeX + x
  }

  /** The column of the pixel stored at index k of a buffer with rows of sizeX pixels. */
  function PixelColumn(sizeX: int32, k: int): (x: int32)
    requires 0 < sizeX && 0 <= k
    ensures 0 <= x < sizeX
  {
    (k % sizeX as int) as int32
  }

  /** The row of the pixel stored at index k of a buffer with rows of sizeX pixels. */
  function PixelRow(sizeX: int32, k: int): (y: int32)
    requires 0 < sizeX && 0 <= k < 0x8000_0000
    ensures 0 <= y as int <= k
  {
    QuotientAtMost(k, sizeX as int);
    (k / sizeX as int) as int32
  }

  /** The first m elements of a buffer with rows of sizeX pixels each hold the colour
      computed for the pixel they stand for. */
  ghost predicate FilledUpTo(data: seq<Color>, sizeX: int32, computeColorForPixel: (int32, int32) -> Color, m: int)
    requires 0 < sizeX && 0 <= m <= |data| < 0x8000_0000
  {
    forall k :: 0 <= k < m ==> data[k] == computeColorForPixel(PixelColumn(sizeX, k), PixelRow(sizeX, k))
  }

  /** The pixel loop of CreateTerrainColorTexture: a buffer of sizeX * sizeY colours,
      rows top to bottom and each row left to right, every element holding the colour
      computed for the pixel it stands for. */
  method FillPixelData(sizeX: int32, sizeY: int32, computeColorForPixel: (int32, int32) -> Color)
    returns (pixelData: array<Color>)
    requires TextureSizeValid(sizeX as int, sizeY as int)
    ensures pixelData.Length == sizeX as int * sizeY as int < 0x8000_0000
    ensures forall k :: 0 <= k < pixelData.Length ==>
      pixelData[k] == computeColorForPixel(PixelColumn(sizeX, k), PixelRow(sizeX, k))
    ensures forall x: int32, y: int32 :: 0 <= x < sizeX && 0 <= y < sizeY ==>
      pixelData[PixelIndex(sizeX as int, sizeY as int, x as int, y as int)] == computeColorForPixel(x, y)
  {
    PixelCountFitsInt32(sizeX as int, sizeY as int);
    var numPixels: int32 := sizeX * sizeY;
    // SetNumUninitialized: the initial contents are never read, as every element is
    // written below.
    pixelData := new Color[numPixels as int](_ => Color(0, 0, 0, 0));
    var y: int32 := 0;
    while y < sizeY
      invariant 0 <= y <= sizeY
      invariant y as int * sizeX as int <= pixelData.Length
      invariant FilledUpTo(pixelData[..], sizeX, computeColorForPixel, y as int * sizeX as int)
    {
      FillRow(pixelData, sizeX, sizeY, y, computeColorForPixel);
      MulMonotone(y as int + 1, sizeY as int, sizeX as int);
      y := y + 1;
    }
    assert y as int * sizeX as int == pixelData.Length by {
      assert sizeY as int * sizeX as int == sizeX as int * sizeY as int;
    }
    forall x: int32, y: int32 | 0 <= x < sizeX && 0 <= y < sizeY
      ensures pixelData[PixelIndex(sizeX as int, sizeY as int, x as int, y as int)] == computeColorForPixel(x, y)
    {
      PixelIndexDecodes(sizeX as int, x as int, y as int);
    }
  }

  /** The inner loop of the pixel loop: row y, left to right, extends the filled part of
      the buffer by one row. */
  method FillRow(pixelData: array<Color>, sizeX: int32, sizeY: int32, y: int32,
                 computeColorForPixel: (int32, int32) -> Color)
    requires TextureSizeValid(sizeX as int, sizeY as int) && 0 <= y < sizeY
    requires pixelData.Length == sizeX as int * sizeY as int < 0x8000_0000
    requires FilledUpTo(pixelData[..], sizeX, computeColorForPixel, y as int * sizeX as int)
    modifies pixelData
    ensures (y as int + 1) * sizeX as int <= pixelData.Length
    ensures FilledUpTo(pixelData[..], sizeX, computeColorForPixel, (y as int + 1) * sizeX as int)
  {
    PixelIndexInRange(sizeX as int, sizeY as int, sizeX as int - 1, y as int);
    var x: int32 := 0;
    while x < sizeX
      invariant 0 <= x <= sizeX
      invariant FilledUpTo(pixelData[..], sizeX, computeColorForPixel, y as int * sizeX as int + x as int)
    {
      PixelIndexInRange(sizeX as int, sizeY as int, x as int, y as int);
      var index: int32 := y * sizeX + x;
      PixelIndexDecodes(sizeX as int, x as int, y as int);
      pixelData[index] := computeColorForPixel(x, y);
      x := x + 1;
    }
    assert y as int * sizeX as int + sizeX as int == (y as int + 1) * sizeX as int;
  }
}
