/**
 * Packed RGB pixels, images seen through windows (getSubimage), the two
 * Graphics primitives the compressor uses (fillRect and drawImage), and the
 * conversions between a pixel array [x][y][channel] and a packed image.
 *
 * An image of type TYPE_INT_RGB is an array2<int> indexed [x, y]: Length0 is
 * its width and Length1 its height. Each entry holds the 24 colour bits
 * (r << 16) | (g << 8) | b; for channels in 0..255 the three fields do not
 * overlap, so the shifts and the bitwise or are r * 0x10000 + g * 0x100 + b.
 */
module Raster {
  import opened Outcomes

  const Black := 0

  predicate IsChannel(v: int) { 0 <= v < 0x100 }

  predicate IsPacked(rgb: int) { 0 <= rgb < 0x100_0000 }

  /** (red << 16) | (green << 8) | blue */
  function Pack(red: int, green: int, blue: int): (rgb: int)
    requires IsChannel(red) && IsChannel(green) && IsChannel(blue)
    ensures IsPacked(rgb)
  {
    red * 0x10000 + green * 0x100 + blue
  }

  // For a positive divisor Dafny's / floors and its % is never negative, so
  // these are Java's (rgb >> k) & 0xFF for every int rgb, negative ones included.

  /** (rgb >> 16) & 0xFF */
  function Red(rgb: int): (v: int)
    ensures IsChannel(v)
  {
    (rgb / 0x10000) % 0x100
  }

  /** (rgb >> 8) & 0xFF */
  function Green(rgb: int): (v: int)
    ensures IsChannel(v)
  {
    (rgb / 0x100) % 0x100
  }

  /** rgb & 0xFF */
  function Blue(rgb: int): (v: int)
    ensures IsChannel(v)
  {
    rgb % 0x100
  }

  /** Unpacking a packed pixel gives back the three channels it was packed from. */
  lemma UnpackPack(red: int, green: int, blue: int)
    requires IsChannel(red) && IsChannel(green) && IsChannel(blue)
    ensures Red(Pack(red, green, blue)) == red
    ensures Green(Pack(red, green, blue)) == green
    ensures Blue(Pack(red, green, blue)) == blue
  {
    var rgb := Pack(red, green, blue);
    assert rgb / 0x10000 == red;
    assert rgb / 0x100 == red * 0x100 + green;
    assert rgb % 0x100 == blue;
  }

  /** Every 24-bit pixel is the packing of its own three channels. */
  lemma PackUnpack(rgb: int)
    requires IsPacked(rgb)
    ensures Pack(Red(rgb), Green(rgb), Blue(rgb)) == rgb
  {
    var hi := rgb / 0x10000;
    var mid := rgb % 0x10000;
    assert rgb == hi * 0x10000 + mid;
    assert hi < 0x100;
    assert Red(rgb) == hi;
    assert rgb / 0x100 == hi * 0x100 + mid / 0x100;
    assert Green(rgb) == mid / 0x100;
    assert Blue(rgb) == mid % 0x100;
  }

  /**
   * A BufferedImage as getSubimage leaves it: a window of size width x height
   * whose pixel (x, y) is the entry (left + x, top + y) of a shared array.
   */
  datatype View = View(data: array2<int>, left: nat, top: nat, width: nat, height: nat)
  {
    ghost predicate Valid()
      reads data
    {
      left + width <= data.Length0 && top + height <= data.Length1
    }

    /** getRGB(x, y), without the constant alpha bits. */
    function GetRGB(x: int, y: int): int
      reads data
      requires Valid() && 0 <= x < width && 0 <= y < height
    {
      data[left + x, top + y]
    }
  }

  /** The whole of an image, as a window. */
  function Whole(image: array2<int>): (v: View)
    ensures v.Valid() && v.width == image.Length0 && v.height == image.Length1
  {
    View(image, 0, 0, image.Length0, image.Length1)
  }

  /**
   * getSubimage(x, y, w, h): the window w x h at (x, y) of v, sharing its
   * pixels; a zero width or height is a RasterFormatException.
   */
  function Subimage(v: View, x: nat, y: nat, w: nat, h: nat): (r: Result<View>)
    reads v.data
    requires v.Valid() && x + w <= v.width && y + h <= v.height
    ensures r.Ok? <==> w > 0 && h > 0
    ensures r.Ok? ==> r.value.Valid() && r.value.data == v.data && r.value.width == w && r.value.height == h
    ensures r.Ok? ==> forall i, j :: 0 <= i < w && 0 <= j < h ==> r.value.GetRGB(i, j) == v.GetRGB(x + i, y + j)
  {
    if w == 0 || h == 0 then Err(EmptySubimage) else Ok(View(v.data, v.left + x, v.top + y, w, h))
  }

  /** True when (i, j) lies in the w x h rectangle whose corner is (x, y). */
  predicate InRect(i: int, j: int, x: int, y: int, w: int, h: int)
  {
    x <= i < x + w && y <= j < y + h
  }

  function Max(a: int, b: int): int { if a < b then b else a }

  function Min(a: int, b: int): int { if a < b then a else b }

  /**
   * Graphics.fillRect(x, y, w, h) in colour rgb: the rectangle, clipped to the
   * canvas, takes colour rgb and every other pixel keeps its value.
   */
  method FillRect(canvas: array2<int>, x: int, y: int, w: int, h: int, rgb: int)
    modifies canvas
    ensures forall i, j :: 0 <= i < canvas.Length0 && 0 <= j < canvas.Length1 ==>
      canvas[i, j] == if InRect(i, j, x, y, w, h) then rgb else old(canvas[i, j])
  {
    var x0, x1 := Max(x, 0), Min(x + w, canvas.Length0);
    var y0, y1 := Max(y, 0), Min(y + h, canvas.Length1);
    var i := x0;
    while i < x1
      invariant x0 <= i || x1 <= x0
      invariant forall a, b :: 0 <= a < canvas.Length0 && 0 <= b < canvas.Length1 ==>
        canvas[a, b] == if InRect(a, b, x, y, w, h) && a < i then rgb else old(canvas[a, b])
    {
      var j := y0;
      while j < y1
        invariant forall a, b :: 0 <= a < canvas.Length0 && 0 <= b < canvas.Length1 ==>
          canvas[a, b] == if InRect(a, b, x, y, w, h) && (a < i || (a == i && b < j)) then rgb else old(canvas[a, b])
      {
        canvas[i, j] := rgb;
        j := j + 1;
      }
      i := i + 1;
    }
  }

  /**
   * Graphics.drawImage(part, x, y): every pixel of part lands at offset
   * (x, y) on the canvas, clipped to the canvas; the rest is unchanged.
   */
  method DrawImage(canvas: array2<int>, part: View, x: int, y: int)
    requires part.Valid() && part.data != canvas
    modifies canvas
    ensures forall i, j :: 0 <= i < canvas.Length0 && 0 <= j < canvas.Length1 ==>
      canvas[i, j] == if InRect(i, j, x, y, part.width, part.height) then part.GetRGB(i - x, j - y) else old(canvas[i, j])
  {
    var x0, x1 := Max(x, 0), Min(x + part.width, canvas.Length0);
    var y0, y1 := Max(y, 0), Min(y + part.height, canvas.Length1);
    var i := x0;
    while i < x1
      invariant x0 <= i || x1 <= x0
      invariant forall a, b :: 0 <= a < canvas.Length0 && 0 <= b < canvas.Length1 ==>
        canvas[a, b] == if InRect(a, b, x, y, part.width, part.height) && a < i then part.GetRGB(a - x, b - y) else old(canvas[a, b])
    {
      var j := y0;
      while j < y1
        invariant forall a, b :: 0 <= a < canvas.Length0 && 0 <= b < canvas.Length1 ==>
          canvas[a, b] == if InRect(a, b, x, y, part.width, part.height) && (a < i || (a == i && b < j))
                          then part.GetRGB(a - x, b - y) else old(canvas[a, b])
      {
        canvas[i, j] := part.GetRGB(i - x, j - y);
        j := j + 1;
      }
      i := i + 1;
    }
  }

  /** The packed pixel held at [x][y] of a pixel array. */
  function PackedAt(pixels: array3<int>, x: int, y: int): int
    reads pixels
    requires 0 <= x < pixels.Length0 && 0 <= y < pixels.Length1 && 3 <= pixels.Length2
    requires IsChannel(pixels[x, y, 0]) && IsChannel(pixels[x, y, 1]) && IsChannel(pixels[x, y, 2])
  {
    Pack(pixels[x, y, 0], pixels[x, y, 1], pixels[x, y, 2])
  }

  /** Every channel value stored in the pixel array lies in 0..255. */
  ghost predicate ChannelsInRange(pixels: array3<int>)
    reads pixels
  {
    forall x, y, c :: 0 <= x < pixels.Length0 && 0 <= y < pixels.Length1 && 0 <= c < pixels.Length2 ==>
      IsChannel(pixels[x, y, c])
  }

  /**
   * convertPixelsToImage: a width x height image whose pixel (x, y) packs the
   * three channels at pixels[x][y]. An array with no column fails on
   * pixelData[0], one with no row fails to allocate the image, and one with
   * fewer than three channels fails on the first pixel.
   */
  method ConvertPixelsToImage(pixels: array3<int>) returns (r: Result<array2<int>>)
    requires ChannelsInRange(pixels)
    ensures r.Ok? <==> pixels.Length0 > 0 && pixels.Length1 > 0 && pixels.Length2 >= 3
    ensures r == Err(EmptyImage) <==> pixels.Length0 == 0 || pixels.Length1 == 0
    ensures r.Ok? ==> r.value.Length0 == pixels.Length0 && r.value.Length1 == pixels.Length1
    ensures r.Ok? ==> forall x, y :: 0 <= x < pixels.Length0 && 0 <= y < pixels.Length1 ==>
      r.value[x, y] == PackedAt(pixels, x, y)
  {
    var width, height := pixels.Length0, pixels.Length1;
    if width == 0 || height == 0 {
      return Err(EmptyImage);
    }
    if pixels.Length2 < 3 {
      return Err(MissingChannel);
    }
    var image := new int[width, height];
    for x := 0 to width
      invariant forall i, j :: 0 <= i < x && 0 <= j < height ==> image[i, j] == PackedAt(pixels, i, j)
    {
      for y := 0 to height
        invariant forall i, j :: 0 <= i < x && 0 <= j < height ==> image[i, j] == PackedAt(pixels, i, j)
        invariant forall j :: 0 <= j < y ==> image[x, j] == PackedAt(pixels, x, j)
      {
        image[x, y] := Pack(pixels[x, y, 0], pixels[x, y, 1], pixels[x, y, 2]);
      }
    }
    return Ok(image);
  }

  /**
   * ImageToPixels: a width x height x 3 pixel array holding, at [x][y], the
   * red, green and blue channels of pixel (x, y).
   */
  method ImageToPixels(image: array2<int>) returns (pixels: array3<int>)
    ensures pixels.Length0 == image.Length0 && pixels.Length1 == image.Length1 && pixels.Length2 == 3
    ensures forall x, y :: 0 <= x < image.Length0 && 0 <= y < image.Length1 ==>
      pixels[x, y, 0] == Red(image[x, y]) && pixels[x, y, 1] == Green(image[x, y]) && pixels[x, y, 2] == Blue(image[x, y])
  {
    var width, height := image.Length0, image.Length1;
    pixels := new int[width, height, 3];
    for x := 0 to width
      invariant forall i, j :: 0 <= i < x && 0 <= j < height ==>
        pixels[i, j, 0] == Red(image[i, j]) && pixels[i, j, 1] == Green(image[i, j]) && pixels[i, j, 2] == Blue(image[i, j])
    {
      for y := 0 to height
        invariant forall i, j :: 0 <= i < x && 0 <= j < height ==>
          pixels[i, j, 0] == Red(image[i, j]) && pixels[i, j, 1] == Green(image[i, j]) && pixels[i, j, 2] == Blue(image[i, j])
        invariant forall j :: 0 <= j < y ==>
          pixels[x, j, 0] == Red(image[x, j]) && pixels[x, j, 1] == Green(image[x, j]) && pixels[x, j, 2] == Blue(image[x, j])
      {
        var rgb := image[x, y];
        pixels[x, y, 0] := Red(rgb);
        pixels[x, y, 1] := Green(rgb);
        pixels[x, y, 2] := Blue(rgb);
      }
    }
  }
}
