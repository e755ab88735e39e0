/** Drawing surfaces: the pointer-stepping loops that fill them, copy them and draw text on them. */
module Surfaces {
  import opened RowMajor
  import opened Geometry
  import opened Pixels

  datatype Option<T> = None | Some(value: T)

  /** The pixel of a buffer index. */
  function PointAt(i: nat, w: pos): Point {
    Point(XOf(i, w), YOf(i, w))
  }

  /** `n` pixels from (x, y) on are one run of the buffer. */
  lemma RowSpan(x: nat, y: nat, n: nat, w: pos, h: nat)
    requires x + n <= w && y < h
    ensures Index(x, y, w) + n <= Rows(h, w)
    ensures forall i | 0 <= i < Rows(h, w) ::
              Index(x, y, w) <= i < Index(x, y, w) + n <==> YOf(i, w) == y && x <= XOf(i, w) < x + n
  {
    RowsIncrease(y + 1, h, w);
    forall i | 0 <= i < Rows(h, w)
      ensures Index(x, y, w) <= i < Index(x, y, w) + n <==> YOf(i, w) == y && x <= XOf(i, w) < x + n
    {
      CoordinatesInverse(i, w, h);
      if YOf(i, w) < y {
        RowsIncrease(YOf(i, w) + 1, y, w);
      } else if YOf(i, w) > y {
        RowsIncrease(y + 1, YOf(i, w), w);
      }
    }
  }

  /** A rectangle without pixels, or one that lies on the surface. */
  predicate Drawable(r: Rect, window: Size) {
    r.size.width <= 0 || r.size.height <= 0 || Within(r, window)
  }

  class Surface {
    const width: pos
    const height: nat
    const channels: Channels
    const pixels: array<nat>

    ghost predicate Valid()
      reads this
    {
      pixels.Length == Rows(height, width) && channels.Valid()
    }

    function SizeOf(): Size {
      Size(width, height)
    }

    /** The pixel at a point of the surface. */
    ghost function Pixel(p: Point): nat
      reads this, pixels
      requires Valid() && WindowRect(SizeOf()).Contains(p)
    {
      PointInside(p);
      pixels[Index(p.x, p.y, width)]
    }

    lemma PointInside(p: Point)
      requires WindowRect(SizeOf()).Contains(p)
      ensures Index(p.x, p.y, width) < Rows(height, width) && PointAt(Index(p.x, p.y, width), width) == p
    {
      IndexInverse(p.x, p.y, width, height);
    }

    /** Writes one colour to `n` pixels in a row, and returns the pixel behind them. */
    method FillRow(start: nat, n: nat, color: nat) returns (ptr: nat)
      requires Valid() && start + n <= pixels.Length
      modifies pixels
      ensures ptr == start + n
      ensures forall i | 0 <= i < pixels.Length :: pixels[i] == if start <= i < ptr then color else old(pixels[i])
    {
      ptr := start;
      for x := 0 to n
        invariant ptr == start + x
        invariant forall i | 0 <= i < pixels.Length :: pixels[i] == if start <= i < ptr then color else old(pixels[i])
      {
        pixels[ptr] := color;
        ptr := ptr + 1;
      }
    }

    /** Fills the surface, or the given rectangle of it, with one colour. */
    method Fill(color: Color, clipper: Option<Rect>)
      requires Valid() && (clipper.Some? ==> Drawable(clipper.value, SizeOf()))
      modifies pixels
      ensures forall p | WindowRect(SizeOf()).Contains(p) ::
                Pixel(p) == if clipper.None? || clipper.value.Contains(p) then MapRgba(channels, color) else old(Pixel(p))
    {
      var intColor := MapRgba(channels, color);
      var clip := if clipper.Some? then clipper.value else WindowRect(SizeOf());
      if clip.size.width > 0 && clip.size.height > 0 {
        FillRows(intColor, clip);
      }
      forall p | WindowRect(SizeOf()).Contains(p)
        ensures Pixel(p) == if clip.Contains(p) then intColor else old(Pixel(p))
      {
        PointInside(p);
      }
    }

    /** Fills a rectangle row by row, stepping from the end of one row to the start of the next. */
    method FillRows(intColor: nat, clip: Rect)
      requires Valid() && clip.size.width > 0 && clip.size.height > 0 && Within(clip, SizeOf())
      modifies pixels
      ensures forall i | 0 <= i < pixels.Length ::
                pixels[i] == if clip.Contains(PointAt(i, width)) then intColor else old(pixels[i])
    {
      RowsIsProduct(clip.Top(), width);
      var ptr: int := clip.topLeft.x + clip.topLeft.y * width;
      var y := 0;
      while y < clip.size.height
        invariant 0 <= y <= clip.size.height && ptr == Index(clip.Left(), clip.Top() + y, width)
        invariant forall i | 0 <= i < pixels.Length ::
                    pixels[i] == if clip.Contains(PointAt(i, width)) && YOf(i, width) < clip.Top() + y
                                 then intColor else old(pixels[i])
      {
        RowSpan(clip.Left(), clip.Top() + y, clip.size.width, width, height);
        ptr := FillRow(ptr, clip.size.width, intColor);
        ptr := ptr + (width - clip.size.width);
        y := y + 1;
      }
    }

    /** Copies `n` pixels in a row from another surface, and returns both pixels behind them. */
    method CopyRow(start: nat, source: Surface, from: nat, n: nat, alpha: bool) returns (ptr: nat, src: nat)
      requires Valid() && source.Valid() && source.pixels != pixels
      requires start + n <= pixels.Length && from + n <= source.pixels.Length
      modifies pixels
      ensures ptr == start + n && src == from + n
      ensures forall i | 0 <= i < pixels.Length ::
                pixels[i] == if start <= i < ptr
                             then CopiedPixel(source.channels, channels, source.pixels[from + (i - start)], old(pixels[i]), alpha)
                             else old(pixels[i])
    {
      ptr, src := start, from;
      for x := 0 to n
        invariant ptr == start + x && src == from + x
        invariant forall i | 0 <= i < pixels.Length ::
                    pixels[i] == if start <= i < ptr
                                 then CopiedPixel(source.channels, channels, source.pixels[from + (i - start)], old(pixels[i]), alpha)
                                 else old(pixels[i])
      {
        pixels[ptr] := CopiedPixel(source.channels, channels, source.pixels[src], pixels[ptr], alpha);
        ptr := ptr + 1;
        src := src + 1;
      }
    }
  }

  /** The source pixel that a copy from `srcRect` to `dstRect` puts at `p`. */
  function Translated(p: Point, dstRect: Rect, srcRect: Rect): Point {
    Point(p.x - dstRect.topLeft.x + srcRect.topLeft.x, p.y - dstRect.topLeft.y + srcRect.topLeft.y)
  }

  /** Copies a rectangle of one surface to another; returns 1 and copies nothing if the sizes differ. */
  method CopySurface(destination: Surface, dst: Option<Rect>, source: Surface, src: Option<Rect>, alpha: bool)
    returns (failure: int)
    requires destination.Valid() && source.Valid() && source.pixels != destination.pixels
    requires dst.Some? ==> Drawable(dst.value, destination.SizeOf())
    requires src.Some? ==> Drawable(src.value, source.SizeOf())
    modifies destination.pixels
    ensures var dstRect := if dst.Some? then dst.value else WindowRect(destination.SizeOf());
            var srcRect := if src.Some? then src.value else WindowRect(source.SizeOf());
            && failure == (if dstRect.size == srcRect.size then 0 else 1)
            && forall p | WindowRect(destination.SizeOf()).Contains(p) ::
                 if failure == 0 && dstRect.Contains(p)
                 then WindowRect(source.SizeOf()).Contains(Translated(p, dstRect, srcRect))
                      && destination.Pixel(p) == CopiedPixel(source.channels, destination.channels,
                                                   source.Pixel(Translated(p, dstRect, srcRect)), old(destination.Pixel(p)), alpha)
                 else destination.Pixel(p) == old(destination.Pixel(p))
    ensures var to := if dst.Some? then dst.value.topLeft else Point(0, 0);
            var from := if src.Some? then src.value.topLeft else Point(0, 0);
            forall p | WindowRect(destination.SizeOf()).Contains(p) && failure == 0
                       && (dst.Some? ==> dst.value.Contains(p)) ::
              var q := Point(p.x - to.x + from.x, p.y - to.y + from.y);
              && WindowRect(source.SizeOf()).Contains(q)
              && Mixed(source.channels, destination.channels, source.Pixel(q), old(destination.Pixel(p)), alpha,
                       destination.Pixel(p))
  {
    hide CopiedPixel, Mixed;
    CopiesAreMixed(source.channels, destination.channels, alpha);
    var srcRect := if src.Some? then src.value else WindowRect(source.SizeOf());
    var dstRect := if dst.Some? then dst.value else WindowRect(destination.SizeOf());
    if dstRect.size.width != srcRect.size.width || dstRect.size.height != srcRect.size.height {
      return 1;
    }
    if srcRect.size.width > 0 && srcRect.size.height > 0 {
      CopyRows(destination, dstRect, source, srcRect, alpha);
    }
    return 0;
  }

  lemma TranslatedIndex(p: Point, dstRect: Rect, srcRect: Rect, dst: Surface, src: Surface)
    requires dstRect.size == srcRect.size && Within(dstRect, dst.SizeOf()) && Within(srcRect, src.SizeOf())
    requires dstRect.Contains(p)
    ensures WindowRect(dst.SizeOf()).Contains(p)
    ensures WindowRect(src.SizeOf()).Contains(Translated(p, dstRect, srcRect))
    ensures var q := Translated(p, dstRect, srcRect);
            Index(q.x, q.y, src.width)
            == Index(srcRect.Left(), q.y, src.width) + (Index(p.x, p.y, dst.width) - Index(dstRect.Left(), p.y, dst.width))
  {
  }

  /** Copies row `y` of the rectangle, given the buffer indices of its first pixels. */
  method CopyOneRow(destination: Surface, dstRect: Rect, source: Surface, srcRect: Rect, alpha: bool,
                    y: nat, dstPtr: nat, srcPtr: nat) returns (dstEnd: int, srcEnd: int)
    requires destination.Valid() && source.Valid() && source.pixels != destination.pixels
    requires dstRect.size == srcRect.size && srcRect.size.width > 0 && y < srcRect.size.height
    requires Within(dstRect, destination.SizeOf()) && Within(srcRect, source.SizeOf())
    requires srcPtr == Index(srcRect.Left(), srcRect.Top() + y, source.width)
    requires dstPtr == Index(dstRect.Left(), dstRect.Top() + y, destination.width)
    modifies destination.pixels
    ensures dstEnd == dstPtr + srcRect.size.width && srcEnd == srcPtr + srcRect.size.width
    ensures forall p | WindowRect(destination.SizeOf()).Contains(p) ::
              destination.Pixel(p) == if dstRect.Contains(p) && p.y == dstRect.Top() + y
                then CopiedPixel(source.channels, destination.channels,
                                 source.Pixel(Translated(p, dstRect, srcRect)), old(destination.Pixel(p)), alpha)
                else old(destination.Pixel(p))
  {
    hide CopiedPixel;
    RowSpan(dstRect.Left(), dstRect.Top() + y, srcRect.size.width, destination.width, destination.height);
    RowSpan(srcRect.Left(), srcRect.Top() + y, srcRect.size.width, source.width, source.height);
    dstEnd, srcEnd := destination.CopyRow(dstPtr, source, srcPtr, srcRect.size.width, alpha);
    forall p | WindowRect(destination.SizeOf()).Contains(p)
      ensures destination.Pixel(p) == if dstRect.Contains(p) && p.y == dstRect.Top() + y
                then CopiedPixel(source.channels, destination.channels,
                                 source.Pixel(Translated(p, dstRect, srcRect)), old(destination.Pixel(p)), alpha)
                else old(destination.Pixel(p))
    {
      destination.PointInside(p);
      if dstRect.Contains(p) && p.y == dstRect.Top() + y {
        TranslatedIndex(p, dstRect, srcRect, destination, source);
      }
    }
  }

  method CopyRows(destination: Surface, dstRect: Rect, source: Surface, srcRect: Rect, alpha: bool)
    requires destination.Valid() && source.Valid() && source.pixels != destination.pixels
    requires dstRect.size == srcRect.size && srcRect.size.width > 0 && srcRect.size.height > 0
    requires Within(dstRect, destination.SizeOf()) && Within(srcRect, source.SizeOf())
    modifies destination.pixels
    ensures forall p | WindowRect(destination.SizeOf()).Contains(p) ::
              destination.Pixel(p) == if dstRect.Contains(p)
                then CopiedPixel(source.channels, destination.channels,
                                 source.Pixel(Translated(p, dstRect, srcRect)), old(destination.Pixel(p)), alpha)
                else old(destination.Pixel(p))
  {
    RowsIsProduct(srcRect.Top(), source.width);
    RowsIsProduct(dstRect.Top(), destination.width);
    var srcPtr: int := srcRect.topLeft.x + srcRect.topLeft.y * source.width;
    var dstPtr: int := dstRect.topLeft.x + dstRect.topLeft.y * destination.width;
    var y := 0;
    while y < srcRect.size.height
      invariant 0 <= y <= srcRect.size.height
      invariant srcPtr == Index(srcRect.Left(), srcRect.Top() + y, source.width)
      invariant dstPtr == Index(dstRect.Left(), dstRect.Top() + y, destination.width)
      invariant forall p | WindowRect(destination.SizeOf()).Contains(p) ::
                  destination.Pixel(p) == if dstRect.Contains(p) && p.y < dstRect.Top() + y
                    then CopiedPixel(source.channels, destination.channels,
                                     source.Pixel(Translated(p, dstRect, srcRect)), old(destination.Pixel(p)), alpha)
                    else old(destination.Pixel(p))
    {
      dstPtr, srcPtr := CopyOneRow(destination, dstRect, source, srcRect, alpha, y, dstPtr, srcPtr);
      srcPtr := srcPtr + (source.width - srcRect.size.width);
      dstPtr := dstPtr + (destination.width - srcRect.size.width);
      y := y + 1;
    }
  }

  /** Draws a rendered text with its top left corner at `at`, restricted to the clip. */
  method DrawText(surface: Surface, at: Point, text: Surface, clipper: Option<Rect>)
    requires surface.Valid() && text.Valid() && text.pixels != surface.pixels
    requires Drawable(if clipper.Some? then Intersection(Rect(at, text.SizeOf()), clipper.value)
                      else Rect(at, text.SizeOf()), surface.SizeOf())
    modifies surface.pixels
    ensures forall p | WindowRect(surface.SizeOf()).Contains(p) ::
              surface.Pixel(p) == if Rect(at, text.SizeOf()).Contains(p) && (clipper.None? || clipper.value.Contains(p))
                then CopiedPixel(text.channels, surface.channels,
                                 text.Pixel(Point(p.x - at.x, p.y - at.y)), old(surface.Pixel(p)), true)
                else old(surface.Pixel(p))
    ensures forall p | WindowRect(surface.SizeOf()).Contains(p) && Rect(at, text.SizeOf()).Contains(p)
                       && (clipper.Some? ==> clipper.value.Contains(p)) ::
              Mixed(text.channels, surface.channels, text.Pixel(Point(p.x - at.x, p.y - at.y)), old(surface.Pixel(p)), true,
                    surface.Pixel(p))
  {
    hide CopiedPixel, Mixed, Surface.Pixel, Intersection;
    if clipper.Some? {
      DrawClippedText(surface, at, text, clipper.value);
    } else {
      DrawWholeText(surface, at, text);
    }
  }

  method DrawWholeText(surface: Surface, at: Point, text: Surface)
    requires surface.Valid() && text.Valid() && text.pixels != surface.pixels
    requires Drawable(Rect(at, text.SizeOf()), surface.SizeOf())
    modifies surface.pixels
    ensures forall p | WindowRect(surface.SizeOf()).Contains(p) ::
              surface.Pixel(p) == if Rect(at, text.SizeOf()).Contains(p)
                then CopiedPixel(text.channels, surface.channels,
                                 text.Pixel(Point(p.x - at.x, p.y - at.y)), old(surface.Pixel(p)), true)
                else old(surface.Pixel(p))
    ensures forall p | WindowRect(surface.SizeOf()).Contains(p) && Rect(at, text.SizeOf()).Contains(p) ::
              Mixed(text.channels, surface.channels, text.Pixel(Point(p.x - at.x, p.y - at.y)), old(surface.Pixel(p)), true,
                    surface.Pixel(p))
  {
    hide CopiedPixel, Surface.Pixel, Mixed;
    CopiesAreMixed(text.channels, surface.channels, true);
    assert forall p :: Translated(p, Rect(at, text.SizeOf()), WindowRect(text.SizeOf())) == Point(p.x - at.x, p.y - at.y);
    var failure := CopySurface(surface, Some(Rect(at, text.SizeOf())), text, None, true);
  }

  method DrawClippedText(surface: Surface, at: Point, text: Surface, clip: Rect)
    requires surface.Valid() && text.Valid() && text.pixels != surface.pixels
    requires Drawable(Intersection(Rect(at, text.SizeOf()), clip), surface.SizeOf())
    modifies surface.pixels
    ensures forall p | WindowRect(surface.SizeOf()).Contains(p) ::
              surface.Pixel(p) == if Rect(at, text.SizeOf()).Contains(p) && clip.Contains(p)
                then CopiedPixel(text.channels, surface.channels,
                                 text.Pixel(Point(p.x - at.x, p.y - at.y)), old(surface.Pixel(p)), true)
                else old(surface.Pixel(p))
    ensures forall p | WindowRect(surface.SizeOf()).Contains(p) && Rect(at, text.SizeOf()).Contains(p) && clip.Contains(p) ::
              Mixed(text.channels, surface.channels, text.Pixel(Point(p.x - at.x, p.y - at.y)), old(surface.Pixel(p)), true,
                    surface.Pixel(p))
  {
    hide CopiedPixel, Surface.Pixel, Mixed;
    CopiesAreMixed(text.channels, surface.channels, true);
    var dstRect := Intersection(Rect(at, text.SizeOf()), clip);
    var srcRect := Rect(Point(Max(0, dstRect.topLeft.x - at.x), Max(0, dstRect.topLeft.y - at.y)), dstRect.size);
    assert srcRect.topLeft == Point(dstRect.topLeft.x - at.x, dstRect.topLeft.y - at.y);
    IntersectionIsExact(Rect(at, text.SizeOf()), clip);
    assert forall p :: Translated(p, dstRect, srcRect) == Point(p.x - at.x, p.y - at.y);
    assert Drawable(srcRect, text.SizeOf());
    var failure := CopySurface(surface, Some(dstRect), text, Some(srcRect), true);
  }
}
