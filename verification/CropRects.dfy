/** Crop rectangles over a pixel surface: clamping, content bounds, expansion and fitting. */
module CropRects {
  import opened Wrappers

  datatype Rect = Rect(x: int, y: int, w: int, h: int) {
    function Right(): (r: int) { x + w }
    function Bottom(): (b: int) { y + h }
    predicate Valid() { 0 < w && 0 < h }
    predicate Contains(px: int, py: int) { x <= px < Right() && y <= py < Bottom() }

    /** A non-empty rectangle on a surface of the given size. */
    predicate Fits(width: int, height: int) {
      Valid() && 0 <= x && 0 <= y && Right() <= width && Bottom() <= height
    }

    predicate Covers(r: Rect) {
      x <= r.x && y <= r.y && r.Right() <= Right() && r.Bottom() <= Bottom()
    }
  }

  const EMPTY := Rect(0, 0, 0, 0)

  /** A surface as its size, its colour mask and the pixel value at each place. */
  datatype Image = Image(width: int, height: int, mask: bv32, pixel: (int, int) -> bv32) {
    predicate Valid() { 0 < width && 0 < height && mask != 0 }
    function Rgb(x: int, y: int): (c: bv32) { pixel(x, y) & mask }
    predicate On(x: int, y: int) { 0 <= x < width && 0 <= y < height }

    /** A pixel of the surface that differs from the border colour. */
    predicate Shows(border: bv32, x: int, y: int) { On(x, y) && Rgb(x, y) != border & mask }

    ghost predicate ShowsInColumn(border: bv32, x: int) { exists y :: Shows(border, x, y) }
    ghost predicate ShowsInRow(border: bv32, y: int) { exists x :: Shows(border, x, y) }

    /** A visible pixel outside the crop. */
    predicate ShowsOutside(border: bv32, crop: Rect, x: int, y: int) {
      Shows(border, x, y) && !crop.Contains(x, y)
    }
  }

  function Clamp(v: int, lo: int, hi: int): (c: int) { if v < lo then lo else if hi < v then hi else v }

  /** libretro_crop_clamp_rect. */
  function ClampRect(width: int, height: int, r: Rect): (c: Rect) {
    if width <= 0 || height <= 0 || r.w <= 0 || r.h <= 0 then EMPTY
    else
      var w, h := Min(r.w, width), Min(r.h, height);
      Rect(Clamp(r.x, 0, width - w), Clamp(r.y, 0, height - h), w, h)
  }

  /**
   * Clamping gives a rectangle on the surface whenever there is one to give, and nothing
   * otherwise. It keeps exactly the rectangles that are on it already, cuts to the surface, and
   * moves a side that sticks out to the edge it crosses.
   */
  lemma ClampFits(width: int, height: int, r: Rect)
    ensures ClampRect(width, height, r).Fits(width, height) <==> 0 < width && 0 < height && r.Valid()
    ensures r.Valid() ==> (ClampRect(width, height, r) == r <==> r.Fits(width, height))
    ensures ClampRect(width, height, ClampRect(width, height, r)) == ClampRect(width, height, r)
    ensures !(0 < width && 0 < height && r.Valid()) ==> ClampRect(width, height, r) == Rect(0, 0, 0, 0)
    ensures 0 < width && 0 < height && r.Valid() ==>
              var c := ClampRect(width, height, r);
              && c.w == (if r.w < width then r.w else width) && c.h == (if r.h < height then r.h else height)
              && c.x == (if r.x < 0 then 0 else if width < r.x + c.w then width - c.w else r.x)
              && c.y == (if r.y < 0 then 0 else if height < r.y + c.h then height - c.h else r.y)
  {
  }

  /** (a, b) comes before (x, y) in a scan by rows. */
  predicate Scanned(a: int, b: int, x: int, y: int) { b < y || (b == y && a < x) }

  /** r contains every visible pixel, and each of its edges touches one. */
  ghost predicate BoundsContent(img: Image, border: bv32, r: Rect) {
    && r.Fits(img.width, img.height)
    && (forall x, y :: img.Shows(border, x, y) ==> r.Contains(x, y))
    && img.ShowsInColumn(border, r.x) && img.ShowsInColumn(border, r.Right() - 1)
    && img.ShowsInRow(border, r.y) && img.ShowsInRow(border, r.Bottom() - 1)
  }

  /** There is at most one such rectangle. */
  lemma BoundsAreUnique(img: Image, border: bv32, r: Rect, s: Rect)
    requires BoundsContent(img, border, r) && BoundsContent(img, border, s)
    ensures r == s
  {
  }

  /** Lowest and highest coordinates of the pixels found so far. */
  datatype Extent = Extent(minX: int, minY: int, maxX: int, maxY: int) {
    function Add(x: int, y: int): (e: Extent) {
      Extent(Min(minX, x), Min(minY, y), Max(maxX, x), Max(maxY, y))
    }
    function Box(): (r: Rect) { Rect(minX, minY, maxX - minX + 1, maxY - minY + 1) }
    predicate Spans(x: int, y: int) { minX <= x <= maxX && minY <= y <= maxY }
  }

  /** e spans the points of s, and each of its sides is that of base or of a point of s. */
  ghost predicate Tight(e: Extent, base: Extent, s: set<(int, int)>) {
    && (forall x, y :: (x, y) in s ==> e.Spans(x, y))
    && e.minX <= base.minX && e.minY <= base.minY && base.maxX <= e.maxX && base.maxY <= e.maxY
    && (e.minX == base.minX || exists y :: (e.minX, y) in s)
    && (e.minY == base.minY || exists x :: (x, e.minY) in s)
    && (e.maxX == base.maxX || exists y :: (e.maxX, y) in s)
    && (e.maxY == base.maxY || exists x :: (x, e.maxY) in s)
  }

  lemma TightAdds(e: Extent, base: Extent, s: set<(int, int)>, x: int, y: int)
    requires Tight(e, base, s)
    ensures Tight(e.Add(x, y), base, s + {(x, y)})
  {
  }

  /** The visible pixels that a scan has passed, outside the crop. */
  ghost predicate Found(img: Image, border: bv32, crop: Rect, s: set<(int, int)>, x: int, y: int) {
    forall a, b :: (a, b) in s <==> img.ShowsOutside(border, crop, a, b) && Scanned(a, b, x, y)
  }

  lemma FoundSkips(img: Image, border: bv32, crop: Rect, s: set<(int, int)>, x: int, y: int)
    requires Found(img, border, crop, s, x, y) && !img.ShowsOutside(border, crop, x, y)
    ensures Found(img, border, crop, s, x + 1, y)
  {
  }

  lemma FoundAdds(img: Image, border: bv32, crop: Rect, s: set<(int, int)>, x: int, y: int)
    requires Found(img, border, crop, s, x, y) && img.ShowsOutside(border, crop, x, y)
    ensures Found(img, border, crop, s + {(x, y)}, x + 1, y) && (x, y) !in s
  {
  }

  lemma FoundWraps(img: Image, border: bv32, crop: Rect, s: set<(int, int)>, y: int)
    requires Found(img, border, crop, s, img.width, y)
    ensures Found(img, border, crop, s, 0, y + 1)
  {
  }

  /**
   * The scan shared by the bounds and the expansion: counts the visible pixels outside the crop
   * and stretches an extent over them.
   */
  method ScanOutside(img: Image, border: bv32, crop: Rect, base: Extent)
      returns (count: nat, e: Extent, ghost s: set<(int, int)>)
    requires img.Valid()
    ensures forall x, y :: (x, y) in s <==> img.ShowsOutside(border, crop, x, y)
    ensures count == |s| && Tight(e, base, s)
  {
    hide Tight, Found, Image.ShowsOutside, Extent.Add;
    count, e, s := 0, base, {};
    StartOfScan(img, border, crop, base);
    var y := 0;
    while y < img.height
      invariant 0 <= y <= img.height
      invariant Found(img, border, crop, s, 0, y) && count == |s| && Tight(e, base, s)
    {
      var x := 0;
      while x < img.width
        invariant 0 <= x <= img.width
        invariant Found(img, border, crop, s, x, y) && count == |s| && Tight(e, base, s)
      {
        if img.ShowsOutside(border, crop, x, y) {
          FoundAdds(img, border, crop, s, x, y);
          TightAdds(e, base, s, x, y);
          count := count + 1;
          e := e.Add(x, y);
          s := s + {(x, y)};
        } else {
          FoundSkips(img, border, crop, s, x, y);
        }
        x := x + 1;
      }
      FoundWraps(img, border, crop, s, y);
      y := y + 1;
    }
    EndOfScan(img, border, crop, s);
  }

  lemma StartOfScan(img: Image, border: bv32, crop: Rect, base: Extent)
    ensures Found(img, border, crop, {}, 0, 0) && Tight(base, base, {})
  {
  }

  lemma EndOfScan(img: Image, border: bv32, crop: Rect, s: set<(int, int)>)
    requires Found(img, border, crop, s, 0, img.height)
    ensures forall x, y :: (x, y) in s <==> img.ShowsOutside(border, crop, x, y)
  {
  }

  /** libretro_crop_find_visible_content_bounds: the bounding box of the visible pixels, if any. */
  method FindVisibleContentBounds(img: Image, border: bv32) returns (found: bool, bounds: Rect)
    ensures found <==> img.Valid() && exists x, y :: img.Shows(border, x, y)
    ensures found ==> BoundsContent(img, border, bounds)
  {
    hide Image.Shows;
    bounds := EMPTY;
    if !img.Valid() {
      return false, bounds;
    }
    var base := Extent(img.width, img.height, -1, -1);
    var _, e, s := ScanOutside(img, border, EMPTY, base);
    assert forall x, y :: (x, y) in s <==> img.Shows(border, x, y);
    BoundsFromScan(img, border, e, s);
    if e.maxX < e.minX || e.maxY < e.minY {
      return false, bounds;
    }
    return true, e.Box();
  }

  lemma BoundsFromScan(img: Image, border: bv32, e: Extent, s: set<(int, int)>)
    requires img.Valid() && (forall x, y :: (x, y) in s <==> img.Shows(border, x, y))
    requires Tight(e, Extent(img.width, img.height, -1, -1), s)
    ensures e.maxX < e.minX || e.maxY < e.minY <==> !exists x, y :: img.Shows(border, x, y)
    ensures e.maxX < e.minX || e.maxY < e.minY || BoundsContent(img, border, e.Box())
  {
  }

  /** Everything the crop and the visible pixels outside it need, and nothing more. */
  ghost predicate IsHull(img: Image, border: bv32, crop: Rect, r: Rect) {
    && r.Fits(img.width, img.height) && r.Covers(crop)
    && (forall x, y :: img.Shows(border, x, y) ==> r.Contains(x, y))
    && (r.x == crop.x || img.ShowsInColumn(border, r.x))
    && (r.y == crop.y || img.ShowsInRow(border, r.y))
    && (r.Right() == crop.Right() || img.ShowsInColumn(border, r.Right() - 1))
    && (r.Bottom() == crop.Bottom() || img.ShowsInRow(border, r.Bottom() - 1))
  }

  /** The hull is the least rectangle that covers the crop and contains all visible pixels. */
  lemma HullIsLeast(img: Image, border: bv32, crop: Rect, r: Rect, s: Rect)
    requires crop.Valid() && IsHull(img, border, crop, r) && s.Covers(crop)
    requires forall x, y :: img.Shows(border, x, y) ==> s.Contains(x, y)
    ensures s.Covers(r)
  {
  }

  function ExtentOf(r: Rect): (e: Extent) {
    Extent(r.x, r.y, r.Right() - 1, r.Bottom() - 1)
  }

  lemma HullFromScan(img: Image, border: bv32, crop: Rect, e: Extent, s: set<(int, int)>)
    requires img.Valid() && crop.Fits(img.width, img.height)
    requires forall x, y :: (x, y) in s <==> img.ShowsOutside(border, crop, x, y)
    requires Tight(e, ExtentOf(crop), s)
    ensures IsHull(img, border, crop, e.Box())
    ensures e.Box() == crop <==> s == {}
  {
    var r := e.Box();
    assert r.Right() - 1 == e.maxX && r.Bottom() - 1 == e.maxY;
    if e.minX != crop.x { var y :| (e.minX, y) in s; assert img.Shows(border, e.minX, y); }
    if e.minY != crop.y { var x :| (x, e.minY) in s; assert img.Shows(border, x, e.minY); }
    if e.maxX != crop.Right() - 1 { var y :| (e.maxX, y) in s; assert img.Shows(border, e.maxX, y); }
    if e.maxY != crop.Bottom() - 1 { var x :| (x, e.maxY) in s; assert img.Shows(border, x, e.maxY); }
    forall x, y | img.Shows(border, x, y) ensures r.Contains(x, y) {
      if !crop.Contains(x, y) {
        assert (x, y) in s;
        assert e.Spans(x, y);
      }
    }
    if s != {} {
      var p :| p in s;
      assert (p.0, p.1) in s;
      assert e.Spans(p.0, p.1);
    }
  }

  /** s is the set of the visible pixels outside the crop. */
  ghost predicate AreOutside(img: Image, border: bv32, crop: Rect, s: set<(int, int)>) {
    forall x, y :: (x, y) in s <==> img.ShowsOutside(border, crop, x, y)
  }

  /**
   * libretro_crop_expand_to_visible_content: with enough visible pixels outside, at least one,
   * the crop grows to the hull; it stays as it is otherwise.
   */
  method ExpandToVisibleContent(img: Image, border: bv32, minOutside: int, crop: Rect)
      returns (changed: bool, expanded: Rect, ghost outside: set<(int, int)>)
    ensures !changed ==> expanded == crop
    ensures changed ==> img.Valid() && crop.Fits(img.width, img.height)
    ensures img.Valid() && crop.Fits(img.width, img.height) ==>
              && AreOutside(img, border, crop, outside)
              && (changed <==> Max(1, minOutside) <= |outside|)
              && (changed ==> expanded != crop && IsHull(img, border, crop, expanded))
  {
    hide Tight, Image.ShowsOutside, IsHull;
    changed, expanded, outside := false, crop, {};
    if !img.Valid() || !crop.Fits(img.width, img.height) {
      return;
    }
    var required := Max(1, minOutside);
    var count, e, s := ScanOutside(img, border, crop, ExtentOf(crop));
    outside := s;
    if count < required {
      return;
    }
    HullFromScan(img, border, crop, e, s);
    HullFits(img, border, crop, e.Box());
    var r := ClampRect(img.width, img.height, e.Box());
    ClampFits(img.width, img.height, e.Box());
    if r == crop {
      return;
    }
    return true, r, s;
  }

  lemma HullFits(img: Image, border: bv32, crop: Rect, r: Rect)
    requires IsHull(img, border, crop, r)
    ensures r.Fits(img.width, img.height)
  {
  }

  // ----- Moving a fixed crop over the content -----

  /** One axis of the fit: centred over wider content, else moved just as far as needed. */
  function FitAxis(pos: int, size: int, contentPos: int, contentSize: int, limit: int): (p: int) {
    if size < contentSize then Clamp(contentPos + contentSize / 2 - size / 2, 0, limit - size)
    else
      var p1 := if contentPos < pos then contentPos else pos;
      var p2 := if p1 + size < contentPos + contentSize then contentPos + contentSize - size else p1;
      Clamp(p2, 0, limit - size)
  }

  /** libretro_crop_fit_rect_to_visible_content. */
  function FitRect(width: int, height: int, content: Rect, crop: Rect): (r: Rect) {
    if width <= 0 || height <= 0 || !content.Valid() || !crop.Valid() then crop
    else
      var f, c := ClampRect(width, height, crop), ClampRect(width, height, content);
      Rect(FitAxis(f.x, f.w, c.x, c.w, width), FitAxis(f.y, f.h, c.y, c.h, height), f.w, f.h)
  }

  /** Content inside the crop, on one axis. */
  predicate Inside(pos: int, size: int, contentPos: int, contentSize: int) {
    pos <= contentPos && contentPos + contentSize <= pos + size
  }

  /** One axis of the fit shows what it can, moves no further than that needs, and centres wider content. */
  lemma FitAxisBest(pos: int, size: int, contentPos: int, contentSize: int, limit: int, other: int)
    requires 0 < size && 0 <= pos && pos + size <= limit
    requires 0 < contentSize && 0 <= contentPos && contentPos + contentSize <= limit
    ensures var p := FitAxis(pos, size, contentPos, contentSize, limit);
            && 0 <= p && p + size <= limit
            && (contentSize <= size ==> Inside(p, size, contentPos, contentSize))
            && (size < contentSize ==>
                  && Inside(contentPos, contentSize, p, size)
                  && -1 <= (2 * p + size) - (2 * contentPos + contentSize) <= 1)
            && (Inside(other, size, contentPos, contentSize) ==>
                  (if p < pos then pos - p else p - pos) <= (if other < pos then pos - other else other - pos))
  {
  }

  /** The fit sees the content as far as it is on the surface, and leaves the crop alone if there is nothing to fit. */
  lemma FitSeesSurface(width: int, height: int, content: Rect, crop: Rect)
    ensures width <= 0 || height <= 0 || content.w <= 0 || content.h <= 0 || crop.w <= 0 || crop.h <= 0 ==>
              FitRect(width, height, content, crop) == crop
    ensures 0 < width && 0 < height && content.Valid() && crop.Valid() ==>
              FitRect(width, height, content, crop)
                == FitRect(width, height, ClampRect(width, height, content), ClampRect(width, height, crop))
  {
    hide FitAxis, ClampRect;
    ClampFits(width, height, content);
    ClampFits(width, height, crop);
  }

  /**
   * The fitted crop keeps the clamped size, lies on the surface, shows all the content on each
   * axis where that is possible and only content on the others.
   */
  lemma FitShowsContent(width: int, height: int, content: Rect, crop: Rect)
    requires 0 < width && 0 < height && content.Fits(width, height) && crop.Valid()
    ensures var f, r := ClampRect(width, height, crop), FitRect(width, height, content, crop);
            && r.Fits(width, height) && r.w == f.w && r.h == f.h
            && (if content.w <= r.w then Inside(r.x, r.w, content.x, content.w) else Inside(content.x, content.w, r.x, r.w))
            && (if content.h <= r.h then Inside(r.y, r.h, content.y, content.h) else Inside(content.y, content.h, r.y, r.h))
  {
  }
}
