/** The automatic overscan crop: black edges trimmed, content kept, a minimum frame restored. */
module AutoCrop {
  import opened CropRects
  import opened Wrappers

  const BLACK: bv32 := 0

  datatype Side = Left | Right | Top | Bottom

  /** The column or row of the rectangle that lies at one of its sides. */
  predicate OnEdge(r: Rect, side: Side, x: int, y: int) {
    r.Contains(x, y) &&
    match side
    case Left => x == r.x
    case Right => x == r.Right() - 1
    case Top => y == r.y
    case Bottom => y == r.Bottom() - 1
  }

  /** libretro_crop_line_is_color, told over the pixels of the line. */
  ghost predicate EdgeIsBlack(img: Image, r: Rect, side: Side) {
    forall x, y :: OnEdge(r, side, x, y) ==> img.Rgb(x, y) == 0
  }

  function Extent(r: Rect, side: Side): (n: int) {
    if side.Left? || side.Right? then r.w else r.h
  }

  function Shrunk(r: Rect, side: Side): (s: Rect) {
    match side
    case Left => Rect(r.x + 1, r.y, r.w - 1, r.h)
    case Right => Rect(r.x, r.y, r.w - 1, r.h)
    case Top => Rect(r.x, r.y + 1, r.w, r.h - 1)
    case Bottom => Rect(r.x, r.y, r.w, r.h - 1)
  }

  /** Black lines taken off one side, down to a least extent and up to a number of lines. */
  ghost function TrimSide(img: Image, r: Rect, side: Side, least: int, max: int, n: nat): (t: Rect)
    decreases max - n
  {
    if least < Extent(r, side) && n < max && EdgeIsBlack(img, r, side) then
      TrimSide(img, Shrunk(r, side), side, least, max, n + 1)
    else r
  }

  /** Every pixel of r that is not black lies in s. */
  ghost predicate KeepsContent(img: Image, r: Rect, s: Rect) {
    forall x, y :: r.Contains(x, y) && img.Rgb(x, y) != 0 ==> s.Contains(x, y)
  }

  lemma {:induction false} TrimSideKeeps(img: Image, r: Rect, side: Side, least: int, max: int, n: nat)
    requires r.Valid() && 0 < least && n <= max
    ensures var t := TrimSide(img, r, side, least, max, n);
            && t.Valid() && r.Covers(t) && KeepsContent(img, r, t)
            && Min(Extent(r, side), least) <= Extent(t, side)
            && Extent(r, side) - Extent(t, side) <= max - n
            && (if side.Left? || side.Right? then t.y == r.y && t.h == r.h else t.x == r.x && t.w == r.w)
    decreases max - n
  {
    if least < Extent(r, side) && n < max && EdgeIsBlack(img, r, side) {
      var s := Shrunk(r, side);
      TrimSideKeeps(img, s, side, least, max, n + 1);
      forall x, y | r.Contains(x, y) && img.Rgb(x, y) != 0 ensures s.Contains(x, y) {
        assert !OnEdge(r, side, x, y);
      }
    }
  }

  /** Trimming stops only where it has to: at a lit edge, the least extent or the line limit. */
  lemma {:induction false} TrimSideIsMaximal(img: Image, r: Rect, side: Side, least: int, max: int, n: nat)
    requires n <= max
    ensures var t := TrimSide(img, r, side, least, max, n);
            Extent(t, side) <= least || Extent(r, side) - Extent(t, side) == max - n || !EdgeIsBlack(img, t, side)
    decreases max - n
  {
    hide EdgeIsBlack;
    if least < Extent(r, side) && n < max && EdgeIsBlack(img, r, side) {
      TrimSideIsMaximal(img, Shrunk(r, side), side, least, max, n + 1);
    }
  }

  /** The crop after trimming its four sides in the order left, right, top, bottom. */
  ghost function TrimAll(img: Image, crop: Rect, minHeight: int): (t: Rect) {
    var maxX, maxY := Max(1, crop.w / 8), Max(1, crop.h / 8);
    var r1 := TrimSide(img, crop, Left, 320, maxX, 0);
    var r2 := TrimSide(img, r1, Side.Right, 320, maxX, 0);
    var r3 := TrimSide(img, r2, Top, minHeight, maxY, 0);
    TrimSide(img, r3, Side.Bottom, minHeight, maxY, 0)
  }

  /** Small trims are discarded, vertical ones also without a horizontal one. */
  function Accepted(crop: Rect, t: Rect): (r: Rect) {
    if crop.w - t.w < 8 then crop
    else if crop.h - t.h < 8 then Rect(t.x, crop.y, t.w, crop.h)
    else t
  }

  ghost predicate HasContent(img: Image, r: Rect) {
    exists x, y :: r.Contains(x, y) && img.Rgb(x, y) != 0
  }

  /** What libretro_trim_black_crop_edges makes of a crop. */
  ghost function Trimmed(img: Image, crop: Rect, minHeight: int): (r: Rect) {
    if crop.Fits(img.width, img.height) && img.mask != 0 && img.Rgb(crop.x, crop.y) == 0 && HasContent(img, crop)
    then Accepted(crop, TrimAll(img, crop, minHeight))
    else crop
  }

  lemma TrimAllKeeps(img: Image, crop: Rect, minHeight: int)
    requires crop.Valid() && 0 < minHeight
    ensures var t := TrimAll(img, crop, minHeight);
            && t.Valid() && crop.Covers(t) && KeepsContent(img, crop, t)
            && Min(crop.w, 320) <= t.w && Min(crop.h, minHeight) <= t.h
            && crop.w - t.w <= 2 * Max(1, crop.w / 8) && crop.h - t.h <= 2 * Max(1, crop.h / 8)
  {
    hide TrimSide;
    var maxX, maxY := Max(1, crop.w / 8), Max(1, crop.h / 8);
    var r1 := TrimSide(img, crop, Left, 320, maxX, 0);
    TrimSideKeeps(img, crop, Left, 320, maxX, 0);
    var r2 := TrimSide(img, r1, Side.Right, 320, maxX, 0);
    TrimSideKeeps(img, r1, Side.Right, 320, maxX, 0);
    var r3 := TrimSide(img, r2, Top, minHeight, maxY, 0);
    TrimSideKeeps(img, r2, Top, minHeight, maxY, 0);
    TrimSideKeeps(img, r3, Side.Bottom, minHeight, maxY, 0);
  }

  /**
   * Trimming loses no content: every pixel of the crop that is not black stays in it. A trim is
   * at least 8 and at most a quarter wide, never below 320, and vertical only with a horizontal one.
   */
  lemma TrimmedKeeps(img: Image, crop: Rect, minHeight: int)
    requires crop.Valid() && 0 < minHeight
    ensures var t := Trimmed(img, crop, minHeight);
            && t.Valid() && crop.Covers(t) && KeepsContent(img, crop, t)
            && Min(crop.w, 320) <= t.w && Min(crop.h, minHeight) <= t.h
            && (t != crop ==> 8 <= crop.w - t.w <= 2 * Max(1, crop.w / 8))
            && (t.h != crop.h ==> 8 <= crop.h - t.h <= 2 * Max(1, crop.h / 8))
  {
    hide TrimAll;
    TrimAllKeeps(img, crop, minHeight);
  }

  // ----- The program -----

  /** libretro_crop_line_is_color for black, one loop per direction. */
  method LineIsBlack(img: Image, r: Rect, side: Side) returns (black: bool)
    requires r.Valid()
    ensures black <==> EdgeIsBlack(img, r, side)
  {
    if side.Left? || side.Right? {
      var pos := if side.Left? then r.x else r.Right() - 1;
      var y := r.y;
      while y < r.Bottom()
        invariant r.y <= y <= r.Bottom()
        invariant forall v :: r.y <= v < y ==> img.Rgb(pos, v) == 0
      {
        if img.Rgb(pos, y) != 0 {
          assert OnEdge(r, side, pos, y);
          return false;
        }
        y := y + 1;
      }
      return true;
    }
    var pos := if side.Top? then r.y else r.Bottom() - 1;
    var x := r.x;
    while x < r.Right()
      invariant r.x <= x <= r.Right()
      invariant forall u :: r.x <= u < x ==> img.Rgb(u, pos) == 0
    {
      if img.Rgb(x, pos) != 0 {
        assert OnEdge(r, side, x, pos);
        return false;
      }
      x := x + 1;
    }
    return true;
  }

  /** libretro_crop_has_content_color for black. */
  method FindContent(img: Image, r: Rect) returns (found: bool)
    ensures found <==> HasContent(img, r)
  {
    var y := r.y;
    while y < r.Bottom()
      invariant r.y <= y
      invariant forall a, b :: r.Contains(a, b) && b < y ==> img.Rgb(a, b) == 0
    {
      var x := r.x;
      while x < r.Right()
        invariant r.x <= x
        invariant forall a, b :: r.Contains(a, b) && Scanned(a, b, x, y) ==> img.Rgb(a, b) == 0
      {
        if img.Rgb(x, y) != 0 {
          return true;
        }
        x := x + 1;
      }
      y := y + 1;
    }
    return false;
  }

  /** One of the four trimming loops. */
  method TrimLoop(img: Image, r: Rect, side: Side, least: int, max: nat) returns (t: Rect)
    requires r.Valid() && 0 < least
    ensures t == TrimSide(img, r, side, least, max, 0)
  {
    hide EdgeIsBlack;
    t := r;
    var n := 0;
    while least < Extent(t, side) && n < max
      invariant t.Valid() && n <= max
      invariant TrimSide(img, t, side, least, max, n) == TrimSide(img, r, side, least, max, 0)
    {
      var black := LineIsBlack(img, t, side);
      if !black {
        return;
      }
      t := Shrunk(t, side);
      n := n + 1;
    }
  }

  /** libretro_trim_black_crop_edges on an active crop. */
  method TrimBlackCropEdges(img: Image, minHeight: int, crop: Rect) returns (r: Rect)
    requires 0 < minHeight
    ensures r == Trimmed(img, crop, minHeight)
  {
    hide TrimSide;
    if !crop.Fits(img.width, img.height) || img.mask == 0 || img.Rgb(crop.x, crop.y) != 0 {
      return crop;
    }
    var content := FindContent(img, crop);
    if !content {
      return crop;
    }
    var maxX, maxY := Max(1, crop.w / 8), Max(1, crop.h / 8);
    r := TrimLoop(img, crop, Left, 320, maxX);
    TrimSideKeeps(img, crop, Left, 320, maxX, 0);
    TrimSideKeeps(img, r, Side.Right, 320, maxX, 0);
    r := TrimLoop(img, r, Side.Right, 320, maxX);
    TrimSideKeeps(img, r, Top, minHeight, maxY, 0);
    r := TrimLoop(img, r, Top, minHeight, maxY);
    TrimSideKeeps(img, r, Side.Bottom, minHeight, maxY, 0);
    r := TrimLoop(img, r, Side.Bottom, minHeight, maxY);
    var horizontal := 8 <= crop.w - r.w;
    var vertical := horizontal && 8 <= crop.h - r.h;
    if !horizontal {
      return crop;
    }
    if !vertical {
      r := Rect(r.x, crop.y, r.w, crop.h);
    }
  }

  /**
   * libretro_expand_crop_to_minimum_frame: at least 480 by 360 where the surface allows it,
   * around the old crop and moved onto the surface.
   */
  method ExpandToMinimumFrame(width: int, height: int, crop: Rect) returns (r: Rect)
    ensures crop.Fits(width, height) ==>
              && r.Fits(width, height) && r.Covers(crop)
              && r.w == Max(crop.w, Min(480, width)) && r.h == Max(crop.h, Min(360, height))
              && r.x == Clamp(crop.x - (r.w - crop.w) / 2, 0, width - r.w)
              && r.y == Clamp(crop.y - (r.h - crop.h) / 2, 0, height - r.h)
    ensures !crop.Fits(width, height) ==> r == crop
  {
    if !crop.Fits(width, height) {
      return crop;
    }
    var targetW, targetH := Min(480, width), Min(360, height);
    if targetW <= crop.w && targetH <= crop.h {
      return crop;
    }
    var x, y, w, h := crop.x, crop.y, crop.w, crop.h;
    if w < targetW {
      x := x - (targetW - w) / 2;
      w := targetW;
    }
    if h < targetH {
      y := y - (targetH - h) / 2;
      h := targetH;
    }
    if x < 0 {
      x := 0;
    }
    if y < 0 {
      y := 0;
    }
    if width < x + w {
      x := width - w;
    }
    if height < y + h {
      y := height - h;
    }
    return Rect(x, y, w, h);
  }

  /**
   * libretro_expand_crop_to_visible_content. The crop ends up with every pixel of the surface
   * that is not black exactly if it already had them all, or the top left pixel is black and
   * at least 16 others lie outside.
   */
  method ExpandCrop(img: Image, crop: Rect) returns (r: Rect, ghost outside: set<(int, int)>)
    requires crop.Fits(img.width, img.height)
    ensures r.Fits(img.width, img.height) && r.Covers(crop) && AreOutside(img, BLACK, crop, outside)
    ensures r == crop || IsHull(img, BLACK, crop, r)
    ensures ContainsAll(img, r) <==> outside == {} || (img.Rgb(0, 0) == 0 && 16 <= |outside|)
  {
    hide IsHull, Image.Rgb;
    if img.mask == 0 || img.Rgb(0, 0) != 0 {
      MaskedOut(img);
      outside := OutsideSet(img, crop);
      OutsideDecides(img, crop, outside);
      return crop, outside;
    }
    var border := img.pixel(0, 0);
    SameBorder(img, crop);
    var changed;
    changed, r, outside := ExpandToVisibleContent(img, border, 16, crop);
    OutsideDecides(img, crop, outside);
    if changed {
      HullContainsAll(img, crop, r);
    }
  }

  ghost function OutsideSet(img: Image, crop: Rect): (s: set<(int, int)>)
    ensures AreOutside(img, BLACK, crop, s)
  {
    set x, y | 0 <= x < img.width && 0 <= y < img.height && img.ShowsOutside(BLACK, crop, x, y) :: (x, y)
  }

  /** r contains every pixel of the surface that is not black. */
  ghost predicate ContainsAll(img: Image, r: Rect) {
    forall x, y :: img.On(x, y) && img.Rgb(x, y) != 0 ==> r.Contains(x, y)
  }

  lemma OutsideDecides(img: Image, crop: Rect, outside: set<(int, int)>)
    requires AreOutside(img, BLACK, crop, outside)
    ensures ContainsAll(img, crop) <==> outside == {}
  {
    if outside != {} {
      var p :| p in outside;
      assert img.ShowsOutside(BLACK, crop, p.0, p.1);
    }
    if !ContainsAll(img, crop) {
      var x, y :| img.On(x, y) && img.Rgb(x, y) != 0 && !crop.Contains(x, y);
      assert img.ShowsOutside(BLACK, crop, x, y);
    }
  }

  /** Without a colour mask every pixel counts as black. */
  lemma MaskedOut(img: Image)
    ensures img.mask == 0 ==> forall x, y :: img.Rgb(x, y) == 0
  {
  }

  /** A border pixel that is black under the mask is as good as black itself. */
  lemma SameBorder(img: Image, crop: Rect)
    requires img.Rgb(0, 0) == 0
    ensures forall s :: AreOutside(img, img.pixel(0, 0), crop, s) <==> AreOutside(img, BLACK, crop, s)
    ensures forall r :: IsHull(img, img.pixel(0, 0), crop, r) <==> IsHull(img, BLACK, crop, r)
  {
    var border := img.pixel(0, 0);
    assert BLACK & img.mask == 0;
    assert forall x, y :: img.Shows(border, x, y) == img.Shows(BLACK, x, y);
    forall r ensures IsHull(img, border, crop, r) <==> IsHull(img, BLACK, crop, r) {
      SameHull(img, border, BLACK, crop, r);
    }
  }

  lemma SameHull(img: Image, a: bv32, b: bv32, crop: Rect, r: Rect)
    requires forall x, y :: img.Shows(a, x, y) == img.Shows(b, x, y)
    ensures IsHull(img, a, crop, r) <==> IsHull(img, b, crop, r)
  {
  }

  lemma HullContainsAll(img: Image, crop: Rect, r: Rect)
    requires IsHull(img, BLACK, crop, r)
    ensures r.Fits(img.width, img.height) && r.Covers(crop) && ContainsAll(img, r)
  {
  }

  /** The places (1, 0) to (n, 0). */
  ghost function Row(n: nat): (s: set<(int, int)>)
    ensures forall x, y :: (x, y) in s <==> 1 <= x <= n && y == 0
    ensures |s| == n
  {
    if n == 0 then {} else Row(n - 1) + {(n, 0)}
  }

  /** A surface of one row whose pixels are all lit. */
  function LitRow(width: nat): (img: Image) {
    Image(width, 1, 1, (x, y) => 1)
  }

  lemma LitPixels(width: nat)
    ensures forall x, y :: LitRow(width).Rgb(x, y) == 1
    ensures forall x, y :: LitRow(width).Shows(BLACK, x, y) <==> LitRow(width).On(x, y)
  {
  }

  lemma OutsideIsRow(n: nat)
    ensures AreOutside(LitRow(n + 1), BLACK, Rect(0, 0, 1, 1), Row(n))
  {
  }

  /** With a lit top left pixel any number of lit pixels, here n, may stay outside the crop. */
  lemma LitCornerBlocksExpansion(n: nat)
    requires 16 <= n
    ensures var img, crop := LitRow(n + 1), Rect(0, 0, 1, 1);
            && img.Valid() && crop.Fits(img.width, img.height) && img.Rgb(0, 0) != 0
            && AreOutside(img, BLACK, crop, Row(n)) && 16 <= |Row(n)| && !ContainsAll(img, crop)
  {
    hide Image.Rgb, Image.Shows, Row, AreOutside;
    LitPixels(n + 1);
    OutsideIsRow(n);
    assert LitRow(n + 1).On(5, 0) && !Rect(0, 0, 1, 1).Contains(5, 0);
  }

  /**
   * The pipeline of libretro_compute_crop on a crop from the renderer: the result lies on the
   * surface and still shows every pixel of the crop that is not black. If the top left pixel
   * is black and 16 lit ones lie outside the trimmed crop, it shows every one of the surface.
   */
  method AutomaticCrop(img: Image, minHeight: int, crop: Rect) returns (r: Rect, ghost outside: set<(int, int)>)
    requires crop.Fits(img.width, img.height) && 0 < minHeight
    ensures r.Fits(img.width, img.height) && KeepsContent(img, crop, r)
    ensures Min(480, img.width) <= r.w && Min(360, img.height) <= r.h
    ensures AreOutside(img, BLACK, Trimmed(img, crop, minHeight), outside)
    ensures img.Rgb(0, 0) == 0 && 16 <= |outside| ==> ContainsAll(img, r)
    ensures outside == {} ==> ContainsAll(img, r)
  {
    hide Trimmed, IsHull, AreOutside, Image.Rgb;
    var t := TrimBlackCropEdges(img, minHeight, crop);
    TrimmedKeeps(img, crop, minHeight);
    var e;
    e, outside := ExpandCrop(img, t);
    r := ExpandToMinimumFrame(img.width, img.height, e);
  }
}
