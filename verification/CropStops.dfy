/** Where the trimming of black edges stops, told by pixels: there is exactly one such rectangle. */
module CropStops {
  import opened CropRects
  import opened AutoCrop
  import opened Wrappers

  ghost predicate ColumnLit(img: Image, r: Rect, x: int) {
    exists y :: r.y <= y < r.y + r.h && img.Rgb(x, y) != 0
  }

  ghost predicate RowLit(img: Image, r: Rect, y: int) {
    exists x :: r.x <= x < r.x + r.w && img.Rgb(x, y) != 0
  }

  /**
   * t is the crop without its black edges: no lit pixel is lost, and each side stands still at a
   * lit line, after an eighth of the extent, or at the least extent (left before right, top
   * before bottom).
   */
  ghost predicate StopsAt(img: Image, crop: Rect, minHeight: int, t: Rect) {
    var maxX, maxY := if crop.w < 16 then 1 else crop.w / 8, if crop.h < 16 then 1 else crop.h / 8;
    var left, right := t.x - crop.x, crop.x + crop.w - t.x - t.w;
    var top, bottom := t.y - crop.y, crop.y + crop.h - t.y - t.h;
    && 0 <= left <= maxX && 0 <= right <= maxX && 0 <= top <= maxY && 0 <= bottom <= maxY
    && (left + right == 0 || 320 <= t.w) && (top + bottom == 0 || minHeight <= t.h)
    && (forall x, y :: crop.Contains(x, y) && img.Rgb(x, y) != 0 ==> t.Contains(x, y))
    && (left == maxX || crop.w - left <= 320 || ColumnLit(img, t, t.x))
    && (right == maxX || t.w <= 320 || ColumnLit(img, t, t.x + t.w - 1))
    && (top == maxY || crop.h - top <= minHeight || RowLit(img, t, t.y))
    && (bottom == maxY || t.h <= minHeight || RowLit(img, t, t.y + t.h - 1))
  }

  /** Trimming one side moves no other. */
  lemma {:induction false} TrimSideMoves(img: Image, r: Rect, side: Side, least: int, max: int, n: nat)
    requires n <= max
    ensures var t := TrimSide(img, r, side, least, max, n);
            && t.w <= r.w && t.h <= r.h
            && (t == r || least <= AutoCrop.Extent(t, side))
            && (match side
                case Left => t.x + t.w == r.x + r.w && t.y == r.y && t.h == r.h && t.x - r.x <= max - n
                case Right => t.x == r.x && t.y == r.y && t.h == r.h && r.w - t.w <= max - n
                case Top => t.y + t.h == r.y + r.h && t.x == r.x && t.w == r.w && t.y - r.y <= max - n
                case Bottom => t.y == r.y && t.x == r.x && t.w == r.w && r.h - t.h <= max - n)
    decreases max - n
  {
    hide EdgeIsBlack;
    if least < AutoCrop.Extent(r, side) && n < max && EdgeIsBlack(img, r, side) {
      TrimSideMoves(img, Shrunk(r, side), side, least, max, n + 1);
    }
  }

  /** A lit pixel on the edge of r is still there in t, which keeps the content of r and that edge. */
  lemma EdgeStaysLit(img: Image, r: Rect, t: Rect, side: Side)
    requires r.Covers(t) && KeepsContent(img, r, t) && !EdgeIsBlack(img, r, side)
    ensures side.Left? && t.x == r.x ==> ColumnLit(img, t, t.x)
    ensures side.Right? && t.x + t.w == r.x + r.w ==> ColumnLit(img, t, t.x + t.w - 1)
    ensures side.Top? && t.y == r.y ==> RowLit(img, t, t.y)
    ensures side.Bottom? && t.y + t.h == r.y + r.h ==> RowLit(img, t, t.y + t.h - 1)
  {
    hide Image.Rgb;
    var x, y :| OnEdge(r, side, x, y) && img.Rgb(x, y) != 0;
    assert t.Contains(x, y);
  }

  lemma KeepsTwice(img: Image, a: Rect, b: Rect, c: Rect)
    requires a.Covers(b) && b.Covers(c) && KeepsContent(img, a, b) && KeepsContent(img, b, c)
    ensures a.Covers(c) && KeepsContent(img, a, c)
  {
  }

  /** One side of the trim: what it leaves of r, of which t is all that stays in the end. */
  lemma SideStops(img: Image, r: Rect, side: Side, least: int, max: nat, t: Rect)
    requires r.Valid() && 0 < least
    requires var s := TrimSide(img, r, side, least, max, 0); s.Covers(t) && KeepsContent(img, s, t)
    ensures var s := TrimSide(img, r, side, least, max, 0);
            && (side.Left? && t.x == s.x ==> s.x - r.x == max || s.w <= least || ColumnLit(img, t, t.x))
            && (side.Right? && t.x + t.w == s.x + s.w ==> r.w - s.w == max || s.w <= least || ColumnLit(img, t, t.x + t.w - 1))
            && (side.Top? && t.y == s.y ==> s.y - r.y == max || s.h <= least || RowLit(img, t, t.y))
            && (side.Bottom? && t.y + t.h == s.y + s.h ==> r.h - s.h == max || s.h <= least || RowLit(img, t, t.y + t.h - 1))
  {
    hide TrimSide, EdgeIsBlack, ColumnLit, RowLit, KeepsContent;
    var s := TrimSide(img, r, side, least, max, 0);
    TrimSideIsMaximal(img, r, side, least, max, 0);
    TrimSideMoves(img, r, side, least, max, 0);
    if !EdgeIsBlack(img, s, side) {
      EdgeStaysLit(img, s, t, side);
    }
  }

  lemma TrimAllStops(img: Image, crop: Rect, minHeight: int)
    requires crop.Valid() && 0 < minHeight
    ensures StopsAt(img, crop, minHeight, TrimAll(img, crop, minHeight))
  {
    hide TrimSide, EdgeIsBlack, ColumnLit, RowLit, KeepsContent, Rect.Covers, Rect.Contains, Image.Rgb;
    var maxX, maxY := Max(1, crop.w / 8), Max(1, crop.h / 8);
    var r1 := TrimSide(img, crop, Left, 320, maxX, 0);
    var r2 := TrimSide(img, r1, Side.Right, 320, maxX, 0);
    var r3 := TrimSide(img, r2, Top, minHeight, maxY, 0);
    var t := TrimAll(img, crop, minHeight);
    TrimSideKeeps(img, crop, Left, 320, maxX, 0);
    TrimSideKeeps(img, r1, Side.Right, 320, maxX, 0);
    TrimSideKeeps(img, r2, Top, minHeight, maxY, 0);
    TrimSideKeeps(img, r3, Side.Bottom, minHeight, maxY, 0);
    TrimSideMoves(img, crop, Left, 320, maxX, 0);
    TrimSideMoves(img, r1, Side.Right, 320, maxX, 0);
    TrimSideMoves(img, r2, Top, minHeight, maxY, 0);
    TrimSideMoves(img, r3, Side.Bottom, minHeight, maxY, 0);
    KeepsTwice(img, r2, r3, t);
    KeepsTwice(img, r1, r2, t);
    KeepsTwice(img, crop, r1, t);
    KeptHere(img, t);
    SideStops(img, crop, Left, 320, maxX, t);
    SideStops(img, r1, Side.Right, 320, maxX, t);
    SideStops(img, r2, Top, minHeight, maxY, t);
    SideStops(img, r3, Side.Bottom, minHeight, maxY, t);
    LitStay(img, crop, t);
  }

  lemma KeptHere(img: Image, t: Rect)
    ensures t.Covers(t) && KeepsContent(img, t, t)
  {
  }

  lemma LitStay(img: Image, crop: Rect, t: Rect)
    requires KeepsContent(img, crop, t)
    ensures forall x, y :: crop.Contains(x, y) && img.Rgb(x, y) != 0 ==> t.Contains(x, y)
  {
  }

  /** The pixels and the limits leave no choice. */
  lemma StopIsUnique(img: Image, crop: Rect, minHeight: int, s: Rect, t: Rect)
    requires crop.Valid() && 0 < minHeight
    requires StopsAt(img, crop, minHeight, s) && StopsAt(img, crop, minHeight, t)
    ensures s == t
  {
    hide Image.Rgb;
    NotFurther(img, crop, minHeight, s, t);
    NotFurther(img, crop, minHeight, t, s);
  }

  lemma NotFurther(img: Image, crop: Rect, minHeight: int, s: Rect, t: Rect)
    requires crop.Valid() && 0 < minHeight
    requires StopsAt(img, crop, minHeight, s) && StopsAt(img, crop, minHeight, t)
    ensures t.x <= s.x && t.y <= s.y
    ensures s.x == t.x ==> s.w <= t.w
    ensures s.y == t.y ==> s.h <= t.h
  {
    hide Image.Rgb;
  }

  /**
   * The trim as a whole. It happens only on a surface with colours, from a black first pixel and
   * with content; it takes the columns if they are at least eight, and then the rows likewise.
   */
  lemma TrimmedExactly(img: Image, crop: Rect, minHeight: int, t: Rect)
    requires crop.Valid() && 0 < minHeight && StopsAt(img, crop, minHeight, t)
    ensures var r := Trimmed(img, crop, minHeight);
            var trims := && crop.Fits(img.width, img.height) && img.mask != 0 && img.Rgb(crop.x, crop.y) == 0
                         && (exists x, y :: crop.Contains(x, y) && img.Rgb(x, y) != 0);
            var across, down := trims && 8 <= crop.w - t.w, trims && 8 <= crop.w - t.w && 8 <= crop.h - t.h;
            && r.x == (if across then t.x else crop.x) && r.w == (if across then t.w else crop.w)
            && r.y == (if down then t.y else crop.y) && r.h == (if down then t.h else crop.h)
  {
    hide TrimAll, StopsAt, Image.Rgb;
    TrimAllStops(img, crop, minHeight);
    StopIsUnique(img, crop, minHeight, t, TrimAll(img, crop, minHeight));
  }
}
