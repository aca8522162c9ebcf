/**
 * Geometry of one text field: the margins reserved around the bordered box so
 * that its drop shadow is drawn on the field's own canvas, the resulting outer
 * size, the pointer hit-test and the corner-radius clamp.
 */
module BoxModel {

  /** An already-parsed box shadow: offsets and blur in pixels. */
  datatype BoxShadow = BoxShadow(x: int, y: int, blur: int)

  /** Space kept free on each side of the bordered box for the shadow. */
  datatype Margins = Margins(left: int, right: int, top: int, bottom: int)

  datatype Size = Size(w: real, h: real)

  /** Position and dimensions of a field, as configured. */
  datatype Layout = Layout(
    x: real, y: real, extraX: real, extraY: real,
    width: real, height: real, padding: real, borderWidth: real,
    shadow: BoxShadow)

  /** A layout whose text area is wider than its padding, so the clipping ratio is defined. */
  type TextLayout = l: Layout | l.width > l.padding
    witness Layout(0.0, 0.0, 0.0, 0.0, 150.0, 14.0, 5.0, 1.0, BoxShadow(1, 1, 0))

  function Abs(n: int): nat {
    if n < 0 then -n else n
  }

  /** The margin on the side a shadow offset points away from (left for x, top for y). */
  function NearMargin(offset: int, blur: int): (near: int)
    ensures near >= blur - offset
    ensures offset < 0 ==> near == Abs(offset) + blur
    ensures offset >= 0 ==> near == Abs(blur - offset)
  {
    if offset < 0 then Abs(offset) + blur else Abs(blur - offset)
  }

  /** The four shadow margins. The near margins are never smaller than the part of the
      blurred shadow that spills past the box on that side, and are exactly that part
      when the shadow is cast toward that side; the far margins are exactly the spill
      on the far side (blur plus offset), whatever the direction. */
  function ShadowMargins(s: BoxShadow): (m: Margins)
    ensures m.left >= s.blur - s.x && m.top >= s.blur - s.y
    ensures s.x < 0 ==> m.left == s.blur - s.x
    ensures s.y < 0 ==> m.top == s.blur - s.y
    ensures s.x >= 0 ==> m.left == Abs(s.blur - s.x)
    ensures s.y >= 0 ==> m.top == Abs(s.blur - s.y)
    ensures m.right == s.blur + s.x && m.bottom == s.blur + s.y
  {
    Margins(NearMargin(s.x, s.blur), s.blur + s.x, NearMargin(s.y, s.blur), s.blur + s.y)
  }

  /** The bordered box: text area plus padding and border on both sides. */
  function BorderBox(l: Layout): Size {
    Size(l.width + 2.0 * l.padding + 2.0 * l.borderWidth, l.height + 2.0 * l.padding + 2.0 * l.borderWidth)
  }

  /** The outer size of the field's canvas: the bordered box with the shadow margins on every side. */
  function OuterSize(l: Layout): (o: Size)
    ensures var m := ShadowMargins(l.shadow);
      && o.w - m.left as real - m.right as real == BorderBox(l).w
      && o.h - m.top as real - m.bottom as real == BorderBox(l).h
  {
    var m := ShadowMargins(l.shadow);
    Size(l.width + l.padding * 2.0 + l.borderWidth * 2.0 + (m.left + m.right) as real,
         l.height + l.padding * 2.0 + l.borderWidth * 2.0 + (m.top + m.bottom) as real)
  }

  /** The bordered box is drawn at (left, top) margins; its shadow is that box moved by
      the offsets and grown by the blur on every side. The shadow always lies on the
      canvas and touches its right and bottom edges. */
  lemma ShadowOnCanvas(l: Layout)
    ensures var m, b, o, s := ShadowMargins(l.shadow), BorderBox(l), OuterSize(l), l.shadow;
      && 0 <= m.left + s.x - s.blur && (m.left + s.x + s.blur) as real + b.w == o.w
      && 0 <= m.top + s.y - s.blur && (m.top + s.y + s.blur) as real + b.h == o.h
  {
  }

  /** The bordered box itself fits on the canvas exactly when neither offset points
      further against its side than the blur reaches (x + blur >= 0 and y + blur >= 0);
      a shadow cast further left or up pushes the box past the right or bottom edge. */
  lemma BorderBoxOnCanvas(l: Layout)
    requires l.shadow.blur >= 0
    ensures var m, b, o := ShadowMargins(l.shadow), BorderBox(l), OuterSize(l);
      0 <= m.left && 0 <= m.top &&
      (m.left as real + b.w <= o.w && m.top as real + b.h <= o.h <==>
       l.shadow.x + l.shadow.blur >= 0 && l.shadow.y + l.shadow.blur >= 0)
  {
  }

  /** Whether a point lies over the field: the padded text area anchored at
      (x + extraX, y + extraY), both edges included. */
  function OverInput(l: Layout, px: real, py: real): (over: bool)
    ensures over <==>
      && l.x + l.extraX <= px <= l.x + l.extraX + l.width + 2.0 * l.padding
      && l.y + l.extraY <= py <= l.y + l.extraY + l.height + 2.0 * l.padding
  {
    var xLeft := px >= l.x + l.extraX;
    var xRight := px <= l.x + l.extraX + l.width + l.padding * 2.0;
    var yTop := py >= l.y + l.extraY;
    var yBottom := py <= l.y + l.extraY + l.height + l.padding * 2.0;
    xLeft && xRight && yTop && yBottom
  }

  /** The hit area has the size of the padded text area, that is of the canvas less
      the shadow margins and the borders, but it is anchored at the field's position
      (x + extraX, y + extraY) rather than where the padded area is drawn, which is
      the left and top shadow margins plus the border further in. Its far corner is
      inside; any point further right or further down is outside. */
  lemma HitAreaIsPaddedBox(l: Layout, d: real)
    requires l.width + 2.0 * l.padding >= 0.0 && l.height + 2.0 * l.padding >= 0.0 && d > 0.0
    ensures var m, o := ShadowMargins(l.shadow), OuterSize(l);
      var w, h := o.w - (m.left + m.right) as real - 2.0 * l.borderWidth,
                  o.h - (m.top + m.bottom) as real - 2.0 * l.borderWidth;
      && OverInput(l, l.x + l.extraX + w, l.y + l.extraY + h)
      && !OverInput(l, l.x + l.extraX + w + d, l.y + l.extraY)
      && !OverInput(l, l.x + l.extraX, l.y + l.extraY + h + d)
  {
  }

  /** The corner radius used for a w-by-h rounded rectangle: the largest radius not above
      the requested one for which two corners fit along each side. */
  function ClampRadius(w: real, h: real, r: real): (c: real)
    ensures c <= r && 2.0 * c <= w && 2.0 * c <= h
    ensures c == r || 2.0 * c == w || 2.0 * c == h
    ensures c == r <==> 2.0 * r <= w && 2.0 * r <= h
  {
    var r1 := if w < 2.0 * r then w / 2.0 else r;
    if h < 2.0 * r1 then h / 2.0 else r1
  }
}
