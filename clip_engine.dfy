/**
 * Measuring and clipping the field's text. The host's text measurement is an
 * arbitrary non-negative width per string; clipping keeps a number of trailing
 * characters proportional to how far the text overflows.
 */
module ClipEngine {
  import opened JsString

  /** Pixel width of a string in the field's font, as the host measures it. */
  type Metrics = f: string -> real | forall s :: f(s) >= 0.0
    witness (s: string) => 0.0

  /** How many trailing characters clipping keeps: floor(len / fillPer), where
      fillPer = textWidth / avail is how many times the text overflows. Fewer than
      all of them, unless there are none. */
  function KeepCount(len: nat, textWidth: real, avail: real): (n: nat)
    requires 0.0 < avail < textWidth
    ensures len > 0 ==> n < len
  {
    var fillPer := textWidth / avail;
    assert fillPer > 1.0;
    Quotient(len, fillPer, textWidth, avail);
    (len as real / fillPer).Floor
  }

  /** The count is floor(len * avail / textWidth): the proportion of the characters
      that the available width is of the text's width. */
  lemma KeepCountIsFloor(len: nat, textWidth: real, avail: real)
    requires 0.0 < avail < textWidth
    ensures var n := KeepCount(len, textWidth, avail);
      n as real <= len as real * avail / textWidth < n as real + 1.0
  {
    Quotient(len, textWidth / avail, textWidth, avail);
  }

  /** Dividing by the fill ratio is scaling by avail / textWidth, which is below 1. */
  lemma Quotient(len: nat, fillPer: real, textWidth: real, avail: real)
    requires 0.0 < avail < textWidth && fillPer == textWidth / avail
    ensures len as real / fillPer == len as real * avail / textWidth
    ensures len > 0 ==> len as real * avail / textWidth < len as real
    ensures 0.0 <= len as real * avail / textWidth
  {
    var q := len as real * avail / textWidth;
    assert q * textWidth == len as real * avail;
    assert (len as real / fillPer) * fillPer == len as real;
    assert fillPer * avail == textWidth;
    assert (len as real / fillPer) * textWidth == len as real * avail;
    if len > 0 {
      assert len as real * avail < len as real * textWidth;
    }
  }

  /** The fill ratio exceeds 1 exactly when the text is wider than the space for it. */
  lemma RatioAboveOne(textWidth: real, avail: real)
    requires avail > 0.0
    ensures textWidth / avail > 1.0 <==> textWidth > avail
  {
    var q := textWidth / avail;
    assert q * avail == textWidth;
    if q > 1.0 {
      assert q * avail > 1.0 * avail;
    } else {
      assert q * avail <= 1.0 * avail;
    }
  }

  /** `_clipText`: the visible part of `value` in a text area `width` wide with `padding`. */
  function ClipText(m: Metrics, width: real, padding: real, value: string): (text: string)
    requires width > padding
  {
    var textWidth, avail := m(value), width - padding;
    var fillPer := textWidth / avail;
    if fillPer > 1.0 then
      RatioAboveOne(textWidth, avail);
      SubstrFrom(value, -1 * KeepCount(|value|, textWidth, avail))
    else
      value
  }

  /** What clipping keeps: always a suffix of the value; the whole value when its width
      fits in width - padding; otherwise the last floor(len / fillPer) characters, or,
      when that count is 0, the whole value again, since `substr(-0)` starts at the
      beginning. */
  lemma ClipTextLength(m: Metrics, width: real, padding: real, value: string)
    requires width > padding
    ensures var text, avail := ClipText(m, width, padding, value), width - padding;
      && |text| <= |value| && text == value[|value| - |text|..]
      && (m(value) <= avail ==> text == value)
      && (m(value) > avail ==>
            var n := KeepCount(|value|, m(value), avail);
            |text| == if n == 0 then |value| else n)
  {
    RatioAboveOne(m(value), width - padding);
  }

  /** A width that is `k` times the available width has fill ratio `k`. */
  lemma ScaledRatio(k: real, avail: real)
    requires avail > 0.0
    ensures (k * avail) / avail == k
  {
  }

  /** Clipping with a fill ratio of exactly 2 keeps the trailing half of the characters. */
  lemma ClipHalf(m: Metrics, width: real, padding: real, value: string)
    requires width > padding && |value| == 10
    requires m(value) == 2.0 * (width - padding)
    ensures ClipText(m, width, padding, value) == value[5..]
  {
    var avail, w := width - padding, m(value);
    assert w / avail == 2.0 by {
      ScaledRatio(2.0, avail);
    }
    assert 10 as real / (w / avail) == 5.0;
    assert KeepCount(10, w, avail) == 5;
    ClipTextLength(m, width, padding, value);
  }
}
