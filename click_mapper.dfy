/**
 * Mapping a horizontal pixel offset inside the visible text to a character
 * index, by accumulating the measured width of one character after another.
 */
module ClickMapper {
  import opened ClipEngine

  /** Sum of the measured widths of the first `n` characters, each measured alone. */
  function CumWidth(m: Metrics, text: string, n: nat): (w: real)
    requires n <= |text|
    ensures w >= 0.0
  {
    if n == 0 then 0.0 else CumWidth(m, text, n - 1) + m([text[n - 1]])
  }

  /** Cumulative width through character `k`, that is of the first `k + 1` characters. */
  function WidthThrough(m: Metrics, text: string, k: nat): real
    requires k < |text|
  {
    CumWidth(m, text, k + 1)
  }

  /** The first index `j >= i` whose cumulative width through character `j` reaches `dx`,
      or the length of the text when there is none. */
  function FirstReach(m: Metrics, text: string, dx: real, i: nat): (j: nat)
    requires i <= |text|
    decreases |text| - i
    ensures i <= j <= |text|
    ensures j < |text| ==> WidthThrough(m, text, j) >= dx
    ensures forall k :: i <= k < j ==> WidthThrough(m, text, k) < dx
  {
    if i == |text| then |text|
    else if CumWidth(m, text, i + 1) >= dx then i
    else FirstReach(m, text, dx, i + 1)
  }

  /** The character index for a click `dx` pixels right of the text's left edge: the
      length of the text when the click is at or past the text's measured width,
      otherwise the first index whose cumulative width reaches `dx` (still the length
      if the per-character widths never add up to `dx`). */
  function ClickIndex(m: Metrics, text: string, dx: real): (pos: nat)
    ensures pos <= |text|
    ensures dx >= m(text) ==> pos == |text|
    ensures dx < m(text) && pos < |text| ==> WidthThrough(m, text, pos) >= dx
    ensures dx < m(text) ==> forall k :: 0 <= k < pos ==> WidthThrough(m, text, k) < dx
  {
    if dx < m(text) then FirstReach(m, text, dx, 0) else |text|
  }

  /** Clicking further right never gives an earlier index. */
  lemma ClickIndexMonotone(m: Metrics, text: string, dx1: real, dx2: real)
    requires dx1 <= dx2
    ensures ClickIndex(m, text, dx1) <= ClickIndex(m, text, dx2)
  {
  }

  /** There is nothing to click in empty text. */
  lemma ClickIndexEmpty(m: Metrics, dx: real)
    ensures ClickIndex(m, "", dx) == 0
  {
  }
}
