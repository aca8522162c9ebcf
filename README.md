# CanvasInput editing core in Dafny

CanvasInput draws a single-line text field on an HTML5 canvas. A hidden native
`<input>` does the actual typing, and the canvas shows what it holds. This
project models the part of the widget that makes decisions rather than drawing:

- **Box geometry** (`box_model.dfy`): the margins the canvas reserves around the
  bordered box for its drop shadow, the outer width and height, the inclusive
  hit-test `_overInput`, and the clamp `_roundedRect` applies to the corner radius.
- **Clipping and click mapping** (`clip_engine.dfy`, `click_mapper.dfy`):
  - `_clipText` keeps a number of trailing characters proportional to how far
    the text overflows the text area.
  - `_clickPos` scans the visible text left to right, summing character widths,
    to turn a pointer position into a character index.
  - Text measurement is an arbitrary non-negative width per string, on exact reals.
- **The field's editing and selection state machine** (`canvas_input.dfy`,
  class `Field`):
  - The state is value, caret position, selection, focus, blinking-caret flag,
    pressed-button flag, drag anchor, and the two flags that link a drag to the
    click that follows it.
  - Handlers: `focus`, `blur`, `keydown` (which reads the hidden input before
    the browser applies the key), the `keyup` listener (which copies the value
    and caret after the key), `mousedown`, `mousemove`, `mouseup` and the page-wide `mouseup` listener that runs before it, `click`,
    `_clearSelection`, `selectText`, and the `value` getter and setter.
  - Each handler is a method whose postcondition gives the new state in terms
    of the old one, through a transition function (`Focused`, `Blurred`,
    `Released`, `Clicked`) that the lemmas talk about.
- **The shared list of inputs** (class `Registry`, `input_order.dfy`):
  - Every field appends itself to the list when it is created.
  - `focus` blurs every other listed field that has the focus.
  - Tab hands the focus to the next entry in creation order.
  - `destroy` splices the field out under the source's `if (index)` test.
  - JavaScript's `substr`, `indexOf` and `splice(i, 1)` are modelled with
    their handling of negative and out-of-range arguments (`js_string.dfy`,
    `js_array.dfy`).

Pointer coordinates arrive already converted to canvas coordinates. Coordinates
and sizes are exact reals, since JavaScript numbers can be fractional. The shadow
offsets and blur arrive already parsed to integers. The configuration is fixed
when a field is created: layout, measurement function, placeholder, read-only
flag, and whether a canvas is attached.

Behaviours of the source that the model keeps as written:

- When the clipped count `floor(len / fillPer)` is 0, `substr(-0)` returns the
  whole value.
- `focus` computes the caret from the clipped placeholder before clearing a
  placeholder value. The caret can then lie past the end of the empty value
  (`FocusCaretPastEmptyValue`).
- "Has a selection" is tested as `selection[1] > 0`.
- `destroy` never removes the first entry of the list. For a field that is not
  listed, it removes the last entry.
- `_inputsIndex` is set once at creation and never updated, so after a
  `destroy` tab may move to a different field than the one after this field.
- When a shadow offset points further left (up) than its blur reaches, the right
  (bottom) margin is negative and the bordered box runs past the canvas edge
  (`BorderBoxOnCanvas`).
- The hit area of `_overInput` has the size of the padded text area but sits at
  the field's anchor `(x + extraX, y + extraY)`, while the padded area is drawn
  the left (top) shadow margin plus the border further in
  (`HitAreaIsPaddedBox`). `_clickPos` measures from the same anchor.

## Model

| member | source | states |
|---|---|---|
| Common.Min | CanvasInput.js:530 | `Math.min`: the result is one of the two arguments and no larger than either |
| Common.Max | CanvasInput.js:531 | `Math.max`: the result is one of the two arguments and no smaller than either |
| JsString.SubstrFrom | CanvasInput.js:846 | `s.substr(start)` is always a suffix of `s`; it is `s[start..]` for an in-range start; for a start in `[-len, 0)` it has exactly `-start` characters; it is all of `s` for a start before `-len`, and empty from `len` on |
| JsString.SubstrPrefix | CanvasInput.js:824 | `s.substr(0, length)` is always a prefix of `s`: `s[..length]` in range, empty for a negative length, all of `s` past the end |
| JsArray.IndexOf | CanvasInput.js:761 | `indexOf` gives -1 exactly when the element is absent; otherwise it gives the first index holding it |
| JsArray.IndexFrom | CanvasInput.js:761 | the same search from position `k` on: -1 exactly when absent from `s[k..]`, else the first index at or after `k` that holds it |
| JsArray.SpliceAt | CanvasInput.js:763 | the position `splice` works at: an in-range start, or a negative start counted back from the end, never past the end |
| JsArray.SpliceOne | CanvasInput.js:763 | `splice(start, 1)` removes exactly the element at that position, if there is one; otherwise the list is unchanged |
| InputOrder.Unregistered | CanvasInput.js:761-764 | the list after `destroy`: unchanged when the field is first; missing last entry when the field is not listed; otherwise the first occurrence of the field is removed and nothing else changes |
| InputOrder.UnregisteredRemovesOne | CanvasInput.js:761-764 | removing a listed field that is not first drops exactly one occurrence of it (as a multiset) and shortens the list by one |
| InputOrder.NextTabIndex | CanvasInput.js:460-463 | with more than one field, tab picks `inputsIndex + 1` when that entry exists and 0 otherwise, always a valid index |
| InputOrder.TabAdvances | CanvasInput.js:462-463 | before the end of the list, `k` tab presses move `k` entries forward |
| InputOrder.TabStepsAdd | CanvasInput.js:462-463 | `a + b` tab presses are `a` presses followed by `b` presses |
| InputOrder.TabReaches | CanvasInput.js:462-463 | every entry is reached from every other in `TabDistance` presses, fewer than there are fields |
| InputOrder.TabCycles | CanvasInput.js:460-468 | from any entry, as many tab presses as there are fields come back to it, and every entry is visited in fewer presses |
| BoxModel.NearMargin | CanvasInput.js:232-244 | the left (top) margin is `abs(x) + blur` for a negative offset and `abs(blur - x)` otherwise, and never less than `blur - x` |
| BoxModel.ShadowMargins | CanvasInput.js:232-245 | the four margins follow the shadow's direction; the right (bottom) margin is `blur + x` (`blur + y`) in both cases |
| BoxModel.OuterSize | CanvasInput.js:869-875 | the outer width (height) is the bordered box plus both shadow margins on that axis |
| BoxModel.ShadowOnCanvas | CanvasInput.js:232-248 | the blurred shadow, drawn from the margins, always lies on the canvas and reaches its right and bottom edges |
| BoxModel.BorderBoxOnCanvas | CanvasInput.js:232-248 | with a non-negative blur, the bordered box fits on the canvas exactly when `x + blur >= 0` and `y + blur >= 0` |
| BoxModel.OverInput | CanvasInput.js:932-940 | a point is over the input exactly when it lies in the padded text area, both edges included |
| BoxModel.HitAreaIsPaddedBox | CanvasInput.js:932-940 | the hit area, anchored at the field's position, is as wide and high as the outer size minus shadow margins and borders: its far corner is inside and any point further right or down is outside |
| BoxModel.ClampRadius | CanvasInput.js:907-909 | the clamped radius is at most the requested one and lets two corners fit on each side; it is the requested one exactly when that already fits |
| ClipEngine.KeepCount | CanvasInput.js:844-846 | the count of kept characters `floor(len / fillPer)` is below `len` for non-empty text when the text overflows |
| ClipEngine.KeepCountIsFloor | CanvasInput.js:844-846 | that count is `floor(len * (width - padding) / textWidth)` |
| ClipEngine.Quotient | CanvasInput.js:845-846 | dividing by the fill ratio is scaling by `(width - padding) / textWidth`, which stays in `[0, len)` |
| ClipEngine.ClipText | CanvasInput.js:840-849 | `_clipText` as written: keep `floor(len / fillPer)` trailing characters when `fillPer > 1`, else the whole value; its properties are stated by `ClipTextLength` and `ClipHalf` |
| ClipEngine.RatioAboveOne | CanvasInput.js:845-846 | the fill ratio exceeds 1 exactly when the text is wider than `width - padding` |
| ClipEngine.ClipTextLength | CanvasInput.js:840-849 | `_clipText` returns a suffix of the value: the whole value when it fits, otherwise the last `floor(len / fillPer)` characters, or the whole value when that count is 0 |
| ClipEngine.ClipHalf | CanvasInput.js:844-846 | ten characters twice as wide as the text area clip to their last five |
| ClickMapper.CumWidth | CanvasInput.js:964-966 | the running total of per-character widths is never negative |
| ClickMapper.FirstReach | CanvasInput.js:964-971 | the scan stops at the first index from `i` on whose running width reaches the click, or at the end of the text |
| ClickMapper.ClickIndex | CanvasInput.js:958-974 | the click index is at most the text length; it is the length for a click at or past the text's width; otherwise it is the first index whose running width reaches the click |
| ClickMapper.ClickIndexMonotone | CanvasInput.js:963-974 | clicking further right never gives an earlier index |
| ClickMapper.ClickIndexEmpty | CanvasInput.js:959-963 | a click in empty text gives index 0 |
| CanvasInput.Classify | CanvasInput.js:445-461 | Ctrl/Cmd+A selects all; the Ctrl key, and any key but A with Ctrl or Cmd held, is blocked; tab without Ctrl or Cmd is tab |
| CanvasInput.Registry.constructor | CanvasInput.js:14 | the list of inputs starts empty |
| CanvasInput.Field.constructor | CanvasInput.js:47-161 | a new field is unfocused with no selection, holds its value or its placeholder when the value is empty, and is appended to the list at index `inputsIndex` |
| CanvasInput.Field.Value | CanvasInput.js:280-281 | the getter returns the value, or the empty string when the value is the placeholder |
| CanvasInput.Field.SetValue | CanvasInput.js:270-279 | the setter stores the value, puts the caret after its visible part (so within the value), and the getter then returns it unless it equals the placeholder |
| CanvasInput.Field.ClickPosIn | CanvasInput.js:949-975 | the character a click maps to, defined as `ClickIndex` on the clipped value, with a placeholder value counted as empty; the `ClickPos` loop is proved equal to it |
| CanvasInput.Field.ClickPos | CanvasInput.js:949-975 | the loop returns the click index of the clipped value, with a placeholder value counted as empty |
| CanvasInput.Field.ClickOnPlaceholder | CanvasInput.js:953-963 | on a field showing its placeholder every click maps to index 0 |
| CanvasInput.Registry.AtMostOneFocused | CanvasInput.js:346-351 | the single-focus invariant: no two listed fields hold the focus; `Blur` and `Focus` preserve it |
| CanvasInput.Field.Blurred | CanvasInput.js:412-420 | the state after `blur`, which the contracts of `Blur`, `Click` and `Destroy` are written in; `BlurIdempotent` and `FocusBlurRestoresValue` state its properties |
| CanvasInput.Field.Focused | CanvasInput.js:354-377 | the state of the field after `focus(pos)`, which the contracts of `Focus`, `TakeFocus` and `Click` are written in; `FocusCaretPastEmptyValue` and `FocusBlurRestoresValue` state its properties |
| CanvasInput.Field.Blur | CanvasInput.js:404-423 | no focus, no caret, no selection; an empty value becomes the placeholder and any other value is kept; no second focused field appears |
| CanvasInput.Field.Focus | CanvasInput.js:343-377 | this field ends up in the `Focused` state; when it was not focused, every other listed field that had the focus is blurred, so at most one listed field has it |
| CanvasInput.Field.TakeFocus | CanvasInput.js:354-377 | the selection is reset unless a drag just made it; the field takes the focus; unless read-only, the caret goes to `pos` or after the clipped value, and a placeholder value is cleared |
| CanvasInput.Field.BlurOthers | CanvasInput.js:346-351 | the loop over the list blurs each listed field that has the focus and leaves the rest unchanged, so afterwards none has it |
| CanvasInput.Field.FocusCaretPastEmptyValue | CanvasInput.js:371-377 | focusing a field that shows a non-empty placeholder clears the value but leaves the caret after the clipped placeholder, past the end of the value |
| CanvasInput.Field.SelectText | CanvasInput.js:596-604 | the selection becomes the given range, or all of the value |
| CanvasInput.Field.KeyDown | CanvasInput.js:431-477 | read-only or unfocused fields ignore keys; Ctrl/Cmd+A selects all; Ctrl/Cmd combinations change nothing; tab with several fields blurs this one and names the next index; otherwise the value and caret are copied from the hidden input as it is when the handler runs, before the key is applied, and the selection is dropped |
| CanvasInput.Field.KeyUp | CanvasInput.js:146-157 | the value and caret are copied from the hidden input after the key, on any field, focused or not, and everything else, the selection included, is unchanged |
| CanvasInput.Field.ClearSelection | CanvasInput.js:816-833 | when the selection end is positive the span is cut out with `substr`, the caret moves to its start (at least 0) and `true` is returned; otherwise nothing changes and `false` is returned; for an in-range selection the value is `value[..start] + value[end..]` |
| CanvasInput.Field.MouseDown | CanvasInput.js:553-566 | the pressed flag records whether the press was over the box; a focused field anchors a drag at the pressed character |
| CanvasInput.Field.MouseMove | CanvasInput.js:514-546 | during a drag over the box the selection is `[min(anchor, cur), max(anchor, cur)]`, ordered; off the box the selection is kept, the drag ends and the next click is swallowed; outside a drag nothing changes |
| CanvasInput.Field.BlurIdempotent | CanvasInput.js:404-423 | blurring an already blurred field changes nothing |
| CanvasInput.Field.FocusBlurRestoresValue | CanvasInput.js:373-420 | focus followed by blur gives the value back (a placeholder cleared by the focus is restored), except that an empty value comes back as the placeholder, and leaves the field unfocused |
| CanvasInput.Field.DragOffBoxSwallowsClick | CanvasInput.js:491-495 | after a drag that left the box, the next release and click only reset the drag flags and keep focus, value, caret and selection |
| CanvasInput.Field.DragSelectionSurvivesClick | CanvasInput.js:578-582 | a drag released over the box on another character keeps its selection through the click that follows, which moves the caret to the release point and clears the protecting flag |
| CanvasInput.Field.PlainClickResetsSelection | CanvasInput.js:577-585 | a press and release on the same character resets the selection and puts the caret there |
| CanvasInput.Field.Released | CanvasInput.js:577-586 | the state after the first half of `mouseup`, which `Release` and `MouseUp` are specified by; the drag lemmas state its properties |
| CanvasInput.Field.Clicked | CanvasInput.js:486-506 | the state after `click`, which `Click` and `MouseUp` are specified by; the drag lemmas state its properties |
| CanvasInput.Field.Click | CanvasInput.js:486-506 | a click ending a drag is swallowed; after a press over the box the field is focused at the clicked character, blurring the previously focused field; a click off the box blurs the field |
| CanvasInput.Field.Release | CanvasInput.js:573-586 | a drag that ends over the box on a character other than its anchor is kept as a selection; the anchor is dropped in every case |
| CanvasInput.Field.MouseUp | CanvasInput.js:573-589 | the release step followed by the click step, each on the pointer position of the release; on the canvas the page-wide listener `WindowMouseUp` runs before it (`CanvasMouseUp`) |
| CanvasInput.Field.WindowReleased | CanvasInput.js:110-116 | the state after the page-wide `mouseup` listener: a focused field whose press did not start over its box is blurred, any other state is kept |
| CanvasInput.Field.WindowMouseUp | CanvasInput.js:110-116 | the page-wide listener blurs the field exactly when it has the focus and was not pressed over its box, and no second focused field appears |
| CanvasInput.Field.CanvasMouseUp | CanvasInput.js:104-116 | a release over the canvas runs the page-wide listener first (it listens in the capture phase) and then `mouseup` on the state it left |
| CanvasInput.Field.PressOffReleaseOverBlurs | CanvasInput.js:110-116 | a focused field pressed off its box and released over it ends up blurred, and the click focuses nothing |
| CanvasInput.Field.Destroy | CanvasInput.js:757-769 | the list becomes `Unregistered(list, this)`, and the field is blurred if it had the focus |

## Left out

- Drawing: `render`, `_drawTextBox`, the `_roundedRect` path, inner-shadow compositing and canvas blits are calls on the host's 2D context. Only the radius clamp is modelled.
- The DOM: canvas and hidden-input creation, the registration of the listeners (the page-wide `mouseup` listener itself is modelled by `WindowMouseUp`), `_mousePos` (which walks `offsetParent` and computed styles) and `_updateCanvasWH`. Pointer positions are parameters in canvas coordinates.
- Timers: the caret blink interval and the deferral in tab and `selectText`.
  - `SelectText` applies its range at once.
  - `KeyDown` returns the index tab picked; focusing that entry is left to the caller.
- The hidden input's own state: its value, `readOnly`, focus and selection bounds, which `value`, `focus` and `selectText` also set. `KeyDown` and `KeyUp` receive the value and caret the hidden input holds when each handler reads it.
- `_textWidth` and `measureText`: an uninterpreted non-negative width function on exact reals, so float rounding in `fillPer` is not modelled. The layout type demands `width > padding`.
- Text encoding: a model string stands for the value's sequence of UTF-16 code units, which is what JavaScript's `length`, `substr`, `text[i]` and the hidden input's `selectionStart` count. Dafny's `char` is a Unicode scalar value, so text outside the Basic Multilingual Plane (one character, two code units) is not modelled. For such text the kept count of `_clipText` and the characters `_clickPos` scans differ from the model's.
- Shadow-string parsing with `split` and `parseInt`: the offsets and blur arrive as integers.
- User callbacks (`onfocus`, `onblur`, `onkeydown`, `onkeyup`, `onsubmit`), `preventDefault`, and the order in which `focus` fires `onfocus` relative to blurring the others.
- The generated getters and setters of the configuration: here the configuration is constant for a field's lifetime.
- The canvas cursor style and `_wasOver` in `mousemove`, which only affect how the pointer is drawn.
- `Destroy`: does not model removing the canvas, the hidden input or the blink interval. It models only the list and the blur.
