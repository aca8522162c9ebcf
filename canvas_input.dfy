/**
 * The editing and selection state machine of one CanvasInput text field, and
 * the shared list of all fields that focus and tab order go through.
 *
 * A field's configuration (layout, font measurement, placeholder, read-only
 * flag, whether it is attached to a visible canvas) is fixed here; its editing
 * state is a set of mutable fields, summarised by `State()`. Each handler is a
 * method that says what the new state is in terms of the old one. Pointer
 * positions arrive already translated into canvas coordinates; the hidden
 * native input that does the real text editing is represented only by the
 * value and caret position the key handlers read from it.
 */
module CanvasInput {
  import opened Common
  import opened BoxModel
  import opened ClipEngine
  import opened ClickMapper
  import opened InputOrder
  import opened JsString
  import JsArray

  /** A selection `[start, end]`; "there is a selection" is tested as `end > 0`. */
  datatype Range = Range(start: int, end: int)

  /** A key press: its key code and whether Ctrl or Meta was held. */
  datatype Key = Key(code: int, ctrl: bool, meta: bool)

  const KeyTab := 9
  const KeyEnter := 13
  const KeyCtrl := 17
  const KeyA := 65

  /** How `keydown` treats a key. */
  datatype KeyKind = SelectAll | Blocked | Submit | Tab | Edit

  function Classify(key: Key): (k: KeyKind)
    ensures k == SelectAll <==> key.code == KeyA && (key.ctrl || key.meta)
    ensures k == Blocked <==> !(key.code == KeyA) && (key.code == KeyCtrl || key.ctrl || key.meta)
    ensures k == Tab <==> key.code == KeyTab && !key.ctrl && !key.meta
  {
    if key.code == KeyA && (key.ctrl || key.meta) then SelectAll
    else if key.code == KeyCtrl || key.meta || key.ctrl then Blocked
    else if key.code == KeyEnter then Submit
    else if key.code == KeyTab then Tab
    else Edit
  }

  /** The editing state of one field. `selectionStart` is the anchor of a drag in
      progress; `selectionUpdated` marks a selection just made by dragging, and
      `endSelection` a drag that left the box, so the next click is swallowed. */
  datatype FieldState = FieldState(
    value: string,
    cursorPos: int,
    selection: Range,
    hasFocus: bool,
    cursor: bool,
    mouseDown: bool,
    selectionStart: Option<nat>,
    selectionUpdated: bool,
    endSelection: bool)

  /** The list of every live field, in creation order. */
  class Registry {
    var inputs: seq<Field>

    constructor ()
      ensures inputs == []
    {
      inputs := [];
    }

    /** No two distinct listed fields hold the focus. */
    predicate AtMostOneFocused()
      reads this, inputs
    {
      forall i, j :: 0 <= i < j < |inputs| && inputs[i].hasFocus && inputs[j].hasFocus ==> inputs[i] == inputs[j]
    }
  }

  class Field {
    const registry: Registry
    /** Position of this field in the list when it was created; never updated afterwards. */
    const inputsIndex: nat
    const layout: TextLayout
    const measure: Metrics
    const placeHolder: string
    const readonly: bool
    const hasCanvas: bool

    var value: string
    var cursorPos: int
    var selection: Range
    var hasFocus: bool
    var cursor: bool
    var mouseDown: bool
    var selectionStart: Option<nat>
    var selectionUpdated: bool
    var endSelection: bool

    function State(): FieldState
      reads this
    {
      FieldState(value, cursorPos, selection, hasFocus, cursor, mouseDown,
                 selectionStart, selectionUpdated, endSelection)
    }

    /** A new field starts unfocused, showing its value or, when that is empty, its
        placeholder, and is appended to the list. */
    constructor (registry: Registry, layout: TextLayout, measure: Metrics, placeHolder: string,
                 value: string, readonly: bool, hasCanvas: bool)
      modifies registry
      ensures this.registry == registry && this.layout == layout && this.measure == measure
      ensures this.placeHolder == placeHolder && this.readonly == readonly && this.hasCanvas == hasCanvas
      ensures registry.inputs == old(registry.inputs) + [this]
      ensures inputsIndex == |old(registry.inputs)|
      ensures State() == FieldState(if value == "" then placeHolder else value, 0, Range(0, 0),
                                    false, false, false, None, false, false)
    {
      this.registry := registry;
      this.inputsIndex := |registry.inputs|;
      this.layout := layout;
      this.measure := measure;
      this.placeHolder := placeHolder;
      this.readonly := readonly;
      this.hasCanvas := hasCanvas;
      this.value := if value == "" then placeHolder else value;
      cursorPos := 0;
      selection := Range(0, 0);
      hasFocus := false;
      cursor := false;
      mouseDown := false;
      selectionStart := None;
      selectionUpdated := false;
      endSelection := false;
      new;
      registry.inputs := registry.inputs + [this];
    }

    /** The visible part of a value in this field. */
    function Clip(v: string): string {
      ClipText(measure, layout.width, layout.padding, v)
    }

    function Over(px: real, py: real): bool {
      OverInput(layout, px, py)
    }

    /** The character index a click at horizontal position `px` maps to, for a field
        holding `v`; a value equal to the placeholder counts as empty. */
    function ClickPosIn(v: string, px: real): nat {
      var text := Clip(if v == placeHolder then "" else v);
      ClickIndex(measure, text, px - (layout.x + layout.extraX))
    }

    /** The value getter: the value, except that the placeholder reads as empty. */
    function Value(): (v: string)
      reads this
      ensures value != placeHolder ==> v == value
      ensures value == placeHolder ==> v == ""
    {
      if value == placeHolder then "" else value
    }

    /** The value setter: stores the value and puts the caret after its visible part. */
    method SetValue(data: string)
      modifies this
      ensures State() == old(State()).(value := data, cursorPos := |Clip(data)|)
      ensures Value() == if data == placeHolder then "" else data
      ensures cursorPos <= |data|
    {
      value := data;
      cursorPos := |Clip(value)|;
    }

    /** `_clickPos`: scan the visible text left to right, adding up the width of each
        character, and stop at the first one whose running total reaches the click. */
    method ClickPos(px: real) returns (pos: nat)
      ensures pos == ClickPosIn(value, px)
    {
      var v := value;
      if value == placeHolder {
        v := "";
      }
      var text := Clip(v);
      var totalW := 0.0;
      pos := |text|;
      var dx := px - (layout.x + layout.extraX);
      if dx < measure(text) {
        var i := 0;
        while i < |text|
          invariant 0 <= i <= |text|
          invariant totalW == CumWidth(measure, text, i)
          invariant FirstReach(measure, text, dx, i) == FirstReach(measure, text, dx, 0)
          invariant pos == |text|
        {
          totalW := totalW + measure([text[i]]);
          if totalW >= dx {
            pos := i;
            break;
          }
          i := i + 1;
        }
      }
    }

    /** A click on a field whose value is still its placeholder puts the caret at 0. */
    lemma ClickOnPlaceholder(px: real)
      ensures ClickPosIn(placeHolder, px) == 0
    {
      ClickIndexEmpty(measure, px - (layout.x + layout.extraX));
    }

    /** The state after `blur`: no focus, no caret, no selection, and an empty value
        replaced by the placeholder. */
    function Blurred(s: FieldState): FieldState {
      s.(hasFocus := false, cursor := false, selection := Range(0, 0),
         value := if s.value == "" then placeHolder else s.value)
    }

    /** The state of this field after `focus(pos)` (the other fields are handled by the
        method). A read-only field stops after taking the focus. The caret position is
        computed from the visible value before a placeholder value is cleared. */
    function Focused(s: FieldState, pos: Option<int>): FieldState {
      var s1 := if !s.selectionUpdated then s.(selection := Range(0, 0)) else s.(selectionUpdated := false);
      var s2 := s1.(hasFocus := true);
      if readonly then s2
      else
        s2.(cursorPos := if pos.Some? then pos.value else |Clip(s2.value)|,
            value := if placeHolder == s2.value then "" else s2.value,
            cursor := true)
    }

    /** Focus leaves one field with the focus: the other listed fields are blurred if
        they had it when `moved` holds, and untouched otherwise. */
    twostate predicate OthersBlurredIf(moved: bool)
      reads this, registry, registry.inputs
    {
      && registry.inputs == old(registry.inputs)
      && forall k :: 0 <= k < |registry.inputs| && registry.inputs[k] != this ==>
           registry.inputs[k].State() ==
             if moved && old(registry.inputs[k].hasFocus) then registry.inputs[k].Blurred(old(registry.inputs[k].State()))
             else old(registry.inputs[k].State())
    }

    method Blur()
      modifies this
      ensures State() == Blurred(old(State()))
      ensures old(registry.AtMostOneFocused()) ==> registry.AtMostOneFocused()
    {
      hasFocus := false;
      cursor := false;
      selection := Range(0, 0);
      if value == "" {
        value := placeHolder;
      }
    }

    /** `focus(pos)`: a field that did not have the focus first blurs every listed field
        that has it, so afterwards this is the only focused field. */
    method Focus(pos: Option<int>)
      modifies this, registry.inputs
      ensures State() == Focused(old(State()), pos)
      ensures OthersBlurredIf(!old(hasFocus))
      ensures !old(hasFocus) || old(registry.AtMostOneFocused()) ==> registry.AtMostOneFocused()
    {
      if !hasFocus {
        BlurOthers();
      }
      TakeFocus(pos);
    }

    /** The part of `focus` after the loop: mark this field focused and, unless it is
        read-only, place the caret and clear a placeholder value. */
    method TakeFocus(pos: Option<int>)
      modifies this
      ensures State() == Focused(old(State()), pos)
    {
      if !selectionUpdated {
        selection := Range(0, 0);
      } else {
        selectionUpdated := false;
      }

      hasFocus := true;
      if readonly {
        return;
      }

      cursorPos := if pos.Some? then pos.value else |Clip(value)|;
      if placeHolder == value {
        value := "";
      }
      cursor := true;
    }

    /** The loop of `focus` over the list: blur every listed field that has the focus. */
    method BlurOthers()
      requires !hasFocus
      modifies registry.inputs
      ensures State() == old(State())
      ensures OthersBlurredIf(true)
      ensures forall k :: 0 <= k < |registry.inputs| ==> !registry.inputs[k].hasFocus
    {
      var i := 0;
      while i < |registry.inputs|
        invariant 0 <= i <= |registry.inputs|
        invariant registry.inputs == old(registry.inputs)
        invariant State() == old(State())
        invariant forall k :: 0 <= k < i ==> !registry.inputs[k].hasFocus
        invariant forall k :: 0 <= k < |registry.inputs| ==>
          registry.inputs[k].BlurredOrKept(registry.inputs[k].State(), old(registry.inputs[k].State()))
      {
        if registry.inputs[i].hasFocus {
          registry.inputs[i].Blur();
        }
        i := i + 1;
      }
    }

    /** A field state is the old one, or the blurred old one if the field had the focus. */
    predicate BlurredOrKept(now: FieldState, was: FieldState) {
      now == was || (was.hasFocus && now == Blurred(was))
    }

    /** Focusing a field whose value is its placeholder clears the value but places
        the caret after the clipped placeholder, past the end of the now empty value. */
    lemma FocusCaretPastEmptyValue(s: FieldState)
      requires !readonly && s.value == placeHolder && |Clip(placeHolder)| > 0
      ensures Focused(s, None).value == ""
      ensures Focused(s, None).cursorPos == |Clip(placeHolder)| > |Focused(s, None).value|
    {
    }

    /** `selectText(range)`, performed at once: select the given range, or all of the value. */
    method SelectText(range: Option<Range>)
      modifies this
      ensures State() == old(State()).(selection := range.GetOr(Range(0, |old(value)|)))
      ensures range == None ==> selection.start == 0 && selection.end == |value|
    {
      selection := range.GetOr(Range(0, |value|));
    }

    /** `keydown`: `proxyValue` and `proxyCaret` are what the hidden input holds when the
        handler reads it. Keydown runs before the browser applies the key, so these are
        the contents before this key; `KeyUp` copies the result later. Returns the index
        of the field that tab hands the focus to, which the caller focuses later. */
    method KeyDown(key: Key, proxyValue: string, proxyCaret: int) returns (next: Option<nat>)
      modifies this
      ensures readonly || !old(hasFocus) ==> State() == old(State())
      ensures !readonly && old(hasFocus) ==>
        match Classify(key)
        case SelectAll => State() == old(State()).(selection := Range(0, |old(value)|))
        case Blocked => State() == old(State())
        case Tab =>
          var s := if |registry.inputs| > 1 then Blurred(old(State())) else old(State());
          State() == s.(value := proxyValue, cursorPos := proxyCaret, selection := Range(0, 0))
        case _ => State() == old(State()).(value := proxyValue, cursorPos := proxyCaret, selection := Range(0, 0))
      ensures next.Some? <==> !readonly && old(hasFocus) && Classify(key) == Tab && |registry.inputs| > 1
      ensures next.Some? ==> next.value == NextTabIndex(inputsIndex, |registry.inputs|) < |registry.inputs|
    {
      next := None;
      if readonly || !hasFocus {
        return;
      }

      var kind := Classify(key);
      if kind == SelectAll {
        SelectText(None);
        return;
      }
      if kind == Blocked {
        return;
      }

      if kind == Tab && |registry.inputs| > 1 {
        next := Some(NextTabIndex(inputsIndex, |registry.inputs|));
        Blur();
      }

      value := proxyValue;
      cursorPos := proxyCaret;
      selection := Range(0, 0);
    }

    /** The `keyup` listener: copy the hidden input's value and caret, which now include
        the key. It does so whether or not the field has the focus or is read-only, and
        leaves the selection alone. */
    method KeyUp(proxyValue: string, proxyCaret: int)
      modifies this
      ensures State() == old(State()).(value := proxyValue, cursorPos := proxyCaret)
    {
      value := proxyValue;
      cursorPos := proxyCaret;
    }

    /** `_clearSelection`: when the selection's end is positive, cut the selected span
        out of the value with JavaScript `substr`, put the caret at its start (at least 0)
        and drop the selection. */
    method ClearSelection() returns (removed: bool)
      modifies this
      ensures removed <==> old(selection.end) > 0
      ensures !removed ==> State() == old(State())
      ensures removed ==>
        var start, end := old(selection.start), old(selection.end);
        State() == old(State()).(value := SubstrPrefix(old(value), start) + SubstrFrom(old(value), end),
                                 cursorPos := if start < 0 then 0 else start,
                                 selection := Range(0, 0))
      ensures removed && 0 <= old(selection.start) <= old(selection.end) <= |old(value)| ==>
        && value == old(value)[..old(selection.start)] + old(value)[old(selection.end)..]
        && |value| == |old(value)| - (old(selection.end) - old(selection.start))
        && cursorPos == old(selection.start) <= |value|
    {
      if selection.end > 0 {
        var start, end := selection.start, selection.end;
        value := SubstrPrefix(value, start) + SubstrFrom(value, end);
        cursorPos := start;
        cursorPos := if cursorPos < 0 then 0 else cursorPos;
        selection := Range(0, 0);
        return true;
      }
      return false;
    }

    /** `mousedown`: remember whether the press was over the box, and when the field
        has the focus and it was, anchor a drag at the pressed character. */
    method MouseDown(px: real, py: real)
      modifies this
      ensures State() == old(State()).(
        mouseDown := Over(px, py),
        selectionStart := if old(hasFocus) && Over(px, py) then Some(ClickPosIn(old(value), px)) else old(selectionStart))
    {
      var isOver := Over(px, py);
      mouseDown := isOver;
      if hasFocus && isOver {
        var p := ClickPos(px);
        selectionStart := Some(p);
      }
    }

    /** `mousemove`: during a drag (focused, anchor set) over the box the selection spans
        from the anchor to the character under the pointer, in order; leaving the box
        ends the drag and keeps the selection it had. Outside a drag nothing changes. */
    method MouseMove(px: real, py: real)
      modifies this
      ensures !old(hasFocus && selectionStart.Some?) ==> State() == old(State())
      ensures old(hasFocus && selectionStart.Some?) && Over(px, py) ==>
        var anchor, cur := old(selectionStart.value), ClickPosIn(old(value), px);
        && State() == old(State()).(selection := Range(Min(anchor, cur), Max(anchor, cur)))
        && 0 <= selection.start <= selection.end
      ensures old(hasFocus && selectionStart.Some?) && !Over(px, py) ==>
        State() == old(State()).(selectionUpdated := true, endSelection := true, selectionStart := None)
    {
      var isOver := Over(px, py);
      if hasFocus && selectionStart.Some? {
        var curPos := ClickPos(px);
        var start, end := Min(selectionStart.value, curPos), Max(selectionStart.value, curPos);

        if !isOver {
          selectionUpdated := true;
          endSelection := true;
          selectionStart := None;
          return;
        }

        if selection.start != start || selection.end != end {
          selection := Range(start, end);
        }
      }
    }

    /** The part of `mouseup` before its click, for a release over the box or not
        (`over`) at character `cur`: a drag that ends over the box on another character
        than its anchor is kept as a selection; the anchor is dropped either way. */
    function Released(s: FieldState, over: bool, cur: nat): FieldState {
      var isSelection := s.selectionStart != Some(cur);
      if s.hasFocus && s.selectionStart.Some? && over && isSelection then
        s.(selectionUpdated := true, selectionStart := None)
      else
        s.(selectionStart := None)
    }

    /** The state after `click`, over the box or not (`over`) at character `cur`: a click
        that ends a drag is swallowed; a click over the box (or anywhere, without a canvas)
        that follows a press there focuses the field with the caret at `cur`; a click off
        the box blurs the field. */
    function Clicked(s: FieldState, over: bool, cur: nat): FieldState {
      if s.endSelection then s.(endSelection := false, selectionUpdated := false)
      else if (hasCanvas && over) || !hasCanvas then
        if s.mouseDown then Focused(s.(mouseDown := false), Some(cur)) else s
      else Blurred(s)
    }

    /** Whether that click moves the focus here from elsewhere. */
    function ClickFocuses(s: FieldState, over: bool): bool {
      && !s.endSelection
      && ((hasCanvas && over) || !hasCanvas)
      && s.mouseDown
      && !s.hasFocus
    }

    /** Blurring twice is blurring once. */
    lemma BlurIdempotent(s: FieldState)
      ensures Blurred(Blurred(s)) == Blurred(s)
    {
    }

    /** Focusing and then blurring gives the value back, with a placeholder cleared by
        the focus restored, except that an empty value comes back as the placeholder. */
    lemma FocusBlurRestoresValue(s: FieldState, pos: Option<int>)
      ensures Blurred(Focused(s, pos)).value == if s.value == "" then placeHolder else s.value
      ensures !Blurred(Focused(s, pos)).hasFocus
    {
    }

    /** A drag that left the box swallows the click of the next release: the field keeps
        its focus, value, caret and selection, and only the drag bookkeeping is reset. */
    lemma DragOffBoxSwallowsClick(s: FieldState, over: bool, cur: nat)
      requires s.endSelection
      ensures Clicked(Released(s, over, cur), over, cur) ==
        s.(selectionStart := None, endSelection := false, selectionUpdated := false)
    {
    }

    /** A drag released over the box on another character than its anchor keeps the
        selection it made: the click that follows moves the caret to the release point
        but does not reset the selection, and clears the flag that protected it. */
    lemma DragSelectionSurvivesClick(s: FieldState, cur: nat)
      requires s.hasFocus && s.mouseDown && !s.endSelection && !s.selectionUpdated
      requires s.selectionStart.Some? && s.selectionStart.value != cur
      ensures var t := Clicked(Released(s, true, cur), true, cur);
        && t.selection == s.selection
        && t.hasFocus && !t.mouseDown && !t.selectionUpdated && t.selectionStart == None
        && (!readonly ==> t.cursorPos == cur)
    {
    }

    /** Pressing and releasing on the anchor character without a drag is a plain click:
        the selection is reset and the caret goes to that character. */
    lemma PlainClickResetsSelection(s: FieldState, cur: nat)
      requires s.hasFocus && s.mouseDown && !s.endSelection && !s.selectionUpdated
      requires s.selectionStart == Some(cur)
      ensures var t := Clicked(Released(s, true, cur), true, cur);
        && t.selection == Range(0, 0)
        && t.hasFocus && t.selectionStart == None
        && (!readonly ==> t.cursorPos == cur)
    {
    }

    /** `click`. The nested call to itself runs once `mouseDown` is cleared and changes nothing. */
    method Click(px: real, py: real)
      modifies this, registry.inputs
      decreases if mouseDown then 1 else 0
      ensures State() == Clicked(old(State()), Over(px, py), ClickPosIn(old(value), px))
      ensures OthersBlurredIf(ClickFocuses(old(State()), Over(px, py)))
    {
      if endSelection {
        endSelection := false;
        selectionUpdated := false;
        return;
      }

      if (hasCanvas && Over(px, py)) || !hasCanvas {
        if mouseDown {
          mouseDown := false;
          Click(px, py);
          assert State() == old(State()).(mouseDown := false) && OthersBlurredIf(false);
          var pos := ClickPos(px);
          Focus(Some(pos));
        }
      } else {
        Blur();
      }
    }

    /** The first half of `mouseup`: settle the drag. */
    method Release(px: real, py: real)
      modifies this
      ensures State() == Released(old(State()), Over(px, py), ClickPosIn(old(value), px))
    {
      var p := ClickPos(px);
      var isSelection := selectionStart != Some(p);
      if hasFocus && selectionStart.Some? && Over(px, py) && isSelection {
        selectionUpdated := true;
        selectionStart := None;
      } else {
        selectionStart := None;
      }
    }

    /** `mouseup`: settle the drag, then handle the click. */
    method MouseUp(px: real, py: real)
      modifies this, registry.inputs
      ensures var over, cur := Over(px, py), ClickPosIn(old(value), px);
        var s := Released(old(State()), over, cur);
        State() == Clicked(s, over, cur) && OthersBlurredIf(ClickFocuses(s, over))
    {
      Release(px, py);
      Click(px, py);
    }

    /** The state after the page-wide `mouseup` listener, which runs on a release anywhere
        on the page and, listening in the capture phase, before the canvas's own `mouseup`:
        a focused field whose press did not start over its box is blurred. */
    function WindowReleased(s: FieldState): FieldState {
      if s.hasFocus && !s.mouseDown then Blurred(s) else s
    }

    /** The page-wide `mouseup` listener on its own, as for a release off the canvas. */
    method WindowMouseUp()
      modifies this
      ensures State() == WindowReleased(old(State()))
      ensures old(registry.AtMostOneFocused()) ==> registry.AtMostOneFocused()
    {
      if hasFocus && !mouseDown {
        Blur();
      }
    }

    /** A release over the canvas: the page-wide listener runs first, then `mouseup`,
        which reads the value the first step left. */
    method CanvasMouseUp(px: real, py: real)
      modifies this, registry.inputs
      ensures var w := WindowReleased(old(State()));
        var over, cur := Over(px, py), ClickPosIn(w.value, px);
        var s := Released(w, over, cur);
        State() == Clicked(s, over, cur) && OthersBlurredIf(ClickFocuses(s, over))
    {
      WindowMouseUp();
      MouseUp(px, py);
    }

    /** A focused field pressed off its box and released over it ends up blurred: the
        page-wide listener blurs it, and the click that follows, with no press over the
        box to finish, leaves it so and focuses nothing. */
    lemma PressOffReleaseOverBlurs(s: FieldState, cur: nat)
      requires s.hasFocus && !s.mouseDown && !s.endSelection
      ensures var w := WindowReleased(s);
        && Clicked(Released(w, true, cur), true, cur) == Blurred(s).(selectionStart := None)
        && !ClickFocuses(Released(w, true, cur), true)
    {
    }

    /** The registry part of `destroy`: splice this field out of the list under the
        truthiness test on its index, then blur it if it has the focus. */
    method Destroy()
      modifies this, registry
      ensures registry.inputs == Unregistered(old(registry.inputs), this)
      ensures State() == if old(hasFocus) then Blurred(old(State())) else old(State())
    {
      var index := JsArray.IndexOf(registry.inputs, this);
      if index != 0 {
        registry.inputs := JsArray.SpliceOne(registry.inputs, index);
      }

      if hasFocus {
        Blur();
      }
    }
  }
}
