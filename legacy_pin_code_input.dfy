/** The legacy pin-code widget. It keeps the cell it wants focused as
    component state (`focusIndex`), validates every change it emits, and when
    a check fails restores the value the cell had before the event instead of
    clearing it. Its key names are the `DOM_VK_*` constant names. */
module LegacyPinCode {
  import opened Rules
  import opened Widget
  import PinCode

  /** The key-name table: only the `DOM_VK_*` names act as Backspace or as
      arrow keys; every other key is handled as a typed key. */
  function KeyOf(key: string): KeyAction {
    if key == "DOM_VK_BACK_SPACE" then Erase
    else if key == "DOM_VK_LEFT" || key == "DOM_VK_UP" then MoveBack
    else if key == "DOM_VK_RIGHT" || key == "DOM_VK_DOWN" then MoveForward
    else Typed
  }

  /** The key names of the current widget are typed keys here, and the
      built-in rules reject them all, so with a built-in rule they do nothing. */
  lemma CurrentKeyNamesAreTyped(t: InputType, key: string)
    requires PinCode.KeyOf(key) != Typed
    ensures KeyOf(key) == Typed && !Accepts(BuiltIn(t), key)
  {
  }

  /** The direction `onChange` is given. */
  datatype Direction = Next | Prev | Current

  /** The `focusIndex` map inside `onChange`: the same cell, the next one
      (the last cell at most) or the previous one (the first cell at least). */
  function FocusTarget(dir: Direction, index: int, n: int): (r: int)
    ensures 0 <= index < n ==> 0 <= r < n
    ensures dir == Current ==> r == index
    ensures dir == Next && 0 <= index < n ==> r == index + 1 || (r == index && index == n - 1)
    ensures dir == Prev && 0 <= index < n ==> r == index - 1 || (r == index && index == 0)
  {
    match dir
    case Current => index
    case Next => if index + 1 >= n then n - 1 else index + 1
    case Prev => if index - 1 < 0 then 0 else index - 1
  }

  /** What `onChangeAll` leaves in cell `key`: a value the rule rejects is
      replaced by the cell's value from before the event, when the cell is
      rendered; anything else is kept. */
  function RestoreCell(rule: Rule, prior: seq<string>, key: nat, v: string): string {
    if key < |prior| && !Accepts(rule, v) then prior[key] else v
  }

  /** `onChangeAll`'s pass over the cells from `key` on, as its loop walks them. */
  function RestoreFrom(rule: Rule, prior: seq<string>, s: seq<string>, key: nat): (r: seq<string>)
    requires key <= |s|
    ensures |r| == |s| - key
    ensures forall i :: key <= i < |s| ==> r[i - key] == RestoreCell(rule, prior, i, s[i])
    decreases |s| - key
  {
    if key == |s| then [] else [RestoreCell(rule, prior, key, s[key])] + RestoreFrom(rule, prior, s, key + 1)
  }

  /** `onChangeAll`'s pass: a cell that fails the rule gets back the value it
      had before the event; cells past the rendered ones are kept. */
  function RestoreInvalid(rule: Rule, prior: seq<string>, s: seq<string>): (r: seq<string>)
    ensures |r| == |s|
    ensures forall i :: 0 <= i < |s| ==>
      r[i] == if i < |prior| && !Accepts(rule, s[i]) then prior[i] else s[i]
  {
    RestoreFrom(rule, prior, s, 0)
  }

  /** Cells that pass the rule are kept, and when the values before the event
      all passed, every cell of the result passes. */
  lemma RestoreInvalidValid(rule: Rule, prior: seq<string>, s: seq<string>)
    requires |s| == |prior|
    requires forall i :: 0 <= i < |prior| ==> Accepts(rule, prior[i])
    ensures forall i :: 0 <= i < |s| ==> Accepts(rule, RestoreInvalid(rule, prior, s)[i])
    ensures forall i :: 0 <= i < |s| && Accepts(rule, s[i]) ==> RestoreInvalid(rule, prior, s)[i] == s[i]
  {
  }

  /** Restoring twice against the same earlier values is restoring once. */
  lemma RestoreInvalidIdempotent(rule: Rule, prior: seq<string>, s: seq<string>)
    ensures RestoreInvalid(rule, prior, RestoreInvalid(rule, prior, s)) == RestoreInvalid(rule, prior, s)
  {
  }

  /** Clearing the whole row: it stays cleared when the rule accepts the empty
      string; otherwise every cell gets its earlier value back. */
  lemma RestoreBlank(rule: Rule, prior: seq<string>)
    ensures Accepts(rule, "") ==> RestoreInvalid(rule, prior, Blank(|prior|)) == Blank(|prior|)
    ensures !Accepts(rule, "") ==> RestoreInvalid(rule, prior, Blank(|prior|)) == prior
  {
  }

  /** Where the two widgets part: a cell whose pasted unit the rule rejects is
      cleared by the current widget and gets its earlier value back here. */
  lemma VariantsDifferOnRejectedPaste(rule: Rule, values: seq<string>, index: nat, text: string, j: nat)
    requires index <= j < |values| && j < index + |text|
    requires !Accepts(rule, [text[j - index]])
    ensures |Pasted(values, index, text)| == |values|
    ensures PinCode.SanitizeAll(rule, Pasted(values, index, text))[j] == ""
    ensures RestoreInvalid(rule, values, Pasted(values, index, text))[j] == values[j]
  {
    PastedAt(values, index, text);
  }

  /** One mounted legacy widget. `values` is the `value` prop; `focusIndex` is
      the state that picks the `autoFocus` cell; `focused` is the cell that has
      focus (-1 for none); `emitted` records every array passed to
      `onInputChange`, in order. */
  class LegacyPinCodeInput {
    const rule: Rule
    var values: seq<string>
    var focusIndex: int
    var focused: int
    var emitted: seq<seq<string>>

    ghost predicate Valid()
      reads this
    {
      && -1 <= focusIndex
      // `focusIndex` is 0 without a cell to match only when a row of no
      // cells is mounted with `autoFocus`.
      && (focusIndex < |values| || focusIndex == 0)
      && -1 <= focused < |values|
    }

    /** Mounting: `focusIndex` starts at the first cell under `autoFocus`, and
        that cell takes focus when it exists. */
    constructor (rule: Rule, autoFocus: bool, value: seq<string>)
      ensures Valid()
      ensures this.rule == rule && values == value && emitted == []
      ensures focusIndex == if autoFocus then 0 else -1
      ensures focused == if autoFocus && |value| > 0 then 0 else -1
    {
      this.rule := rule;
      values := value;
      focusIndex := if autoFocus then 0 else -1;
      focused := if autoFocus && |value| > 0 then 0 else -1;
      emitted := [];
    }

    /** The widget renders again, with a `value` prop of the same length. Its
        cells are keyed by an id drawn afresh on every render, so they are all
        mounted anew and focus goes to the `autoFocus` cell, `focusIndex`. */
    method Rerender(next: seq<string>)
      requires Valid() && |next| == |values|
      modifies this`values, this`focused
      ensures Valid() && values == next
      ensures focused == if 0 <= focusIndex < |next| then focusIndex else -1
    {
      values := next;
      focused := if 0 <= focusIndex < |next| then focusIndex else -1;
    }

    /** `onChange(value, index, direction)`: when cell `index` exists and the
        rule accepts `v`, emits a copy with that cell set to `v` and moves
        `focusIndex` in the given direction; otherwise does nothing. */
    method OnChange(v: string, index: int, dir: Direction)
      requires Valid()
      modifies this`emitted, this`focusIndex
      ensures Valid()
      ensures !(0 <= index < |values| && Accepts(rule, v)) ==>
        emitted == old(emitted) && focusIndex == old(focusIndex)
      ensures 0 <= index < |values| && Accepts(rule, v) ==>
        emitted == old(emitted) + [values[index := v]] &&
        focusIndex == FocusTarget(dir, index, |values|)
    {
      var n := |values|;
      if 0 <= index < n {
        if !Accepts(rule, v) {
          return;
        }
        var changedValues := values;
        changedValues := changedValues[index := v];
        focusIndex := FocusTarget(dir, index, n);
        emitted := emitted + [changedValues];
      }
    }

    /** `onChangeAll(values, setIndex)`: gives every rendered cell of `a` that
        fails the rule its value from before the event, in place, sets
        `focusIndex` to `setIndex` and emits `a` once. */
    method OnChangeAll(a: array<string>, setIndex: int)
      modifies this`emitted, this`focusIndex, a
      ensures a[..] == RestoreInvalid(rule, values, old(a[..]))
      ensures focusIndex == setIndex
      ensures emitted == old(emitted) + [a[..]]
    {
      var key := 0;
      while key < a.Length
        invariant 0 <= key <= a.Length
        invariant forall j :: 0 <= j < key ==>
          a[j] == if j < |values| && !Accepts(rule, old(a[j])) then values[j] else old(a[j])
        invariant forall j :: key <= j < a.Length ==> a[j] == old(a[j])
        invariant emitted == old(emitted)
      {
        if key < |values| && !Accepts(rule, a[key]) {
          a[key] := values[key];
        }
        key := key + 1;
      }
      focusIndex := setIndex;
      emitted := emitted + [a[..]];
    }

    /** `onPaste`: writes each clipboard unit into a copy of the values at
        `index` onwards, skipping units past the last cell, then passes the copy
        to `onChangeAll` with the cell after the pasted run (the last cell at
        most) as the new `focusIndex`. */
    method OnPaste(text: string, index: nat)
      requires Valid() && index < |values|
      modifies this`emitted, this`focusIndex
      ensures Valid()
      ensures emitted == old(emitted) + [RestoreInvalid(rule, values, Pasted(values, index, text))]
      ensures focusIndex == Min(index + |text|, |values| - 1)
    {
      var n := |values|;
      var vs := values;
      var a := new string[n](j requires 0 <= j < n => vs[j]);
      var k := 0;
      while k < |text|
        invariant 0 <= k <= |text|
        invariant forall j :: 0 <= j < n ==>
          a[j] == if index <= j < index + k then [text[j - index]] else vs[j]
        invariant emitted == old(emitted) && focusIndex == old(focusIndex)
      {
        if index + k < n {
          a[index + k] := [text[k]];
        }
        k := k + 1;
      }
      PastedAt(vs, index, text);
      assert a[..] == Pasted(vs, index, text);
      OnChangeAll(a, if index + |text| >= n then n - 1 else index + |text|);
    }

    /** `onKeyDown` on cell `index`. */
    method OnKeyDown(key: string, ctrl: bool, meta: bool, index: nat)
      requires Valid() && index < |values|
      modifies this`emitted, this`focusIndex, this`focused
      ensures Valid()
      // Ctrl/Meta+Backspace clears the row (when the rule accepts a cleared
      // cell) and moves `focusIndex` to the first cell.
      ensures KeyOf(key) == Erase && (ctrl || meta) ==>
        emitted == old(emitted) + [if Accepts(rule, "") then Blank(|values|) else values] &&
        focusIndex == 0 && focused == old(focused)
      // Backspace on a filled cell clears it and moves `focusIndex` back.
      ensures KeyOf(key) == Erase && !(ctrl || meta) && values[index] != "" && Accepts(rule, "") ==>
        emitted == old(emitted) + [values[index := ""]] &&
        focusIndex == Max(index - 1, 0) && focused == old(focused)
      // Backspace on an empty cell clears the one before it and moves there.
      ensures KeyOf(key) == Erase && !(ctrl || meta) && values[index] == "" && index > 0 && Accepts(rule, "") ==>
        emitted == old(emitted) + [values[index - 1 := ""]] &&
        focusIndex == index - 1 && focused == old(focused)
      ensures KeyOf(key) == Erase && !(ctrl || meta) && ((values[index] == "" && index == 0) || !Accepts(rule, "")) ==>
        emitted == old(emitted) && focusIndex == old(focusIndex) && focused == old(focused)
      ensures KeyOf(key) == MoveBack ==>
        emitted == old(emitted) && focusIndex == old(focusIndex) &&
        focused == if index > 0 then index - 1 else old(focused)
      ensures KeyOf(key) == MoveForward ==>
        emitted == old(emitted) && focusIndex == old(focusIndex) &&
        focused == if index + 1 < |values| then index + 1 else old(focused)
      // Typing the unit the cell already holds only moves focus on.
      ensures KeyOf(key) == Typed && values[index] == key ==>
        emitted == old(emitted) && focusIndex == old(focusIndex) &&
        focused == if index + 1 < |values| then index + 1 else old(focused)
      ensures KeyOf(key) == Typed && values[index] != key && (!Accepts(rule, key) || ctrl || meta) ==>
        emitted == old(emitted) && focusIndex == old(focusIndex) && focused == old(focused)
      ensures KeyOf(key) == Typed && values[index] != key && Accepts(rule, key) && !(ctrl || meta) ==>
        emitted == old(emitted) + [values[index := key]] &&
        focusIndex == Min(index + 1, |values| - 1) && focused == old(focused)
    {
      var n := |values|;
      var current := values[index];
      match KeyOf(key)
      case Erase =>
        if ctrl || meta {
          var a := new string[n](_ => "");
          assert a[..] == Blank(n);
          RestoreBlank(rule, values);
          OnChangeAll(a, 0);
        } else if current != "" {
          OnChange("", index, Prev);
        } else if current == "" {
          OnChange("", index - 1, Current);
        }
      case MoveBack =>
        if index > 0 {
          focused := index - 1;
        }
      case MoveForward =>
        if index + 1 < n {
          focused := index + 1;
        }
      case Typed =>
        if current == key {
          if index + 1 < n {
            focused := index + 1;
          }
        } else if !Accepts(rule, key) || ctrl || meta {
        } else {
          OnChange(key, index, Next);
        }
    }
  }
}
