/** The current pin-code widget: a row of N single-character cells driven by a
    value array the caller owns. Every handler leaves the caller's array alone,
    hands a fresh array to `onInputChange` and moves the cell focus. */
module PinCode {
  import opened Rules
  import opened Widget

  /** The key-name table: `Backspace`, and both the `Arrow*` names and the
      older `Left`/`Up`/`Right`/`Down` names. `Enter` is named in the table but
      has no case of its own, so it is handled as a typed key. */
  function KeyOf(key: string): KeyAction {
    if key == "Backspace" then Erase
    else if key == "ArrowLeft" || key == "Left" || key == "ArrowUp" || key == "Up" then MoveBack
    else if key == "ArrowRight" || key == "Right" || key == "ArrowDown" || key == "Down" then MoveForward
    else Typed
  }

  /** Both spellings of each arrow key act alike, and a key of at most one
      unit is never mistaken for a named key. */
  lemma KeyNames(key: string)
    ensures KeyOf("Left") == KeyOf("ArrowLeft") == KeyOf("Up") == KeyOf("ArrowUp") == MoveBack
    ensures KeyOf("Right") == KeyOf("ArrowRight") == KeyOf("Down") == KeyOf("ArrowDown") == MoveForward
    ensures KeyOf("Enter") == Typed
    ensures |key| <= 1 ==> KeyOf(key) == Typed
  {
  }

  /** `array.findIndex((state) => state === '')`, searching from `from`:
      the first empty cell at or after `from`, or -1 when there is none. */
  function FindEmpty(s: seq<string>, from: nat): (r: int)
    requires from <= |s|
    ensures r == -1 || (from <= r < |s| && s[r] == "")
    ensures r == -1 ==> forall j :: from <= j < |s| ==> s[j] != ""
    ensures r != -1 ==> forall j :: from <= j < r ==> s[j] != ""
    decreases |s| - from
  {
    if from == |s| then -1
    else if s[from] == "" then from
    else FindEmpty(s, from + 1)
  }

  /** `getFocusPosition`: the first empty cell, or N when every cell is filled. */
  function FocusPosition(s: seq<string>): (r: nat)
    ensures r <= |s|
    ensures r < |s| ==> s[r] == ""
    ensures forall j :: 0 <= j < r ==> s[j] != ""
  {
    var position := FindEmpty(s, 0);
    if position > -1 then position else |s|
  }

  /** The cell that gets `autoFocus` when the widget mounts; -1 for none. */
  function InitialFocus(autoFocus: bool, s: seq<string>): (r: int)
    ensures -1 <= r <= |s|
    ensures r == -1 <==> !autoFocus
    ensures autoFocus ==> (r == |s| <==> forall j :: 0 <= j < |s| ==> s[j] != "")
    ensures autoFocus && r < |s| ==> s[r] == "" && forall j :: 0 <= j < r ==> s[j] != ""
  {
    if autoFocus then FocusPosition(s) else -1
  }

  /** What `onChangeAll` leaves in one cell: the value when the rule accepts it,
      the empty string otherwise. */
  function Sanitize(rule: Rule, v: string): string {
    if Accepts(rule, v) then v else ""
  }

  /** `onChangeAll`'s pass over the whole array. */
  function SanitizeAll(rule: Rule, s: seq<string>): (r: seq<string>)
    ensures |r| == |s|
    ensures forall i :: 0 <= i < |s| ==> r[i] == (if Accepts(rule, s[i]) then s[i] else "")
  {
    if s == [] then [] else [Sanitize(rule, s[0])] + SanitizeAll(rule, s[1..])
  }

  /** Sanitizing an already sanitized array changes nothing. */
  lemma SanitizeAllIdempotent(rule: Rule, s: seq<string>)
    ensures SanitizeAll(rule, SanitizeAll(rule, s)) == SanitizeAll(rule, s)
  {
  }

  /** When the rule accepts the cleared cell, as every built-in rule does,
      every cell of a sanitized array passes the rule. */
  lemma SanitizeAllValid(rule: Rule, s: seq<string>)
    requires rule.BuiltIn? || Accepts(rule, "")
    ensures forall i :: 0 <= i < |s| ==> Accepts(rule, SanitizeAll(rule, s)[i])
  {
  }

  /** Sanitizing leaves an array alone exactly when each of its cells passes
      the rule or is already empty. */
  lemma SanitizeAllFixed(rule: Rule, s: seq<string>)
    ensures SanitizeAll(rule, s) == s <==> forall i :: 0 <= i < |s| ==> Accepts(rule, s[i]) || s[i] == ""
  {
  }

  /** A cleared row stays cleared, whatever the rule. */
  lemma SanitizeAllBlank(rule: Rule, n: nat)
    ensures SanitizeAll(rule, Blank(n)) == Blank(n)
  {
  }

  /** What a paste at `index` emits, cell by cell: the pasted cells hold their
      unit when the rule accepts it and are cleared otherwise; every other cell
      keeps its value when it passes the rule and is cleared when it does not. */
  lemma PasteEmits(rule: Rule, values: seq<string>, index: nat, text: string)
    requires index < |values|
    ensures |SanitizeAll(rule, Pasted(values, index, text))| == |values|
    ensures forall j :: index <= j < Min(index + |text|, |values|) ==>
      SanitizeAll(rule, Pasted(values, index, text))[j] == Sanitize(rule, [text[j - index]])
    ensures forall j :: 0 <= j < |values| && !(index <= j < index + |text|) ==>
      SanitizeAll(rule, Pasted(values, index, text))[j] == Sanitize(rule, values[j])
  {
    PastedAt(values, index, text);
  }

  /** Pasting "123" at the first of six empty digit cells gives
      ["1","2","3","","",""]. */
  lemma PasteDigitsExample()
    ensures SanitizeAll(BuiltIn(Number), Pasted(Blank(6), 0, "123")) == ["1", "2", "3", "", "", ""]
  {
  }

  /** One mounted widget. `values` is the `value` prop the cells show; `focus`
      is the cell holding focus (-1 for none, N when `autoFocus` found no empty
      cell); `emitted` records every array passed to `onInputChange`, in order. */
  class PinCodeInput {
    const rule: Rule
    var values: seq<string>
    var focus: int
    var emitted: seq<seq<string>>

    ghost predicate Valid()
      reads this
    {
      -1 <= focus <= |values|
    }

    /** Mounting: the `autoFocus` cell is the first empty one. */
    constructor (rule: Rule, autoFocus: bool, value: seq<string>)
      ensures Valid()
      ensures this.rule == rule && values == value && emitted == []
      ensures focus == InitialFocus(autoFocus, value)
    {
      this.rule := rule;
      values := value;
      focus := InitialFocus(autoFocus, value);
      emitted := [];
    }

    /** The caller renders the widget again with a new `value` prop of the
      same length; the effect copies it into the cells and focus stays put. */
    method Rerender(next: seq<string>)
      requires Valid() && |next| == |values|
      modifies this`values
      ensures Valid() && values == next
    {
      values := next;
    }

    /** `onChange`: a copy of the values with cell `index` set to `v`,
        unvalidated. */
    method OnChange(v: string, index: nat)
      requires index < |values|
      modifies this`emitted
      ensures emitted == old(emitted) + [values[index := v]]
    {
      var changedValues := values;
      changedValues := changedValues[index := v];
      emitted := emitted + [changedValues];
    }

    /** `onChangeAll`: clears every cell of `a` that fails the rule, in place,
        and emits `a`. */
    method OnChangeAll(a: array<string>)
      modifies this`emitted, a
      ensures a[..] == SanitizeAll(rule, old(a[..]))
      ensures emitted == old(emitted) + [a[..]]
    {
      var key := 0;
      while key < a.Length
        invariant 0 <= key <= a.Length
        invariant forall j :: 0 <= j < key ==> a[j] == Sanitize(rule, old(a[j]))
        invariant forall j :: key <= j < a.Length ==> a[j] == old(a[j])
        invariant emitted == old(emitted)
      {
        if !Accepts(rule, a[key]) {
          a[key] := "";
        }
        key := key + 1;
      }
      emitted := emitted + [a[..]];
    }

    /** `onPaste`: writes the clipboard units into a copy of the values from
        cell `index` on, stopping at the last cell, moves focus along, then
        passes the copy to `onChangeAll`. */
    method OnPaste(text: string, index: nat)
      requires Valid() && index < |values|
      modifies this`emitted, this`focus
      ensures Valid()
      ensures emitted == old(emitted) + [SanitizeAll(rule, Pasted(values, index, text))]
      ensures focus == if text == "" then old(focus) else Min(index + |text|, |values| - 1)
    {
      var n := |values|;
      var vs := values;
      var a := new string[n](j requires 0 <= j < n => vs[j]);
      var k := 0;
      while k < |text|
        invariant 0 <= k <= |text| && index + k <= n
        invariant forall j :: 0 <= j < n ==>
          a[j] == if index <= j < index + k then [text[j - index]] else vs[j]
        invariant focus == if k == 0 then old(focus) else Min(index + k, n - 1)
        invariant emitted == old(emitted)
      {
        if index + k >= n {
          break;
        }
        a[index + k] := [text[k]];
        if index + k + 1 < n {
          focus := index + k + 1;
        } else {
          focus := index + k;
        }
        k := k + 1;
      }
      // The loop ran to the end of the text or stopped at the last cell.
      assert k == |text| || index + k == n;
      ghost var pasted := Pasted(vs, index, text);
      PastedAt(vs, index, text);
      forall j | 0 <= j < n
        ensures a[j] == pasted[j]
      {
      }
      assert a[..] == pasted;
      OnChangeAll(a);
    }

    /** `onKeyDown` on cell `index`. */
    method OnKeyDown(key: string, ctrl: bool, meta: bool, index: nat)
      requires Valid() && index < |values|
      modifies this`emitted, this`focus
      ensures Valid()
      // Ctrl/Meta+Backspace clears the whole row and focuses the first cell.
      ensures KeyOf(key) == Erase && (ctrl || meta) ==>
        emitted == old(emitted) + [Blank(|values|)] && focus == 0
      // Backspace on a filled cell clears that cell only.
      ensures KeyOf(key) == Erase && !(ctrl || meta) && values[index] != "" ==>
        emitted == old(emitted) + [values[index := ""]] && focus == old(focus)
      // Backspace on an empty cell clears the one before it and moves there.
      ensures KeyOf(key) == Erase && !(ctrl || meta) && values[index] == "" && index > 0 ==>
        emitted == old(emitted) + [values[index - 1 := ""]] && focus == index - 1
      ensures KeyOf(key) == Erase && !(ctrl || meta) && values[index] == "" && index == 0 ==>
        emitted == old(emitted) && focus == old(focus)
      ensures KeyOf(key) == MoveBack ==>
        emitted == old(emitted) && focus == if index > 0 then index - 1 else old(focus)
      ensures KeyOf(key) == MoveForward ==>
        emitted == old(emitted) && focus == if index + 1 < |values| then index + 1 else old(focus)
      // Typing the unit the cell already holds only moves on.
      ensures KeyOf(key) == Typed && values[index] == key ==>
        emitted == old(emitted) && focus == if index + 1 < |values| then index + 1 else old(focus)
      ensures KeyOf(key) == Typed && values[index] != key && Accepts(rule, key) && !(ctrl || meta) ==>
        emitted == old(emitted) + [values[index := key]] &&
        focus == if index + 1 < |values| then index + 1 else old(focus)
      ensures KeyOf(key) == Typed && values[index] != key && !(Accepts(rule, key) && !(ctrl || meta)) ==>
        emitted == old(emitted) && focus == old(focus)
    {
      var n := |values|;
      var current := values[index];
      var isValidKey := Accepts(rule, key);
      match KeyOf(key)
      case Erase =>
        if ctrl || meta {
          var a := new string[n](_ => "");
          assert a[..] == Blank(n);
          SanitizeAllBlank(rule, n);
          OnChangeAll(a);
          focus := 0;
        } else if current != "" {
          OnChange("", index);
        } else if current == "" && index > 0 {
          OnChange("", index - 1);
          focus := index - 1;
        }
      case MoveBack =>
        if index > 0 {
          focus := index - 1;
        }
      case MoveForward =>
        if index + 1 < n {
          focus := index + 1;
        }
      case Typed =>
        if current == key {
          if index + 1 < n {
            focus := index + 1;
          }
        } else if isValidKey && !ctrl && !meta {
          OnChange(key, index);
          if index + 1 < n {
            focus := index + 1;
          }
        }
    }
  }
}
