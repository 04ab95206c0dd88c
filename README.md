# Pin-code input: value and focus state machine

This project models the core of a React pin-code widget in Dafny. The widget is a row of N
single-character cells that the user sees as one text field. The model covers the part that
decides three things for each key press, paste or change event:

- which array of cell values the widget hands to its `onInputChange` callback;
- which cell gets focus;
- which characters the widget's validation rule accepts.

The widget exists in two versions, and each has its own module:

- `PinCode` (pin_code_input.dfy) is the current component, `src/ReactPinCodeInput.tsx`.
- `LegacyPinCode` (legacy_pin_code_input.dfy) is the older component, `src/index.tsx`.

The two share some pieces:

- `Rules` (rules.dfy) is the validator. Both files hold the same `patterns` table and pick
  `pattern || patterns[type]`.
- `Widget` (widget.dfy) holds the cleared row, the array a paste writes, and the kinds of key.

How the model represents the widget:

- The caller owns the values. Each widget is a class:
  - `values` is the `value` prop, which is what the cells show;
  - `emitted` logs every array passed to `onInputChange`;
  - the focus fields record which cell holds focus.
- No handler changes `values`; each one only appends to `emitted` and moves focus.
- `Rerender` models the caller passing a new `value` prop back in, as the demo apps do.
- DOM refs are cell indices `0..N-1`, so a missing ref is an index outside that range.
- A `.focus()` call is an assignment to a focus field.
- `onChangeAll` sanitises its array argument in place. It is modelled on an `array<string>`,
  specified by a function of the old contents (`SanitizeAll`, `RestoreInvalid`).
- The paste loops write into a fresh array copied from the values.
- A caller-supplied `pattern` is an uninterpreted test `string -> bool`.
- Strings are `seq<char>`. A Dafny `char` is a Unicode scalar value. The rules count a
  character above U+FFFF as the two UTF-16 code units JavaScript sees (`Rules.UnitCount`).
- The source's defaults are explicit parameters here: `type` defaults to `number` and
  `autoFocus` to true in both widgets (src/ReactPinCodeInput.tsx:92-100, src/index.tsx:253-260).
  The legacy `onChange` direction defaults to `current`, which is what a cell's own change
  event uses (src/index.tsx:114, 234).

The legacy widget has two notions of focus:

- `focusIndex` is its `useState` state. It decides which cell gets `autoFocus`.
- `focused` is the cell the browser has focused. The direct `.focus()` calls move it.

The legacy widget keys its cells with a fresh random id on every render, so every render mounts
all cells anew. The cell at `focusIndex` then takes focus. `LegacyPinCodeInput.Rerender` models
this.

## Behaviour worth noting


- **Empty paste.** Pasting the empty text is not a no-op.
  - The current widget still emits `SanitizeAll(values)` and leaves focus where it was
    (src/ReactPinCodeInput.tsx:156-177).
  - The legacy widget emits a copy of the values and sets `focusIndex` to the pasted cell
    (src/index.tsx:157-174).
- **Auto-focus on a full row.** With `autoFocus`, the current widget's initial focus is N when
  no cell is empty, so no cell is focused. Focus values therefore range over `[-1, N]`, not
  `[-1, N-1]`.
- **Cells are not checked at rest.** Neither widget validates the `value` prop it is given; the
  current widget clears cells the rule rejects only on a paste or a Ctrl/Meta+Backspace. What
  the browser then displays for such a value (a `type="number"` input shows `e` as empty) is
  outside the model.
- **Backspace on a filled cell.** The legacy widget clears the cell and moves `focusIndex` back
  one cell. The current widget clears it and leaves focus where it was.
- **The legacy widget's key names.** Its Backspace and arrow handling answers only to the names
  `DOM_VK_BACK_SPACE`, `DOM_VK_LEFT` and so on. A key reported as `Backspace` or `ArrowLeft` is
  handled as a typed key, and a built-in rule rejects it (`LegacyPinCode.CurrentKeyNamesAreTyped`).
- **The legacy widget on a cleared row.** Backspace validates `""`. When a custom pattern rejects
  the empty string, Backspace does nothing there, and Ctrl/Meta+Backspace gives every cell its
  earlier value back.

## Model

| member | source | states |
|---|---|---|
| `Rules.NumericRule` | src/ReactPinCodeInput.tsx:85-87 | with no `pattern`, a `number` or `tel` widget accepts exactly `""` and one character `0`-`9` |
| `Rules.UnitCountBounds` | src/ReactPinCodeInput.tsx:85-89 | a string is at least as many UTF-16 units as characters, and is one unit exactly when it is one character up to U+FFFF |
| `Rules.FreeTextRule` | src/ReactPinCodeInput.tsx:88-89 | with no `pattern`, a `text` or `password` widget accepts exactly `""` and one character up to U+FFFF that is not a line terminator; a character above U+FFFF is rejected |
| `Rules.PatternOverridesType` | src/ReactPinCodeInput.tsx:128 | a supplied `pattern` alone decides, and the declared type makes no difference |
| `Rules.BuiltInShape` | src/index.tsx:75-80 | every built-in rule accepts `""` and nothing longer than one unit; the digit rule is the narrower one |
| `Widget.PastedAt` | src/ReactPinCodeInput.tsx:158-166 | a paste at `index` puts unit `j-index` in each cell `j` from `index` up to the end of the text or the row, keeps every other cell, and keeps the length |
| `Widget.PastedCount` | src/index.tsx:160-166 | the only cells a paste changes lie in `[index, min(index+|text|, N))`: units past the last cell are dropped |
| `PinCode.KeyNames` | src/ReactPinCodeInput.tsx:72-83 | `Left`/`ArrowLeft`/`Up`/`ArrowUp` all move back and the four forward names all move forward; `Enter` and every key of at most one unit are typed keys |
| `PinCode.FindEmpty` | src/ReactPinCodeInput.tsx:103 | the result is the first empty cell at or after `from`, or -1 exactly when there is no such cell |
| `PinCode.FocusPosition` | src/ReactPinCodeInput.tsx:102-106 | the result is the first empty cell, or N when every cell is filled |
| `PinCode.InitialFocus` | src/ReactPinCodeInput.tsx:126 | the initial focus lies in `[-1, N]`; it is -1 exactly when `autoFocus` is off; otherwise it is the first empty cell, and N exactly when no cell is empty |
| `PinCode.SanitizeAll` | src/ReactPinCodeInput.tsx:146-151 | same length; each cell the rule rejects becomes `""` and each cell it accepts is kept |
| `PinCode.SanitizeAllIdempotent` | src/ReactPinCodeInput.tsx:146-154 | sanitising twice gives the same array as sanitising once |
| `PinCode.SanitizeAllValid` | src/ReactPinCodeInput.tsx:146-151 | with a built-in rule, or any rule that accepts `""`, every cell of the result passes the rule |
| `PinCode.SanitizeAllFixed` | src/ReactPinCodeInput.tsx:146-151 | sanitising leaves an array unchanged if and only if each of its cells passes the rule or is empty |
| `PinCode.SanitizeAllBlank` | src/ReactPinCodeInput.tsx:193 | an all-`""` row stays all-`""` whatever the rule |
| `PinCode.PasteEmits` | src/ReactPinCodeInput.tsx:156-177 | cell by cell: pasted cells hold their unit if the rule accepts it and `""` if not; other cells are kept if valid and `""` if not |
| `PinCode.PasteDigitsExample` | src/ReactPinCodeInput.tsx:156-177 | pasting `123` into the first of six empty digit cells gives `["1","2","3","","",""]` |
| `PinCode.PinCodeInput.constructor` | src/ReactPinCodeInput.tsx:125-126 | the widget starts from the caller's values, has emitted nothing, and its focus is `InitialFocus(autoFocus, values)` |
| `PinCode.PinCodeInput.Rerender` | src/ReactPinCodeInput.tsx:130-137 | a new `value` prop of the same length is shown in the cells; focus stays where it was |
| `PinCode.PinCodeInput.OnChange` | src/ReactPinCodeInput.tsx:139-144 | one emission: a copy of the values with only cell `index` set to `v`, not validated; the values and focus are unchanged |
| `PinCode.PinCodeInput.OnChangeAll` | src/ReactPinCodeInput.tsx:146-154 | the array becomes `SanitizeAll` of its old contents, in place, and is emitted exactly once |
| `PinCode.PinCodeInput.OnPaste` | src/ReactPinCodeInput.tsx:156-177 | one emission, `SanitizeAll(Pasted(values, index, text))`; focus becomes `min(index+|text|, N-1)` for a non-empty text and is unchanged for an empty one |
| `PinCode.PinCodeInput.OnKeyDown` | src/ReactPinCodeInput.tsx:179-222 | Ctrl/Meta+Backspace emits an all-`""` row and focuses cell 0; Backspace clears a filled cell in place, or clears the previous cell and moves there, or does nothing at cell 0; arrow keys move focus by one when the cell exists and emit nothing; a key equal to the cell's value only moves forward; a valid unmodified key is written and focus moves forward; anything else changes nothing |
| `LegacyPinCode.CurrentKeyNamesAreTyped` | src/index.tsx:67-73 | a name the current widget treats as Backspace or an arrow is a typed key here, and no built-in rule accepts it |
| `LegacyPinCode.FocusTarget` | src/index.tsx:116-120 | for a cell in range the target is in range; `current` stays at `index`; `next` goes to `index+1`, or stays at the last cell; `prev` goes to `index-1`, or stays at cell 0 |
| `LegacyPinCode.RestoreFrom` | src/index.tsx:139-151 | from cell `key` on, each rendered cell the rule rejects takes its value from before the event, and every other cell is kept |
| `LegacyPinCode.RestoreInvalid` | src/index.tsx:138-151 | same length; a rendered cell the rule rejects gets its earlier value back (not `""`); every other cell is kept |
| `LegacyPinCode.RestoreInvalidValid` | src/index.tsx:138-151 | valid cells are kept, and when the earlier values all passed the rule, every cell of the result passes |
| `LegacyPinCode.RestoreInvalidIdempotent` | src/index.tsx:138-151 | restoring twice against the same earlier values gives the same array as restoring once |
| `LegacyPinCode.RestoreBlank` | src/index.tsx:187-189 | clearing the row gives all `""` when the rule accepts `""`, and gives back the earlier values when it does not |
| `LegacyPinCode.VariantsDifferOnRejectedPaste` | src/index.tsx:146-148 | a cell whose pasted unit is rejected becomes `""` in the current widget but gets its earlier value back in the legacy one |
| `LegacyPinCode.LegacyPinCodeInput.constructor` | src/index.tsx:106 | `focusIndex` starts at 0 with `autoFocus` and at -1 without it; cell 0 has focus when it exists and `autoFocus` is set; nothing has been emitted |
| `LegacyPinCode.LegacyPinCodeInput.Rerender` | src/index.tsx:225-231 | a new `value` prop of the same length is shown; since the cells are mounted anew, focus goes to `focusIndex` when that cell exists and is lost otherwise |
| `LegacyPinCode.LegacyPinCodeInput.OnChange` | src/index.tsx:111-136 | for an existing cell and a value the rule accepts: one emission of the copy with only that cell changed, and `focusIndex` moves per the direction; otherwise nothing is emitted and `focusIndex` is unchanged |
| `LegacyPinCode.LegacyPinCodeInput.OnChangeAll` | src/index.tsx:138-155 | the array becomes `RestoreInvalid` of its old contents, in place; `focusIndex` becomes `setIndex`; exactly one emission |
| `LegacyPinCode.LegacyPinCodeInput.OnPaste` | src/index.tsx:157-174 | one emission, `RestoreInvalid(values, Pasted(values, index, text))`, with the length kept; `focusIndex` becomes `min(index+|text|, N-1)` |
| `LegacyPinCode.LegacyPinCodeInput.OnKeyDown` | src/index.tsx:176-217 | Ctrl/Meta+Backspace emits the cleared row and sets `focusIndex` to 0; Backspace on a filled cell clears it and sets `focusIndex` to `max(index-1, 0)`; on an empty cell `index > 0` it clears the previous cell and sets `focusIndex` there; at an empty cell 0 it does nothing; `DOM_VK_*` arrows move the focused cell only; a key equal to the cell's value moves focus forward only; an invalid or modified key does nothing; otherwise the key is written and `focusIndex` becomes `min(index+1, N-1)` |

## Left out

- Rendering is not modelled, because it is presentation only: the JSX markup, styles, the
  `className`/`invalid` styling, and the `disabled` and `required` attributes.
- `uuidv4` is not modelled, because it draws on `Math.random`. Only its effect on focus is kept:
  fresh keys on every render mean the cells are mounted anew, as in the legacy `Rerender`.
- React mechanics are left out: `memo`, `createRef`, `useState` scheduling, and
  `e.preventDefault()`. The model applies each event and each re-render as one explicit step.
- The legacy widget writes `ref.value` directly. Those writes only mirror the value prop or the
  value just emitted, so the model keeps no separate DOM text per cell.
- The legacy paste handler does not prevent the browser's default paste. The text the browser
  then inserts into the cell, and the change event that follows, are outside the model.
- The JavaScript regular-expression engine is left out. A built-in pattern is an explicit
  predicate. A custom `pattern` is stateless here, so a pattern with the `g` or `y` flag, whose
  `test` depends on `lastIndex`, is not modelled.
- Widget.PastedAt, PinCode.PinCodeInput.OnPaste and LegacyPinCode.LegacyPinCodeInput.OnPaste:
  a character above U+FFFF in pasted text fills one cell here, while the source's `split('')`
  splits it into two lone surrogate units over two cells. A Dafny `char` cannot hold a lone
  surrogate. The built-in rules do reject such a character, as the source's do.
- An input `type` outside the four declared ones is not modelled. The source then has no
  pattern. The legacy widget accepts every value and key (src/index.tsx:126, 209). The current
  widget's `isValidKey` is then undefined, so a typed key is never written
  (src/ReactPinCodeInput.tsx:183, 217), while `onChangeAll` keeps every value.
- A `value` prop whose length differs from the mounted row is not modelled, because the cells
  would then be re-created. `Rerender` requires the same length.
- PinCode.PinCodeInput.OnKeyDown and LegacyPinCode.LegacyPinCodeInput.OnKeyDown compare with and
  test the cell's DOM text (`current?.value`), which the model takes to be the `value` prop. The
  browser's value sanitisation of `type="number"` inputs (a value `e` reads as `""`) is not
  modelled, so on such a cell Backspace and a typed key that equals the value behave here as
  they would for a cell whose text is the prop.
- The clipboard API is not modelled. The pasted text is a parameter.
- Moving forward from the last cell: there is no next cell, so the source moves focus
  nowhere and the model leaves `focus` unchanged. Focus ends at N-1 only when the event's cell
  held focus, which is the caller's side of the contract.
- Other files are outside the core: the PropTypes wrapper, the stories, the demo app, the render
  smoke test, and the build and test configuration.
