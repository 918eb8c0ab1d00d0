# Arabic text support for Kivy widgets, modelled in Dafny

`arabic_patch.py` makes Kivy's Label, Button and TextInput show Arabic text
correctly. It does this by reshaping letters into their joined forms and
reordering them for display. This project models its four parts:

- **The detector** (`Script`, `script.dfy`). `contains_arabic` is true when a
  string holds a code point from one of five Arabic blocks. Text is a sequence
  of Python code points (0..0x10FFFF), and the regular expression's character
  class becomes an explicit range table.
- **The shaping adapter** (`Shaping`, `shaping.dfy`). `shape_arabic` returns
  empty or non-Arabic text as it is. Otherwise it runs the reshaper and then
  the bidirectional reordering, and it falls back to the input if either one
  raises. Both foreign stages are an `Oracle`: two arbitrary total functions
  that return a text or `Fail`. Nothing is assumed about them: not that they
  keep the length, not that they are idempotent.
- **The edit inference of the TextInput handler** (`Reconciler`,
  `reconciler.dfy`). `Reconcile` computes the new logical text from the old
  one and the observed visual value. It compares the value's length with the
  shaped logical text. A shorter value is read as a trailing deletion, using
  Python's `[:-d]` slice semantics. A longer value is read as a trailing
  insertion. A value of equal length is read as no change.
- **The patched widgets** (`Widgets`, `widgets.dfy`). These are classes with
  the fields the handlers update:
  - `ArabicLabel` (Label or Button), with `text` and `arabicLock`.
  - `ArabicTextInput`, with `rawText`, `text`, `cursor`, `updating`,
    `hintText` and `hintLock`.

  A property write is a setter that stores the value and then calls the bound
  handler. So when a handler writes its own property, it re-enters itself. The
  latch stops that recursion, and the mutual recursion's `decreases` clauses
  measure the latch. After any event the latch does not block,
  `ArabicTextInput.SetText` guarantees `Synced()`: `text` is the shaped
  `rawText`, the cursor is `(len(text), 0)`, and the latch is open again.

The handlers never shape the text given at construction. The TextInput
initialiser stores that text before `on_text` is bound, and copies the same
unshaped string into `_raw_text` (arabic_patch.py:89, 98, 148). A Label or
Button likewise keeps its initial text unshaped (arabic_patch.py:55-57, 69).
So at construction `text == Shape(rawText)` is guaranteed only when the text
contains no Arabic, and `Synced()` only when the text is empty (the model
starts the cursor at (0, 0)). After every handled text event, `Synced()` is
guaranteed.

The first event after construction does not simply resync. It measures the
observed value against `Shape(rawText)`, not against the unshaped text on
screen (arabic_patch.py:98, 126-137). When shaping changes the length, the
edit is misread. Take lam followed by alef, which the reshaper joins into the
single ligature U+FEFB. Typing "x" after the unshaped pair adds a second alef
to the logical text (`Reconciler.UnshapedLigatureMisread`,
`Widgets.LigatureFirstEdit`).

## Model

| member | source | states |
|---|---|---|
| `Script.ContainsArabic` | arabic_patch.py:18-23 | false on the empty string; otherwise true exactly when some code point of the string is Arabic |
| `Script.ArabicByBlocks` | arabic_patch.py:18-20 | a code point is Arabic exactly when it lies in U+0600–06FF, U+0750–077F, U+08A0–08FF, U+FB50–FDFF or U+FE70–FEFF |
| `Script.ContainsArabicConcat` | arabic_patch.py:22-23 | the detector on a concatenation is the disjunction of the detector on the parts |
| `Script.AsciiIsNotArabic` | arabic_patch.py:22-23 | no ASCII string (such as "hello") is detected as Arabic |
| `Shaping.Shape` | arabic_patch.py:26-33 | non-Arabic or empty text is returned unchanged; a failure of either stage returns the input; otherwise the result is the reordering of the reshaping; no other result is possible |
| `Shaping.ShapeFailOpenReshape` | arabic_patch.py:29-33 | if the reshaper always raises, shaping is the identity on every text |
| `Shaping.ShapeFailOpenReorder` | arabic_patch.py:29-33 | if the bidi reordering always raises, shaping is the identity on every text |
| `Reconciler.DropLast` | arabic_patch.py:131 | Python `s[:-d]`: a prefix of `s`, `d` elements shorter, empty when `d` is 0 or at least the length |
| `Reconciler.Reconcile` | arabic_patch.py:126-137 | shorter value: a prefix of the logical text, shorter by the length difference (clamped at empty); longer value: the logical text extended by the value's characters past the displayed length; equal length: unchanged |
| `Reconciler.ReconcileAppend` | arabic_patch.py:134-137 | observing the display followed by any typed characters appends exactly those characters to the logical text |
| `Reconciler.ReconcileTrailingDelete` | arabic_patch.py:129-131 | deleting the last `d` displayed characters deletes the last `d` logical characters, or all of them if there are fewer |
| `Reconciler.ReconcileEcho` | arabic_patch.py:126-137 | observing exactly the current display leaves the logical text unchanged |
| `Reconciler.NonArabicEditsExact` | arabic_patch.py:126-140 | for non-Arabic text, any trailing deletion or insertion becomes the logical text exactly and is displayed as typed |
| `Reconciler.InteriorInsertionMisread` | arabic_patch.py:129-137 | in non-Arabic text, inserting `c` at any interior position is read as a trailing insertion that repeats the last character; the result is the intended text exactly when every character from the insertion point on is `c` ("xab" and "aab" from "ab" both give "abb") |
| `Reconciler.UnshapedLigatureMisread` | arabic_patch.py:126-137 | with a reshaper that joins lam-alef into U+FEFB, observing the unshaped pair plus "x" against that logical text yields lam, alef, alef, "x" |
| `Reconciler.TypingRecordsKeystrokes` | arabic_patch.py:119-146 | after any series of trailing insertions, the logical text is the original followed by everything typed, whatever the oracle does |
| `Widgets.ArabicLabel.constructor` | arabic_patch.py:55-57 | the lock starts false and the initial text is kept as given |
| `Widgets.ArabicLabel.SetText` | arabic_patch.py:59-67 | with the lock open, the text ends as the shaped value; non-Arabic values stay exactly as set; the lock ends as it began |
| `Widgets.ArabicLabel.OnText` | arabic_patch.py:59-67 | with the lock set or a non-Arabic value, nothing changes; otherwise the text becomes the shaped value and the lock is released |
| `Widgets.ArabicTextInput.constructor` | arabic_patch.py:84-102 | a hint given at construction is stored shaped, and an absent hint is empty; the text (empty if absent) is both the visual and the logical text, unshaped; both latches are open; the text equals the shaped logical text when it contains no Arabic, and the widget is `Synced()` when it is empty |
| `Widgets.ArabicTextInput.SetText` | arabic_patch.py:119-146 | an unlatched write leaves the logical text as `Reconcile` of the old one, with `Synced()`; a latched write (the handler's echo) only stores the value; the hint is untouched |
| `Widgets.ArabicTextInput.OnText` | arabic_patch.py:119-146 | with the latch set, nothing changes; otherwise the logical text is reconciled, the text is its shaping, the cursor is pinned at the end, and the latch is released |
| `Widgets.ArabicTextInput.SetHintText` | arabic_patch.py:105-113 | with the hint lock open, the hint ends as the shaped value; non-Arabic values stay exactly as set; the text fields are untouched |
| `Widgets.ArabicTextInput.OnHintText` | arabic_patch.py:105-113 | with the hint lock set or a non-Arabic value, nothing changes; otherwise the hint becomes the shaped value and the lock is released |
| `Widgets.LigatureFirstEdit` | arabic_patch.py:98-146 | a TextInput built with the unshaped lam-alef pair, after "x" is typed, holds lam, alef, alef, "x" as its logical text and shows that text's shaping |

## Left out

- The internals of `arabic_reshaper.reshape` and `bidi.algorithm.get_display`. The second implements the Unicode Bidirectional Algorithm (Unicode Standard Annex #9). Both are foreign code and are parameters of the model (`Oracle`).
- Installing the patches on Kivy's classes, and wiring handlers with `bind`. This is framework plumbing. The setters model what the wiring does.
- Kivy dispatches an event only when a property actually changes. The model's setters always dispatch. For the handler's own echo this makes no difference, because the latch absorbs it. For an outside write of the value a property already holds, it does: Kivy runs no handler, but the model runs one. So `ArabicLabel.SetText` then promises `text == Shape(oracle, value)` where a Label built with unshaped Arabic text keeps that text. Likewise `ArabicTextInput.SetText` promises `Synced()` where Kivy changes nothing.
- The regular-expression engine. It is replaced by an explicit range check.
- `None` values for `text` or `hint_text`. Kivy's string properties hold strings, so the model's texts are always sequences.
- The font, alignment, padding and `multiline` settings, the status prints, and running the patch at import time. These are side effects with no logic.
- Widgets.ArabicTextInput.constructor: the cursor position Kivy chooses when the widget is built is not modelled; the model starts the cursor at (0, 0).
- Kivy's own handling of the cursor value `(len(text), 0)` in multi-line text. The model records the value the handler assigns.
- Edits in the interior of the text, selections, and input-method composition. The source only infers trailing edits. `InteriorInsertionMisread` shows what happens to an interior insertion.
