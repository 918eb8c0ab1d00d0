/** The widgets that arabic_patch.py patches, as objects with the fields its
    handlers update.

    A property write in the toolkit stores the value and then calls the
    handler bound to the property with the new value; `SetText` and
    `SetHintText` model exactly that, so a handler that writes its own
    property re-enters itself through the setter. The latch of each handler
    is what stops the recursion, and it is what the `decreases` clauses
    measure. */
module Widgets {
  import opened Script
  import opened Shaping
  import opened Reconciler

  datatype Option<T> = None | Some(value: T)

  /** A text-input cursor as (column, row). */
  datatype Cursor = Cursor(col: int, row: int)

  /** A Label or Button after `patch_static`: its displayed text is reshaped
      whenever it is set to something holding Arabic. */
  class ArabicLabel {
    const oracle: Oracle
    var text: Text
    var arabicLock: bool

    /** The lock starts false; the toolkit's own initialiser stores the text
        before the handler is bound, so the initial text is kept as given. */
    constructor (oracle: Oracle, text: Text)
      ensures this.oracle == oracle
      ensures this.text == text && !arabicLock
    {
      this.oracle := oracle;
      this.text := text;
      arabicLock := false;
    }

    /** Writing the `text` property: store the value, then notify the handler. */
    method SetText(value: Text)
      modifies this
      decreases if arabicLock then 1 else 3
      ensures arabicLock == old(arabicLock)
      ensures old(arabicLock) ==> text == value
      ensures !old(arabicLock) ==> text == Shape(oracle, value)
      ensures !ContainsArabic(value) ==> text == value
    {
      text := value;
      OnText(value);
    }

    /** The `on_text` handler bound by `patch_static`. */
    method OnText(value: Text)
      modifies this
      decreases if arabicLock then 0 else 2
      ensures arabicLock == old(arabicLock)
      ensures old(arabicLock) || !ContainsArabic(value) ==> text == old(text)
      ensures !old(arabicLock) && ContainsArabic(value) ==> text == Shape(oracle, value)
    {
      if arabicLock {
        return;
      }
      if !ContainsArabic(value) {
        return;
      }
      arabicLock := true;
      SetText(Shape(oracle, value));
      arabicLock := false;
    }
  }

  /** A TextInput after the patched initialiser: a logical text (`rawText`)
      kept beside the visual `text`, a cursor, the latch `updating`, and the
      placeholder `hintText` with its own latch. */
  class ArabicTextInput {
    const oracle: Oracle
    var rawText: Text
    var text: Text
    var cursor: Cursor
    var updating: bool
    var hintText: Text
    var hintLock: bool

    /** The state every handled text event leaves behind: the visual text is
        the shaped logical text, the cursor sits at its end on the first row,
        and the latch is open. */
    predicate Synced()
      reads this
    {
      text == Shape(oracle, rawText) && cursor == Cursor(|text|, 0) && !updating
    }

    /** The patched initialiser. A hint given at construction is shaped before
        the toolkit stores it; the text is stored as given and becomes the
        logical text, with no shaping (the handlers are bound afterwards). */
    constructor (oracle: Oracle, text: Option<Text>, hintText: Option<Text>)
      ensures this.oracle == oracle
      ensures this.hintText == (if hintText.Some? then Shape(oracle, hintText.value) else [])
      ensures this.text == (if text.Some? then text.value else [])
      ensures rawText == this.text
      ensures cursor == Cursor(0, 0)
      ensures !updating && !hintLock
      ensures !ContainsArabic(this.text) ==> this.text == Shape(oracle, rawText)
      ensures this.text == [] ==> Synced()
    {
      this.oracle := oracle;
      var hint: Text := [];
      if hintText.Some? {
        hint := Shape(oracle, hintText.value);
      }
      this.hintText := hint;
      this.text := if text.Some? then text.value else [];
      cursor := Cursor(0, 0);
      rawText := this.text;
      updating := false;
      hintLock := false;
    }

    /** Writing the `text` property (a user edit, or the handler's own write):
        store the value, then notify `OnText`. */
    method SetText(value: Text)
      modifies this
      decreases if updating then 1 else 3
      ensures hintText == old(hintText) && hintLock == old(hintLock)
      ensures old(updating) ==>
        text == value && rawText == old(rawText) && cursor == old(cursor) && updating
      ensures !old(updating) ==>
        rawText == Reconcile(oracle, old(rawText), value) && Synced()
    {
      text := value;
      OnText(value);
    }

    /** The `on_text` handler: infer the trailing edit from the length of the
        observed value against the shaped logical text, apply it, write the
        shaped result back (which re-enters this handler with the latch set)
        and pin the cursor to the end. */
    method OnText(value: Text)
      modifies this
      decreases if updating then 0 else 2
      ensures hintText == old(hintText) && hintLock == old(hintLock)
      ensures old(updating) ==>
        rawText == old(rawText) && text == old(text) && cursor == old(cursor) && updating
      ensures !old(updating) ==>
        rawText == Reconcile(oracle, old(rawText), value) && Synced()
    {
      if updating {
        return;
      }
      updating := true;
      var displayed := Shape(oracle, rawText);
      if |value| < |displayed| {
        var diff := |displayed| - |value|;
        rawText := DropLast(rawText, diff);
      } else if |value| > |displayed| {
        var added := value[|displayed|..];
        rawText := rawText + added;
      }
      var newDisplay := Shape(oracle, rawText);
      SetText(newDisplay);
      cursor := Cursor(|newDisplay|, 0);
      updating := false;
    }

    /** Writing the `hint_text` property: store the value, then notify
        `OnHintText`. */
    method SetHintText(value: Text)
      modifies this
      decreases if hintLock then 1 else 3
      ensures rawText == old(rawText) && text == old(text) && cursor == old(cursor)
      ensures updating == old(updating) && hintLock == old(hintLock)
      ensures old(hintLock) ==> hintText == value
      ensures !old(hintLock) ==> hintText == Shape(oracle, value)
      ensures !ContainsArabic(value) ==> hintText == value
    {
      hintText := value;
      OnHintText(value);
    }

    /** The `on_hint_text` handler: the same shape-on-set policy as the static
        widgets, under its own latch. */
    method OnHintText(value: Text)
      modifies this
      decreases if hintLock then 0 else 2
      ensures rawText == old(rawText) && text == old(text) && cursor == old(cursor)
      ensures updating == old(updating) && hintLock == old(hintLock)
      ensures old(hintLock) || !ContainsArabic(value) ==> hintText == old(hintText)
      ensures !old(hintLock) && ContainsArabic(value) ==> hintText == Shape(oracle, value)
    {
      if hintLock {
        return;
      }
      if !ContainsArabic(value) {
        return;
      }
      hintLock := true;
      SetHintText(Shape(oracle, value));
      hintLock := false;
    }
  }

  /** A TextInput built with the lam-alef pair as its text shows it unshaped.
      Typing "x" after it makes the toolkit report the three code points on
      screen, and the handler, measuring against the one-code-point ligature,
      appends two of them: the logical text gains a second alef. */
  method LigatureFirstEdit(o: Oracle) returns (raw: Text, shown: Text)
    requires o.reshape([0x644, 0x627]) == Ok([0xFEFB]) && o.reorder([0xFEFB]) == Ok([0xFEFB])
    ensures raw == [0x644, 0x627, 0x627, 0x78]
    ensures shown == Shape(o, raw)
  {
    var w := new ArabicTextInput(o, Some([0x644, 0x627]), None);
    UnshapedLigatureMisread(o);
    w.SetText([0x644, 0x627, 0x78]);
    raw, shown := w.rawText, w.text;
  }
}
