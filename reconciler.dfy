/** The edit inference of the TextInput `on_text` handler in arabic_patch.py,
    as a function of the logical text and the observed visual text.

    The handler never sees where an edit happened: it only compares the length
    of the new visual value with the length of the shaped logical text, and
    reads the difference as characters removed from, or added to, the end. */
module Reconciler {
  import opened Script
  import opened Shaping

  /** Python's slice `s[:-d]`: drop the last `d` elements, leaving the empty
      string when `d` is at least the length. With `d == 0` the slice is
      `s[:0]`, which is empty as well. */
  function DropLast(s: Text, d: nat): (r: Text)
    ensures r <= s
    ensures 0 < d <= |s| ==> |r| == |s| - d
    ensures d == 0 || d >= |s| ==> r == []
  {
    if d == 0 || d >= |s| then [] else s[..|s| - d]
  }

  /** The logical text after the handler observes the visual value `value`
      while the logical text is `raw`: a shorter value removes the difference
      from the end of `raw`, a longer value appends its extra trailing
      characters verbatim, a value of the same length changes nothing. */
  function Reconcile(o: Oracle, raw: Text, value: Text): (r: Text)
    ensures |value| < |Shape(o, raw)| ==>
      r <= raw && |r| == (if |Shape(o, raw)| - |value| <= |raw| then |raw| - (|Shape(o, raw)| - |value|) else 0)
    ensures |value| > |Shape(o, raw)| ==>
      raw <= r && r[|raw|..] == value[|Shape(o, raw)|..]
    ensures |value| == |Shape(o, raw)| ==> r == raw
  {
    var displayed := Shape(o, raw);
    if |value| < |displayed| then
      DropLast(raw, |displayed| - |value|)
    else if |value| > |displayed| then
      raw + value[|displayed|..]
    else
      raw
  }

  /** Trailing insertion round trip: typing any characters after what is on
      screen appends exactly those characters to the logical text. */
  lemma ReconcileAppend(o: Oracle, raw: Text, added: Text)
    ensures Reconcile(o, raw, Shape(o, raw) + added) == raw + added
  {
  }

  /** Trailing deletion round trip: removing the last `d` characters of what is
      on screen removes the last `d` characters of the logical text, or all of
      it when it is shorter than `d`. One backspace (`d == 1`) on a non-empty
      logical text gives `raw[:-1]`. */
  lemma ReconcileTrailingDelete(o: Oracle, raw: Text, d: nat)
    requires 0 < d <= |Shape(o, raw)|
    ensures Reconcile(o, raw, Shape(o, raw)[..|Shape(o, raw)| - d]) ==
      (if d <= |raw| then raw[..|raw| - d] else [])
  {
  }

  /** An edit that keeps the visual length (a replacement, or the handler's
      own write coming back) leaves the logical text as it was; in particular
      observing the current display is a no-op. */
  lemma ReconcileEcho(o: Oracle, raw: Text)
    ensures Reconcile(o, raw, Shape(o, raw)) == raw
  {
  }

  /** For text without Arabic code points the inference is exact: any trailing
      deletion or non-Arabic trailing insertion becomes the new logical text,
      and is displayed as typed. */
  lemma NonArabicEditsExact(o: Oracle, raw: Text, value: Text)
    requires !ContainsArabic(raw) && !ContainsArabic(value)
    requires value <= raw || raw <= value
    ensures Reconcile(o, raw, value) == value
    ensures Shape(o, Reconcile(o, raw, value)) == value
  {
  }

  /** An insertion at position `i` reads the same as appending the last
      character again exactly when every character from `i` on is the
      inserted one. */
  lemma InsertionLikeRepeat(raw: Text, i: nat, c: CodePoint)
    requires i < |raw|
    ensures raw + [raw[|raw| - 1]] == raw[..i] + [c] + raw[i..] <==>
      forall j :: i <= j < |raw| ==> raw[j] == c
  {
    var v := raw[..i] + [c] + raw[i..];
    var r := raw + [raw[|raw| - 1]];
    if r == v {
      forall j | i <= j < |raw| ensures raw[j] == c {
        RepeatFrom(raw, i, c, j);
      }
    }
    if forall j :: i <= j < |raw| ==> raw[j] == c {
      forall k | 0 <= k < |r| ensures r[k] == v[k] {
        if k > i && k < |raw| {
          assert v[k] == raw[k - 1];
        }
      }
      assert r == v;
    }
  }

  /** When the insertion reads as a repeat of the last character, the
      character at every position from `i` to `j` is the inserted one. */
  lemma {:induction false} RepeatFrom(raw: Text, i: nat, c: CodePoint, j: nat)
    requires i <= j < |raw|
    requires raw + [raw[|raw| - 1]] == raw[..i] + [c] + raw[i..]
    ensures raw[j] == c
    decreases j
  {
    var v := raw[..i] + [c] + raw[i..];
    if j == i {
      assert v[i] == c;
    } else {
      RepeatFrom(raw, i, c, j - 1);
      assert v[j] == raw[j - 1];
    }
  }

  /** The trailing-edit assumption: in non-Arabic text, inserting `c` at any
      interior position `i` is read as appending the last character again
      ("ab" edited to "xab" or to "aab" becomes "abb"). The logical text is the
      intended one exactly when every character from `i` on is `c`. */
  lemma InteriorInsertionMisread(o: Oracle, raw: Text, i: nat, c: CodePoint)
    requires !ContainsArabic(raw) && i < |raw|
    ensures Reconcile(o, raw, raw[..i] + [c] + raw[i..]) == raw + [raw[|raw| - 1]]
    ensures Reconcile(o, raw, raw[..i] + [c] + raw[i..]) == raw[..i] + [c] + raw[i..] <==>
      forall j :: i <= j < |raw| ==> raw[j] == c
  {
    var v := raw[..i] + [c] + raw[i..];
    assert Shape(o, raw) == raw && |v| == |raw| + 1;
    assert v[|raw|..] == [raw[|raw| - 1]];
    assert Reconcile(o, raw, v) == raw + v[|raw|..];
    InsertionLikeRepeat(raw, i, c);
  }

  /** The handler measures an edit against the shaped logical text, not against
      what is on screen. When the logical text was never shaped (a TextInput's
      initial text) and shaping shortens it, the first trailing insertion picks
      up characters that were already there: lam-alef shown unshaped as two
      code points, shaped into the one ligature U+FEFB, followed by a typed "x",
      gives lam, alef, alef, "x". */
  lemma UnshapedLigatureMisread(o: Oracle)
    requires o.reshape([0x644, 0x627]) == Ok([0xFEFB]) && o.reorder([0xFEFB]) == Ok([0xFEFB])
    ensures Shape(o, [0x644, 0x627]) == [0xFEFB]
    ensures Reconcile(o, [0x644, 0x627], [0x644, 0x627, 0x78]) == [0x644, 0x627, 0x627, 0x78]
  {
    var lamAlef: Text := [0x644, 0x627];
    ArabicByBlocks(lamAlef[0]);
  }

  /** All the chunks of a sequence, one after the other. */
  function Concat(chunks: seq<Text>): Text {
    if chunks == [] then [] else chunks[0] + Concat(chunks[1..])
  }

  /** The logical text after a series of typing events, each appending one
      chunk to what is on screen at that moment. */
  function TypeChunks(o: Oracle, raw: Text, chunks: seq<Text>): Text
    decreases |chunks|
  {
    if chunks == [] then raw
    else TypeChunks(o, Reconcile(o, raw, Shape(o, raw) + chunks[0]), chunks[1..])
  }

  /** One typing event of the series appends its chunk. */
  lemma TypeChunksStep(o: Oracle, raw: Text, chunks: seq<Text>)
    requires chunks != []
    ensures TypeChunks(o, raw, chunks) == TypeChunks(o, raw + chunks[0], chunks[1..])
  {
    ReconcileAppend(o, raw, chunks[0]);
  }

  /** Concatenating the first chunk first, then the rest, is concatenating all. */
  lemma ConcatStep(raw: Text, chunks: seq<Text>)
    requires chunks != []
    ensures (raw + chunks[0]) + Concat(chunks[1..]) == raw + Concat(chunks)
  {
  }

  /** Whatever the shaping oracle does to the display, a series of trailing
      insertions leaves the logical text equal to the original followed by
      everything typed, in order. */
  lemma {:induction false} TypingRecordsKeystrokes(o: Oracle, raw: Text, chunks: seq<Text>)
    ensures TypeChunks(o, raw, chunks) == raw + Concat(chunks)
    decreases |chunks|
  {
    if chunks == [] {
      assert raw + Concat(chunks) == raw;
    } else {
      var next := raw + chunks[0];
      TypeChunksStep(o, raw, chunks);
      TypingRecordsKeystrokes(o, next, chunks[1..]);
      ConcatStep(raw, chunks);
    }
  }
}
