/** The script detector of arabic_patch.py: does a string hold an Arabic code point?

    Python strings are sequences of code points, so text is modelled as a
    sequence of integers in 0..0x10FFFF (lone surrogates included), not as
    Dafny's `char`. The regular-expression character class becomes an explicit
    range table. */
module Script {

  newtype CodePoint = x: int | 0 <= x <= 0x10FFFF

  type Text = seq<CodePoint>

  /** The five blocks of the detector's character class, as inclusive bounds:
      Arabic, Arabic Supplement, Arabic Extended-A,
      Arabic Presentation Forms-A and Arabic Presentation Forms-B. */
  const ArabicRanges: seq<(int, int)> :=
    [(0x0600, 0x06FF), (0x0750, 0x077F), (0x08A0, 0x08FF), (0xFB50, 0xFDFF), (0xFE70, 0xFEFF)]

  predicate InRange(c: CodePoint, range: (int, int)) {
    range.0 <= c as int <= range.1
  }

  /** One code point matches the character class: it lies in one of the five blocks. */
  predicate IsArabic(c: CodePoint) {
    exists k :: 0 <= k < |ArabicRanges| && InRange(c, ArabicRanges[k])
  }

  /** `contains_arabic`: false on the empty string, otherwise a left-to-right
      search that stops at the first match. */
  function ContainsArabic(t: Text): (r: bool)
    ensures t == [] ==> !r
    ensures r <==> exists i :: 0 <= i < |t| && IsArabic(t[i])
  {
    if t == [] then false
    else if IsArabic(t[0]) then true
    else
      var rest := ContainsArabic(t[1..]);
      assert forall i :: 1 <= i < |t| ==> t[i] == t[1..][i - 1];
      rest
  }

  /** Detection distributes over concatenation: a string built from two parts
      holds an Arabic code point exactly when one of the parts does. */
  lemma {:induction false} ContainsArabicConcat(a: Text, b: Text)
    ensures ContainsArabic(a + b) <==> ContainsArabic(a) || ContainsArabic(b)
  {
    if a == [] {
      assert a + b == b;
    } else {
      assert (a + b)[0] == a[0];
      assert (a + b)[1..] == a[1..] + b;
      ContainsArabicConcat(a[1..], b);
    }
  }

  /** The range table read as five explicit block tests: a code point is
      Arabic exactly when one of the five inclusive bounds holds. */
  lemma ArabicByBlocks(c: CodePoint)
    ensures IsArabic(c) <==>
      (0x0600 <= c <= 0x06FF) || (0x0750 <= c <= 0x077F) || (0x08A0 <= c <= 0x08FF) ||
      (0xFB50 <= c <= 0xFDFF) || (0xFE70 <= c <= 0xFEFF)
  {
    if IsArabic(c) {
      var k :| 0 <= k < |ArabicRanges| && InRange(c, ArabicRanges[k]);
      assert k == 0 || k == 1 || k == 2 || k == 3 || k == 4;
    } else {
      assert !InRange(c, ArabicRanges[0]) && !InRange(c, ArabicRanges[1]) && !InRange(c, ArabicRanges[2]);
      assert !InRange(c, ArabicRanges[3]) && !InRange(c, ArabicRanges[4]);
    }
  }

  /** Plain ASCII text ("hello") is never detected as Arabic. */
  lemma AsciiIsNotArabic(t: Text)
    requires forall i :: 0 <= i < |t| ==> t[i] < 0x80
    ensures !ContainsArabic(t)
  {
  }
}
