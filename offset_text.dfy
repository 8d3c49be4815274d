/** `OffsetText` of lib/js.js: a piece of the original source that remembers
    the absolute position of its first character, so that callers slice it by
    absolute positions. Also the JavaScript `String.prototype.slice` it rests on. */
module OffsetTexts {
  import opened Chars
  import opened Wrappers

  function Max(a: int, b: int): int { if a < b then b else a }
  function Min(a: int, b: int): int { if a < b then a else b }

  /** How `String.prototype.slice` turns an index into a position: a negative
      index counts from the end, and the result is clamped to `[0, len]`. */
  function SliceIndex(i: int, len: nat): (p: nat)
    ensures p <= len
    ensures 0 <= i <= len ==> p == i
  {
    if i < 0 then Max(len + i, 0) else Min(i, len)
  }

  /** `s.slice(begin, end)`; `end` None stands for `undefined`. */
  function JsSlice(s: string, begin: int, end: Option<int>): (r: string)
    ensures 0 <= begin && (end.None? || begin <= end.value <= |s|) && begin <= |s| ==>
      r == s[begin..if end.None? then |s| else end.value]
  {
    var from := SliceIndex(begin, |s|);
    var to := if end.None? then |s| else SliceIndex(end.value, |s|);
    if from < to then s[from..to] else ""
  }

  /** A slice never reads outside the string and never grows it. */
  lemma JsSliceBounds(s: string, begin: int, end: Option<int>)
    ensures |JsSlice(s, begin, end)| <= |s|
    ensures begin >= |s| ==> JsSlice(s, begin, end) == ""
  {
  }

  datatype OffsetText = OffsetText(text: string, offset: int) {

    /** `slice(start, end)`: positions are absolute; the new offset is the
        absolute position of the first character kept. */
    function Slice(start: int, end: Option<int>): OffsetText {
      var from := Max(start - offset, 0);
      var to := match end
        case None => None
        case Some(e) => Some(if e < 0 then e else Max(e - offset, 0));
      OffsetText(JsSlice(text, from, to), Max(offset, start))
    }

    /** `charAt(i)`: the character at absolute position `i`, "" past the end. */
    function CharAt(i: int): string {
      var k := Max(i - offset, 0);
      if k < |text| then [text[k]] else ""
    }

    function Length(): nat { |text| }

    /** The absolute position one past the last character. */
    function End(): int { offset + |text| }

    /** `replace(/\/(\s*)$/, "$1")`: drop a final `/` that only white space
        follows; the offset is kept, as `replace` keeps it. */
    function DropClosingSlash(): (r: OffsetText)
      ensures r.offset == offset
    {
      var k := SuffixStart(text, IsJsSpace);
      if k > 0 && text[k - 1] == '/' then OffsetText(text[..k - 1] + text[k..], offset)
      else this
    }
  }

  /** `OffsetText.slice(text, start, end)` for a plain string: the offset
      becomes `start`. */
  function SliceString(s: string, start: int, end: Option<int>): OffsetText {
    OffsetText(JsSlice(s, start, end), start)
  }

  /** `t` is a faithful view of `src`: its text is the part of `src` that
      begins at its offset. */
  predicate ViewOf(t: OffsetText, src: string) {
    0 <= t.offset && t.offset + |t.text| <= |src| && t.text == src[t.offset..t.offset + |t.text|]
  }

  /** A plain string is the view of itself at offset 0. */
  lemma WholeView(src: string)
    ensures ViewOf(OffsetText(src, 0), src)
  {
  }

  /** Slicing by absolute positions inside the text. */
  lemma SliceInside(t: OffsetText, a: int, b: int)
    requires 0 <= t.offset <= a <= b <= t.End()
    ensures t.Slice(a, Some(b)) == OffsetText(t.text[a - t.offset..b - t.offset], a)
  {
  }

  /** Slicing a view by absolute positions inside it gives the view of exactly
      those positions of the original: nested slicing never needs a caller to
      subtract a base offset. */
  lemma SliceOfView(t: OffsetText, src: string, a: int, b: int)
    requires ViewOf(t, src)
    requires t.offset <= a <= b <= t.End()
    ensures ViewOf(t.Slice(a, Some(b)), src)
    ensures t.Slice(a, Some(b)) == OffsetText(src[a..b], a)
  {
    SliceInside(t, a, b);
    SliceOfSlice(src, t.offset, t.offset + |t.text|, a - t.offset, b - t.offset);
  }

  /** A slice of a slice is a slice of the original. */
  lemma SliceOfSlice(s: string, lo: int, hi: int, x: int, y: int)
    requires 0 <= lo <= hi <= |s| && 0 <= x <= y <= hi - lo
    ensures s[lo..hi][x..y] == s[lo + x..lo + y]
  {
    assert forall i | 0 <= i < y - x :: s[lo..hi][x..y][i] == s[lo + x + i];
  }

  /** Slicing a view to its end by an absolute position inside it. */
  lemma SliceOfViewToEnd(t: OffsetText, src: string, a: int)
    requires ViewOf(t, src)
    requires t.offset <= a <= t.End()
    ensures t.Slice(a, None) == OffsetText(src[a..t.End()], a)
  {
  }

  /** Two successive slices by absolute positions equal one direct slice. */
  lemma SliceTwice(t: OffsetText, a: int, b: int, c: int, d: int)
    requires 0 <= t.offset <= a <= c <= d <= b <= t.End()
    ensures t.Slice(a, Some(b)).Slice(c, Some(d)) == t.Slice(c, Some(d))
  {
    SliceInside(t, a, b);
    var u := t.Slice(a, Some(b));
    SliceInside(u, c, d);
    SliceInside(t, c, d);
    assert u.text[c - a..d - a] == t.text[c - t.offset..d - t.offset];
  }

  /** The character at an absolute position inside a view is the original's. */
  lemma CharAtOfView(t: OffsetText, src: string, i: int)
    requires ViewOf(t, src)
    requires t.offset <= i < t.End()
    ensures t.CharAt(i) == [src[i]]
  {
  }

  /** The static slice of a plain string agrees with slicing the string's
      view at offset 0, for the non-negative positions the compiler uses. */
  lemma SliceStringAsView(s: string, start: int, end: Option<int>)
    requires 0 <= start
    requires end.Some? ==> 0 <= end.value
    ensures SliceString(s, start, end) == OffsetText(s, 0).Slice(start, end)
  {
  }
}
