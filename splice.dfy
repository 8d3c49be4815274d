/** The edit splicer of lib/js.js: `splice` and `applyReplacements`, which
    write the text of every compiled JSX node over its range of the source,
    left to right, keeping the running difference in length. */
module Splicing {
  import opened Chars
  import opened Wrappers
  import opened OffsetTexts

  /** `{start, end, text}`: replace the absolute range `[start, end)` by `text`. */
  datatype Edit = Edit(start: int, end: int, text: string)

  /** `splice(s, i, j, r)`: `s.slice(0, i) + r + s.slice(j)`, with JavaScript's
      slice semantics for any index. */
  function Splice(s: string, i: int, j: int, r: string): string {
    s[..SliceIndex(i, |s|)] + r + s[SliceIndex(j, |s|)..]
  }

  /** With indices inside the string, `splice(s, i, j, r)` keeps what lies
      before `i` and from `j` on, and puts `r` between them. */
  lemma SpliceInRange(s: string, i: int, j: int, r: string)
    requires 0 <= i <= j <= |s|
    ensures Splice(s, i, j, r) == s[..i] + r + s[j..]
  {
  }

  /** `splice` is the two `slice` calls of lib/js.js around the new text,
      for any indices. */
  lemma SpliceBySlices(s: string, i: int, j: int, r: string)
    ensures Splice(s, i, j, r) == JsSlice(s, 0, Some(i)) + r + JsSlice(s, j, None)
  {
    if SliceIndex(i, |s|) == 0 {
      assert s[..0] == "";
    }
  }

  /** `applyReplacements`' reduce from some point on: the text so far is
      `acc`, and `added` is how much longer it has grown than the original
      before the next edit. */
  function ApplyFrom(acc: string, added: int, offset: int, edits: seq<Edit>): string
    decreases |edits|
  {
    if edits == [] then acc
    else
      var e := edits[0];
      var start := e.start - offset;
      var end := e.end - offset;
      ApplyFrom(Splice(acc, start + added, end + added, e.text),
        added + |e.text| - (end - start), offset, edits[1..])
  }

  /** `applyReplacements(t, edits)`: positions are absolute, so the view's
      offset is subtracted from each. */
  function ApplyAll(t: OffsetText, edits: seq<Edit>): string {
    ApplyFrom(t.text, 0, t.offset, edits)
  }

  /** `applyReplacements` as the source runs it: one pass over the edits. */
  method ApplyReplacements(t: OffsetText, edits: seq<Edit>) returns (r: string)
    ensures r == ApplyAll(t, edits)
  {
    var added := 0;
    var offset := t.offset;
    r := t.text;
    var k := 0;
    while k < |edits|
      invariant 0 <= k <= |edits|
      invariant ApplyFrom(r, added, offset, edits[k..]) == ApplyAll(t, edits)
    {
      var start := edits[k].start - offset;
      var end := edits[k].end - offset;
      var text := edits[k].text;
      assert edits[k..][1..] == edits[k + 1..];
      r := Splice(r, start + added, end + added, text);
      added := added + |text| - (end - start);
      k := k + 1;
    }
  }

  /** The edits lie inside `[lo, hi]`, each well formed, in document order and
      without overlap. */
  predicate Ordered(edits: seq<Edit>, lo: int, hi: int)
    decreases |edits|
  {
    edits != [] ==>
      && lo <= edits[0].start <= edits[0].end <= hi
      && Ordered(edits[1..], edits[0].end, hi)
  }

  /** The reference result, read off the original alone: from absolute
      position `pos` on, every gap between edits is copied and every edit's
      range is replaced by its text, with no running delta. */
  function Rebuilt(src: string, offset: int, pos: int, edits: seq<Edit>): string
    requires offset <= pos <= offset + |src|
    requires Ordered(edits, pos, offset + |src|)
    decreases |edits|
  {
    if edits == [] then src[pos - offset..]
    else
      var e := edits[0];
      src[pos - offset..e.start - offset] + e.text + Rebuilt(src, offset, e.end, edits[1..])
  }

  /** One splice into a text whose head is already rebuilt and whose rest is
      the original from `from` on. */
  lemma SpliceAfter(pre: string, src: string, from: int, start: int, end: int, text: string)
    requires 0 <= from <= start <= end <= |src|
    ensures Splice(pre + src[from..], |pre| + start - from, |pre| + end - from, text)
      == pre + src[from..start] + text + src[end..]
  {
    var acc := pre + src[from..];
    SpliceInRange(acc, |pre| + start - from, |pre| + end - from, text);
    assert acc[..|pre| + start - from] == pre + src[from..start];
    assert acc[|pre| + end - from..] == src[end..];
  }

  /** The invariant of the splicer: once the text is a rebuilt head `pre`
      followed by the untouched original from `pos` on, and `added` is how
      much longer the head is than what it replaced, the remaining edits
      finish the reference result. */
  lemma {:induction false} ApplyFromRebuilds(src: string, offset: int, pos: int, pre: string,
    acc: string, added: int, edits: seq<Edit>)
    requires offset <= pos <= offset + |src|
    requires Ordered(edits, pos, offset + |src|)
    requires acc == pre + src[pos - offset..] && added == |pre| - (pos - offset)
    ensures ApplyFrom(acc, added, offset, edits) == pre + Rebuilt(src, offset, pos, edits)
    decreases |edits|
  {
    if edits != [] {
      var e := edits[0];
      var mid := src[pos - offset..e.start - offset] + e.text;
      var rest := Rebuilt(src, offset, e.end, edits[1..]);
      ApplyFromHead(src, offset, pos, pre, edits);
      ApplyFromRebuilds(src, offset, e.end, pre + mid, (pre + mid) + src[e.end - offset..],
        |pre + mid| - (e.end - offset), edits[1..]);
      Assoc(pre, mid, rest);
      RebuiltCons(src, offset, pos, edits);
    }
  }

  /** The first edit, spliced in: the gap before it and its text join the
      rebuilt head. */
  lemma ApplyFromHead(src: string, offset: int, pos: int, pre: string, edits: seq<Edit>)
    requires offset <= pos <= offset + |src|
    requires Ordered(edits, pos, offset + |src|)
    requires edits != []
    ensures var e := edits[0];
      var mid := src[pos - offset..e.start - offset] + e.text;
      ApplyFrom(pre + src[pos - offset..], |pre| - (pos - offset), offset, edits)
      == ApplyFrom((pre + mid) + src[e.end - offset..], |pre + mid| - (e.end - offset), offset, edits[1..])
  {
    var e := edits[0];
    var from, start, end := pos - offset, e.start - offset, e.end - offset;
    var added := |pre| - from;
    var mid := src[from..start] + e.text;
    ApplyFromStep(pre + src[from..], added, offset, edits);
    SpliceHead(pre, src, from, start, end, e.text);
    assert added + |e.text| - (end - start) == |pre + mid| - end;
  }

  /** The splice of `SpliceAfter`, grouped as the rebuilt head and the rest. */
  lemma SpliceHead(pre: string, src: string, from: int, start: int, end: int, text: string)
    requires 0 <= from <= start <= end <= |src|
    ensures Splice(pre + src[from..], start + (|pre| - from), end + (|pre| - from), text)
      == (pre + (src[from..start] + text)) + src[end..]
  {
    SpliceAfter(pre, src, from, start, end, text);
    Assoc(pre, src[from..start], text);
  }

  /** One turn of the reduce. */
  lemma ApplyFromStep(acc: string, added: int, offset: int, edits: seq<Edit>)
    requires edits != []
    ensures ApplyFrom(acc, added, offset, edits)
      == ApplyFrom(Splice(acc, edits[0].start - offset + added, edits[0].end - offset + added, edits[0].text),
           added + |edits[0].text| - (edits[0].end - edits[0].start), offset, edits[1..])
  {
  }

  lemma RebuiltCons(src: string, offset: int, pos: int, edits: seq<Edit>)
    requires offset <= pos <= offset + |src|
    requires Ordered(edits, pos, offset + |src|)
    requires edits != []
    ensures Ordered(edits[1..], edits[0].end, offset + |src|)
    ensures Rebuilt(src, offset, pos, edits)
      == src[pos - offset..edits[0].start - offset] + edits[0].text
        + Rebuilt(src, offset, edits[0].end, edits[1..])
  {
  }

  lemma Assoc(a: string, b: string, c: string)
    ensures a + b + c == a + (b + c)
  {
  }

  /** applyReplacements, given edits in document order that do not overlap
      and lie inside the text, replaces each edit's range by its text and
      copies everything else. */
  lemma ApplyAllRebuilds(t: OffsetText, edits: seq<Edit>)
    requires Ordered(edits, t.offset, t.End())
    ensures ApplyAll(t, edits) == Rebuilt(t.text, t.offset, t.offset, edits)
  {
    ApplyFromRebuilds(t.text, t.offset, t.offset, "", t.text, 0, edits);
    assert "" + t.text[0..] == t.text;
    assert "" + Rebuilt(t.text, t.offset, t.offset, edits) == Rebuilt(t.text, t.offset, t.offset, edits);
  }

  /** With no edits the text comes back unchanged. */
  lemma ApplyNothing(t: OffsetText)
    ensures ApplyAll(t, []) == t.text
  {
  }

  /** The text before the first edit and after the last one is copied verbatim. */
  lemma {:induction false} RebuiltKeepsOutside(src: string, offset: int, pos: int, edits: seq<Edit>)
    requires offset <= pos <= offset + |src|
    requires Ordered(edits, pos, offset + |src|)
    requires |edits| > 0
    ensures pos <= edits[0].start <= edits[|edits| - 1].end <= offset + |src|
    ensures var r := Rebuilt(src, offset, pos, edits);
      var head := src[pos - offset..edits[0].start - offset];
      var tail := src[edits[|edits| - 1].end - offset..];
      && |head| + |tail| <= |r|
      && r[..|head|] == head
      && r[|r| - |tail|..] == tail
    decreases |edits|
  {
    var e := edits[0];
    OrderedEnds(edits, pos, offset + |src|);
    var head := src[pos - offset..e.start - offset];
    var tail := src[edits[|edits| - 1].end - offset..];
    var rest := Rebuilt(src, offset, e.end, edits[1..]);
    RebuiltCons(src, offset, pos, edits);
    var r := head + e.text + rest;
    assert r[..|head|] == head;
    if |edits| == 1 {
      assert rest == tail;
    } else {
      RebuiltKeepsOutside(src, offset, e.end, edits[1..]);
      assert edits[1..][|edits| - 2] == edits[|edits| - 1];
      assert rest[|rest| - |tail|..] == tail;
      assert r[|r| - |tail|..] == rest[|rest| - |tail|..];
    }
  }

  /** Ordered edits end inside their bounds, the last one too. */
  lemma {:induction false} OrderedEnds(edits: seq<Edit>, lo: int, hi: int)
    requires Ordered(edits, lo, hi) && edits != []
    ensures lo <= edits[0].start && edits[|edits| - 1].end <= hi
    ensures edits[0].start <= edits[|edits| - 1].end
    decreases |edits|
  {
    if |edits| > 1 {
      OrderedEnds(edits[1..], edits[0].end, hi);
    }
  }
}
