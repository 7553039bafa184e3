/** `_compress_corpus` of utils/llm.py: a text longer than the budget is
    replaced by `slices` equally long windows taken at evenly spaced
    offsets, joined by an ellipsis line. */
module Sampling {
  import opened Text

  /** The separator `"\n...\n"` put between windows. */
  const Ellipsis: string := "\n...\n"

  /** Python's `round` applied to the exact quotient `n / d`: the nearest
      integer, ties going to the even one. */
  function RoundHalfEven(n: nat, d: nat): (r: nat)
    requires d >= 1
    ensures -(d as int) <= 2 * (n - d * r) <= d
    ensures (2 * (n - d * r) == d || 2 * (n - d * r) == -(d as int)) ==> r % 2 == 0
  {
    var q, m := n / d, n % d;
    assert n - d * q == m;
    assert n - d * (q + 1) == m - d by {
      assert d * (q + 1) == d * q + d;
    }
    if 2 * m < d then q
    else if 2 * m > d then q + 1
    else if q % 2 == 0 then q
    else q + 1
  }

  /** Rounding is monotone. */
  lemma RoundMonotone(n1: nat, n2: nat, d: nat)
    requires d >= 1 && n1 <= n2
    ensures RoundHalfEven(n1, d) <= RoundHalfEven(n2, d)
  {
    var r1, r2 := RoundHalfEven(n1, d), RoundHalfEven(n2, d);
    MulGe(d, r1, r2);
    MulGe(d, r1, r2 + 1);
    MulGe(d, r2 + 1, r2);
  }

  /** An exact quotient is its own rounding. */
  lemma RoundExact(k: nat, d: nat)
    requires d >= 1
    ensures RoundHalfEven(k * d, d) == k
  {
    var r := RoundHalfEven(k * d, d);
    assert k * d == d * k;
    MulGe(d, r, k);
    MulGe(d, k, r);
  }

  lemma MulGe(d: nat, x: int, y: int)
    ensures x >= y + 1 ==> d * x >= d * y + d
  {
    if x >= y + 1 {
      var e: nat := x - y - 1;
      assert d * x == d * y + d + d * e;
    }
  }

  lemma MulMonotone(d: nat, a: nat, b: nat)
    requires a <= b
    ensures d * a <= d * b
  {
    assert d * b == d * a + d * (b - a);
  }

  lemma DivTimes(n: nat, d: nat)
    requires d >= 1
    ensures d * (n / d) <= n
  {
    assert n == d * (n / d) + n % d;
  }

  /** `slice_len = max_chars // slices` */
  function SliceLen(maxChars: nat, slices: nat): (sl: nat)
    requires slices >= 1
    ensures sl <= maxChars && slices * sl <= maxChars
  {
    var sl := maxChars / slices;
    DivTimes(maxChars, slices);
    MulMonotone(sl, 1, slices);
    assert sl * slices == slices * sl;
    sl
  }

  /** `max(1, slices - 1)` */
  function Divisor(slices: nat): (d: nat)
    ensures d >= 1
  {
    if slices >= 2 then slices - 1 else 1
  }

  /** Offset of window `i`: `round(i * (len - slice_len) / max(1, slices - 1))`,
      the whole number nearest to the `i`-th of evenly spaced points. */
  function SliceStart(len: nat, sl: nat, slices: nat, i: nat): (start: nat)
    requires sl <= len
    ensures var d := Divisor(slices);
            -(d as int) <= 2 * (i * (len - sl) - d * start) <= d
  {
    RoundHalfEven(i * (len - sl), Divisor(slices))
  }

  /** Every window lies inside the text, the first at offset 0 and, with two
      or more slices, the last ending at the end of the text. */
  lemma {:induction false} SliceStartBounds(len: nat, sl: nat, slices: nat, i: nat)
    requires slices >= 1 && sl <= len && i < slices
    ensures SliceStart(len, sl, slices, i) <= len - sl
    ensures i == 0 ==> SliceStart(len, sl, slices, i) == 0
    ensures slices >= 2 && i == slices - 1 ==> SliceStart(len, sl, slices, i) == len - sl
  {
    var d := Divisor(slices);
    if slices >= 2 {
      MulMonotone(len - sl, i, d);
      assert i * (len - sl) <= (len - sl) * d;
      RoundMonotone(i * (len - sl), (len - sl) * d, d);
      RoundExact(len - sl, d);
    } else {
      assert i == 0;
    }
    RoundExact(0, d);
  }

  /** Windows are taken in increasing order of offset. */
  lemma SliceStartMonotone(len: nat, sl: nat, slices: nat, i: nat, j: nat)
    requires sl <= len && i <= j
    ensures SliceStart(len, sl, slices, i) <= SliceStart(len, sl, slices, j)
  {
    MulMonotone(len - sl, i, j);
    assert i * (len - sl) <= j * (len - sl);
    RoundMonotone(i * (len - sl), j * (len - sl), Divisor(slices));
  }

  /** Window `i`: `text[start:start + slice_len]`. */
  function Window(text: string, sl: nat, slices: nat, i: nat): (w: string)
    requires slices >= 1 && sl <= |text| && i < slices
    ensures |w| == sl
  {
    var start := SliceStart(|text|, sl, slices, i);
    SliceStartBounds(|text|, sl, slices, i);
    text[start..start + sl]
  }

  /** The `slices` windows, in order. */
  function Windows(text: string, maxChars: nat, slices: nat): (ws: seq<string>)
    requires slices >= 1 && maxChars < |text|
    ensures |ws| == slices
    ensures forall k :: 0 <= k < slices ==> |ws[k]| == SliceLen(maxChars, slices)
  {
    var sl := SliceLen(maxChars, slices);
    seq(slices, k requires 0 <= k < slices => Window(text, sl, slices, k))
  }

  /** `_compress_corpus`: a text within the budget is passed through
      unchanged; a longer one becomes exactly `slices` windows of
      `max_chars // slices` characters and `slices - 1` separators, so never
      more than the budget plus the separators. */
  function Compress(text: string, maxChars: nat, slices: nat): (r: string)
    requires slices >= 1
    ensures |text| <= maxChars ==> r == text
    ensures |text| > maxChars ==> |r| == slices * SliceLen(maxChars, slices) + (slices - 1) * |Ellipsis|
    ensures |r| <= maxChars + (slices - 1) * |Ellipsis|
  {
    if |text| <= maxChars then text
    else
      JoinUniformLength(Windows(text, maxChars, slices), Ellipsis, SliceLen(maxChars, slices));
      Join(Windows(text, maxChars, slices), Ellipsis)
  }

  /** The loop that collects `segs`, then the join. */
  method CompressCorpus(text: string, maxChars: nat, slices: nat) returns (r: string)
    requires slices >= 1
    ensures r == Compress(text, maxChars, slices)
  {
    if |text| <= maxChars {
      return text;
    }
    var sl := maxChars / slices;
    ghost var ws := Windows(text, maxChars, slices);
    var segs: seq<string> := [];
    for i := 0 to slices
      invariant segs == ws[..i]
    {
      var start := SliceStart(|text|, sl, slices, i);
      SliceStartBounds(|text|, sl, slices, i);
      segs := segs + [text[start..start + sl]];
    }
    assert segs == ws;
    r := Join(segs, Ellipsis);
  }

  /** The first window is the start of the text and, with two or more
      slices, the last window is the end of the text. */
  lemma CompressEnds(text: string, maxChars: nat, slices: nat)
    requires slices >= 1 && maxChars < |text|
    ensures var sl := maxChars / slices;
            var ws := Windows(text, maxChars, slices);
            && ws[0] == text[..sl]
            && (slices >= 2 ==> ws[slices - 1] == text[|text| - sl..])
  {
    var sl := maxChars / slices;
    SliceStartBounds(|text|, sl, slices, 0);
    SliceStartBounds(|text|, sl, slices, slices - 1);
  }

  /** Window `i` is the `slice_len` characters at its offset, and a later
      window never starts before an earlier one. */
  lemma WindowsInOrder(text: string, maxChars: nat, slices: nat, i: nat, j: nat)
    requires slices >= 1 && maxChars < |text| && i <= j < slices
    ensures var ws := Windows(text, maxChars, slices);
            var sl := SliceLen(maxChars, slices);
            var si := SliceStart(|text|, sl, slices, i);
            && si + sl <= |text|
            && ws[i] == text[si..si + sl]
            && si <= SliceStart(|text|, sl, slices, j)
  {
    var sl := SliceLen(maxChars, slices);
    SliceStartBounds(|text|, sl, slices, i);
    SliceStartMonotone(|text|, sl, slices, i, j);
  }
}
