/**
 * Sliding-window segmentation of `read_data` (doc_maker.py:87-92): windows of
 * length `seqLen` start at every multiple of `skip` strictly below
 * `|text| - seqLen`; each is paired with the character that follows it.
 */
module Windows {

  /** Number of `i` in Python's `range(0, n - seqLen, skip)`. */
  function WindowCount(n: nat, seqLen: nat, skip: nat): nat
    requires skip > 0
  {
    if n <= seqLen then 0 else (n - seqLen + skip - 1) / skip
  }

  /** Buffer index of position `j` of window `i` (the target of window `i` is position `seqLen`). */
  function Pos(i: nat, skip: nat, j: nat): nat {
    i * skip + j
  }

  /** Window `k` exists exactly when its start `k * skip` is below the loop bound `n - seqLen`. */
  lemma WindowStarts(n: nat, seqLen: nat, skip: nat, k: nat)
    requires skip > 0
    ensures k < WindowCount(n, seqLen, skip) <==> k * skip < n - seqLen
  {
    if n > seqLen {
      var m := n - seqLen;
      var q := (m + skip - 1) / skip;
      var r := (m + skip - 1) % skip;
      assert m + skip - 1 == q * skip + r && 0 <= r < skip;
      if k < q {
        MulMono(k, q - 1, skip);
        assert (q - 1) * skip == q * skip - skip;
      } else {
        MulMono(q, k, skip);
      }
    }
  }

  lemma MulMono(a: nat, b: nat, c: nat)
    requires a <= b
    ensures a * c <= b * c
  {
  }

  /**
   * For a buffer longer than a window, the count is the ceiling of
   * `(n - seqLen) / skip`, which equals `(n - seqLen - 1) / skip + 1`; a buffer
   * no longer than a window yields no example.
   */
  lemma WindowCountClosedForm(n: nat, seqLen: nat, skip: nat)
    requires skip > 0
    ensures n <= seqLen ==> WindowCount(n, seqLen, skip) == 0
    ensures n > seqLen ==> WindowCount(n, seqLen, skip) == (n - seqLen - 1) / skip + 1
    ensures n > seqLen ==>
      WindowCount(n, seqLen, skip) * skip >= n - seqLen && (WindowCount(n, seqLen, skip) - 1) * skip < n - seqLen
  {
    if n > seqLen {
      var w := WindowCount(n, seqLen, skip);
      WindowStarts(n, seqLen, skip, w);
      WindowStarts(n, seqLen, skip, w - 1);
      DivUnique(n - seqLen - 1, skip, w - 1);
    }
  }

  /** Integer division is characterised by its bracketing multiples. */
  lemma DivUnique(x: nat, d: nat, q: nat)
    requires d > 0 && q * d <= x < (q + 1) * d
    ensures x / d == q
  {
    var q', r' := x / d, x % d;
    assert x == q' * d + r' && 0 <= r' < d;
    if q' < q {
      MulMono(q' + 1, q, d);
    } else if q < q' {
      MulMono(q + 1, q', d);
    }
  }

  /** A 720-character buffer with the script's window length and stride gives 335 windows. */
  lemma AbcCorpusWindowCount()
    ensures WindowCount(720, 50, 2) == 335
  {
  }

  /** `section` is window `k` of `text` and `next` the character after it. */
  predicate IsWindow(text: string, seqLen: nat, skip: nat, k: nat, section: string, next: char) {
    && k * skip + seqLen < |text|
    && section == text[k * skip..k * skip + seqLen]
    && next == text[k * skip + seqLen]
  }

  /** `sections` and `nextChars` are the first windows of `text` and their targets. */
  predicate Segmented(text: string, seqLen: nat, skip: nat, sections: seq<string>, nextChars: seq<char>) {
    && |sections| == |nextChars|
    && forall k :: 0 <= k < |sections| ==> IsWindow(text, seqLen, skip, k, sections[k], nextChars[k])
  }

  /** One more iteration of the segmentation loop keeps the sections the windows of `text`. */
  lemma SegmentStep(text: string, seqLen: nat, skip: nat, sections: seq<string>, nextChars: seq<char>)
    requires Segmented(text, seqLen, skip, sections, nextChars)
    requires |sections| * skip + seqLen < |text|
    ensures var i := |sections| * skip;
      Segmented(text, seqLen, skip, sections + [text[i..i + seqLen]], nextChars + [text[i + seqLen]])
  {
    var i := |sections| * skip;
    assert IsWindow(text, seqLen, skip, |sections|, text[i..i + seqLen], text[i + seqLen]);
  }

  /**
   * The segmentation loop: the sections and their next characters.
   * Window `k` is the full-length slice at `k * skip` and its target lies
   * inside the buffer.
   */
  method Segment(text: string, seqLen: nat, skip: nat) returns (sections: seq<string>, nextChars: seq<char>)
    requires skip > 0
    ensures |sections| == WindowCount(|text|, seqLen, skip)
    ensures Segmented(text, seqLen, skip, sections, nextChars)
  {
    sections, nextChars := [], [];
    var i := 0;
    while i < |text| - seqLen
      invariant i == |sections| * skip
      invariant |sections| <= WindowCount(|text|, seqLen, skip)
      invariant Segmented(text, seqLen, skip, sections, nextChars)
    {
      WindowStarts(|text|, seqLen, skip, |sections|);
      SegmentStep(text, seqLen, skip, sections, nextChars);
      sections, nextChars := sections + [text[i..i + seqLen]], nextChars + [text[i + seqLen]];
      i := i + skip;
    }
    WindowStarts(|text|, seqLen, skip, |sections|);
  }
}
