/**
 * `read_data` (doc_maker.py:60-107): accumulate the corpus items into one
 * text buffer, build the vocabulary, cut the buffer into windows and
 * one-hot encode them. The training file is the sequence of its lines.
 */
module Vectorizer {
  import opened Corpus
  import opened Vocab
  import opened Windows
  import opened Encoding

  /**
   * The accumulation loop over the items the corpus yields. The item `c` is
   * appended before the test `c > linesToRead` breaks the loop, so the buffer
   * holds the first `linesToRead + 2` items, or all of them when there are fewer.
   */
  method Accumulate(items: seq<string>, linesToRead: nat) returns (text: string)
    ensures text == Concat(items[..Admitted(|items|, linesToRead)])
  {
    text := "";
    var c := 0;
    while c < |items|
      invariant c <= |items| && c <= linesToRead + 1
      invariant text == Concat(items[..c])
    {
      ConcatSnoc(items, c);
      text := text + items[c];
      if c > linesToRead {
        break;
      }
      c := c + 1;
    }
  }

  /** Number of lines of an `n`-line file that the accumulation loop reads. */
  function Admitted(n: nat, linesToRead: nat): (m: nat)
    ensures m <= n
  {
    if n < linesToRead + 2 then n else linesToRead + 2
  }

  /** The buffer `read_data` builds from a file with these lines. */
  function Buffer(lines: seq<string>, linesToRead: nat): string {
    Concat(Items(lines)[..Admitted(|lines|, linesToRead)])
  }

  /**
   * The buffer is made of whole items in file order: each admitted line
   * contributes its stripped text and one space, and nothing else is added,
   * so a non-empty file gives a buffer that ends in a space.
   */
  lemma {:induction false} BufferLength(lines: seq<string>, linesToRead: nat)
    ensures |Buffer(lines, linesToRead)| == StrippedLength(lines[..Admitted(|lines|, linesToRead)])
    ensures |lines| > 0 ==> |Buffer(lines, linesToRead)| > 0 && Buffer(lines, linesToRead)[|Buffer(lines, linesToRead)| - 1] == ' '
  {
    var n := Admitted(|lines|, linesToRead);
    PrefixLength(lines, n);
    if n > 0 {
      PrefixEndsInSpace(lines, n);
    }
  }

  /** Position `j` of window `i` is the buffer character at `Pos(i, skip, j)`. */
  lemma WindowChars(text: string, seqLen: nat, skip: nat, sections: seq<string>, nextChars: seq<char>)
    requires skip > 0 && Segmented(text, seqLen, skip, sections, nextChars)
    ensures |nextChars| == |sections| && forall i :: 0 <= i < |sections| ==> |sections[i]| == seqLen
    ensures forall i, j :: 0 <= i < |sections| && 0 <= j < seqLen ==>
      Pos(i, skip, j) < |text| && sections[i][j] == text[Pos(i, skip, j)]
    ensures forall i :: 0 <= i < |sections| ==>
      Pos(i, skip, seqLen) < |text| && nextChars[i] == text[Pos(i, skip, seqLen)]
  {
    forall i | 0 <= i < |sections|
      ensures |sections[i]| == seqLen
      ensures Pos(i, skip, seqLen) < |text| && nextChars[i] == text[Pos(i, skip, seqLen)]
    {
      assert IsWindow(text, seqLen, skip, i, sections[i], nextChars[i]);
    }
    forall i, j | 0 <= i < |sections| && 0 <= j < seqLen
      ensures Pos(i, skip, j) < |text| && sections[i][j] == text[Pos(i, skip, j)]
    {
      assert IsWindow(text, seqLen, skip, i, sections[i], nextChars[i]);
      assert sections[i] == text[i * skip..i * skip + seqLen];
    }
  }

  /** Every character of a window and every target is a buffer character, so it has an id. */
  lemma WindowsEncodable(text: string, seqLen: nat, skip: nat, sections: seq<string>, nextChars: seq<char>, v: Vocabulary)
    requires forall i :: 0 <= i < |text| ==> text[i] in v.char2id
    requires skip > 0 && Segmented(text, seqLen, skip, sections, nextChars)
    ensures Encodable(v, sections, nextChars)
  {
    forall i, j | 0 <= i < |sections| && 0 <= j < |sections[i]|
      ensures sections[i][j] in v.char2id
    {
      assert IsWindow(text, seqLen, skip, i, sections[i], nextChars[i]);
      assert sections[i][j] == text[Pos(i, skip, j)];
    }
  }

  /**
   * `X` and `y` are the training tensors of buffer `text` over vocabulary
   * `v`: one row per window, `X[i, j, :]` the one-hot vector of the buffer
   * character at `Pos(i, skip, j)`, and `y[i, :]` that of the character
   * following window `i`.
   */
  ghost predicate IsEncoding(text: string, seqLen: nat, skip: nat, v: Vocabulary, X: array3<real>, y: array2<real>)
    requires skip > 0 && v.Valid()
    reads X, y
  {
    && X.Length0 == y.Length0 == WindowCount(|text|, seqLen, skip)
    && X.Length1 == seqLen && X.Length2 == y.Length1 == v.Size()
    && (forall i, j :: 0 <= i < X.Length0 && 0 <= j < X.Length1 ==>
         Pos(i, skip, j) < |text| && text[Pos(i, skip, j)] in v.char2id)
    && (forall i :: 0 <= i < y.Length0 ==>
         Pos(i, skip, seqLen) < |text| && text[Pos(i, skip, seqLen)] in v.char2id)
    && (forall i, j, k :: 0 <= i < X.Length0 && 0 <= j < X.Length1 && 0 <= k < X.Length2 ==>
         X[i, j, k] == OneHot(v.char2id[text[Pos(i, skip, j)]], v.Size())[k])
    && (forall i, k :: 0 <= i < y.Length0 && 0 <= k < y.Length1 ==>
         y[i, k] == OneHot(v.char2id[text[Pos(i, skip, seqLen)]], v.Size())[k])
  }

  /** Row `X[i, j, :]` as a vector. */
  ghost function RowX(X: array3<real>, i: nat, j: nat): (r: seq<real>)
    requires i < X.Length0 && j < X.Length1
    reads X
  {
    seq(X.Length2, k requires 0 <= k < X.Length2 reads X => X[i, j, k])
  }

  /** Row `y[i, :]` as a vector. */
  ghost function RowY(y: array2<real>, i: nat): (r: seq<real>)
    requires i < y.Length0
    reads y
  {
    seq(y.Length1, k requires 0 <= k < y.Length1 reads y => y[i, k])
  }

  /** A vector equal to the one-hot vector of a vocabulary character sums to 1 and decodes to it. */
  lemma RowDecodes(r: seq<real>, v: Vocabulary, c: char)
    requires v.Valid() && c in v.char2id && v.char2id[c] < v.Size() && r == OneHot(v.char2id[c], v.Size())
    ensures r != [] && Sum(r) == 1.0 && ArgMax(r) in v.id2char && v.id2char[ArgMax(r)] == c
  {
    OneHotSum(v.char2id[c], v.Size());
    DecodeOneHot(v, c);
  }

  /**
   * The training inputs decode back to the buffer: every row `X[i, j, :]`
   * sums to 1, and its `np.argmax` looked up in `id2char` is the buffer
   * character at `Pos(i, skip, j)`.
   */
  lemma InputsDecode(text: string, seqLen: nat, skip: nat, v: Vocabulary, X: array3<real>, y: array2<real>)
    requires skip > 0 && v.Valid() && IsEncoding(text, seqLen, skip, v, X, y)
    ensures forall i, j :: 0 <= i < X.Length0 && 0 <= j < X.Length1 ==>
      && RowX(X, i, j) != [] && Sum(RowX(X, i, j)) == 1.0
      && ArgMax(RowX(X, i, j)) in v.id2char && v.id2char[ArgMax(RowX(X, i, j))] == text[Pos(i, skip, j)]
  {
    forall i, j | 0 <= i < X.Length0 && 0 <= j < X.Length1
      ensures RowX(X, i, j) != [] && Sum(RowX(X, i, j)) == 1.0
      ensures ArgMax(RowX(X, i, j)) in v.id2char && v.id2char[ArgMax(RowX(X, i, j))] == text[Pos(i, skip, j)]
    {
      var c := text[Pos(i, skip, j)];
      assert RowX(X, i, j) == OneHot(v.char2id[c], v.Size());
      RowDecodes(RowX(X, i, j), v, c);
    }
  }

  /**
   * The training targets decode back to the buffer: every row `y[i, :]`
   * sums to 1, and its `np.argmax` looked up in `id2char` is the character
   * following window `i`.
   */
  lemma TargetsDecode(text: string, seqLen: nat, skip: nat, v: Vocabulary, X: array3<real>, y: array2<real>)
    requires skip > 0 && v.Valid() && IsEncoding(text, seqLen, skip, v, X, y)
    ensures forall i :: 0 <= i < y.Length0 ==>
      && RowY(y, i) != [] && Sum(RowY(y, i)) == 1.0
      && ArgMax(RowY(y, i)) in v.id2char && v.id2char[ArgMax(RowY(y, i))] == text[Pos(i, skip, seqLen)]
  {
    forall i | 0 <= i < y.Length0
      ensures RowY(y, i) != [] && Sum(RowY(y, i)) == 1.0
      ensures ArgMax(RowY(y, i)) in v.id2char && v.id2char[ArgMax(RowY(y, i))] == text[Pos(i, skip, seqLen)]
    {
      var c := text[Pos(i, skip, seqLen)];
      assert RowY(y, i) == OneHot(v.char2id[c], v.Size());
      RowDecodes(RowY(y, i), v, c);
    }
  }

  /**
   * The part of `read_data` after accumulation: returns `X_train`, `y_train`
   * and the vocabulary (whose maps are `char2id` and `id2char`) of a buffer.
   */
  method Vectorize(text: string, seqLen: nat, skip: nat) returns (X: array3<real>, y: array2<real>, v: Vocabulary)
    requires skip > 0
    ensures v == Build(text)
    ensures fresh(X) && fresh(y)
    ensures IsEncoding(text, seqLen, skip, v, X, y)
  {
    v := Build(text);
    var sections, nextChars := Segment(text, seqLen, skip);
    WindowsEncodable(text, seqLen, skip, sections, nextChars, v);
    WindowChars(text, seqLen, skip, sections, nextChars);
    X := Zeros3(|sections|, seqLen, v.Size());
    y := Zeros2(|sections|, v.Size());
    FillOneHot(X, y, sections, nextChars, v);
  }

  /**
   * `read_data` on a training file with these lines: the buffer is the
   * accumulated corpus items (returned as a ghost value), and the tensors
   * and vocabulary are those of `Vectorize` on it.
   */
  method ReadData(lines: seq<string>, linesToRead: nat, seqLen: nat, skip: nat)
    returns (X: array3<real>, y: array2<real>, v: Vocabulary, ghost text: string)
    requires skip > 0
    ensures text == Buffer(lines, linesToRead) && v == Build(text)
    ensures fresh(X) && fresh(y)
    ensures IsEncoding(text, seqLen, skip, v, X, y)
  {
    var buffer := Accumulate(Items(lines), linesToRead);
    X, y, v := Vectorize(buffer, seqLen, skip);
    text := buffer;
  }
}
