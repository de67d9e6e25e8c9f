/**
 * The corpus reader: every line of the training file becomes the line with
 * surrounding whitespace removed and exactly one space appended.
 * The file is given as the sequence of its lines.
 */
module Corpus {

  /** The bytes Python 2's `str.strip()` removes: space, tab, LF, CR, VT, FF. */
  predicate IsSpace(c: char) {
    c == ' ' || c == '\t' || c == '\n' || c == '\r' || c == '\U{000B}' || c == '\U{000C}'
  }

  predicate AllSpace(s: string) {
    forall i :: 0 <= i < |s| ==> IsSpace(s[i])
  }

  /** Neither the first nor the last character is whitespace. */
  predicate NoEdgeSpace(s: string) {
    s == [] || (!IsSpace(s[0]) && !IsSpace(s[|s| - 1]))
  }

  /** `s` without its leading whitespace. */
  function TrimLeft(s: string): (r: string)
    ensures |r| <= |s| && r == s[|s| - |r|..]
    ensures AllSpace(s[..|s| - |r|])
    ensures r == [] || !IsSpace(r[0])
  {
    if s == [] || !IsSpace(s[0]) then s else TrimLeft(s[1..])
  }

  /** `s` without its trailing whitespace. */
  function TrimRight(s: string): (r: string)
    ensures |r| <= |s| && r == s[..|r|]
    ensures AllSpace(s[|r|..])
    ensures r == [] || !IsSpace(r[|r| - 1])
  {
    if s == [] || !IsSpace(s[|s| - 1]) then s else TrimRight(s[..|s| - 1])
  }

  /** Python's `line.strip()`: the line without leading and trailing whitespace. */
  function Strip(s: string): (r: string)
    ensures |r| <= |s| && NoEdgeSpace(r)
  {
    TrimRight(TrimLeft(s))
  }

  /** A string is its leading whitespace followed by `TrimLeft` of it. */
  lemma TrimLeftSplits(s: string) returns (pre: string)
    ensures AllSpace(pre) && s == pre + TrimLeft(s)
  {
    var t := TrimLeft(s);
    var k := |s| - |t|;
    pre := s[..k];
    assert t == s[k..];
    assert s == s[..k] + s[k..];
  }

  /** A string is `TrimRight` of it followed by its trailing whitespace. */
  lemma TrimRightSplits(s: string) returns (post: string)
    ensures AllSpace(post) && s == TrimRight(s) + post
  {
    var t := TrimRight(s);
    post := s[|t|..];
    assert t == s[..|t|];
    assert s == s[..|t|] + s[|t|..];
  }

  /** A line is its leading whitespace, its stripped text and its trailing whitespace. */
  lemma StripDecomposes(s: string) returns (pre: string, post: string)
    ensures AllSpace(pre) && AllSpace(post)
    ensures s == pre + Strip(s) + post
  {
    pre := TrimLeftSplits(s);
    post := TrimRightSplits(TrimLeft(s));
    AppendAssociates(pre, Strip(s), post);
  }

  /** String concatenation is associative. */
  lemma AppendAssociates(a: string, b: string, c: string)
    ensures a + (b + c) == a + b + c
  {
  }

  /**
   * One item of `Corpus.__iter__`: the stripped line followed by one space,
   * so a text without whitespace at its ends, then exactly one space.
   */
  function Item(line: string): (r: string)
    ensures |r| == |Strip(line)| + 1 <= |line| + 1
    ensures r[|r| - 1] == ' ' && NoEdgeSpace(r[..|r| - 1])
  {
    var r := Strip(line) + " ";
    assert r[..|r| - 1] == Strip(line);
    r
  }

  /**
   * `item` is what `Corpus.__iter__` yields for `line`: the stripped line and
   * then exactly one space, the character before that space (if any) not
   * whitespace.
   */
  predicate IsItemOf(line: string, item: string) {
    && |item| >= 1 && item[..|item| - 1] == Strip(line) && item[|item| - 1] == ' '
    && (|item| == 1 || !IsSpace(item[|item| - 2]))
  }

  /** What iterating a `Corpus` over a file with these lines yields: one item per line, in file order. */
  function Items(lines: seq<string>): (r: seq<string>)
    ensures |r| == |lines|
    ensures forall i :: 0 <= i < |r| ==> IsItemOf(lines[i], r[i])
  {
    var r := seq(|lines|, i requires 0 <= i < |lines| => Item(lines[i]));
    forall i | 0 <= i < |r|
      ensures IsItemOf(lines[i], r[i])
    {
      ItemEndsInOneSpace(lines[i]);
    }
    r
  }

  /** Concatenation of a sequence of strings. */
  function Concat(items: seq<string>): string {
    if items == [] then [] else Concat(items[..|items| - 1]) + items[|items| - 1]
  }

  /** Every item ends in exactly one space, preceded by the non-space end of the line (if any). */
  lemma ItemEndsInOneSpace(line: string)
    ensures |Item(line)| >= 1 && Item(line)[|Item(line)| - 1] == ' '
    ensures |Item(line)| == 1 || !IsSpace(Item(line)[|Item(line)| - 2])
    ensures Item(line)[..|Item(line)| - 1] == Strip(line)
  {
    var s := Strip(line);
    assert Item(line) == s + " ";
    if |s| > 0 {
      assert Item(line)[|Item(line)| - 2] == s[|s| - 1];
    }
  }

  /**
   * `Strip` is determined by its decomposition: whenever a line is a run of
   * whitespace, a middle with no whitespace at its ends, and another run of
   * whitespace, the middle is what `Strip` returns.
   */
  lemma {:induction false} StripIsTheMiddle(pre: string, mid: string, post: string)
    requires AllSpace(pre) && AllSpace(post) && NoEdgeSpace(mid)
    ensures Strip(pre + mid + post) == mid
  {
    if mid == [] {
      assert pre + mid + post == (pre + post) + [];
      TrimLeftOfSpaces(pre + post, []);
    } else {
      assert pre + mid + post == pre + (mid + post);
      TrimLeftOfSpaces(pre, mid + post);
      TrimRightOfSpaces(mid, post);
    }
  }

  lemma {:induction false} TrimLeftOfSpaces(pre: string, rest: string)
    requires AllSpace(pre) && (rest == [] || !IsSpace(rest[0]))
    ensures TrimLeft(pre + rest) == rest
  {
    if pre != [] {
      assert (pre + rest)[1..] == pre[1..] + rest;
      TrimLeftOfSpaces(pre[1..], rest);
    } else {
      assert pre + rest == rest;
    }
  }

  lemma {:induction false} TrimRightOfSpaces(rest: string, post: string)
    requires AllSpace(post) && (rest == [] || !IsSpace(rest[|rest| - 1]))
    ensures TrimRight(rest + post) == rest
  {
    if post != [] {
      assert (rest + post)[..|rest + post| - 1] == rest + post[..|post| - 1];
      TrimRightOfSpaces(rest, post[..|post| - 1]);
    } else {
      assert rest + post == rest;
    }
  }

  /** Concatenating a prefix of the items and the next item gives the next prefix. */
  lemma ConcatSnoc(items: seq<string>, n: nat)
    requires n < |items|
    ensures Concat(items[..n + 1]) == Concat(items[..n]) + items[n]
  {
    assert items[..n + 1][..n] == items[..n];
  }

  /** The length of the concatenated items is the sum of the stripped lengths plus one space per line. */
  function StrippedLength(lines: seq<string>): nat {
    if lines == [] then 0 else StrippedLength(lines[..|lines| - 1]) + |Strip(lines[|lines| - 1])| + 1
  }

  lemma {:induction false} ConcatItemsLength(lines: seq<string>)
    ensures |Concat(Items(lines))| == StrippedLength(lines)
    ensures |Concat(Items(lines))| >= |lines|
  {
    if lines != [] {
      var init := lines[..|lines| - 1];
      assert Items(lines)[..|lines| - 1] == Items(init);
      ConcatItemsLength(init);
    }
  }

  /** The first `n` items of a file concatenate to the stripped lengths plus one space per line. */
  lemma PrefixLength(lines: seq<string>, n: nat)
    requires n <= |lines|
    ensures |Concat(Items(lines)[..n])| == StrippedLength(lines[..n])
  {
    assert Items(lines)[..n] == Items(lines[..n]);
    ConcatItemsLength(lines[..n]);
  }

  /** A non-empty run of items ends in the space of its last item. */
  lemma PrefixEndsInSpace(lines: seq<string>, n: nat)
    requires 0 < n <= |lines|
    ensures var b := Concat(Items(lines)[..n]); |b| > 0 && b[|b| - 1] == ' '
  {
    ConcatSnoc(Items(lines), n - 1);
    ItemEndsInOneSpace(lines[n - 1]);
  }
}
