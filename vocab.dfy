/**
 * The character vocabulary of `read_data`: the sorted list of the distinct
 * characters of the text buffer and the two dictionaries `char2id` and
 * `id2char` built from its enumeration.
 */
module Vocab {

  /** Strictly increasing: sorted, and each character at most once. */
  predicate Increasing(s: seq<char>) {
    forall i, j :: 0 <= i < j < |s| ==> s[i] < s[j]
  }

  /** Inserts `c` at its place in a strictly increasing sequence, unless it is there already. */
  function Insert(s: seq<char>, c: char): (r: seq<char>)
    requires Increasing(s)
    ensures Increasing(r)
    ensures forall x :: x in r <==> x in s || x == c
  {
    if s == [] then [c]
    else if c < s[0] then [c] + s
    else if c == s[0] then s
    else
      var t := Insert(s[1..], c);
      assert forall x :: x in t ==> s[0] < x;
      [s[0]] + t
  }

  /** Python's `sorted(list(set(text)))`. */
  function SortedChars(text: string): (r: seq<char>)
    ensures Increasing(r)
    ensures forall c :: c in r <==> c in text
  {
    if text == [] then []
    else
      var init := SortedChars(text[..|text| - 1]);
      assert text == text[..|text| - 1] + [text[|text| - 1]];
      Insert(init, text[|text| - 1])
  }

  /** A strictly increasing sequence is determined by its set of elements. */
  lemma {:induction false} IncreasingIsUnique(a: seq<char>, b: seq<char>)
    requires Increasing(a) && Increasing(b)
    requires forall x :: x in a <==> x in b
    ensures a == b
  {
    if a != [] {
      assert a[0] in b;
    }
    if b != [] {
      assert b[0] in a;
    }
    if a != [] {
      assert a[0] == b[0];
      forall x ensures x in a[1..] <==> x in b[1..] {
        if x in a[1..] {
          assert x in b && x != b[0];
        }
        if x in b[1..] {
          assert x in a && x != a[0];
        }
      }
      IncreasingIsUnique(a[1..], b[1..]);
      assert a == [a[0]] + a[1..] && b == [b[0]] + b[1..];
    }
  }

  /** `SortedChars(text)` is the only sorted, duplicate-free listing of the characters of `text`. */
  lemma SortedCharsUnique(text: string, s: seq<char>)
    requires Increasing(s) && forall c :: c in s <==> c in text
    ensures s == SortedChars(text)
  {
    IncreasingIsUnique(s, SortedChars(text));
  }

  /** The vocabulary: `chars`, `char2id` and `id2char` of `read_data`. */
  datatype Vocabulary = Vocabulary(chars: seq<char>, char2id: map<char, nat>, id2char: map<nat, char>)
  {
    /** `char_size`. */
    function Size(): nat {
      |chars|
    }

    /** The maps are the enumeration of a strictly increasing `chars`. */
    ghost predicate Valid() {
      && Increasing(chars)
      && (forall i :: 0 <= i < |chars| ==> chars[i] in char2id && char2id[chars[i]] == i)
      && (forall c :: c in char2id ==> char2id[c] < |chars| && chars[char2id[c]] == c)
      && (forall i :: 0 <= i < |chars| <==> i in id2char)
      && (forall i :: i in id2char ==> i < |chars| && id2char[i] == chars[i])
    }
  }

  /**
   * `dict((c,i) for i,c in enumerate(chars))`: the entries are added in
   * order, so each character maps to the last index where it occurs.
   */
  function CharToId(chars: seq<char>): (m: map<char, nat>)
    ensures forall i :: 0 <= i < |chars| ==> chars[i] in m
    ensures forall c :: c in m ==> m[c] < |chars| && chars[m[c]] == c
    ensures forall c, j :: c in m && m[c] < j < |chars| ==> chars[j] != c
  {
    if chars == [] then map[]
    else
      var m := CharToId(chars[..|chars| - 1]);
      m[chars[|chars| - 1] := |chars| - 1]
  }

  /** `dict((i,c) for i,c in enumerate(chars))`. */
  function IdToChar(chars: seq<char>): (m: map<nat, char>)
    ensures forall i: nat :: i in m <==> i < |chars|
    ensures forall i :: i in m ==> m[i] == chars[i]
  {
    if chars == [] then map[]
    else IdToChar(chars[..|chars| - 1])[|chars| - 1 := chars[|chars| - 1]]
  }

  /** The enumeration maps of a strictly increasing sequence form a valid vocabulary. */
  lemma EnumerationValid(chars: seq<char>)
    requires Increasing(chars)
    ensures Vocabulary(chars, CharToId(chars), IdToChar(chars)).Valid()
  {
    var m := CharToId(chars);
    forall i | 0 <= i < |chars| ensures m[chars[i]] == i {
      var j := m[chars[i]];
      assert chars[j] == chars[i];
    }
  }

  /** Builds the vocabulary of a text buffer (doc_maker.py:78-83). */
  function Build(text: string): (v: Vocabulary)
    ensures v.Valid()
    ensures forall c :: c in v.chars <==> c in text
    ensures forall c :: c in v.char2id <==> c in text
    ensures forall i :: 0 <= i < |text| ==> text[i] in v.char2id
  {
    var chars := SortedChars(text);
    EnumerationValid(chars);
    var v := Vocabulary(chars, CharToId(chars), IdToChar(chars));
    assert forall c :: c in v.char2id ==> c in text by {
      forall c | c in v.char2id ensures c in text {
        assert chars[v.char2id[c]] == c;
      }
    }
    assert forall c :: c in text ==> c in v.char2id by {
      forall c | c in text ensures c in v.char2id {
        var i :| 0 <= i < |chars| && chars[i] == c;
      }
    }
    assert forall i :: 0 <= i < |text| ==> text[i] in v.char2id by {
      forall i | 0 <= i < |text| ensures text[i] in v.char2id {
        assert text[i] in text;
      }
    }
    v
  }

  /**
   * `char2id` and `id2char` are inverse to each other: every character of the
   * buffer has an id below `char_size` that decodes back to it, every id below
   * `char_size` decodes to a character whose id it is, and the key sets are
   * exactly the characters of the buffer and the ids `0 .. char_size - 1`.
   */
  lemma RoundTrip(text: string)
    ensures var v := Build(text);
      && (forall c :: c in v.char2id <==> c in text)
      && (forall i: nat :: i in v.id2char <==> i < v.Size())
      && (forall c :: c in text ==> v.char2id[c] < v.Size() && v.char2id[c] in v.id2char
                                     && v.id2char[v.char2id[c]] == c)
      && (forall i :: i in v.id2char ==> v.id2char[i] in v.char2id && v.char2id[v.id2char[i]] == i)
  {
    var v := Build(text);
    forall c | c in text
      ensures c in v.char2id && v.char2id[c] < v.Size() && v.char2id[c] in v.id2char
      ensures v.id2char[v.char2id[c]] == c
    {
      assert c in v.chars;
      var i :| 0 <= i < |v.chars| && v.chars[i] == c;
    }
  }

  /** A character of a strictly increasing sequence occurs at exactly one index. */
  lemma IncreasingOccursOnce(s: seq<char>, c: char)
    requires Increasing(s) && c in s
    ensures |set i | 0 <= i < |s| && s[i] == c| == 1
  {
    var i :| 0 <= i < |s| && s[i] == c;
    assert (set j | 0 <= j < |s| && s[j] == c) == {i};
  }

  /** Every character of the buffer occurs in `chars` exactly once. */
  lemma OccursOnce(text: string, c: char)
    requires c in text
    ensures var chars := Build(text).chars;
      |set i | 0 <= i < |chars| && chars[i] == c| == 1
  {
    var v := Build(text);
    assert Increasing(v.chars) && c in v.chars;
    IncreasingOccursOnce(v.chars, c);
  }
}
