/**
 * One-hot encoding of the training windows (doc_maker.py:96-102) and its
 * decoding by the index of the largest entry (`np.argmax`, doc_maker.py:172).
 * Entries are the float64 values 0.0 and 1.0 that numpy stores, modelled as reals.
 */
module Encoding {
  import opened Vocab

  /** The vector of length `size` with 1.0 at `id` and 0.0 elsewhere. */
  function OneHot(id: nat, size: nat): (r: seq<real>)
    requires id < size
  {
    seq(size, v requires 0 <= v < size => if v == id then 1.0 else 0.0)
  }

  /** Sum of the entries of a vector (numpy's `sum`). */
  function Sum(r: seq<real>): real {
    if r == [] then 0.0 else Sum(r[..|r| - 1]) + r[|r| - 1]
  }

  /** `np.argmax`: the first index holding the largest entry. */
  function ArgMax(r: seq<real>): (k: nat)
    requires r != []
    ensures k < |r|
    ensures forall i :: 0 <= i < |r| ==> r[i] <= r[k]
    ensures forall i :: 0 <= i < k ==> r[i] < r[k]
  {
    if |r| == 1 then 0
    else
      var k := ArgMax(r[..|r| - 1]);
      if r[|r| - 1] > r[k] then |r| - 1 else k
  }

  /** A one-hot vector sums to 1, and 1.0 stands at exactly one index: its id. */
  lemma {:induction false} OneHotSum(id: nat, size: nat)
    requires id < size
    ensures Sum(OneHot(id, size)) == 1.0
    ensures (set v | 0 <= v < size && OneHot(id, size)[v] == 1.0) == {id}
  {
    SumPrefix(id, size, size);
    assert OneHot(id, size)[..size] == OneHot(id, size);
  }

  lemma {:induction false} SumPrefix(id: nat, size: nat, n: nat)
    requires id < size && n <= size
    ensures Sum(OneHot(id, size)[..n]) == if n > id then 1.0 else 0.0
  {
    var r := OneHot(id, size);
    if n > 0 {
      assert r[..n][..n - 1] == r[..n - 1];
      SumPrefix(id, size, n - 1);
    }
  }

  /** `np.argmax` of a one-hot vector is its id. */
  lemma ArgMaxOneHot(id: nat, size: nat)
    requires id < size
    ensures ArgMax(OneHot(id, size)) == id
  {
    var k := ArgMax(OneHot(id, size));
    assert OneHot(id, size)[id] == 1.0;
  }

  /**
   * Decoding the one-hot encoding of a vocabulary character by its argmax
   * and `id2char` gives the character back.
   */
  lemma DecodeOneHot(v: Vocabulary, c: char)
    requires v.Valid() && c in v.char2id
    ensures v.char2id[c] < v.Size()
    ensures v.char2id[c] in v.id2char
    ensures v.id2char[ArgMax(OneHot(v.char2id[c], v.Size()))] == c
  {
    var i :| 0 <= i < |v.chars| && v.chars[i] == c;
    ArgMaxOneHot(v.char2id[c], v.Size());
  }

  /** `np.zeros((n0, n1, n2))`. */
  method Zeros3(n0: nat, n1: nat, n2: nat) returns (X: array3<real>)
    ensures fresh(X) && X.Length0 == n0 && X.Length1 == n1 && X.Length2 == n2
    ensures forall i, j, k :: 0 <= i < n0 && 0 <= j < n1 && 0 <= k < n2 ==> X[i, j, k] == 0.0
  {
    X := new real[n0, n1, n2]((i, j, k) => 0.0);
  }

  /** `np.zeros((n0, n1))`. */
  method Zeros2(n0: nat, n1: nat) returns (y: array2<real>)
    ensures fresh(y) && y.Length0 == n0 && y.Length1 == n1
    ensures forall i, k :: 0 <= i < n0 && 0 <= k < n1 ==> y[i, k] == 0.0
  {
    y := new real[n0, n1]((i, k) => 0.0);
  }

  /** Every character of every section and every target has an id. */
  predicate Encodable(v: Vocabulary, sections: seq<string>, nextChars: seq<char>) {
    && (forall i, j :: 0 <= i < |sections| && 0 <= j < |sections[i]| ==> sections[i][j] in v.char2id)
    && (forall i :: 0 <= i < |nextChars| ==> nextChars[i] in v.char2id)
  }

  /**
   * The vectorisation loops: into zero-filled `X` (windows x positions x
   * vocabulary) and `y` (windows x vocabulary) they write 1.0 at the id of
   * each section character and of each target. Afterwards every
   * `X[i, j, :]` and every `y[i, :]` is the one-hot vector of its character.
   */
  method FillOneHot(X: array3<real>, y: array2<real>, sections: seq<string>, nextChars: seq<char>, v: Vocabulary)
    requires v.Valid() && Encodable(v, sections, nextChars)
    requires X.Length0 == |sections| == |nextChars| == y.Length0
    requires forall i :: 0 <= i < |sections| ==> |sections[i]| == X.Length1
    requires X.Length2 == y.Length1 == v.Size()
    requires forall i, j, k :: 0 <= i < X.Length0 && 0 <= j < X.Length1 && 0 <= k < X.Length2 ==> X[i, j, k] == 0.0
    requires forall i, k :: 0 <= i < y.Length0 && 0 <= k < y.Length1 ==> y[i, k] == 0.0
    modifies X, y
    ensures forall i, j, k :: 0 <= i < X.Length0 && 0 <= j < X.Length1 && 0 <= k < X.Length2 ==>
      X[i, j, k] == OneHot(v.char2id[sections[i][j]], v.Size())[k]
    ensures forall i, k :: 0 <= i < y.Length0 && 0 <= k < y.Length1 ==>
      y[i, k] == OneHot(v.char2id[nextChars[i]], v.Size())[k]
  {
    for i := 0 to |sections|
      invariant forall a, b, k :: 0 <= a < X.Length0 && 0 <= b < X.Length1 && 0 <= k < X.Length2 ==>
        X[a, b, k] == if a < i then OneHot(v.char2id[sections[a][b]], v.Size())[k] else 0.0
      invariant forall a, k :: 0 <= a < y.Length0 && 0 <= k < y.Length1 ==>
        y[a, k] == if a < i then OneHot(v.char2id[nextChars[a]], v.Size())[k] else 0.0
    {
      for j := 0 to |sections[i]|
        invariant forall a, b, k :: 0 <= a < X.Length0 && 0 <= b < X.Length1 && 0 <= k < X.Length2 ==>
          X[a, b, k] == if a < i || (a == i && b < j) then OneHot(v.char2id[sections[a][b]], v.Size())[k] else 0.0
        invariant forall a, k :: 0 <= a < y.Length0 && 0 <= k < y.Length1 ==>
          y[a, k] == if a < i then OneHot(v.char2id[nextChars[a]], v.Size())[k] else 0.0
      {
        X[i, j, v.char2id[sections[i][j]]] := 1.0;
      }
      y[i, v.char2id[nextChars[i]]] := 1.0;
    }
  }
}
