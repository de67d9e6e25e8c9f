/**
 * The generation pass at the end of a training epoch (doc_maker.py:159-177).
 * The network's `predict`, the temperature `sample` and `np.argmax` are
 * abstracted into an oracle that, given the step number (standing for the
 * random state) and the context tensor, returns an index.
 */
module Generator {
  import opened Wrappers
  import opened Vocab
  import opened Encoding

  /** The exceptions the pass can raise. */
  datatype GenError =
    | UnknownChar(position: nat, c: char)  // KeyError: `char2id[char]` for a seed character outside the vocabulary
    | SeedTooLong(position: nat)           // IndexError: `x[0, t, ...]` with `t >= MAX_SEQUENCE_LENGTH`
    | UnknownId(step: nat, id: nat)        // KeyError: `id2char[index]` for an index outside the vocabulary

  /** `model.predict` followed by `sample` and `np.argmax`: step and context to an index. */
  type Oracle = (nat, seq<seq<real>>) -> nat

  /** Seed position `t` can be encoded: its character has an id and it lies inside the window. */
  predicate Encodes(seed: string, v: Vocabulary, seqLen: nat, t: nat)
    requires t < |seed|
  {
    seed[t] in v.char2id && t < seqLen
  }

  /**
   * The exception the context loop raises from seed position `t` on, if any.
   * At one position the key lookup happens before the array index is
   * checked, so a missing character is reported first.
   */
  function SeedError(seed: string, v: Vocabulary, seqLen: nat, t: nat): (r: Option<GenError>)
    requires t <= |seed|
    ensures r.None? <==> forall i :: t <= i < |seed| ==> Encodes(seed, v, seqLen, i)
    ensures r.Some? ==> !r.value.UnknownId?
    ensures r.Some? && !r.value.UnknownId? ==>
      var p := r.value.position;
      && t <= p < |seed|
      && (forall i :: t <= i < p ==> Encodes(seed, v, seqLen, i))
      && r.value == if seed[p] !in v.char2id then UnknownChar(p, seed[p]) else SeedTooLong(p)
    decreases |seed| - t
  {
    if t == |seed| then None
    else if seed[t] !in v.char2id then
      assert !Encodes(seed, v, seqLen, t);
      Some(UnknownChar(t, seed[t]))
    else if t >= seqLen then
      assert !Encodes(seed, v, seqLen, t);
      Some(SeedTooLong(t))
    else SeedError(seed, v, seqLen, t + 1)
  }

  /** The all-zero vector of length `size`. */
  function Zeros(size: nat): seq<real> {
    seq(size, k => 0.0)
  }

  /** Every seed position encodes exactly when every seed character has an id and the seed fits the window. */
  lemma AllEncode(seed: string, v: Vocabulary, seqLen: nat)
    ensures (forall i :: 0 <= i < |seed| ==> Encodes(seed, v, seqLen, i)) <==>
      (forall c :: c in seed ==> c in v.char2id) && |seed| <= seqLen
  {
    if forall i :: 0 <= i < |seed| ==> Encodes(seed, v, seqLen, i) {
      if |seed| > 0 {
        assert Encodes(seed, v, seqLen, |seed| - 1);
      }
      forall c | c in seed ensures c in v.char2id {
        var i :| 0 <= i < |seed| && seed[i] == c;
        assert Encodes(seed, v, seqLen, i);
      }
    }
  }

  /**
   * The context tensor `x[0]` built from the seed: row `t` is the one-hot
   * vector of `seed[t]` for `t < |seed|` and all zeros beyond. It exists
   * exactly when every seed character has an id and the seed fits the window.
   */
  function Context(seed: string, v: Vocabulary, seqLen: nat): (r: Result<seq<seq<real>>, GenError>)
    requires v.Valid()
    ensures r.Ok? <==> (forall c :: c in seed ==> c in v.char2id) && |seed| <= seqLen
    ensures r.Err? ==> Some(r.error) == SeedError(seed, v, seqLen, 0)
  {
    AllEncode(seed, v, seqLen);
    match SeedError(seed, v, seqLen, 0)
    case Some(e) => Err(e)
    case None =>
      assert forall t :: 0 <= t < |seed| ==> seed[t] in v.char2id by {
        forall t | 0 <= t < |seed| ensures seed[t] in v.char2id {
          assert Encodes(seed, v, seqLen, t);
        }
      }
      Ok(seq(seqLen, t requires 0 <= t < seqLen =>
        if t < |seed| then OneHot(v.char2id[seed[t]], v.Size()) else Zeros(v.Size())))
  }

  /**
   * Decoding the context gives the seed back: each of its `seqLen` rows has
   * `char_size` entries, a row below `|seed|` sums to 1 and decodes through
   * `np.argmax` and `id2char` to the seed character, and a row beyond is all zeros.
   */
  lemma ContextDecodes(seed: string, v: Vocabulary, seqLen: nat)
    requires v.Valid() && Context(seed, v, seqLen).Ok?
    ensures var ctx := Context(seed, v, seqLen).value;
      && |ctx| == seqLen
      && (forall t :: 0 <= t < seqLen ==> |ctx[t]| == v.Size())
      && (forall t :: 0 <= t < |seed| ==>
            Sum(ctx[t]) == 1.0 && ctx[t] != [] && ArgMax(ctx[t]) in v.id2char && v.id2char[ArgMax(ctx[t])] == seed[t])
      && (forall t :: |seed| <= t < seqLen ==> ctx[t] == Zeros(v.Size()) && Sum(ctx[t]) == 0.0)
  {
    var ctx := Context(seed, v, seqLen).value;
    AllEncode(seed, v, seqLen);
    forall t | 0 <= t < seqLen ensures |ctx[t]| == v.Size() {
      if t < |seed| {
        assert seed[t] in seed;
        assert ctx[t] == OneHot(v.char2id[seed[t]], v.Size());
      } else {
        assert ctx[t] == Zeros(v.Size());
      }
    }
    forall t | 0 <= t < |seed|
      ensures Sum(ctx[t]) == 1.0 && ctx[t] != [] && ArgMax(ctx[t]) in v.id2char && v.id2char[ArgMax(ctx[t])] == seed[t]
    {
      assert seed[t] in seed;
      OneHotSum(v.char2id[seed[t]], v.Size());
      DecodeOneHot(v, seed[t]);
    }
    forall t | |seed| <= t < seqLen ensures ctx[t] == Zeros(v.Size()) && Sum(ctx[t]) == 0.0 {
      ZerosSum(v.Size());
    }
  }

  lemma {:induction false} ZerosSum(size: nat)
    ensures Sum(Zeros(size)) == 0.0
  {
    if size > 0 {
      assert Zeros(size)[..size - 1] == Zeros(size - 1);
      ZerosSum(size - 1);
    }
  }

  /** The characters drawn in steps `0 .. n - 1`, each decoded through `id2char`. */
  function Draws(ctx: seq<seq<real>>, v: Vocabulary, oracle: Oracle, n: nat): Result<string, GenError> {
    if n == 0 then Ok([])
    else match Draws(ctx, v, oracle, n - 1)
      case Err(e) => Err(e)
      case Ok(s) =>
        var id := oracle(n - 1, ctx);
        if id in v.id2char then Ok(s + [v.id2char[id]]) else Err(UnknownId(n - 1, id))
  }

  /** Once a step has failed, later steps report the same exception. */
  lemma {:induction false} DrawsErrStays(ctx: seq<seq<real>>, v: Vocabulary, oracle: Oracle, n: nat, m: nat)
    requires n <= m && Draws(ctx, v, oracle, n).Err?
    ensures Draws(ctx, v, oracle, m) == Draws(ctx, v, oracle, n)
    decreases m - n
  {
    if n < m {
      DrawsErrStays(ctx, v, oracle, n, m - 1);
    }
  }

  /** One generation pass: the seed followed by `steps` drawn characters. */
  function Generation(seed: string, v: Vocabulary, seqLen: nat, steps: nat, oracle: Oracle): Result<string, GenError>
    requires v.Valid()
  {
    if steps == 0 then Ok(seed)
    else match Context(seed, v, seqLen)
      case Err(e) => Err(e)
      case Ok(ctx) =>
        match Draws(ctx, v, oracle, steps)
        case Err(e) => Err(e)
        case Ok(d) => Ok(seed + d)
  }

  /** While the oracle stays below `char_size`, every step draws one vocabulary character. */
  lemma {:induction false} DrawsInRange(ctx: seq<seq<real>>, v: Vocabulary, oracle: Oracle, n: nat)
    requires v.Valid()
    requires forall k :: 0 <= k < n ==> oracle(k, ctx) < v.Size()
    ensures Draws(ctx, v, oracle, n).Ok?
    ensures var d := Draws(ctx, v, oracle, n).value;
      && |d| == n
      && forall k :: 0 <= k < n ==> oracle(k, ctx) in v.id2char && d[k] == v.id2char[oracle(k, ctx)] && d[k] in v.chars
  {
    if n > 0 {
      DrawsInRange(ctx, v, oracle, n - 1);
      assert oracle(n - 1, ctx) in v.id2char;
    }
  }

  /** A draw fails exactly when some step's index has no entry in `id2char`. */
  lemma {:induction false} DrawsFail(ctx: seq<seq<real>>, v: Vocabulary, oracle: Oracle, n: nat)
    requires v.Valid()
    ensures Draws(ctx, v, oracle, n).Err? <==> exists k :: 0 <= k < n && oracle(k, ctx) >= v.Size()
  {
    if n > 0 {
      DrawsFail(ctx, v, oracle, n - 1);
      if Draws(ctx, v, oracle, n - 1).Ok? && oracle(n - 1, ctx) < v.Size() {
        assert oracle(n - 1, ctx) in v.id2char;
        forall k | 0 <= k < n ensures oracle(k, ctx) < v.Size() {
          if k < n - 1 {
            assert !(oracle(k, ctx) >= v.Size());
          }
        }
      }
    }
  }

  /**
   * With a seed that encodes and an oracle below `char_size`, one pass
   * yields the seed followed by exactly `steps` characters of the
   * vocabulary; step `k` decodes the oracle's answer for step `k` on the
   * context of the seed, the same context at every step.
   */
  lemma GenerationOutput(seed: string, v: Vocabulary, seqLen: nat, steps: nat, oracle: Oracle)
    requires v.Valid() && Context(seed, v, seqLen).Ok?
    requires forall k :: 0 <= k < steps ==> oracle(k, Context(seed, v, seqLen).value) < v.Size()
    ensures Generation(seed, v, seqLen, steps, oracle).Ok?
    ensures var out := Generation(seed, v, seqLen, steps, oracle).value;
      var ctx := Context(seed, v, seqLen).value;
      && |out| == |seed| + steps
      && out[..|seed|] == seed
      && forall k :: 0 <= k < steps ==>
           oracle(k, ctx) in v.id2char && out[|seed| + k] == v.id2char[oracle(k, ctx)] && out[|seed| + k] in v.chars
  {
    var ctx := Context(seed, v, seqLen).value;
    DrawsInRange(ctx, v, oracle, steps);
    if steps > 0 {
      var out := Generation(seed, v, seqLen, steps, oracle).value;
      assert out == seed + Draws(ctx, v, oracle, steps).value;
    }
  }

  /**
   * A pass with at least one step fails exactly when the seed does not
   * encode, or some step's index is not below `char_size`.
   */
  lemma GenerationFails(seed: string, v: Vocabulary, seqLen: nat, steps: nat, oracle: Oracle)
    requires v.Valid()
    ensures Generation(seed, v, seqLen, steps, oracle).Err? <==>
      && steps > 0
      && (|| (exists c :: c in seed && c !in v.char2id)
          || |seed| > seqLen
          || exists k :: 0 <= k < steps && oracle(k, Context(seed, v, seqLen).value) >= v.Size())
  {
    if Context(seed, v, seqLen).Ok? {
      DrawsFail(Context(seed, v, seqLen).value, v, oracle, steps);
    }
  }

  /**
   * The context loop: into a zero-filled `1 x seqLen x char_size` array it
   * writes 1.0 at the id of each seed character, raising the first
   * exception the seed gives.
   */
  method BuildContext(seed: string, v: Vocabulary, seqLen: nat) returns (x: array3<real>, err: Option<GenError>)
    requires v.Valid()
    ensures fresh(x) && x.Length0 == 1 && x.Length1 == seqLen && x.Length2 == v.Size()
    ensures err == SeedError(seed, v, seqLen, 0)
    ensures err.None? ==> Context(seed, v, seqLen).Ok? && Snapshot(x) == Context(seed, v, seqLen).value
  {
    x := Zeros3(1, seqLen, v.Size());
    for t := 0 to |seed|
      invariant SeedError(seed, v, seqLen, 0) == SeedError(seed, v, seqLen, t)
      invariant forall a :: 0 <= a < t ==> seed[a] in v.char2id && a < seqLen
      invariant forall a, k :: 0 <= a < t && a < seqLen && 0 <= k < v.Size() ==>
        x[0, a, k] == OneHot(v.char2id[seed[a]], v.Size())[k]
      invariant forall a, k :: t <= a < seqLen && 0 <= k < v.Size() ==> x[0, a, k] == 0.0
    {
      var c := seed[t];
      if c !in v.char2id {
        err := Some(UnknownChar(t, c));
        return;
      }
      if t >= seqLen {
        err := Some(SeedTooLong(t));
        return;
      }
      x[0, t, v.char2id[c]] := 1.0;
      assert forall k :: 0 <= k < v.Size() ==> x[0, t, k] == OneHot(v.char2id[c], v.Size())[k];
    }
    err := None;
    ContextOfArray(seed, v, seqLen, x);
  }

  /** The context array as the value handed to the oracle. */
  function Snapshot(x: array3<real>): (ctx: seq<seq<real>>)
    requires x.Length0 == 1
    reads x
  {
    seq(x.Length1, t requires 0 <= t < x.Length1 reads x =>
      seq(x.Length2, k requires 0 <= k < x.Length2 reads x => x[0, t, k]))
  }

  lemma ContextOfArray(seed: string, v: Vocabulary, seqLen: nat, x: array3<real>)
    requires v.Valid() && SeedError(seed, v, seqLen, 0).None?
    requires x.Length0 == 1 && x.Length1 == seqLen && x.Length2 == v.Size()
    requires forall a, k :: 0 <= a < seqLen && 0 <= k < v.Size() ==>
      a < |seed| ==> seed[a] in v.char2id && x[0, a, k] == OneHot(v.char2id[seed[a]], v.Size())[k]
    requires forall a, k :: 0 <= a < seqLen && 0 <= k < v.Size() ==> a >= |seed| ==> x[0, a, k] == 0.0
    ensures Context(seed, v, seqLen).Ok? && Snapshot(x) == Context(seed, v, seqLen).value
  {
    AllEncode(seed, v, seqLen);
    var ctx := Context(seed, v, seqLen).value;
    var snap := Snapshot(x);
    forall t | 0 <= t < seqLen ensures snap[t] == ctx[t] {
      if t < |seed| {
        assert seed[t] in seed;
        assert ctx[t] == OneHot(v.char2id[seed[t]], v.Size());
      } else {
        assert ctx[t] == Zeros(v.Size());
      }
    }
  }

  /**
   * The generation pass: the generated text starts as the seed; each of
   * `steps` iterations rebuilds the context from the seed, asks the oracle
   * for an index and appends its `id2char` character.
   */
  method Generate(seed: string, v: Vocabulary, seqLen: nat, steps: nat, oracle: Oracle)
    returns (r: Result<string, GenError>)
    requires v.Valid()
    ensures r == Generation(seed, v, seqLen, steps, oracle)
  {
    var generated := seed;
    for i := 0 to steps
      invariant |generated| == |seed| + i && generated[..|seed|] == seed
      invariant i > 0 ==> Context(seed, v, seqLen).Ok?
      invariant i > 0 ==> Draws(Context(seed, v, seqLen).value, v, oracle, i) == Ok(generated[|seed|..])
    {
      var x, err := BuildContext(seed, v, seqLen);
      if err.Some? {
        return Err(err.value);
      }
      var ctx := Snapshot(x);
      var id := oracle(i, ctx);
      if id !in v.id2char {
        DrawsErrStays(ctx, v, oracle, i + 1, steps);
        return Err(UnknownId(i, id));
      }
      assert (generated + [v.id2char[id]])[|seed|..] == generated[|seed|..] + [v.id2char[id]];
      assert Draws(ctx, v, oracle, i) == Ok(generated[|seed|..]);
      generated := generated + [v.id2char[id]];
    }
    assert generated == seed + generated[|seed|..];
    if steps == 0 {
      assert generated == seed;
    } else {
      var ctx := Context(seed, v, seqLen).value;
      assert Draws(ctx, v, oracle, steps) == Ok(generated[|seed|..]);
      assert Generation(seed, v, seqLen, steps, oracle) == Ok(seed + generated[|seed|..]);
    }
    return Ok(generated);
  }
}
