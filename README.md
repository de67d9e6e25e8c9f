# doc_maker: data preparation and text generation, modelled in Dafny

`doc_maker.py` trains a character-level LSTM and generates text from it.
This project models the deterministic parts of that script:

- **Corpus** (`corpus.dfy`). `Corpus.__iter__` yields each line of the
  training file with its surrounding ASCII whitespace removed (Python 2's
  `str.strip()`) and one space appended.
- **read_data, accumulation** (`vectorizer.dfy`). The loop concatenates the
  items into one text buffer. The item is appended before the cap
  `c > LINES_TO_READ` is tested, so `LINES_TO_READ + 2` lines are read, or the
  whole file when it is shorter.
- **read_data, vocabulary** (`vocab.dfy`). `chars` is the sorted list of the
  distinct buffer characters; `char2id` and `id2char` are the two dictionaries
  built from its enumeration.
- **read_data, windows** (`windows.dfy`). A window of `MAX_SEQUENCE_LENGTH`
  characters starts at every multiple of `SKIP` strictly below
  `len(X_data) - MAX_SEQUENCE_LENGTH`. Each window is paired with the character
  after it.
- **read_data, vectorisation** (`encoding.dfy`, `vectorizer.dfy`). The arrays
  `X_train` (windows x positions x vocabulary) and `y_train` (windows x
  vocabulary) start as zeros. Each position gets 1.0 at the id of its
  character.
- **Generation pass** (`generator.dfy`). Starting from `starting_text`, each
  step re-encodes the starting text into the `1 x MAX_SEQUENCE_LENGTH x
  char_size` context array `x`. It then obtains an index from the network,
  decodes it through `id2char` and appends the character. As written, the
  context is always the starting text, never the text generated so far. This
  departs from the intent stated in the comment at doc_maker.py:168 (predict
  from the previously generated text); the model keeps the code's behaviour.
- **Script** (`script.dfy`, `config.dfy`). `read_data()` followed by one
  generation pass, with the script's constants.

The arrays are Dafny arrays of reals that hold 0.0 and 1.0. The source's
exceptions are results, not preconditions:

- `UnknownChar`: a `KeyError` from `char2id` for a seed character missing from
  the vocabulary.
- `SeedTooLong`: an `IndexError` for a seed longer than the window. At a given
  position the key lookup happens first, so a missing character is reported
  before the index error.
- `UnknownId`: a `KeyError` from `id2char`.

`model.predict`, `sample` and `np.argmax` are replaced by an oracle. It is a
function from the step number and the context to an index. In the generation
pass `np.argmax` is therefore inside the oracle; `Encoding.ArgMax` gives
`np.argmax` its meaning so that the one-hot rows of `X_train`, `y_train` and
the context can be shown to decode back to their characters.

Two consequences of the code's control flow, which the model keeps:

- The code reads `LINES_TO_READ + 2` lines, not the `LINES_TO_READ + 1` that
  a reading of the cap as "stop after line `LINES_TO_READ`" would expect.
- The code yields `ceil((n - L) / S)` windows for a buffer of `n > L`
  characters, which equals `floor((n - L - 1) / S) + 1`. A count written
  as `floor((n - L) / S) + 1`, which treats `n - L` as a valid start, gives
  one window too many whenever `S` divides `n - L`. For example, a
  720-character buffer gives 335 windows, not 336
  (`Windows.AbcCorpusWindowCount`).

## Model

| member | source | states |
|---|---|---|
| `Corpus.TrimLeft` | doc_maker.py:38 | the result is a suffix of the line; what was removed is all whitespace; the result does not start with whitespace |
| `Corpus.TrimRight` | doc_maker.py:38 | the result is a prefix of the line; what was removed is all whitespace; the result does not end with whitespace |
| `Corpus.Strip` | doc_maker.py:38 | `line.strip()` is no longer than the line and has no whitespace at either end |
| `Corpus.StripDecomposes` | doc_maker.py:38 | every line is a run of whitespace, then its stripped text, then a run of whitespace |
| `Corpus.StripIsTheMiddle` | doc_maker.py:38 | conversely, for any line written as whitespace + a middle without edge whitespace + whitespace, `strip()` returns exactly that middle |
| `Corpus.Item` | doc_maker.py:38 | `line.strip()+' '` is one longer than the stripped line, ends in a space, and the text before that space has no whitespace at either end |
| `Corpus.Items` | doc_maker.py:36-38 | iterating a `Corpus` yields one item per line of the file, in file order: item `i` is `lines[i].strip()` followed by exactly one space, and the character before that space (if any) is not whitespace |
| `Corpus.ItemEndsInOneSpace` | doc_maker.py:38 | an item is the stripped line plus a final space, and the character before that space (if any) is not whitespace |
| `Corpus.ConcatItemsLength` | doc_maker.py:65-66 | concatenating the items of a file gives the sum of the stripped line lengths plus one character per line |
| `Corpus.PrefixLength` | doc_maker.py:65-66 | the same length formula for the first `n` items |
| `Corpus.PrefixEndsInSpace` | doc_maker.py:65-66 | a buffer of at least one item ends in a space |
| `Vectorizer.Accumulate` | doc_maker.py:64-68 | the loop over the corpus items builds the concatenation of the first `LINES_TO_READ + 2` items, or of all items when there are fewer |
| `Vectorizer.BufferLength` | doc_maker.py:64-68 | the buffer length is the stripped lengths of the admitted lines plus one space each; a non-empty file gives a buffer ending in a space |
| `Vocab.Insert` | doc_maker.py:78 | inserting into a strictly increasing sequence keeps it strictly increasing and adds exactly that character |
| `Vocab.SortedChars` | doc_maker.py:78 | `sorted(list(set(X_data)))` is strictly increasing and holds exactly the buffer's characters |
| `Vocab.IncreasingIsUnique` | doc_maker.py:78 | two strictly increasing sequences with the same elements are equal |
| `Vocab.SortedCharsUnique` | doc_maker.py:78 | any sorted, duplicate-free listing of the buffer's characters is `chars` |
| `Vocab.CharToId` | doc_maker.py:81 | `dict((c,i) for i,c in enumerate(chars))` has every listed character as a key; each maps to an index where it occurs, and to the last such index |
| `Vocab.IdToChar` | doc_maker.py:83 | `dict((i,c) for i,c in enumerate(chars))` has exactly the keys `0 .. len(chars) - 1`, and key `i` maps to `chars[i]` |
| `Vocab.EnumerationValid` | doc_maker.py:81-83 | for a strictly increasing `chars` the two dictionaries are mutually consistent with it (`Valid`) |
| `Vocab.Build` | doc_maker.py:78-83 | the vocabulary of a buffer is valid; its characters and `char2id` keys are exactly the buffer's characters; every buffer position has an id |
| `Vocab.RoundTrip` | doc_maker.py:78-83 | `char2id` and `id2char` are inverse bijections between the buffer's characters and `0 .. char_size - 1` |
| `Vocab.OccursOnce` | doc_maker.py:78 | every buffer character occurs in `chars` exactly once |
| `Windows.WindowStarts` | doc_maker.py:90 | window `k` exists exactly when `k * SKIP < len(X_data) - MAX_SEQUENCE_LENGTH`, the bound of `range` |
| `Windows.WindowCountClosedForm` | doc_maker.py:90 | the window count is `(n - L - 1) / S + 1` for `n > L` and 0 otherwise; it is the least `w` with `w * S >= n - L` |
| `Windows.AbcCorpusWindowCount` | doc_maker.py:90 | a 720-character buffer with window 50 and stride 2 gives 335 windows |
| `Windows.SegmentStep` | doc_maker.py:90-92 | appending the next slice and its following character keeps the sections equal to the windows of the buffer |
| `Windows.Segment` | doc_maker.py:87-92 | `sections` and `next_chars` have the window count as length; section `k` is the full-length slice at `k * SKIP` and `next_chars[k]` is the buffer character after it |
| `Encoding.ArgMax` | doc_maker.py:172 | `np.argmax` returns an index of the vector holding a maximal entry, with every earlier entry strictly smaller |
| `Encoding.OneHotSum` | doc_maker.py:100 | a one-hot vector sums to 1 and holds 1.0 at its id only |
| `Encoding.ArgMaxOneHot` | doc_maker.py:172 | `np.argmax` of a one-hot vector is its id |
| `Encoding.DecodeOneHot` | doc_maker.py:172 | for a vocabulary character, `id2char[argmax(one_hot(char2id[c]))]` is `c` |
| `Encoding.Zeros3` | doc_maker.py:96 | `np.zeros` of three dimensions: a fresh array with those dimensions, all 0.0 |
| `Encoding.Zeros2` | doc_maker.py:97 | `np.zeros` of two dimensions: a fresh array with those dimensions, all 0.0 |
| `Encoding.FillOneHot` | doc_maker.py:98-102 | after the loops, every `X_train[i, j, :]` is the one-hot vector of `sections[i][j]` and every `y_train[i, :]` that of `next_chars[i]` |
| `Vectorizer.WindowChars` | doc_maker.py:90-92 | for any segmentation of the buffer, there is one target per section, every section has `MAX_SEQUENCE_LENGTH` characters, position `j` of section `i` is buffer character `i * SKIP + j`, and `next_chars[i]` is buffer character `i * SKIP + MAX_SEQUENCE_LENGTH` |
| `Vectorizer.WindowsEncodable` | doc_maker.py:98-102 | every section character and every target has an id, so no lookup in `char2id` fails |
| `Vectorizer.InputsDecode` | doc_maker.py:98-100 | every row `X_train[i, j, :]` sums to 1, and `id2char` of its argmax is buffer character `i * SKIP + j` |
| `Vectorizer.TargetsDecode` | doc_maker.py:102 | every row `y_train[i, :]` sums to 1, and `id2char` of its argmax is the buffer character after window `i` |
| `Vectorizer.Vectorize` | doc_maker.py:78-102 | from a buffer, returns its vocabulary and fresh arrays with one row per window, each `X_train`/`y_train` row the one-hot vector of its buffer character (`IsEncoding`) |
| `Vectorizer.ReadData` | doc_maker.py:60-107 | `read_data` on a file's lines: the buffer is the accumulated items, and the arrays and dictionaries are its vocabulary and encoding |
| `Generator.SeedError` | doc_maker.py:166-167 | the context loop fails exactly when some seed position does not encode; it reports the first such position, as `KeyError` when the character has no id and otherwise as `IndexError` |
| `Generator.AllEncode` | doc_maker.py:166-167 | all seed positions encode exactly when every seed character has an id and the seed fits the window |
| `Generator.Context` | doc_maker.py:165-167 | the context exists exactly when every seed character has an id and the seed fits the window; otherwise its error is the context loop's first exception |
| `Generator.ContextDecodes` | doc_maker.py:165-167 | the context has `MAX_SEQUENCE_LENGTH` rows of `char_size` entries; row `t < len(seed)` sums to 1 and decodes to `seed[t]`; later rows are all zeros (as `np.zeros` leaves them) |
| `Generator.ZerosSum` | doc_maker.py:165 | an all-zero row sums to 0 |
| `Generator.BuildContext` | doc_maker.py:165-169 | the loop over the seed reports exactly `SeedError`; on success the array handed to `predict` holds exactly the context `Context(seed)` |
| `Generator.ContextOfArray` | doc_maker.py:165-167 | an array holding one-hot seed rows and zero rows beyond is the context |
| `Generator.DrawsErrStays` | doc_maker.py:163-174 | once a step raises, later step counts report the same exception |
| `Generator.DrawsInRange` | doc_maker.py:169-174 | while every index is below `char_size`, `n` steps draw `n` vocabulary characters, the `k`-th being `id2char` of step `k`'s index |
| `Generator.DrawsFail` | doc_maker.py:172 | the steps fail exactly when some step's index is not below `char_size` |
| `Generator.GenerationOutput` | doc_maker.py:159-174 | with an encodable seed and indices below `char_size`, the generated text is the seed followed by exactly `steps` vocabulary characters, each decoded from its step on the seed's context |
| `Generator.GenerationFails` | doc_maker.py:159-174 | a pass with at least one step fails exactly when a seed character has no id, or the seed is longer than the window, or some index is not below `char_size` |
| `Generator.Generate` | doc_maker.py:159-174 | the loop's result is the pass `Generation`: the rebuilt context at every step, the appended characters, and the first exception |
| `Script.StartingTextFits` | doc_maker.py:117 | the 21-character starting text fits the 50-character window, so its context fails only on a character missing from the vocabulary |
| `Script.Run` | doc_maker.py:111-112 | `read_data()` with the script's constants gives the vocabulary and encoding of the accumulated buffer; `char_size` is the third dimension of `X_train`; the generation pass is `Generation` from the starting text |

## Left out

- The file system: the training file is given as its sequence of lines. How Python splits a file into lines is not modelled. A line's newline is whitespace, so `strip()` removes it either way.
- Python 2 byte strings are modelled as Dafny strings of `char`. Whitespace is the six ASCII characters `str.strip()` removes.
- `Corpus.__init__` is not modelled: it stores the file names and creates a generator that is never used.
- `print` and `sys.stdout` output, and the progress message every 10000 lines.
- `sample` (doc_maker.py:44-52) is part of the oracle. Its temperature arithmetic in float64 (log, exp, normalisation) and its multinomial random draw are not modelled.
- The Keras network (doc_maker.py:119-138), training with `fit`, and saving the model and weights (doc_maker.py:143-156) are not modelled. Neither is the epoch schedule that runs a generation pass every 50 epochs (doc_maker.py:149-158); the model is one pass.
- Generator.Generate: an oracle may return an index of `char_size` or more, and the model then reports `UnknownId`. In the script the index is the argmax of a `1 x char_size` array and is always below `char_size`. `GenerationOutput` states the result under that condition.
- Windows.Segment: requires a positive stride. Python's `range` raises on a zero step, and the script's `SKIP` is 2.
- The training buffer returned by `Vectorizer.ReadData` is a ghost value. The script keeps `X_data` local to `read_data`.
