/**
 * The script's main line without the network: read the training data with
 * the configured constants, then run one generation pass from the fixed seed
 * (doc_maker.py:111-112, 159-174).
 */
module Script {
  import opened Wrappers
  import opened Config
  import opened Vocab
  import opened Vectorizer
  import opened Generator

  /** The seed is shorter than the window, so a pass can only fail on a character missing from the vocabulary. */
  lemma StartingTextFits(v: Vocabulary)
    requires v.Valid()
    ensures Context(STARTING_TEXT, v, MAX_SEQUENCE_LENGTH).Ok? <==> forall c :: c in STARTING_TEXT ==> c in v.char2id
  {
    assert |STARTING_TEXT| == 21;
  }

  /**
   * `read_data()` followed by one generation pass of `GENERATED_CHARS`
   * characters from `STARTING_TEXT`, with `char_size` taken from the third
   * dimension of `X_train`.
   */
  method Run(lines: seq<string>, oracle: Oracle)
    returns (X: array3<real>, y: array2<real>, v: Vocabulary, generated: Result<string, GenError>)
    ensures fresh(X) && fresh(y)
    ensures v == Build(Buffer(lines, LINES_TO_READ))
    ensures IsEncoding(Buffer(lines, LINES_TO_READ), MAX_SEQUENCE_LENGTH, SKIP, v, X, y)
    ensures X.Length2 == v.Size()
    ensures generated == Generation(STARTING_TEXT, v, MAX_SEQUENCE_LENGTH, GENERATED_CHARS, oracle)
  {
    ghost var text;
    X, y, v, text := ReadData(lines, LINES_TO_READ, MAX_SEQUENCE_LENGTH, SKIP);
    generated := Generate(STARTING_TEXT, v, MAX_SEQUENCE_LENGTH, GENERATED_CHARS, oracle);
  }
}
