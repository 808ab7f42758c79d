/** The tunable parameters of the misspeller and the source of randomness.
    The process-wide parameters become one immutable record; a configuration that
    breaks the probability rules is replaced by the defaults as a whole. Calls to
    the pseudo-random generator become reads from a caller-supplied stream. */
module Config {
  import opened Seqs

  /** One value of random.random(): a real in [0, 1) */
  type Draw = r: real | 0.0 <= r < 1.0 witness 0.0

  /** The successive values the generator would return; an operation that reads
      draws from index n on returns the index of the first draw it did not use */
  type Stream = nat -> Draw

  /** The misspelling parameters: the typographical probabilities, the phonological
      probabilities and the case-insensitive blacklist */
  datatype Params = Params(
    deleteSpace: real,   // chance to delete a whitespace character
    swap: real,          // chance to swap two compatible neighbours
    deleteChar: real,    // chance to delete a non-whitespace character
    insert: real,        // chance to insert a neighbouring key
    replace: real,       // chance to replace a character by a neighbouring key
    phonoDelete: real,
    phonoInsert: real,
    phonoReplace: real,
    blacklist: seq<string>)

  /** The built-in parameters, used at start-up and whenever a configuration is rejected */
  const Defaults: Params := Params(0.005, 0.0075, 0.0075, 0.001, 0.0025, 0.0025, 0.0025, 0.005, [])

  predicate IsProbability(p: real) { 0.0 <= p <= 1.0 }

  /** The typographical section: five probabilities, and the three exclusive events
      (delete, insert, replace) together at most certain */
  predicate ValidTypo(p: Params)
  {
    && IsProbability(p.deleteSpace) && IsProbability(p.deleteChar) && IsProbability(p.swap)
    && IsProbability(p.insert) && IsProbability(p.replace)
    && p.deleteChar + p.insert + p.replace <= 1.0
  }

  /** The phonological section: three probabilities of exclusive events */
  predicate ValidPhono(p: Params)
  {
    && IsProbability(p.phonoDelete) && IsProbability(p.phonoInsert) && IsProbability(p.phonoReplace)
    && p.phonoDelete + p.phonoInsert + p.phonoReplace <= 1.0
  }

  predicate Valid(p: Params) { ValidTypo(p) && ValidPhono(p) }

  /** The parameters that reading a configuration leaves in force. `read` is the parsed
      file, or None when a key is missing or is not a number; anything rejected brings
      back every default, the blacklist included */
  function Load(read: Option<Params>): (p: Params)
    ensures Valid(p)
    ensures read.Some? && Valid(read.value) ==> p == read.value
    ensures read.None? || !Valid(read.value) ==> p == Defaults
  {
    match read
    case None => Defaults
    case Some(q) => if Valid(q) then q else Defaults
  }
}
