/** Misspelling one word (_misspell_word): a whitespace word loses each character with
    a small probability; any other word goes through the phonological stage, which
    leaves it unchanged, and then through the typographical stage, which deletes,
    doubles with a neighbouring key, or replaces each character. */
module Word {
  import opened Chars
  import opened Seqs
  import opened Config
  import opened Keyboard
  import opened Segment

  /** The mode codes: 0 applies every rule, 1 only the phonological ones, 2 only the
      typographical ones; any other code is read as 0 */
  function Mode(mode: int): (m: int)
    ensures m == 0 || m == 1 || m == 2
    ensures m == mode <==> mode == 0 || mode == 1 || mode == 2
    ensures !(mode == 0 || mode == 1 || mode == 2) ==> m == 0
  {
    if mode == 0 || mode == 1 || mode == 2 then mode else 0
  }

  predicate Typographical(m: int) { m == 0 || m == 2 }
  predicate Phonological(m: int) { m == 0 || m == 1 }

  /** _misspell_syllable: the phonological rewriting of one block is described in the
      source but not carried out, so every syllable comes back unchanged, whatever its
      category and preservation flags */
  function MisspellSyllable(s: string, cat: Category, preserve: (bool, bool)): (r: string)
    ensures r == s
  {
    s
  }

  /** The whitespace procedure on the first |w| characters of a whitespace word, with
      draws from n: a character stays when its draw is below 1 - deleteSpace */
  function SpaceKept(p: Params, w: string, rnd: Stream, n: nat): (string, nat)
  {
    if w == [] then ([], n)
    else
      var (s, m) := SpaceKept(p, w[..|w| - 1], rnd, n);
      (if rnd(m) < 1.0 - p.deleteSpace then s + [Last(w)] else s, m + 1)
  }

  /** d is a character _mistype_key may give for c: c itself when c is not a key, and
      otherwise the key of one of c's neighbours */
  ghost predicate Near(c: char, d: char)
  {
    match Position(c)
    case None => d == c
    case Some((row, col)) => exists r, k :: Neighbour(row, col, r, k) && d == KeyAt(r, k)
  }

  /** The typing mistakes on one character c with draws from n. The first draw falls into
      one of four bands: below deleteChar the character is dropped; below deleteChar +
      insert a neighbouring key is added on the side the next draw picks; below
      deleteChar + insert + replace the character is replaced by a neighbouring key;
      otherwise it is kept */
  function TypoChar(p: Params, c: char, rnd: Stream, n: nat): (r: (string, nat))
    ensures |r.0| <= 2
    ensures n + 1 <= r.1 <= n + 3
  {
    var rand := rnd(n);
    if rand < p.deleteChar then ([], n + 1)
    else if rand < p.deleteChar + p.insert then
      var (k, m) := Mistype([c], rnd, n + 2);
      (if rnd(n + 1) < 0.5 then k + [c] else [c] + k, m)
    else if rand < p.deleteChar + p.insert + p.replace then Mistype([c], rnd, n + 1)
    else ([c], n + 1)
  }

  /** The typographical stage on the first |w| characters, with draws from n */
  function Typos(p: Params, w: string, rnd: Stream, n: nat): (string, nat)
  {
    if w == [] then ([], n)
    else
      var (s, m) := Typos(p, w[..|w| - 1], rnd, n);
      var (t, m') := TypoChar(p, Last(w), rnd, m);
      (s + t, m')
  }

  /** _misspell_word with draws from n, as written: in mode 1 the typographical stage is
      skipped and its empty result is returned */
  function Misspelt(p: Params, w: string, mode: int, rnd: Stream, n: nat): (string, nat)
  {
    var m := Mode(mode);
    if IsSpaceString(w) then
      if Typographical(m) then SpaceKept(p, w, rnd, n) else ([], n)
    else if Typographical(m) then Typos(p, w, rnd, n)
    else ([], n)
  }

  /** _misspell_word as evidently intended: a stage that is skipped passes its input on,
      so in mode 1 a whitespace word is kept and any other word is the result of the
      phonological stage */
  function IntendedMisspelt(p: Params, w: string, mode: int, rnd: Stream, n: nat): (string, nat)
  {
    var m := Mode(mode);
    if IsSpaceString(w) then
      if Typographical(m) then SpaceKept(p, w, rnd, n) else (w, n)
    else if Typographical(m) then Typos(p, w, rnd, n)
    else (w, n)
  }

  /** _misspell_word: the mode is normalised; a whitespace word goes through the deletion
      loop; otherwise the word is cut into blocks (in modes 0 and 1; the blocks are not
      used further) and then goes through the typing-mistake loop in modes 0 and 2 */
  method MisspellWord(p: Params, w: string, mode: int, rnd: Stream, n: nat) returns (r: string, next: nat)
    ensures (r, next) == Misspelt(p, w, mode, rnd, n)
  {
    var m := Mode(mode);
    if IsSpaceString(w) {
      var w0 := [];
      next := n;
      if Typographical(m) {
        w0, next := DeleteSpaces(p, w, rnd, n);
      }
      return w0, next;
    }
    var w1 := w;
    if Phonological(m) {
      var blocks, cats := WordBlocks(w);
    }
    var w2 := [];
    next := n;
    if Typographical(m) {
      w2, next := TypeWord(p, w1, rnd, n);
    }
    return w2, next;
  }

  /** The whitespace loop of _misspell_word: each character is kept when its draw is below
      1 - deleteSpace */
  method DeleteSpaces(p: Params, w: string, rnd: Stream, n: nat) returns (w0: string, next: nat)
    ensures (w0, next) == SpaceKept(p, w, rnd, n)
  {
    w0, next := [], n;
    for i := 0 to |w|
      invariant (w0, next) == SpaceKept(p, w[..i], rnd, n)
    {
      assert w[..i + 1][..i] == w[..i];
      if rnd(next) < 1.0 - p.deleteSpace {
        w0 := w0 + [w[i]];
      }
      next := next + 1;
    }
    assert w[..|w|] == w;
  }

  /** The typing-mistake loop of _misspell_word: per character one draw picks deletion,
      insertion of a neighbouring key on a side picked by a second draw, replacement by a
      neighbouring key, or no change */
  method TypeWord(p: Params, w1: string, rnd: Stream, n: nat) returns (w2: string, next: nat)
    ensures (w2, next) == Typos(p, w1, rnd, n)
  {
    w2, next := [], n;
    for i := 0 to |w1|
      invariant (w2, next) == Typos(p, w1[..i], rnd, n)
    {
      assert w1[..i + 1][..i] == w1[..i];
      ghost var before := next;
      ghost var done := w2;
      var c := w1[i];
      var rand := rnd(next);
      next := next + 1;
      if rand < p.deleteChar {
        assert TypoChar(p, c, rnd, before) == ([], next);
      } else if rand < p.deleteChar + p.insert {
        var side := rnd(next);
        next := next + 1;
        var k;
        k, next := MistypeKey([c], rnd, next);
        if side < 0.5 {
          w2 := w2 + (k + [c]);
          assert TypoChar(p, c, rnd, before) == (k + [c], next);
        } else {
          w2 := w2 + ([c] + k);
          assert TypoChar(p, c, rnd, before) == ([c] + k, next);
        }
      } else if rand < p.deleteChar + p.insert + p.replace {
        var k;
        k, next := MistypeKey([c], rnd, next);
        w2 := w2 + k;
        assert TypoChar(p, c, rnd, before) == (k, next);
      } else {
        w2 := w2 + [c];
        assert TypoChar(p, c, rnd, before) == ([c], next);
      }
      assert w2 == done + TypoChar(p, c, rnd, before).0;
    }
    assert w1[..|w1|] == w1;
  }

  /** _mistype_key on one character gives one character near it, using at most one draw */
  lemma MistypeNear(c: char, rnd: Stream, n: nat)
    ensures |Mistype([c], rnd, n).0| == 1 && Near(c, Mistype([c], rnd, n).0[0])
    ensures Mistype([c], rnd, n).1 == (if Position(c).Some? then n + 1 else n)
  {
    MistypeDraws([c], rnd, n);
    match Position(c)
    case None =>
      LocateIsPosition(c);
    case Some((row, col)) =>
      MistypeNeighbour([c], rnd, n, row, col);
  }

  /** The outcome of each band: nothing, the character with a near key on the side the
      second draw picks, a near key alone, or the character itself */
  lemma TypoCharOutcomes(p: Params, c: char, rnd: Stream, n: nat)
    requires ValidTypo(p)
    ensures rnd(n) < p.deleteChar ==> TypoChar(p, c, rnd, n) == ([], n + 1)
    ensures p.deleteChar <= rnd(n) < p.deleteChar + p.insert ==>
      var t := TypoChar(p, c, rnd, n).0;
      |t| == 2 && (if rnd(n + 1) < 0.5 then t[1] == c && Near(c, t[0]) else t[0] == c && Near(c, t[1]))
    ensures p.deleteChar + p.insert <= rnd(n) < p.deleteChar + p.insert + p.replace ==>
      |TypoChar(p, c, rnd, n).0| == 1 && Near(c, TypoChar(p, c, rnd, n).0[0])
    ensures rnd(n) >= p.deleteChar + p.insert + p.replace ==> TypoChar(p, c, rnd, n) == ([c], n + 1)
  {
    var rand := rnd(n);
    if p.deleteChar <= rand < p.deleteChar + p.insert {
      MistypeNear(c, rnd, n + 2);
    } else if p.deleteChar + p.insert <= rand < p.deleteChar + p.insert + p.replace {
      MistypeNear(c, rnd, n + 1);
    }
  }

  /** Whitespace deletion keeps a subsequence of the word and uses one draw per character */
  lemma {:induction false} SpaceKeptSubsequence(p: Params, w: string, rnd: Stream, n: nat)
    ensures IsSubsequence(SpaceKept(p, w, rnd, n).0, w)
    ensures SpaceKept(p, w, rnd, n).1 == n + |w|
  {
    if w != [] {
      var (s, m) := SpaceKept(p, w[..|w| - 1], rnd, n);
      SpaceKeptSubsequence(p, w[..|w| - 1], rnd, n);
      SubsequenceSnoc(s, w[..|w| - 1], Last(w), rnd(m) < 1.0 - p.deleteSpace);
      assert w[..|w| - 1] + [Last(w)] == w;
    }
  }

  /** With deleteSpace 0 every whitespace character stays, since every draw is below 1 */
  lemma {:induction false} SpaceKeptAll(p: Params, w: string, rnd: Stream, n: nat)
    requires p.deleteSpace == 0.0
    ensures SpaceKept(p, w, rnd, n).0 == w
  {
    if w != [] {
      SpaceKeptAll(p, w[..|w| - 1], rnd, n);
      assert w[..|w| - 1] + [Last(w)] == w;
    }
  }

  /** Each character gives at most two, and uses one to three draws */
  lemma {:induction false} TyposBounds(p: Params, w: string, rnd: Stream, n: nat)
    ensures |Typos(p, w, rnd, n).0| <= 2 * |w|
    ensures n + |w| <= Typos(p, w, rnd, n).1 <= n + 3 * |w|
  {
    if w != [] {
      var (s, m) := Typos(p, w[..|w| - 1], rnd, n);
      TyposBounds(p, w[..|w| - 1], rnd, n);
    }
  }

  /** With the three typing probabilities at 0 no band is ever reached and the word is
      copied, one draw per character */
  lemma {:induction false} TyposNone(p: Params, w: string, rnd: Stream, n: nat)
    requires p.deleteChar == 0.0 && p.insert == 0.0 && p.replace == 0.0
    ensures Typos(p, w, rnd, n) == (w, n + |w|)
  {
    if w != [] {
      TyposNone(p, w[..|w| - 1], rnd, n);
      assert w[..|w| - 1] + [Last(w)] == w;
    }
  }

  /** In modes 0 and 2, with every typographical probability at 0, a word comes back
      unchanged */
  lemma MisspeltUnchanged(p: Params, w: string, mode: int, rnd: Stream, n: nat)
    requires p.deleteSpace == 0.0 && p.deleteChar == 0.0 && p.insert == 0.0 && p.replace == 0.0
    requires Typographical(Mode(mode))
    ensures Misspelt(p, w, mode, rnd, n).0 == w
  {
    if IsSpaceString(w) {
      SpaceKeptAll(p, w, rnd, n);
    } else {
      TyposNone(p, w, rnd, n);
    }
  }

  /** A misspelt word is at most twice as long as the word */
  lemma MisspeltLength(p: Params, w: string, mode: int, rnd: Stream, n: nat)
    ensures |Misspelt(p, w, mode, rnd, n).0| <= 2 * |w|
  {
    if IsSpaceString(w) {
      SpaceKeptSubsequence(p, w, rnd, n);
      SubsequenceLength(SpaceKept(p, w, rnd, n).0, w);
    } else {
      TyposBounds(p, w, rnd, n);
    }
  }

  /** As written, mode 1 turns every word into the empty string and uses no draw */
  lemma PhonologicalModeEmpties(p: Params, w: string, rnd: Stream, n: nat)
    ensures Misspelt(p, w, 1, rnd, n) == ([], n)
  {
  }

  /** As intended, mode 1 gives every word back unchanged, since the phonological stage
      changes nothing; in modes 0 and 2 the intended and the written behaviour agree, and
      in mode 1 they differ on every non-empty word */
  lemma IntendedPhonologicalMode(p: Params, w: string, mode: int, rnd: Stream, n: nat)
    ensures Mode(mode) == 1 ==> IntendedMisspelt(p, w, mode, rnd, n) == (w, n)
    ensures Typographical(Mode(mode)) ==> IntendedMisspelt(p, w, mode, rnd, n) == Misspelt(p, w, mode, rnd, n)
    ensures w != [] && Mode(mode) == 1 ==> IntendedMisspelt(p, w, mode, rnd, n) != Misspelt(p, w, mode, rnd, n)
  {
  }
}
