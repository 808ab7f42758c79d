/** The driver misspell_string: the text is cut into lines and each line into words and
    whitespace runs; every piece is misspelt, compatible neighbours of the new line may
    swap, the text produced so far is cleared of blacklisted words, and the line is
    appended. */
module Text {
  import opened Chars
  import opened Seqs
  import opened Config
  import opened Swap
  import opened Word
  import opened Blacklist

  /** re.split(r'(\s+)', s): the pieces between whitespace runs, with the runs themselves
      kept in between; the first and the last piece may be empty */
  function Tokens(s: string): (ts: seq<string>)
    ensures |ts| % 2 == 1
    ensures Concat(ts) == s
  {
    if s == [] then [[]]
    else
      var rest := Tokens(s[1..]);
      assert Concat(rest) == s[1..];
      if !IsSpace(s[0]) then
        assert Concat(rest) == rest[0] + Concat(rest[1..]);
        [[s[0]] + rest[0]] + rest[1..]
      else if rest[0] == [] && |rest| > 1 then
        assert Concat(rest) == rest[0] + (rest[1] + Concat(rest[2..]));
        [[], [s[0]] + rest[1]] + rest[2..]
      else
        [[], [s[0]]] + rest
  }

  predicate NoSpace(w: string)
  {
    forall j :: 0 <= j < |w| ==> !IsSpace(w[j])
  }

  /** The pieces alternate between a piece without whitespace and a whitespace run,
      starting and ending with the former; only the first and the last piece may be
      empty, so every whitespace run is maximal */
  predicate Alternating(ts: seq<string>)
    decreases |ts|
  {
    && |ts| >= 1 && NoSpace(ts[0])
    && (|ts| == 1 || (|ts| >= 3 && IsSpaceString(ts[1]) && (|ts| == 3 || ts[2] != []) && Alternating(ts[2..])))
  }

  /** The pieces re.split gives: words and whitespace runs alternate, and the runs are
      maximal */
  lemma {:induction false} TokensAlternate(s: string)
    ensures Alternating(Tokens(s))
  {
    if s != [] {
      var rest := Tokens(s[1..]);
      TokensAlternate(s[1..]);
      var ts := Tokens(s);
      if !IsSpace(s[0]) {
        assert ts == [[s[0]] + rest[0]] + rest[1..];
        if |rest| > 1 {
          assert ts[1] == rest[1] && ts[2..] == rest[2..];
        }
      } else if rest[0] == [] && |rest| > 1 {
        assert ts == [[], [s[0]] + rest[1]] + rest[2..];
        assert ts[2..] == rest[2..];
      } else {
        assert ts == [[], [s[0]]] + rest;
        assert ts[2..] == rest;
      }
    }
  }

  /** The word loop on the first |ts| pieces: _misspell_word in mode 0 on each piece,
      concatenated */
  function WordsOut(p: Params, ts: seq<string>, rnd: Stream, n: nat): (string, nat)
  {
    if ts == [] then ([], n)
    else
      var (o, m) := WordsOut(p, ts[..|ts| - 1], rnd, n);
      var (w, m') := Misspelt(p, Last(ts), 0, rnd, m);
      (o + w, m')
  }

  /** The first k turns of the swap loop over s, with draws from n: at place i the two
      characters i and i+1 of the current line are compared, and compatible ones trade
      places when a draw falls below the swap probability */
  function SwapSteps(p: Params, s: string, k: nat, rnd: Stream, n: nat): (r: (string, nat))
    requires k < |s| || k == 0
    ensures |r.0| == |s|
  {
    if k == 0 then (s, n)
    else
      var r := SwapSteps(p, s, k - 1, rnd, n);
      SwapTurn(p, r.0, k - 1, rnd, r.1)
  }

  /** Turn i of the swap loop on the current line t, with the next draw at m: compatible
      neighbours use a draw and trade places when it falls below the swap probability */
  function SwapTurn(p: Params, t: string, i: nat, rnd: Stream, m: nat): (r: (string, nat))
    requires i + 1 < |t|
    ensures |r.0| == |t|
  {
    if !CanSwap([t[i]], [t[i + 1]]) then (t, m)
    else if rnd(m) < p.swap then (Exchange(t, i), m + 1)
    else (t, m + 1)
  }

  /** s with its characters i and i+1 traded */
  function Exchange(s: string, i: nat): (r: string)
    requires i + 1 < |s|
    ensures |r| == |s|
  {
    s[..i] + [s[i + 1], s[i]] + s[i + 2..]
  }

  /** The whole swap loop: range(len(s) - 1) */
  function Swapped(p: Params, s: string, rnd: Stream, n: nat): (r: (string, nat))
    ensures |r.0| == |s|
  {
    if |s| <= 1 then (s, n) else SwapSteps(p, s, |s| - 1, rnd, n)
  }

  /** One line: the word loop, then the swap loop in modes 0 and 2 */
  function MisspelledLine(p: Params, line: string, mode: int, rnd: Stream, n: nat): (string, nat)
  {
    var (o, m) := WordsOut(p, Tokens(line), rnd, n);
    if Typographical(Mode(mode)) then Swapped(p, o, rnd, m) else (o, m)
  }

  /** out_text after the first |lines| lines: before each line is appended, the text so
      far goes through the blacklist loop */
  function Drive(p: Params, lines: seq<string>, mode: int, rnd: Stream, n: nat): (r: (string, nat))
    requires NonEmptyEntries(p.blacklist)
    ensures lines != [] ==> r.0 != [] && Last(r.0) == '\n'
  {
    if lines == [] then ([], n)
    else
      var (t, m) := Drive(p, lines[..|lines| - 1], mode, rnd, n);
      var (l, m') := MisspelledLine(p, Last(lines), mode, rnd, m);
      (ScrubAll(t, p.blacklist) + l + "\n", m')
  }

  /** misspell_string with draws from n, as written: the final newline is dropped */
  function Misspelled(p: Params, s: string, mode: int, rnd: Stream, n: nat): (string, nat)
    requires NonEmptyEntries(p.blacklist)
  {
    var (t, m) := Drive(p, Split(s, '\n'), mode, rnd, n);
    (t[..|t| - 1], m)
  }

  /** misspell_string as evidently intended: the whole output, the last line included, is
      cleared of blacklisted words, with the pass repeated until it changes nothing */
  function IntendedMisspelled(p: Params, s: string, mode: int, rnd: Stream, n: nat): (string, nat)
    requires NonEmptyEntries(p.blacklist)
  {
    var (t, m) := Misspelled(p, s, mode, rnd, n);
    (ScrubClean(t, p.blacklist), m)
  }

  /** The swap loop of misspell_string */
  method SwapPass(p: Params, line: string, rnd: Stream, n: nat) returns (r: string, next: nat)
    ensures (r, next) == Swapped(p, line, rnd, n)
  {
    r, next := line, n;
    if |line| <= 1 {
      return;
    }
    for i := 0 to |line| - 1
      invariant (r, next) == SwapSteps(p, line, i, rnd, n)
    {
      var c1, c2 := r[i], r[i + 1];
      if CanSwap([c1], [c2]) {
        if rnd(next) < p.swap {
          assert r[..0] == [];
          r := (if i > 0 then r[..i] else []) + [c2] + [c1] + (if i < |r| - 1 then r[i + 2..] else []);
          assert r == Exchange(SwapSteps(p, line, i, rnd, n).0, i);
        }
        next := next + 1;
      }
    }
  }

  /** The body of the line loop up to the blacklist pass: every piece of the line through
      _misspell_word, then the swap loop in modes 0 and 2 */
  method MisspellLine(p: Params, line: string, mode: int, rnd: Stream, n: nat) returns (r: string, next: nat)
    ensures (r, next) == MisspelledLine(p, line, mode, rnd, n)
  {
    var parts := Tokens(line);
    r, next := [], n;
    for j := 0 to |parts|
      invariant (r, next) == WordsOut(p, parts[..j], rnd, n)
    {
      assert parts[..j + 1][..j] == parts[..j];
      var w;
      w, next := MisspellWord(p, parts[j], 0, rnd, next);
      r := r + w;
    }
    assert parts[..|parts|] == parts;
    if Typographical(Mode(mode)) {
      r, next := SwapPass(p, r, rnd, next);
    }
  }

  /** misspell_string: line by line, clear the text so far of every blacklisted word in
      turn, then append the misspelt line and a newline; the last newline is dropped */
  method MisspellString(p: Params, s: string, mode: int, rnd: Stream, n: nat) returns (r: string, next: nat)
    requires NonEmptyEntries(p.blacklist)
    ensures (r, next) == Misspelled(p, s, mode, rnd, n)
  {
    var m := Mode(mode);
    var lines := Split(s, '\n');
    var outText := [];
    next := n;
    for k := 0 to |lines|
      invariant (outText, next) == Drive(p, lines[..k], m, rnd, n)
    {
      assert lines[..k + 1][..k] == lines[..k];
      var outLine;
      outLine, next := MisspellLine(p, lines[k], m, rnd, next);
      outText := ScrubText(outText, p.blacklist);
      outText := outText + outLine + "\n";
    }
    assert lines[..|lines|] == lines;
    assert Drive(p, lines, m, rnd, n) == Drive(p, lines, mode, rnd, n) by {
      DriveMode(p, lines, mode, rnd, n);
    }
    r := outText[..|outText| - 1];
  }

  /** Only the normalised mode matters */
  lemma {:induction false} DriveMode(p: Params, lines: seq<string>, mode: int, rnd: Stream, n: nat)
    requires NonEmptyEntries(p.blacklist)
    ensures Drive(p, lines, Mode(mode), rnd, n) == Drive(p, lines, mode, rnd, n)
  {
    if lines != [] {
      DriveMode(p, lines[..|lines| - 1], mode, rnd, n);
    }
  }

  /** Two strings of the same length whose characters have the same class place by place */
  predicate SameClasses(a: string, b: string)
  {
    |a| == |b| && forall j :: 0 <= j < |a| ==> ClassOf(a[j]) == ClassOf(b[j])
  }

  /** Exchanging two neighbours of the same class keeps the characters and the class of
      every place */
  lemma ExchangeKeeps(t: string, i: nat)
    requires i + 1 < |t| && CanSwapChars(t[i], t[i + 1])
    ensures multiset(Exchange(t, i)) == multiset(t)
    ensures SameClasses(Exchange(t, i), t)
  {
    CanSwapSameClass(t[i], t[i + 1]);
    var u := Exchange(t, i);
    assert t == t[..i] + [t[i], t[i + 1]] + t[i + 2..];
    forall j | 0 <= j < |t|
      ensures ClassOf(u[j]) == ClassOf(t[j])
    {
      if j != i && j != i + 1 {
        assert u[j] == t[j];
      }
    }
  }

  /** A turn of the swap loop either leaves the line alone or trades two compatible
      neighbours, and uses at most one draw */
  lemma SwapTurnCases(p: Params, t: string, i: nat, rnd: Stream, m: nat)
    requires i + 1 < |t|
    ensures || SwapTurn(p, t, i, rnd, m).0 == t
            || (CanSwapChars(t[i], t[i + 1]) && SwapTurn(p, t, i, rnd, m).0 == Exchange(t, i))
    ensures m <= SwapTurn(p, t, i, rnd, m).1 <= m + 1
  {
    CanSwapOnChars(t[i], t[i + 1]);
  }

  /** a is b rearranged with every place keeping its class */
  predicate Rearranged(a: string, b: string)
  {
    multiset(a) == multiset(b) && Classes(a) == Classes(b)
  }

  /** The class of every place of s */
  function Classes(s: string): seq<Option<SwapClass>>
  {
    seq(|s|, j requires 0 <= j < |s| => ClassOf(s[j]))
  }

  /** A turn of the swap loop keeps the characters of the line and the class of every place */
  lemma SwapTurnKeeps(p: Params, t: string, i: nat, rnd: Stream, m: nat)
    requires i + 1 < |t|
    ensures Rearranged(SwapTurn(p, t, i, rnd, m).0, t)
  {
    SwapTurnCases(p, t, i, rnd, m);
    if SwapTurn(p, t, i, rnd, m).0 != t {
      ExchangeKeeps(t, i);
      assert Classes(Exchange(t, i)) == Classes(t);
    }
  }

  /** A swap only exchanges two characters of the same class: the line keeps its
      characters, and every place keeps its class, so spaces, characters outside the
      classes and the case pattern of the letters never move */
  lemma {:induction false} SwapStepsKeepClasses(p: Params, s: string, k: nat, rnd: Stream, n: nat)
    requires k < |s| || k == 0
    ensures Rearranged(SwapSteps(p, s, k, rnd, n).0, s)
  {
    if k > 0 {
      var r := SwapSteps(p, s, k - 1, rnd, n);
      var t := SwapTurn(p, r.0, k - 1, rnd, r.1).0;
      assert SwapSteps(p, s, k, rnd, n).0 == t;
      SwapStepsKeepClasses(p, s, k - 1, rnd, n);
      SwapTurnKeeps(p, r.0, k - 1, rnd, r.1);
      assert multiset(t) == multiset(s) && Classes(t) == Classes(s);
    }
  }

  /** Every place of b whose character is in no swap class holds the same character in a */
  predicate UnclassedKept(a: string, b: string)
  {
    |a| == |b| && forall j :: 0 <= j < |b| && ClassOf(b[j]).None? ==> a[j] == b[j]
  }

  /** Exchanging two compatible neighbours moves no character outside the swap classes */
  lemma ExchangeKeepsUnclassed(t: string, i: nat)
    requires i + 1 < |t| && CanSwapChars(t[i], t[i + 1])
    ensures UnclassedKept(Exchange(t, i), t)
  {
    CanSwapSameClass(t[i], t[i + 1]);
    var u := Exchange(t, i);
    forall j | 0 <= j < |t| && ClassOf(t[j]).None?
      ensures u[j] == t[j]
    {
      assert j != i && j != i + 1;
    }
  }

  /** The swap loop never moves a space, a tab or any other character outside the swap
      classes */
  lemma {:induction false} SwapStepsKeepUnclassed(p: Params, s: string, k: nat, rnd: Stream, n: nat)
    requires k < |s| || k == 0
    ensures UnclassedKept(SwapSteps(p, s, k, rnd, n).0, s)
  {
    if k > 0 {
      var r := SwapSteps(p, s, k - 1, rnd, n);
      var t := SwapTurn(p, r.0, k - 1, rnd, r.1).0;
      assert SwapSteps(p, s, k, rnd, n).0 == t;
      SwapStepsKeepUnclassed(p, s, k - 1, rnd, n);
      SwapTurnCases(p, r.0, k - 1, rnd, r.1);
      if t != r.0 {
        ExchangeKeepsUnclassed(r.0, k - 1);
      }
      forall j | 0 <= j < |s| && ClassOf(s[j]).None?
        ensures t[j] == s[j]
      {
        assert r.0[j] == s[j];
      }
    }
  }

  /** The swap loop uses one draw per compatible pair it meets, at most one per place */
  lemma {:induction false} SwapStepsDraws(p: Params, s: string, k: nat, rnd: Stream, n: nat)
    requires k < |s| || k == 0
    ensures n <= SwapSteps(p, s, k, rnd, n).1 <= n + k
  {
    if k > 0 {
      var r := SwapSteps(p, s, k - 1, rnd, n);
      SwapStepsDraws(p, s, k - 1, rnd, n);
      SwapTurnCases(p, r.0, k - 1, rnd, r.1);
    }
  }

  lemma SwappedKeepsClasses(p: Params, s: string, rnd: Stream, n: nat)
    ensures multiset(Swapped(p, s, rnd, n).0) == multiset(s)
    ensures SameClasses(Swapped(p, s, rnd, n).0, s)
    ensures forall j :: 0 <= j < |s| && ClassOf(s[j]).None? ==> Swapped(p, s, rnd, n).0[j] == s[j]
  {
    var u := Swapped(p, s, rnd, n).0;
    if |s| > 1 {
      SwapStepsKeepClasses(p, s, |s| - 1, rnd, n);
      SwapStepsKeepUnclassed(p, s, |s| - 1, rnd, n);
    }
    assert Classes(u) == Classes(s);
    forall j | 0 <= j < |s|
      ensures ClassOf(u[j]) == ClassOf(s[j])
    {
      assert Classes(u)[j] == Classes(s)[j];
    }
  }

  /** With swap probability 0 no draw is ever below it, and the line stays as it is */
  lemma {:induction false} SwapStepsNone(p: Params, s: string, k: nat, rnd: Stream, n: nat)
    requires p.swap == 0.0 && (k < |s| || k == 0)
    ensures SwapSteps(p, s, k, rnd, n).0 == s
  {
    if k > 0 {
      SwapStepsNone(p, s, k - 1, rnd, n);
    }
  }

  /** Swaps cascade: with swap probability 1 on "abc", 'a' trades places with 'b', is
      compared again at its new place and trades places with 'c' */
  lemma SwapsCascade(p: Params, rnd: Stream, n: nat)
    requires p.swap == 1.0
    ensures Swapped(p, "abc", rnd, n) == ("bca", n + 2)
  {
    CanSwapOnChars('a', 'b');
    CanSwapOnChars('a', 'c');
    assert "abc"[0] == 'a' && "abc"[1] == 'b';
    assert Exchange("abc", 0) == "bac";
    assert SwapSteps(p, "abc", 1, rnd, n) == ("bac", n + 1);
    assert "bac"[1] == 'a' && "bac"[2] == 'c';
    assert Exchange("bac", 1) == "bca";
  }

  /** All five typographical probabilities are 0 */
  predicate Quiet(p: Params)
  {
    p.deleteSpace == 0.0 && p.swap == 0.0 && p.deleteChar == 0.0 && p.insert == 0.0 && p.replace == 0.0
  }

  lemma {:induction false} WordsOutQuiet(p: Params, ts: seq<string>, rnd: Stream, n: nat)
    requires Quiet(p)
    ensures WordsOut(p, ts, rnd, n).0 == Concat(ts)
  {
    if ts != [] {
      var init := ts[..|ts| - 1];
      var (o, m) := WordsOut(p, init, rnd, n);
      WordsOutQuiet(p, init, rnd, n);
      MisspeltUnchanged(p, Last(ts), 0, rnd, m);
      assert init + [Last(ts)] == ts;
      ConcatSnoc(init, Last(ts));
    }
  }

  /** With the typographical probabilities at 0 a line comes back unchanged in every mode */
  lemma LineQuiet(p: Params, line: string, mode: int, rnd: Stream, n: nat)
    requires Quiet(p)
    ensures MisspelledLine(p, line, mode, rnd, n).0 == line
  {
    var (o, m) := WordsOut(p, Tokens(line), rnd, n);
    WordsOutQuiet(p, Tokens(line), rnd, n);
    if |o| > 1 {
      SwapStepsNone(p, o, |o| - 1, rnd, m);
    }
  }

  /** One more line: the text so far, through the blacklist loop, then the line and a newline */
  lemma DriveStep(p: Params, lines: seq<string>, mode: int, rnd: Stream, n: nat)
    requires NonEmptyEntries(p.blacklist) && lines != []
    ensures var d := Drive(p, lines[..|lines| - 1], mode, rnd, n);
            Drive(p, lines, mode, rnd, n).0 == ScrubAll(d.0, p.blacklist) + MisspelledLine(p, Last(lines), mode, rnd, d.1).0 + "\n"
  {
  }

  /** With an empty blacklist and quiet parameters the text so far is the lines joined,
      each followed by a newline */
  lemma {:induction false} DriveQuiet(p: Params, lines: seq<string>, mode: int, rnd: Stream, n: nat)
    requires Quiet(p) && p.blacklist == [] && lines != []
    ensures Drive(p, lines, mode, rnd, n).0 == Join(lines, '\n') + "\n"
  {
    var init := lines[..|lines| - 1];
    var x := Last(lines);
    var d := Drive(p, init, mode, rnd, n);
    var t := d.0;
    LineQuiet(p, x, mode, rnd, d.1);
    DriveStep(p, lines, mode, rnd, n);
    assert Drive(p, lines, mode, rnd, n).0 == t + x + "\n";
    if init == [] {
      assert lines == [x];
    } else {
      DriveQuiet(p, init, mode, rnd, n);
      JoinLast(lines, '\n');
      assert t + x + "\n" == (Join(init, '\n') + ['\n'] + x) + "\n";
    }
  }

  /** misspell_string with every typographical probability at 0 and an empty blacklist
      gives the text back, in every mode */
  lemma MisspelledQuiet(p: Params, s: string, mode: int, rnd: Stream, n: nat)
    requires Quiet(p) && p.blacklist == []
    ensures Misspelled(p, s, mode, rnd, n).0 == s
  {
    var lines := Split(s, '\n');
    DriveQuiet(p, lines, mode, rnd, n);
    JoinSplit(s, '\n');
    var j := Join(lines, '\n');
    assert (j + "\n")[..|j|] == j;
  }

  lemma {:induction false} ScrubAllEmpty(bl: seq<string>)
    requires NonEmptyEntries(bl)
    ensures ScrubAll([], bl) == []
  {
    if bl != [] {
      ScrubAllEmpty(bl[..|bl| - 1]);
      assert FindFrom(LowerString([]), LowerString(Last(bl)), 0) == None;
    }
  }

  /** The blacklist pass runs on the text before the current line is appended, so the
      last line is never checked: a text of one line comes back with its misspelt line as
      it is, whatever the blacklist */
  lemma LastLineUnchecked(p: Params, s: string, mode: int, rnd: Stream, n: nat)
    requires NonEmptyEntries(p.blacklist) && '\n' !in s
    ensures Misspelled(p, s, mode, rnd, n).0 == MisspelledLine(p, s, mode, rnd, n).0
  {
    SplitWithout(s, '\n');
    ScrubAllEmpty(p.blacklist);
    assert [s][..0] == [] && Last([s]) == s;
    var l := MisspelledLine(p, s, mode, rnd, n).0;
    assert Drive(p, [s], mode, rnd, n).0 == ScrubAll([], p.blacklist) + l + "\n";
    assert ([] + l + "\n")[..|l|] == l;
  }

  /** With quiet parameters and the blacklist ("ab",), the text "ab" comes back as "ab" */
  lemma BlacklistedWordSurvives(p: Params, rnd: Stream, n: nat)
    requires Quiet(p) && p.blacklist == ["ab"]
    ensures Misspelled(p, "ab", 0, rnd, n).0 == "ab"
    ensures Contains("ab", p.blacklist[0])
  {
    assert '\n' !in "ab";
    LastLineUnchecked(p, "ab", 0, rnd, n);
    LineQuiet(p, "ab", 0, rnd, n);
    OnePassRecreates();
  }

  /** As intended, no blacklisted word is left anywhere in the output, and the output is
      the written output with some characters deleted */
  lemma IntendedLeavesNoEntry(p: Params, s: string, mode: int, rnd: Stream, n: nat)
    requires NonEmptyEntries(p.blacklist)
    ensures forall i :: 0 <= i < |p.blacklist| ==> !Contains(IntendedMisspelled(p, s, mode, rnd, n).0, p.blacklist[i])
    ensures IsSubsequence(IntendedMisspelled(p, s, mode, rnd, n).0, Misspelled(p, s, mode, rnd, n).0)
  {
    ScrubCleanMeaning(Misspelled(p, s, mode, rnd, n).0, p.blacklist);
  }
}
