/** The keyboard neighbour model (_mistype_key): a key is mistyped as one of the keys
    around it on a two-layer 4x10 keyboard (unshifted rows 0-3, shifted rows 4-7), the
    keys sharing a side at weight 1 and the diagonal keys at weight cos 45 degrees. */
module Keyboard {
  import opened Seqs
  import opened Config
  import opened Sample

  /** The keyboard grid: eight rows of ten keys */
  const Rows: seq<string> := ["1234567890", "qwertyuiop", "asdfghjkl;", "zxcvbnm,./",
                              "!@#$%^&*()", "QWERTYUIOP", "ASDFGHJKL:", "ZXCVBNM<>?"]

  /** math.sqrt(2)/2, as the double the source computes */
  const Cos45: real := 0.7071067811865476

  predicate OnGrid(row: int, col: int) { 0 <= row < 8 && 0 <= col < 10 }

  function KeyAt(row: nat, col: nat): char
    requires OnGrid(row, col)
  {
    Rows[row][col]
  }

  /** The key of a candidate; positions off the grid never arise */
  function KeyOf(x: Candidate): char
  {
    if OnGrid(x.row, x.col) then KeyAt(x.row, x.col) else ' '
  }

  /** len(row) for a row of the grid */
  function RowLength(row: nat): (n: nat)
    requires row < 8
    ensures n == 10
  {
    |Rows[row]|
  }

  /** str.find for a character known to occur */
  function IndexOf(s: string, c: char): (i: nat)
    requires c in s
    ensures i < |s| && s[i] == c
    ensures forall j :: 0 <= j < i ==> s[j] != c
  {
    if s[0] == c then 0 else 1 + IndexOf(s[1..], c)
  }

  /** The first row from `row` on that holds c */
  function RowFrom(c: char, row: nat): (r: Option<nat>)
    requires row <= 8
    decreases 8 - row
    ensures r.Some? ==> row <= r.value < 8 && c in Rows[r.value]
    ensures r.Some? ==> forall k :: row <= k < r.value ==> c !in Rows[k]
    ensures r.None? ==> forall k :: row <= k < 8 ==> c !in Rows[k]
  {
    if row == 8 then None else if c in Rows[row] then Some(row) else RowFrom(c, row + 1)
  }

  /** Where _mistype_key finds c: the first row holding it and its first column there */
  function Locate(c: char): Option<(nat, nat)>
  {
    match RowFrom(c, 0)
    case None => None
    case Some(row) => Some((row, IndexOf(Rows[row], c)))
  }

  /** The position of every key, written out as a table */
  function Position(c: char): Option<(nat, nat)>
  {
    match c
    case '1' => Some((0, 0))
    case '2' => Some((0, 1))
    case '3' => Some((0, 2))
    case '4' => Some((0, 3))
    case '5' => Some((0, 4))
    case '6' => Some((0, 5))
    case '7' => Some((0, 6))
    case '8' => Some((0, 7))
    case '9' => Some((0, 8))
    case '0' => Some((0, 9))
    case 'q' => Some((1, 0))
    case 'w' => Some((1, 1))
    case 'e' => Some((1, 2))
    case 'r' => Some((1, 3))
    case 't' => Some((1, 4))
    case 'y' => Some((1, 5))
    case 'u' => Some((1, 6))
    case 'i' => Some((1, 7))
    case 'o' => Some((1, 8))
    case 'p' => Some((1, 9))
    case 'a' => Some((2, 0))
    case 's' => Some((2, 1))
    case 'd' => Some((2, 2))
    case 'f' => Some((2, 3))
    case 'g' => Some((2, 4))
    case 'h' => Some((2, 5))
    case 'j' => Some((2, 6))
    case 'k' => Some((2, 7))
    case 'l' => Some((2, 8))
    case ';' => Some((2, 9))
    case 'z' => Some((3, 0))
    case 'x' => Some((3, 1))
    case 'c' => Some((3, 2))
    case 'v' => Some((3, 3))
    case 'b' => Some((3, 4))
    case 'n' => Some((3, 5))
    case 'm' => Some((3, 6))
    case ',' => Some((3, 7))
    case '.' => Some((3, 8))
    case '/' => Some((3, 9))
    case '!' => Some((4, 0))
    case '@' => Some((4, 1))
    case '#' => Some((4, 2))
    case '$' => Some((4, 3))
    case '%' => Some((4, 4))
    case '^' => Some((4, 5))
    case '&' => Some((4, 6))
    case '*' => Some((4, 7))
    case '(' => Some((4, 8))
    case ')' => Some((4, 9))
    case 'Q' => Some((5, 0))
    case 'W' => Some((5, 1))
    case 'E' => Some((5, 2))
    case 'R' => Some((5, 3))
    case 'T' => Some((5, 4))
    case 'Y' => Some((5, 5))
    case 'U' => Some((5, 6))
    case 'I' => Some((5, 7))
    case 'O' => Some((5, 8))
    case 'P' => Some((5, 9))
    case 'A' => Some((6, 0))
    case 'S' => Some((6, 1))
    case 'D' => Some((6, 2))
    case 'F' => Some((6, 3))
    case 'G' => Some((6, 4))
    case 'H' => Some((6, 5))
    case 'J' => Some((6, 6))
    case 'K' => Some((6, 7))
    case 'L' => Some((6, 8))
    case ':' => Some((6, 9))
    case 'Z' => Some((7, 0))
    case 'X' => Some((7, 1))
    case 'C' => Some((7, 2))
    case 'V' => Some((7, 3))
    case 'B' => Some((7, 4))
    case 'N' => Some((7, 5))
    case 'M' => Some((7, 6))
    case '<' => Some((7, 7))
    case '>' => Some((7, 8))
    case '?' => Some((7, 9))
    case _ => None
  }

  lemma PositionRow0()
    ensures forall col :: 0 <= col < 10 ==> Position(Rows[0][col]) == Some((0, col))
  {
  }

  lemma PositionRow1()
    ensures forall col :: 0 <= col < 10 ==> Position(Rows[1][col]) == Some((1, col))
  {
  }

  lemma PositionRow2()
    ensures forall col :: 0 <= col < 10 ==> Position(Rows[2][col]) == Some((2, col))
  {
  }

  lemma PositionRow3()
    ensures forall col :: 0 <= col < 10 ==> Position(Rows[3][col]) == Some((3, col))
  {
  }

  lemma PositionRow4()
    ensures forall col :: 0 <= col < 10 ==> Position(Rows[4][col]) == Some((4, col))
  {
  }

  lemma PositionRow5()
    ensures forall col :: 0 <= col < 10 ==> Position(Rows[5][col]) == Some((5, col))
  {
  }

  lemma PositionRow6()
    ensures forall col :: 0 <= col < 10 ==> Position(Rows[6][col]) == Some((6, col))
  {
  }

  lemma PositionRow7()
    ensures forall col :: 0 <= col < 10 ==> Position(Rows[7][col]) == Some((7, col))
  {
  }

  lemma PositionOfKeys()
    ensures forall row, col :: OnGrid(row, col) ==> Position(KeyAt(row, col)) == Some((row, col))
  {
    PositionRow0(); PositionRow1(); PositionRow2(); PositionRow3();
    PositionRow4(); PositionRow5(); PositionRow6(); PositionRow7();
  }

  /** The 80 keys are distinct, so the row scan finds every key at its own position,
      and finds nothing for a character not on the keyboard */
  lemma LocateIsPosition(c: char)
    ensures Locate(c) == Position(c)
  {
    PositionOfKeys();
    match RowFrom(c, 0)
    case None =>
    case Some(row) =>
      var j := IndexOf(Rows[row], c);
      assert Position(KeyAt(row, j)) == Some((row, j));
  }

  lemma KeysDistinct(r1: nat, c1: nat, r2: nat, c2: nat)
    requires OnGrid(r1, c1) && OnGrid(r2, c2)
    ensures KeyAt(r1, c1) == KeyAt(r2, c2) <==> r1 == r2 && c1 == c2
  {
    PositionOfKeys();
  }

  /** The eight places _mistype_key tries around a key, in its order, as (row offset,
      column offset): left, up-left, down-left, right, up-right, down-right, up, down */
  function Offset(k: nat): (int, int)
    requires k < 8
  {
    match k
    case 0 => (0, -1)
    case 1 => (-1, -1)
    case 2 => (1, -1)
    case 3 => (0, 1)
    case 4 => (-1, 1)
    case 5 => (1, 1)
    case 6 => (-1, 0)
    case _ => (1, 0)
  }

  /** A key the source may offer in place of another, with its weight */
  datatype Candidate = Candidate(row: int, col: int, weight: real)

  /** The candidate in place k around (row, col): weight 1 beside, above or below the
      key, cos 45 on a diagonal */
  function Slot(row: nat, col: nat, k: nat): Candidate
    requires k < 8
  {
    var (dr, dc) := Offset(k);
    Candidate(row + dr, col + dc, if dr == 0 || dc == 0 then 1.0 else Cos45)
  }

  /** The boundary flags of the source allow place k: no left move from column 0, no
      right move from the last column, no up move from the top row of a layer of four
      and no down move from its bottom row */
  predicate Allowed(row: nat, col: nat, k: nat)
    requires k < 8
  {
    var (dr, dc) := Offset(k);
    && (dc == -1 ==> col != 0)
    && (dc == 1 ==> col < 9)
    && (dr == -1 ==> row % 4 != 0)
    && (dr == 1 ==> row % 4 != 3)
  }

  /** s, with x appended when `keep` holds */
  function Opt(s: seq<Candidate>, keep: bool, x: Candidate): seq<Candidate>
  {
    if keep then s + [x] else s
  }

  /** The allowed candidates among the first k places, in order */
  function Gather(row: nat, col: nat, k: nat): seq<Candidate>
    requires k <= 8
  {
    if k == 0 then [] else Opt(Gather(row, col, k - 1), Allowed(row, col, k - 1), Slot(row, col, k - 1))
  }

  /** The candidates of the key at (row, col), in the order the source inserts them */
  function Candidates(row: nat, col: nat): seq<Candidate>
  {
    Gather(row, col, 8)
  }

  /** (r, c) is a different key at most one row and one column away from (row, col),
      within the same layer of four rows */
  predicate Neighbour(row: int, col: int, r: int, c: int)
  {
    && OnGrid(r, c)
    && row / 4 == r / 4
    && -1 <= r - row <= 1 && -1 <= c - col <= 1
    && (r != row || c != col)
  }

  /** A place is allowed exactly when it holds a neighbour */
  lemma SlotMeaning(row: nat, col: nat, k: nat)
    requires OnGrid(row, col) && k < 8
    ensures Allowed(row, col, k) <==> Neighbour(row, col, Slot(row, col, k).row, Slot(row, col, k).col)
  {
  }

  /** Every neighbour sits in one of the eight places */
  lemma NeighbourHasSlot(row: nat, col: nat, r: int, c: int) returns (k: nat)
    requires OnGrid(row, col) && Neighbour(row, col, r, c)
    ensures k < 8 && Slot(row, col, k).row == r && Slot(row, col, k).col == c
  {
    var dr, dc := r - row, c - col;
    k := if dc == -1 then (if dr == 0 then 0 else if dr == -1 then 1 else 2)
      else if dc == 1 then (if dr == 0 then 3 else if dr == -1 then 4 else 5)
      else if dr == -1 then 6 else 7;
  }

  /** The gathered candidates are the allowed places, each once: membership, and no
      position twice */
  lemma {:induction false} GatherMeaning(row: nat, col: nat, k: nat)
    requires k <= 8
    ensures forall x :: x in Gather(row, col, k) <==> exists j :: 0 <= j < k && Allowed(row, col, j) && x == Slot(row, col, j)
    ensures forall i, j :: 0 <= i < j < |Gather(row, col, k)| ==>
      (Gather(row, col, k)[i].row, Gather(row, col, k)[i].col) != (Gather(row, col, k)[j].row, Gather(row, col, k)[j].col)
  {
    if k > 0 {
      GatherMeaning(row, col, k - 1);
      var s := Gather(row, col, k - 1);
      var x := Slot(row, col, k - 1);
      forall i | 0 <= i < |s|
        ensures (s[i].row, s[i].col) != (x.row, x.col)
      {
        assert s[i] in s;
        var j :| 0 <= j < k - 1 && Allowed(row, col, j) && s[i] == Slot(row, col, j);
        assert Offset(j) != Offset(k - 1);
      }
    }
  }

  predicate IsCandidate(row: nat, col: nat, r: int, c: int)
  {
    exists x :: x in Candidates(row, col) && x.row == r && x.col == c
  }

  /** Every candidate is a neighbour, with weight 1 when it shares a row or a column
      with the key and cos 45 otherwise */
  lemma CandidatesAreNeighbours(row: nat, col: nat)
    requires OnGrid(row, col)
    ensures forall x :: x in Candidates(row, col) ==>
      && Neighbour(row, col, x.row, x.col)
      && x.weight == (if x.row == row || x.col == col then 1.0 else Cos45)
  {
    GatherMeaning(row, col, 8);
    forall x | x in Candidates(row, col)
      ensures Neighbour(row, col, x.row, x.col)
    {
      var j :| 0 <= j < 8 && Allowed(row, col, j) && x == Slot(row, col, j);
      SlotMeaning(row, col, j);
    }
  }

  /** ... and every neighbour is a candidate */
  lemma NeighboursAreCandidates(row: nat, col: nat, r: int, c: int)
    requires OnGrid(row, col) && Neighbour(row, col, r, c)
    ensures IsCandidate(row, col, r, c)
  {
    var k := NeighbourHasSlot(row, col, r, c);
    SlotMeaning(row, col, k);
    GatherMeaning(row, col, 8);
    assert Slot(row, col, k) in Candidates(row, col);
  }

  /** A diagonal key is offered only when both keys beside it, the horizontal and the
      vertical neighbour, are offered too */
  lemma DiagonalNeedsStraight(row: nat, col: nat, x: Candidate)
    requires OnGrid(row, col) && x in Candidates(row, col) && x.row != row && x.col != col
    ensures IsCandidate(row, col, row, x.col) && IsCandidate(row, col, x.row, col)
  {
    CandidatesAreNeighbours(row, col);
    NeighboursAreCandidates(row, col, row, x.col);
    NeighboursAreCandidates(row, col, x.row, col);
  }

  /** Every key has a candidate, and no position is offered twice */
  lemma CandidatesShape(row: nat, col: nat)
    requires OnGrid(row, col)
    ensures Candidates(row, col) != []
    ensures forall i, j :: 0 <= i < j < |Candidates(row, col)| ==>
      (Candidates(row, col)[i].row, Candidates(row, col)[i].col) != (Candidates(row, col)[j].row, Candidates(row, col)[j].col)
  {
    GatherMeaning(row, col, 8);
    var k := if col == 0 then 3 else 0;
    assert Allowed(row, col, k);
    assert Slot(row, col, k) in Candidates(row, col);
  }

  /** A Python dictionary as its entries in insertion order: no key twice */
  predicate DistinctKeys(d: seq<(char, real)>)
  {
    forall i, j :: 0 <= i < j < |d| ==> d[i].0 != d[j].0
  }

  /** Python dictionary assignment d[k] = v on the list of entries in insertion order:
      an existing key keeps its place and takes the new value, a new key goes last */
  function Put(d: seq<(char, real)>, k: char, v: real): seq<(char, real)>
  {
    if d == [] then [(k, v)]
    else if d[0].0 == k then [(k, v)] + d[1..]
    else [d[0]] + Put(d[1..], k, v)
  }

  /** Assigning to a new key appends it */
  lemma {:induction false} PutFresh(d: seq<(char, real)>, k: char, v: real)
    requires forall i :: 0 <= i < |d| ==> d[i].0 != k
    ensures Put(d, k, v) == d + [(k, v)]
  {
    if d != [] {
      PutFresh(d[1..], k, v);
      assert [d[0]] + (d[1..] + [(k, v)]) == d + [(k, v)];
    }
  }

  /** Assigning to a present key changes its value and nothing else */
  lemma {:induction false} PutPresent(d: seq<(char, real)>, k: char, v: real)
    requires DistinctKeys(d)
    requires exists i :: 0 <= i < |d| && d[i].0 == k
    ensures |Put(d, k, v)| == |d|
    ensures forall i :: 0 <= i < |d| ==> Put(d, k, v)[i] == (if d[i].0 == k then (k, v) else d[i])
  {
    if d[0].0 != k {
      var i :| 0 <= i < |d| && d[i].0 == k;
      assert d[1..][i - 1].0 == k;
      PutPresent(d[1..], k, v);
    } else {
      assert forall i :: 1 <= i < |d| ==> d[i].0 != k;
    }
  }

  /** Either way the dictionary never holds a key twice */
  lemma PutDistinct(d: seq<(char, real)>, k: char, v: real)
    requires DistinctKeys(d)
    ensures DistinctKeys(Put(d, k, v))
  {
    if forall i :: 0 <= i < |d| ==> d[i].0 != k {
      PutFresh(d, k, v);
    } else {
      PutPresent(d, k, v);
    }
  }

  /** The dictionary entries for a list of candidates: each candidate's key and weight */
  function Entries(xs: seq<Candidate>): (d: seq<(char, real)>)
    ensures |d| == |xs|
    ensures forall i :: 0 <= i < |xs| ==> d[i] == (KeyOf(xs[i]), xs[i].weight)
  {
    if xs == [] then [] else Entries(xs[..|xs| - 1]) + [(KeyOf(xs[|xs| - 1]), xs[|xs| - 1].weight)]
  }

  /** d[k] = v for the candidate in place k, when the boundary flags allow the place */
  function Offer(row: nat, col: nat, d: seq<(char, real)>, k: nat): seq<(char, real)>
    requires k < 8
  {
    if Allowed(row, col, k) then Put(d, KeyOf(Slot(row, col, k)), Slot(row, col, k).weight) else d
  }

  /** The dictionary after the source has tried the first k places */
  function OfferAll(row: nat, col: nat, k: nat): seq<(char, real)>
    requires k <= 8
  {
    if k == 0 then [] else Offer(row, col, OfferAll(row, col, k - 1), k - 1)
  }

  /** The `choices` dictionary _mistype_key builds for the key at (row, col) */
  function Choices(row: nat, col: nat): seq<(char, real)>
  {
    OfferAll(row, col, 8)
  }

  /** The key of an allowed place differs from the keys of the places gathered before it */
  lemma EarlierKeysDiffer(row: nat, col: nat, k: nat)
    requires OnGrid(row, col) && k < 8 && Allowed(row, col, k)
    ensures forall i :: 0 <= i < |Gather(row, col, k)| ==> KeyOf(Gather(row, col, k)[i]) != KeyOf(Slot(row, col, k))
  {
    var s := Gather(row, col, k);
    var x := Slot(row, col, k);
    GatherMeaning(row, col, k);
    SlotMeaning(row, col, k);
    forall i | 0 <= i < |s|
      ensures KeyOf(s[i]) != KeyOf(x)
    {
      assert s[i] in s;
      var j :| 0 <= j < k && Allowed(row, col, j) && s[i] == Slot(row, col, j);
      SlotMeaning(row, col, j);
      KeysDistinct(s[i].row, s[i].col, x.row, x.col);
    }
  }

  /** Trying place k adds the candidate of place k, if any, to the entries */
  lemma OfferStep(row: nat, col: nat, k: nat)
    requires OnGrid(row, col) && k < 8
    requires OfferAll(row, col, k) == Entries(Gather(row, col, k))
    ensures OfferAll(row, col, k + 1) == Entries(Gather(row, col, k + 1))
  {
    var s := Gather(row, col, k);
    var x := Slot(row, col, k);
    if Allowed(row, col, k) {
      assert Gather(row, col, k + 1) == s + [x];
      assert OfferAll(row, col, k + 1) == Put(Entries(s), KeyOf(x), x.weight);
      EarlierKeysDiffer(row, col, k);
      PutFresh(Entries(s), KeyOf(x), x.weight);
      assert (s + [x])[..|s|] == s;
      assert Entries(s + [x]) == Entries(s) + [(KeyOf(x), x.weight)];
    } else {
      assert Gather(row, col, k + 1) == s;
    }
  }

  /** No assignment overwrites another, since keys at different places differ: the
      dictionary lists every candidate's key and weight, in the order of the candidates */
  lemma {:induction false} OfferAllEntries(row: nat, col: nat, k: nat)
    requires OnGrid(row, col) && k <= 8
    ensures OfferAll(row, col, k) == Entries(Gather(row, col, k))
  {
    if k > 0 {
      OfferAllEntries(row, col, k - 1);
      OfferStep(row, col, k - 1);
    }
  }

  lemma ChoicesAreCandidates(row: nat, col: nat)
    requires OnGrid(row, col)
    ensures Choices(row, col) == Entries(Candidates(row, col))
  {
    OfferAllEntries(row, col, 8);
  }

  /** The dictionary handed to _dictionary_sample is never empty and has no negative weight */
  lemma ChoicesUsable(row: nat, col: nat)
    requires OnGrid(row, col)
    ensures Choices(row, col) != [] && NonNegative(Choices(row, col))
  {
    ChoicesAreCandidates(row, col);
    CandidatesShape(row, col);
    CandidatesAreNeighbours(row, col);
    forall i | 0 <= i < |Choices(row, col)|
      ensures Choices(row, col)[i].1 >= 0.0
    {
      assert Candidates(row, col)[i] in Candidates(row, col);
    }
  }

  /** _mistype_key with draws from index n: anything but a single keyboard character
      comes back unchanged without a draw; a key is replaced by the weighted choice
      among its neighbours, using one draw */
  function Mistype(c: string, rnd: Stream, n: nat): (r: (string, nat))
    ensures |r.0| == |c|
    ensures r.1 == n || r.1 == n + 1
  {
    if |c| != 1 then (c, n)
    else match Locate(c[0])
      case None => (c, n)
      case Some((row, col)) =>
        ChoicesUsable(row, col);
        PickFound(Choices(row, col), rnd(n));
        ([Pick(Choices(row, col), rnd(n)).value], n + 1)
  }

  /** _mistype_key: find the row and column of the key, collect its neighbours, and
      sample them */
  method MistypeKey(c: string, rnd: Stream, n: nat) returns (r: string, next: nat)
    ensures (r, next) == Mistype(c, rnd, n)
  {
    if |c| != 1 {
      return c, n;
    }
    var row := 0;
    while row <= 7 && c[0] !in Rows[row]
      invariant 0 <= row <= 8
      invariant RowFrom(c[0], 0) == RowFrom(c[0], row)
    {
      row := row + 1;
    }
    if row > 7 {
      assert Locate(c[0]) == None;
      return c, n;
    }
    var col := IndexOf(Rows[row], c[0]);
    assert Locate(c[0]) == Some((row, col));
    var choices := CollectChoices(row, col);
    var key;
    key, next := DictionarySample(choices, rnd, n);
    ChoicesUsable(row, col);
    PickFound(choices, rnd(n));
    r := [key.value];
    assert Mistype(c, rnd, n) == ([Pick(Choices(row, col), rnd(n)).value], n + 1);
  }

  /** _mistype_key draws from the generator exactly when c is a single keyboard
      character; otherwise c comes back as it is */
  lemma MistypeDraws(c: string, rnd: Stream, n: nat)
    ensures Mistype(c, rnd, n).1 == n + 1 <==> |c| == 1 && Position(c[0]).Some?
    ensures Mistype(c, rnd, n).1 == n <==> Mistype(c, rnd, n) == (c, n)
    ensures Mistype(c, rnd, n).1 == n || Mistype(c, rnd, n).1 == n + 1
  {
    if |c| == 1 {
      LocateIsPosition(c[0]);
    }
  }

  /** A keyboard character is replaced by one other character: the key of one of its
      neighbours on the grid, never the character itself */
  lemma MistypeNeighbour(c: string, rnd: Stream, n: nat, row: nat, col: nat)
    requires |c| == 1 && Position(c[0]) == Some((row, col))
    ensures OnGrid(row, col) && KeyAt(row, col) == c[0]
    ensures |Mistype(c, rnd, n).0| == 1 && Mistype(c, rnd, n).0[0] != c[0]
    ensures exists r, k :: Neighbour(row, col, r, k) && Mistype(c, rnd, n).0[0] == KeyAt(r, k)
  {
    LocateIsPosition(c[0]);
    var d := Choices(row, col);
    ChoicesUsable(row, col);
    PickFound(d, rnd(n));
    var j :| 0 <= j < |d| && Pick(d, rnd(n)) == Some(d[j].0);
    ChoicesAreCandidates(row, col);
    var x := Candidates(row, col)[j];
    assert x in Candidates(row, col);
    CandidatesAreNeighbours(row, col);
    assert Mistype(c, rnd, n).0[0] == KeyAt(x.row, x.col);
    KeysDistinct(row, col, x.row, x.col);
  }

  /** The candidates around 'q', at row 1 and column 0: no place to the left, all three
      to the right, then above and below */
  lemma CandidatesOfQ()
    ensures Candidates(1, 0) == [Candidate(1, 1, 1.0), Candidate(0, 1, Cos45), Candidate(2, 1, Cos45), Candidate(0, 0, 1.0), Candidate(2, 0, 1.0)]
  {
    assert Gather(1, 0, 3) == [];
  }

  /** The neighbours of 'q' on the first letter row: 'w' beside it, '2' and 's' on the
      diagonals, '1' above and 'a' below, in the order the dictionary receives them */
  lemma ChoicesOfQ()
    ensures Position('q') == Some((1, 0))
    ensures Choices(1, 0) == [('w', 1.0), ('2', Cos45), ('s', Cos45), ('1', 1.0), ('a', 1.0)]
  {
    assert Rows[1][0] == 'q';
    PositionRow1();
    ChoicesAreCandidates(1, 0);
    CandidatesOfQ();
    EntriesOfQ();
  }

  /** The keys and weights of the neighbours of 'q', in the order they are offered */
  lemma EntriesOfQ()
    ensures Entries([Candidate(1, 1, 1.0), Candidate(0, 1, Cos45), Candidate(2, 1, Cos45), Candidate(0, 0, 1.0), Candidate(2, 0, 1.0)])
         == [('w', 1.0), ('2', Cos45), ('s', Cos45), ('1', 1.0), ('a', 1.0)]
  {
    assert KeyAt(1, 1) == 'w' && KeyAt(0, 1) == '2' && KeyAt(2, 1) == 's';
    assert KeyAt(0, 0) == '1' && KeyAt(2, 0) == 'a';
  }

  /** Place k, when allowed, assigns the key at (r, c) with its weight */
  lemma OfferTaken(row: nat, col: nat, k: nat, r: nat, c: nat, w: real)
    requires OnGrid(row, col) && k < 8 && Allowed(row, col, k)
    requires (r - row, c - col) == Offset(k) && w == (if r == row || c == col then 1.0 else Cos45)
    ensures OnGrid(r, c) && OfferAll(row, col, k + 1) == Put(OfferAll(row, col, k), KeyAt(r, c), w)
  {
    assert Slot(row, col, k) == Candidate(r, c, w);
    assert OnGrid(r, c);
  }

  /** Place k, when not allowed, leaves the dictionary as it is */
  lemma OfferSkipped(row: nat, col: nat, k: nat)
    requires k < 8 && !Allowed(row, col, k)
    ensures OfferAll(row, col, k + 1) == OfferAll(row, col, k)
  {
  }

  /** The part of _mistype_key that fills the `choices` dictionary from the boundary flags */
  method CollectChoices(row: nat, col: nat) returns (choices: seq<(char, real)>)
    requires OnGrid(row, col)
    ensures choices == Choices(row, col)
  {
    var lb, rb := col == 0, col >= RowLength(row) - 1;
    var tb, bb := row % 4 == 0, row % 4 == 3;
    LayerEdges(row);
    choices := [];
    choices := OfferSide(row, col, -1, lb, tb, bb, choices);
    choices := OfferSide(row, col, 1, rb, tb, bb, choices);
    if !tb {
      OfferTaken(row, col, 6, row - 1, col, 1.0);
      choices := Put(choices, KeyAt(row - 1, col), 1.0);
    } else {
      OfferSkipped(row, col, 6);
    }
    assert choices == OfferAll(row, col, 7);
    if !bb {
      OfferTaken(row, col, 7, row + 1, col, 1.0);
      choices := Put(choices, KeyAt(row + 1, col), 1.0);
    } else {
      OfferSkipped(row, col, 7);
    }
  }

  /** A row that is not the top of its layer has a row above it, and one that is not the
      bottom has a row below it */
  lemma LayerEdges(row: nat)
    requires row < 8
    ensures row % 4 != 0 ==> row >= 1
    ensures row % 4 != 3 ==> row + 1 < 8
  {
  }

  /** The first place of the side `side` (-1 left, 1 right) among the eight */
  function SideBase(side: int): nat
  {
    if side == -1 then 0 else 3
  }

  /** One of the two side blocks of _mistype_key: unless the key is on that edge, the key
      beside it, then the diagonal one above and the one below where the layer allows */
  method OfferSide(row: nat, col: nat, side: int, edge: bool, tb: bool, bb: bool, choices: seq<(char, real)>)
    returns (r: seq<(char, real)>)
    requires OnGrid(row, col) && (side == -1 || side == 1)
    requires edge == (if side == -1 then col == 0 else col >= 9)
    requires tb == (row % 4 == 0) && bb == (row % 4 == 3)
    requires choices == OfferAll(row, col, SideBase(side))
    ensures r == OfferAll(row, col, SideBase(side) + 3)
  {
    var k := SideBase(side);
    LayerEdges(row);
    r := choices;
    if !edge {
      OfferTaken(row, col, k, row, col + side, 1.0);
      r := Put(r, KeyAt(row, col + side), 1.0);
      if !tb {
        OfferTaken(row, col, k + 1, row - 1, col + side, Cos45);
        r := Put(r, KeyAt(row - 1, col + side), Cos45);
      } else {
        OfferSkipped(row, col, k + 1);
      }
      if !bb {
        OfferTaken(row, col, k + 2, row + 1, col + side, Cos45);
        r := Put(r, KeyAt(row + 1, col + side), Cos45);
      } else {
        OfferSkipped(row, col, k + 2);
      }
    } else {
      OfferSkipped(row, col, k);
      OfferSkipped(row, col, k + 1);
      OfferSkipped(row, col, k + 2);
    }
  }
}
