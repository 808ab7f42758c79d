/** Division of a word into syllable-like blocks with categories (_word_blocks).
    The word is cut into maximal runs of vowels, consonants and other characters; a
    word that is one vowel run, or one consonant run followed by one vowel run, is a
    single block; otherwise the runs are read left to right and tagged. */
module Segment {
  import opened Chars
  import opened Seqs

  /** The categories _word_blocks produces ("c" and "v" are named in the source's
      category tuple but never produced) */
  datatype Category =
    | VowelConsonant      // "vc": a vowel run merged with the consonant run after it
    | ConsonantBegin      // "c_b": a consonant run with no letter before it
    | VowelEnd            // "v_e": a vowel run with no letter after it
    | VowelWord           // "v_w": the whole word is one vowel run
    | ConsonantVowelWord  // "cv_w": the whole word is a consonant run then a vowel run
    | NonLetter           // "n": everything else

  /** The category's name in the source and in its rule file */
  function Name(c: Category): string
  {
    match c
    case VowelConsonant => "vc"
    case ConsonantBegin => "c_b"
    case VowelEnd => "v_e"
    case VowelWord => "v_w"
    case ConsonantVowelWord => "cv_w"
    case NonLetter => "n"
  }

  predicate AllKind(s: string, k: Kind)
  {
    forall j :: 0 <= j < |s| ==> KindOf(s[j]) == k
  }

  /** A non-empty string of characters of one class */
  predicate IsRun(s: string)
  {
    s != [] && AllKind(s, KindOf(s[0]))
  }

  /** Non-empty, uniform runs, no two neighbours of the same class */
  predicate WellFormedRuns(runs: seq<string>)
  {
    && (forall j :: 0 <= j < |runs| ==> IsRun(runs[j]))
    && (forall j, k :: 0 <= j && k == j + 1 < |runs| ==> KindOf(runs[j][0]) != KindOf(runs[k][0]))
  }

  /** The non-empty pieces of re.split("([aeiou]+)|([bcdfghjklmnpqrstvwxyz]+)", w,
      flags=re.IGNORECASE): the maximal runs of vowels, consonants and other characters */
  function Runs(w: string): (runs: seq<string>)
    ensures forall j :: 0 <= j < |runs| ==> runs[j] != []
    ensures w != [] ==> runs != [] && runs[0][0] == w[0]
  {
    if w == [] then []
    else
      var rest := Runs(w[1..]);
      if rest != [] && KindOf(rest[0][0]) == KindOf(w[0]) then
        [[w[0]] + rest[0]] + rest[1..]
      else
        [[w[0]]] + rest
  }

  /** The runs, concatenated in order, give the word back */
  lemma {:induction false} RunsConcat(w: string)
    ensures Concat(Runs(w)) == w
  {
    if w != [] {
      var rest := Runs(w[1..]);
      RunsConcat(w[1..]);
      var runs := Runs(w);
      if rest != [] && KindOf(rest[0][0]) == KindOf(w[0]) {
        assert runs[1..] == rest[1..];
        calc {
          Concat(runs);
          runs[0] + Concat(rest[1..]);
          [w[0]] + (rest[0] + Concat(rest[1..]));
          [w[0]] + Concat(rest);
          w;
        }
      } else {
        assert runs[1..] == rest;
        assert [w[0]] + w[1..] == w;
      }
    }
  }

  /** Every run is uniform and neighbouring runs differ in class, so every run is maximal */
  lemma {:induction false} RunsWellFormed(w: string)
    ensures WellFormedRuns(Runs(w))
  {
    if w != [] {
      var rest := Runs(w[1..]);
      RunsWellFormed(w[1..]);
      var runs := Runs(w);
      if rest != [] && KindOf(rest[0][0]) == KindOf(w[0]) {
        assert forall j :: 1 <= j < |runs| ==> runs[j] == rest[j];
        assert IsRun(runs[0]) by {
          assert forall j :: 1 <= j < |runs[0]| ==> runs[0][j] == rest[0][j - 1];
        }
        forall j, k | 0 <= j && k == j + 1 < |runs|
          ensures KindOf(runs[j][0]) != KindOf(runs[k][0])
        {
          if j == 0 {
            assert KindOf(rest[0][0]) != KindOf(rest[1][0]);
          } else {
            assert KindOf(rest[j][0]) != KindOf(rest[k][0]);
          }
        }
      } else {
        assert forall j :: 1 <= j < |runs| ==> runs[j] == rest[j - 1];
        forall j, k | 0 <= j && k == j + 1 < |runs|
          ensures KindOf(runs[j][0]) != KindOf(runs[k][0])
        {
          if j > 0 {
            assert KindOf(rest[j - 1][0]) != KindOf(rest[k - 1][0]);
          }
        }
      }
    }
  }

  /** One run per class change: a uniform word is a single run */
  lemma {:induction false} RunsOfRun(w: string)
    requires IsRun(w)
    ensures Runs(w) == [w]
  {
    if |w| > 1 {
      assert IsRun(w[1..]) by {
        assert forall j :: 0 <= j < |w| - 1 ==> w[1..][j] == w[j + 1];
      }
      RunsOfRun(w[1..]);
      assert KindOf(Runs(w[1..])[0][0]) == KindOf(w[0]);
      assert [w[0]] + w[1..] == w;
    } else {
      assert w[1..] == [];
      assert [w[0]] == w;
    }
  }

  /** A run followed by text that starts with another class stays a run of its own */
  lemma {:induction false} RunsPrepend(u: string, v: string)
    requires IsRun(u)
    requires v != [] ==> KindOf(v[0]) != KindOf(u[0])
    ensures Runs(u + v) == [u] + Runs(v)
  {
    if |u| == 1 {
      assert (u + v)[1..] == v;
      assert u == [u[0]];
    } else {
      assert IsRun(u[1..]) by {
        assert forall j :: 0 <= j < |u| - 1 ==> u[1..][j] == u[j + 1];
      }
      RunsPrepend(u[1..], v);
      assert (u + v)[1..] == u[1..] + v;
      var rest := Runs(u[1..] + v);
      assert rest[0] == u[1..] && rest[1..] == Runs(v);
      assert KindOf(rest[0][0]) == KindOf(u[0]);
      assert [u[0]] + u[1..] == u;
    }
  }

  function Cons(b: string, c: Category, r: (seq<string>, seq<Category>)): (seq<string>, seq<Category>)
  {
    ([b] + r.0, [c] + r.1)
  }

  /** One step of the reading loop of _word_blocks at run i: the block it appends,
      that block's category, and the index of the next run to read (a vowel run that
      absorbs the consonant run after it skips that run) */
  function Step(runs: seq<string>, i: nat): (s: (string, Category, nat))
    requires forall j :: 0 <= j < |runs| ==> runs[j] != []
    requires i < |runs|
    ensures i < s.2 <= |runs|
  {
    var pbreak := i == 0 || !IsAlpha(runs[i - 1][0]);
    var nbreak := i == |runs| - 1 || !IsAlpha(runs[i + 1][0]);
    var c := Lower(runs[i][0]);
    if IsConsonant(c) && pbreak then (runs[i], ConsonantBegin, i + 1)
    else if IsVowel(c) && nbreak then (runs[i], VowelEnd, i + 1)
    else if IsVowel(c) && IsConsonant(Lower(runs[i + 1][0])) then
      (runs[i] + runs[i + 1], VowelConsonant, i + 2)
    else (runs[i], NonLetter, i + 1)
  }

  /** The blocks and categories the reading loop produces from run i on */
  function TagFrom(runs: seq<string>, i: nat): (r: (seq<string>, seq<Category>))
    requires forall j :: 0 <= j < |runs| ==> runs[j] != []
    requires i <= |runs|
    decreases |runs| - i
    ensures |r.0| == |r.1|
  {
    if i == |runs| then ([], [])
    else
      var (b, c, next) := Step(runs, i);
      Cons(b, c, TagFrom(runs, next))
  }

  /** The blocks of the reading loop are the runs it reads, in order */
  lemma {:induction false} TagFromConcat(runs: seq<string>, i: nat)
    requires forall j :: 0 <= j < |runs| ==> runs[j] != []
    requires i <= |runs|
    decreases |runs| - i
    ensures Concat(TagFrom(runs, i).0) == Concat(runs[i..])
  {
    if i < |runs| {
      assert runs[i..] == [runs[i]] + runs[i + 1..];
      var step := Step(runs, i);
      var rest := TagFrom(runs, step.2);
      var bs := TagFrom(runs, i).0;
      assert bs == [step.0] + rest.0 && bs[1..] == rest.0;
      TagFromConcat(runs, step.2);
      assert Concat(bs) == step.0 + Concat(rest.0);
      assert Concat(runs[i..]) == runs[i] + Concat(runs[i + 1..]);
      if step.2 == i + 2 {
        assert runs[i + 1..] == [runs[i + 1]] + runs[i + 2..];
        assert Concat(runs[i + 1..]) == runs[i + 1] + Concat(runs[i + 2..]);
        assert step.0 == runs[i] + runs[i + 1];
        assert (runs[i] + runs[i + 1]) + Concat(runs[i + 2..]) == runs[i] + (runs[i + 1] + Concat(runs[i + 2..]));
      } else {
        assert step.0 == runs[i];
      }
    }
  }

  /** Blocks and categories already produced, followed by those still to come */
  function Prefixed(bs: seq<string>, cs: seq<Category>, r: (seq<string>, seq<Category>)): (seq<string>, seq<Category>)
  {
    (bs + r.0, cs + r.1)
  }

  lemma Advance(bs: seq<string>, cs: seq<Category>, b: string, c: Category, r: (seq<string>, seq<Category>))
    ensures Prefixed(bs, cs, Cons(b, c, r)) == Prefixed(bs + [b], cs + [c], r)
  {
    assert bs + ([b] + r.0) == (bs + [b]) + r.0;
    assert cs + ([c] + r.1) == (cs + [c]) + r.1;
  }

  /** One step of the reading loop moves one block and its category from what is still
      to come to what has been produced */
  lemma ReadStep(runs: seq<string>, i: nat, bs: seq<string>, cs: seq<Category>)
    requires forall j :: 0 <= j < |runs| ==> runs[j] != []
    requires i < |runs|
    ensures var step := Step(runs, i);
      Prefixed(bs, cs, TagFrom(runs, i)) == Prefixed(bs + [step.0], cs + [step.1], TagFrom(runs, step.2))
  {
    var step := Step(runs, i);
    assert TagFrom(runs, i) == Cons(step.0, step.1, TagFrom(runs, step.2));
    Advance(bs, cs, step.0, step.1, TagFrom(runs, step.2));
  }

  /** _word_blocks(w) as a value: the list of blocks and the list of their categories */
  function Segmentation(w: string): (r: (seq<string>, seq<Category>))
    ensures |r.0| == |r.1|
  {
    var runs := Runs(w);
    if |runs| == 1 && IsVowel(Lower(runs[0][0])) then ([w], [VowelWord])
    else if |runs| == 2 && IsConsonant(Lower(runs[0][0])) && IsVowel(Lower(runs[1][0])) then
      ([w], [ConsonantVowelWord])
    else TagFrom(runs, 0)
  }

  /** Segmentation is a lossless partition: the blocks, concatenated in order, give the
      word back, no block is empty, and there is one category per block */
  lemma SegmentationPartition(w: string)
    ensures var (blocks, cats) := Segmentation(w);
      && |blocks| == |cats|
      && Concat(blocks) == w
      && forall k :: 0 <= k < |blocks| ==> blocks[k] != []
  {
    var runs := Runs(w);
    RunsConcat(w);
    if |runs| == 1 && IsVowel(Lower(runs[0][0])) {
      assert Concat([w]) == w + Concat([]);
    } else if |runs| == 2 && IsConsonant(Lower(runs[0][0])) && IsVowel(Lower(runs[1][0])) {
      assert Concat([w]) == w + Concat([]);
    } else {
      TagFromConcat(runs, 0);
      RunsWellFormed(w);
      TagFromMeaning(runs, 0);
      assert runs[0..] == runs;
    }
  }

  /** b is a non-empty vowel run followed by a non-empty consonant run */
  predicate IsVowelConsonant(b: string)
  {
    exists m :: 0 < m < |b| && AllKind(b[..m], Vowel) && AllKind(b[m..], Consonant)
  }

  /** b is a non-empty consonant run followed by a non-empty vowel run */
  predicate IsConsonantVowel(b: string)
  {
    exists m :: 0 < m < |b| && AllKind(b[..m], Consonant) && AllKind(b[m..], Vowel)
  }

  /** What category cs[k] says about block bs[k] and its neighbours; `before` is the
      character in front of the first block, if there is one */
  predicate Fits(bs: seq<string>, cs: seq<Category>, k: nat, before: Option<char>)
    requires |bs| == |cs| && k < |bs|
    requires forall j :: 0 <= j < |bs| ==> bs[j] != []
  {
    match cs[k]
    case ConsonantBegin =>
      && AllKind(bs[k], Consonant)
      && (if k == 0 then before.None? || !IsAlpha(before.value) else !IsAlpha(Last(bs[k - 1])))
    case VowelEnd =>
      AllKind(bs[k], Vowel) && (k == |bs| - 1 || !IsAlpha(bs[k + 1][0]))
    case VowelConsonant => IsVowelConsonant(bs[k])
    case NonLetter => AllKind(bs[k], Other)
    case VowelWord => |bs| == 1 && AllKind(bs[0], Vowel)
    case ConsonantVowelWord => |bs| == 1 && IsConsonantVowel(bs[0])
  }

  /** A run the reading loop can start a step at: not a consonant run that the vowel run
      before it would have absorbed */
  predicate Visitable(runs: seq<string>, i: nat)
    requires forall j :: 0 <= j < |runs| ==> runs[j] != []
    requires i <= |runs|
  {
    i == 0 || i == |runs| || !(IsVowel(runs[i - 1][0]) && IsConsonant(runs[i][0]))
  }

  /** The character in front of run i, if there is one */
  function Before(runs: seq<string>, i: nat): Option<char>
    requires i <= |runs| && (i == 0 || runs[i - 1] != [])
  {
    if i == 0 then None else Some(Last(runs[i - 1]))
  }

  /** Prepending a block keeps the facts about the later blocks, once the character in
      front of them is the new block's last */
  lemma FitsShift(b: string, c: Category, bs: seq<string>, cs: seq<Category>, k: nat, before: Option<char>)
    requires |bs| == |cs| && 0 < k <= |bs| && b != []
    requires forall j :: 0 <= j < |bs| ==> bs[j] != []
    requires Fits(bs, cs, k - 1, Some(Last(b)))
    requires cs[k - 1] != VowelWord && cs[k - 1] != ConsonantVowelWord
    ensures forall j :: 0 <= j < |[b] + bs| ==> ([b] + bs)[j] != []
    ensures Fits([b] + bs, [c] + cs, k, before)
  {
    var bs', cs' := [b] + bs, [c] + cs;
    assert bs'[k] == bs[k - 1] && cs'[k] == cs[k - 1] && bs'[k - 1] == (if k == 1 then b else bs[k - 2]);
    assert k < |bs'| - 1 ==> bs'[k + 1] == bs[k];
  }

  /** What one step of the reading loop means: the block it cuts, its category, and
      where the next step starts */
  lemma StepMeaning(runs: seq<string>, i: nat)
    requires WellFormedRuns(runs)
    requires i < |runs| && Visitable(runs, i)
    ensures var (b, c, next) := Step(runs, i);
      && b != [] && b[0] == runs[i][0] && Last(b) == Last(runs[next - 1])
      && Visitable(runs, next)
      && c != VowelWord && c != ConsonantVowelWord
      && (c == ConsonantBegin ==> AllKind(b, Consonant) && (i == 0 || !IsAlpha(Last(runs[i - 1]))))
      && (c == VowelEnd ==> AllKind(b, Vowel) && (next == |runs| || !IsAlpha(runs[next][0])))
      && (c == VowelConsonant ==> IsVowelConsonant(b))
      && (c == NonLetter ==> AllKind(b, Other))
      && (next < |runs| ==> KindOf(Last(b)) != KindOf(runs[next][0]))
  {
    var (b, c, next) := Step(runs, i);
    assert IsRun(runs[i]);
    if i > 0 {
      assert IsRun(runs[i - 1]);
    }
    if next == i + 2 {
      assert IsRun(runs[i + 1]);
      assert IsVowelConsonant(b) by {
        assert b[..|runs[i]|] == runs[i] && b[|runs[i]|..] == runs[i + 1];
      }
    } else if c == NonLetter {
      assert KindOf(runs[i][0]) == Other;
    }
    if next < |runs| {
      assert IsRun(runs[next - 1]);
      assert KindOf(runs[next - 1][0]) != KindOf(runs[next][0]);
    }
  }

  /** The blocks the reading loop gives from a run it can start at: the first starts
      with that run, none is empty, none is tagged as a whole word, and no boundary
      between blocks falls inside a run */
  lemma {:induction false} TagFromShape(runs: seq<string>, i: nat)
    requires WellFormedRuns(runs)
    requires i <= |runs| && Visitable(runs, i)
    decreases |runs| - i
    ensures var r := TagFrom(runs, i);
      && (r.0 == [] <==> i == |runs|)
      && (i < |runs| ==> r.0[0][0] == runs[i][0])
      && (forall k :: 0 <= k < |r.0| ==> r.0[k] != [])
      && (forall k :: 0 <= k < |r.0| ==> r.1[k] != VowelWord && r.1[k] != ConsonantVowelWord)
      && (forall k, k' :: 0 <= k && k' == k + 1 < |r.0| ==> KindOf(Last(r.0[k])) != KindOf(r.0[k'][0]))
  {
    if i < |runs| {
      var step := Step(runs, i);
      var r := TagFrom(runs, i);
      var t := TagFrom(runs, step.2);
      assert r == Cons(step.0, step.1, t);
      StepMeaning(runs, i);
      TagFromShape(runs, step.2);
    }
  }

  /** The meaning of the tags the reading loop gives, from a run it can start at */
  lemma {:induction false} TagFromMeaning(runs: seq<string>, i: nat)
    requires WellFormedRuns(runs)
    requires i <= |runs| && Visitable(runs, i)
    decreases |runs| - i
    ensures var r := TagFrom(runs, i);
      && (r.0 == [] <==> i == |runs|)
      && (forall k :: 0 <= k < |r.0| ==> r.0[k] != [])
      && (forall k :: 0 <= k < |r.0| ==> Fits(r.0, r.1, k, Before(runs, i)))
  {
    TagFromShape(runs, i);
    if i < |runs| {
      var step := Step(runs, i);
      var b, c := step.0, step.1;
      var r := TagFrom(runs, i);
      var t := TagFrom(runs, step.2);
      var bs, cs, tbs, tcs := r.0, r.1, t.0, t.1;
      assert r == Cons(b, c, t);
      assert bs == [b] + tbs && cs == [c] + tcs;
      var before := Before(runs, i);
      StepMeaning(runs, i);
      TagFromShape(runs, step.2);
      TagFromMeaning(runs, step.2);
      assert Before(runs, step.2) == Some(Last(b));
      assert Fits(bs, cs, 0, before);
      forall k | 0 < k < |bs|
        ensures Fits(bs, cs, k, before)
      {
        FitsShift(b, c, tbs, tcs, k, before);
      }
    }
  }

  /** A word gets the single category v_w exactly when it is a non-empty run of vowels */
  lemma VowelWordIff(w: string)
    ensures Segmentation(w).1 == [VowelWord] <==> w != [] && AllKind(w, Vowel)
  {
    var runs := Runs(w);
    RunsConcat(w);
    RunsWellFormed(w);
    TagFromShape(runs, 0);
    if w != [] && AllKind(w, Vowel) {
      RunsOfRun(w);
    }
    if Segmentation(w).1 == [VowelWord] {
      assert Segmentation(w).1[0] == VowelWord;
      assert |runs| == 1 && IsVowel(Lower(runs[0][0]));
      assert Concat(runs) == runs[0] + Concat([]);
      assert IsRun(runs[0]);
    }
  }

  /** A consonant run followed by a vowel run is read as those two runs */
  lemma ConsonantVowelRuns(w: string, m: nat)
    requires 0 < m < |w| && AllKind(w[..m], Consonant) && AllKind(w[m..], Vowel)
    ensures Runs(w) == [w[..m], w[m..]]
  {
    assert w == w[..m] + w[m..];
    assert IsRun(w[..m]) && IsRun(w[m..]);
    RunsOfRun(w[m..]);
    RunsPrepend(w[..m], w[m..]);
  }

  /** A word gets the single category cv_w exactly when it is a consonant run followed by
      a vowel run */
  lemma ConsonantVowelWordIff(w: string)
    ensures Segmentation(w).1 == [ConsonantVowelWord] <==> IsConsonantVowel(w)
  {
    var runs := Runs(w);
    if IsConsonantVowel(w) {
      var m :| 0 < m < |w| && AllKind(w[..m], Consonant) && AllKind(w[m..], Vowel);
      ConsonantVowelRuns(w, m);
    }
    if Segmentation(w).1 == [ConsonantVowelWord] {
      RunsConcat(w);
      RunsWellFormed(w);
      TagFromShape(runs, 0);
      assert Segmentation(w).1[0] == ConsonantVowelWord;
      assert |runs| == 2 && IsConsonant(Lower(runs[0][0])) && IsVowel(Lower(runs[1][0]));
      assert IsRun(runs[0]) && IsRun(runs[1]);
      assert runs == [runs[0], runs[1]];
      ConcatPair(runs[0], runs[1]);
      var m := |runs[0]|;
      assert w[..m] == runs[0] && w[m..] == runs[1];
    }
  }

  /** Every block of a word fits its category, and no boundary between blocks falls
      inside a run */
  lemma SegmentationFits(w: string)
    ensures var (bs, cs) := Segmentation(w);
      && |bs| == |cs|
      && (forall k :: 0 <= k < |bs| ==> bs[k] != [])
      && (forall k :: 0 <= k < |bs| ==> Fits(bs, cs, k, None))
      && (forall k, k' :: 0 <= k && k' == k + 1 < |bs| ==> KindOf(Last(bs[k])) != KindOf(bs[k'][0]))
  {
    var runs := Runs(w);
    RunsConcat(w);
    RunsWellFormed(w);
    if |runs| == 1 && IsVowel(Lower(runs[0][0])) {
      VowelWordIff(w);
    } else if |runs| == 2 && IsConsonant(Lower(runs[0][0])) && IsVowel(Lower(runs[1][0])) {
      ConsonantVowelWordIff(w);
    } else {
      TagFromShape(runs, 0);
      TagFromMeaning(runs, 0);
      assert Before(runs, 0) == None;
    }
  }

  /** _word_blocks: splits w into runs, then reads them left to right */
  method WordBlocks(w: string) returns (blocks: seq<string>, cats: seq<Category>)
    ensures (blocks, cats) == Segmentation(w)
  {
    var clusters := Runs(w);
    if |clusters| == 1 && IsVowel(Lower(clusters[0][0])) {
      return [w], [VowelWord];
    }
    if |clusters| == 2 && IsConsonant(Lower(clusters[0][0])) && IsVowel(Lower(clusters[1][0])) {
      return [w], [ConsonantVowelWord];
    }
    blocks, cats := ReadRuns(clusters);
  }

  /** The reading loop of _word_blocks: a block and its category per step, skipping the
      consonant run a vowel run absorbs */
  method ReadRuns(clusters: seq<string>) returns (blocks: seq<string>, cats: seq<Category>)
    requires forall j :: 0 <= j < |clusters| ==> clusters[j] != []
    ensures (blocks, cats) == TagFrom(clusters, 0)
  {
    blocks, cats := [], [];
    var i := 0;  // the next run to read
    ghost var whole := TagFrom(clusters, 0);
    assert [] + whole.0 == whole.0 && [] + whole.1 == whole.1;
    while i < |clusters|
      invariant i <= |clusters|
      invariant whole == Prefixed(blocks, cats, TagFrom(clusters, i))
      decreases |clusters| - i
    {
      var step := Step(clusters, i);
      ReadStep(clusters, i, blocks, cats);
      blocks, cats := blocks + [step.0], cats + [step.1];
      i := step.2;
    }
    assert blocks + [] == blocks && cats + [] == cats;
  }
}
