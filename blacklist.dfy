/** The final blacklist pass of misspell_string: while a blacklisted word occurs in the
    text, ignoring case, the last character of its first occurrence is deleted. */
module Blacklist {
  import opened Chars
  import opened Seqs

  /** `w` occurs in `t`, ignoring case: t.lower().find(w.lower()) >= 0 */
  predicate Contains(t: string, w: string)
  {
    Find(LowerString(t), LowerString(w)).Some?
  }

  /** No entry of the blacklist is empty: an empty entry is found everywhere and its
      deletion loop never ends */
  predicate NonEmptyEntries(bl: seq<string>)
  {
    forall i :: 0 <= i < |bl| ==> bl[i] != []
  }

  /** t without its character at `pos` */
  function Delete(t: string, pos: nat): (r: string)
    requires pos < |t|
    ensures |r| == |t| - 1
  {
    t[..pos] + t[pos + 1..]
  }

  /** One turn of the deletion loop: the last character of the first occurrence of w */
  function LastOfFirst(t: string, w: string): (pos: nat)
    requires w != [] && Contains(t, w)
    ensures pos < |t|
  {
    Find(LowerString(t), LowerString(w)).value + |w| - 1
  }

  /** The deletion loop for one blacklisted word */
  function ScrubEntry(t: string, w: string): (r: string)
    requires w != []
    decreases |t|
  {
    if Contains(t, w) then ScrubEntry(Delete(t, LastOfFirst(t, w)), w) else t
  }

  /** The loop over the blacklist, one entry after another, each entry once */
  function ScrubAll(t: string, bl: seq<string>): string
    requires NonEmptyEntries(bl)
  {
    if bl == [] then t else ScrubEntry(ScrubAll(t, bl[..|bl| - 1]), Last(bl))
  }

  /** The `while` loop for one blacklisted word: find it in the lowered text and delete
      the last character of its first occurrence, until it no longer occurs */
  method ScrubWord(t: string, w: string) returns (r: string)
    requires w != []
    ensures r == ScrubEntry(t, w)
  {
    r := t;
    while Find(LowerString(r), LowerString(w)).Some?
      invariant ScrubEntry(r, w) == ScrubEntry(t, w)
      decreases |r|
    {
      var pos := Find(LowerString(r), LowerString(w)).value + |w| - 1;
      DeletionTurn(r, w, pos);
      r := r[..pos] + r[pos + 1..];
    }
  }

  /** One turn of the `while` loop shortens the text and leaves the outcome of the loop
      as it was */
  lemma DeletionTurn(r: string, w: string, pos: nat)
    requires w != [] && Contains(r, w) && pos == LastOfFirst(r, w)
    ensures |r[..pos] + r[pos + 1..]| < |r|
    ensures ScrubEntry(r[..pos] + r[pos + 1..], w) == ScrubEntry(r, w)
  {
    assert ScrubEntry(r, w) == ScrubEntry(Delete(r, pos), w);
  }

  /** The `for` loop over the blacklist */
  method ScrubText(t: string, bl: seq<string>) returns (r: string)
    requires NonEmptyEntries(bl)
    ensures r == ScrubAll(t, bl)
  {
    r := t;
    for e := 0 to |bl|
      invariant r == ScrubAll(t, bl[..e])
    {
      assert bl[..e + 1][..e] == bl[..e];
      r := ScrubWord(r, bl[e]);
    }
    assert bl[..|bl|] == bl;
  }

  /** Deleting one character leaves a subsequence */
  lemma {:induction false} DeleteSubsequence(t: string, pos: nat)
    requires pos < |t|
    ensures IsSubsequence(Delete(t, pos), t)
  {
    var init := t[..|t| - 1];
    assert init + [Last(t)] == t;
    if pos == |t| - 1 {
      assert Delete(t, pos) == init;
      SubsequenceRefl(init);
      SubsequenceSnoc(init, init, Last(t), false);
    } else {
      DeleteSubsequence(init, pos);
      assert Delete(t, pos) == Delete(init, pos) + [Last(t)];
      SubsequenceSnoc(Delete(init, pos), init, Last(t), true);
    }
  }

  lemma {:induction false} SubsequenceTransitive(a: string, b: string, c: string)
    requires IsSubsequence(a, b) && IsSubsequence(b, c)
    ensures IsSubsequence(a, c)
    decreases |c|
  {
    if a != [] && b != [] && c != [] {
      var c' := c[..|c| - 1];
      assert c' + [Last(c)] == c;
      if Last(b) == Last(c) {
        var b' := b[..|b| - 1];
        if Last(a) == Last(b) {
          SubsequenceTransitive(a[..|a| - 1], b', c');
        } else {
          SubsequenceTransitive(a, b', c');
          SubsequenceDropLast(a, c', Last(c));
        }
      } else {
        SubsequenceTransitive(a, b, c');
        SubsequenceDropLast(a, c', Last(c));
      }
    }
  }

  /** After the loop for w, w no longer occurs; only characters were deleted, at least
      one when w occurred, and nothing when it did not */
  lemma {:induction false} ScrubEntryMeaning(t: string, w: string)
    requires w != []
    decreases |t|
    ensures !Contains(ScrubEntry(t, w), w)
    ensures IsSubsequence(ScrubEntry(t, w), t)
    ensures Contains(t, w) <==> |ScrubEntry(t, w)| < |t|
    ensures !Contains(t, w) ==> ScrubEntry(t, w) == t
  {
    if Contains(t, w) {
      var u := Delete(t, LastOfFirst(t, w));
      ScrubEntryMeaning(u, w);
      DeleteSubsequence(t, LastOfFirst(t, w));
      SubsequenceTransitive(ScrubEntry(u, w), u, t);
    } else {
      SubsequenceRefl(t);
    }
  }

  /** After the blacklist loop the last entry no longer occurs, and the text only lost
      characters; it keeps its length only when no step deleted anything */
  lemma {:induction false} ScrubAllMeaning(t: string, bl: seq<string>)
    requires NonEmptyEntries(bl)
    ensures IsSubsequence(ScrubAll(t, bl), t)
    ensures bl != [] ==> !Contains(ScrubAll(t, bl), Last(bl))
    ensures |ScrubAll(t, bl)| == |t| ==> ScrubAll(t, bl) == t
  {
    if bl == [] {
      SubsequenceRefl(t);
    } else {
      var init := bl[..|bl| - 1];
      var u := ScrubAll(t, init);
      var v := ScrubEntry(u, Last(bl));
      assert ScrubAll(t, bl) == v;
      ScrubAllMeaning(t, init);
      ScrubEntryMeaning(u, Last(bl));
      SubsequenceTransitive(v, u, t);
      SubsequenceLength(u, t);
      SubsequenceLength(v, u);
    }
  }

  /** The blacklist pass repeated until it changes nothing, as evidently intended: one
      pass can recreate an entry it has already removed */
  function ScrubClean(t: string, bl: seq<string>): (r: string)
    requires NonEmptyEntries(bl)
    decreases |t|
  {
    var u := ScrubAll(t, bl);
    ScrubAllMeaning(t, bl);
    SubsequenceLength(u, t);
    if |u| == |t| then t else ScrubClean(u, bl)
  }

  /** After the repeated pass no blacklisted word occurs, ignoring case, and only
      characters were deleted */
  lemma {:induction false} ScrubCleanMeaning(t: string, bl: seq<string>)
    requires NonEmptyEntries(bl)
    decreases |t|
    ensures forall i :: 0 <= i < |bl| ==> !Contains(ScrubClean(t, bl), bl[i])
    ensures IsSubsequence(ScrubClean(t, bl), t)
  {
    var u := ScrubAll(t, bl);
    ScrubAllMeaning(t, bl);
    SubsequenceLength(u, t);
    if |u| == |t| {
      forall i | 0 <= i < |bl|
        ensures !Contains(t, bl[i])
      {
        ScrubAllPrefixKeeps(t, bl, i);
      }
      SubsequenceRefl(t);
    } else {
      ScrubCleanMeaning(u, bl);
      SubsequenceTransitive(ScrubClean(u, bl), u, t);
    }
  }

  /** When the whole pass deletes nothing, every prefix of the pass deletes nothing */
  lemma {:induction false} ScrubAllPrefixKeeps(t: string, bl: seq<string>, i: nat)
    requires NonEmptyEntries(bl) && i < |bl| && |ScrubAll(t, bl)| == |t|
    ensures ScrubAll(t, bl[..i]) == t
    ensures !Contains(t, bl[i])
    decreases |bl|
  {
    ScrubAllMeaning(t, bl);
    var init := bl[..|bl| - 1];
    var u := ScrubAll(t, init);
    ScrubAllMeaning(t, init);
    ScrubEntryMeaning(u, Last(bl));
    SubsequenceLength(u, t);
    assert |u| == |t|;
    if i < |bl| - 1 {
      ScrubAllPrefixKeeps(t, init, i);
      assert init[..i] == bl[..i] && init[i] == bl[i];
    } else {
      assert bl[..i] == init;
    }
  }

  /** _BLACKLIST = ("ab", "ad") on the text "adb": "ab" does not occur; deleting the
      'd' of "ad" then creates "ab", which stays */
  lemma OnePassRecreates()
    ensures ScrubAll("adb", ["ab", "ad"]) == "ab"
    ensures Contains("ab", "ab")
  {
    assert LowerString("adb") == "adb";
    assert LowerString("ab") == "ab";
    assert LowerString("ad") == "ad";
    assert !OccursAt("adb", "ab", 0) && !OccursAt("adb", "ab", 1);
    assert FindFrom("adb", "ab", 2) == None;
    assert Find("adb", "ab") == None;
    assert ScrubAll("adb", ["ab"]) == "adb" by {
      assert ["ab", "ad"][..1] == ["ab"];
      assert ["ab"][..0] == [];
    }
    assert OccursAt("adb", "ad", 0);
    assert Find("adb", "ad") == Some(0);
    assert Delete("adb", 1) == "ab";
    assert OccursAt("ab", "ab", 0);
    assert !OccursAt("ab", "ad", 0) && FindFrom("ab", "ad", 1) == None;
    assert ScrubEntry("ab", "ad") == "ab";
    assert ScrubEntry("adb", "ad") == "ab";
    assert ["ab", "ad"][..1] == ["ab"];
  }

  /** With the repeated pass the same text ends with neither entry: "a" */
  lemma CleanRemovesRecreated()
    ensures !Contains(ScrubClean("adb", ["ab", "ad"]), "ab")
    ensures !Contains(ScrubClean("adb", ["ab", "ad"]), "ad")
  {
    ScrubCleanMeaning("adb", ["ab", "ad"]);
  }
}
