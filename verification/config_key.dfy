/** The configuration-file key that both scripts derive from a workbook's
    name: every keyword of a fixed list that occurs in the lower-cased name,
    concatenated in list order. */
module ConfigKey {
  import opened Strings

  /** The keyword list, in the order in which matches are concatenated. */
  const Keywords: seq<string> :=
    ["cy", "fy", "monthly", "company", "federal", "native", "production", "revenue", "disbursements"]

  /** The keywords of `ks` that occur in `text`, in the order of `ks`. */
  function Matched(text: string, ks: seq<string>): seq<string>
    decreases |ks|
  {
    if ks == [] then []
    else Matched(text, ks[..|ks| - 1]) + (if Contains(text, ks[|ks| - 1]) then [ks[|ks| - 1]] else [])
  }

  /** The strings of `ss` joined end to end. */
  function Concat(ss: seq<string>): string
    decreases |ss|
  {
    if ss == [] then "" else Concat(ss[..|ss| - 1]) + ss[|ss| - 1]
  }

  /** Extending the keyword list by one keyword extends the matches by that
      keyword exactly when it occurs. */
  lemma MatchedSnoc(text: string, ks: seq<string>, i: nat)
    requires i < |ks|
    ensures Matched(text, ks[..i + 1])
         == Matched(text, ks[..i]) + (if Contains(text, ks[i]) then [ks[i]] else [])
  {
    assert ks[..i + 1][..i] == ks[..i];
  }

  lemma ConcatSnoc(ss: seq<string>, x: string)
    ensures Concat(ss + [x]) == Concat(ss) + x
  {
    assert (ss + [x])[..|ss|] == ss;
  }

  /** A keyword is part of the key exactly when it is in the list and occurs
      in the text. */
  lemma {:induction false} MatchedMembers(text: string, ks: seq<string>)
    ensures forall k :: k in Matched(text, ks) <==> k in ks && Contains(text, k)
  {
    if ks != [] {
      var init := ks[..|ks| - 1];
      MatchedMembers(text, init);
      assert ks == init + [ks[|ks| - 1]];
    }
  }

  /** Matching keeps list order: the matches of an earlier part of the list
      all come before those of a later part. */
  lemma {:induction false} MatchedSplits(text: string, a: seq<string>, b: seq<string>)
    ensures Matched(text, a + b) == Matched(text, a) + Matched(text, b)
    decreases |b|
  {
    if b != [] {
      var init := b[..|b| - 1];
      MatchedSplits(text, a, init);
      assert (a + b)[..|a + b| - 1] == a + init;
    } else {
      assert a + b == a;
    }
  }
}
