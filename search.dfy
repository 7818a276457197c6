/**
 * The keyword filter (app.py:38-47): a case-insensitive substring test on
 * `text` or `fulltext`, a boolean mask with one entry per row, and the two
 * halves of the table that the mask and its negation select.
 */
module Search {
  import opened Wrappers
  import opened Posts
  import opened Indexing

  // ---------------------------------------------------------------------
  // Case folding
  // ---------------------------------------------------------------------

  /** An upper-case letter of ASCII or of the Latin-1 supplement (À–Þ without ×). */
  predicate IsUpper(c: char) {
    ('A' <= c <= 'Z') || ('\U{C0}' <= c <= '\U{DE}' && c != '\U{D7}')
  }

  /** Per-character case folding: an upper-case letter becomes its lower-case partner. */
  function Lower(c: char): (r: char)
    ensures IsUpper(c) ==> r as int == c as int + 32
    ensures !IsUpper(c) ==> r == c
    ensures !IsUpper(r)
  {
    if IsUpper(c) then (c as int + 32) as char else c
  }

  /** Case folding of a whole string, character by character. */
  function LowerStr(s: string): (r: string)
    ensures |r| == |s|
    ensures forall i :: 0 <= i < |s| ==> r[i] == Lower(s[i])
  {
    seq(|s|, i requires 0 <= i < |s| => Lower(s[i]))
  }

  /** Folding twice is folding once. */
  lemma LowerStrIdempotent(s: string)
    ensures LowerStr(LowerStr(s)) == LowerStr(s)
  {
  }

  // ---------------------------------------------------------------------
  // Substring search
  // ---------------------------------------------------------------------

  /** `needle` occurs in `hay` starting at position `i`. */
  ghost predicate OccursAt(needle: string, hay: string, i: int) {
    0 <= i && i + |needle| <= |hay| && hay[i..i + |needle|] == needle
  }

  /** Reference definition of "`hay` contains `needle`". */
  ghost predicate OccursIn(needle: string, hay: string) {
    exists i :: OccursAt(needle, hay, i)
  }

  /** Literal substring search, scanning start positions left to right. */
  function Contains(hay: string, needle: string): (r: bool)
    ensures r ==> |needle| <= |hay|
    decreases |hay|
  {
    if needle <= hay then true
    else if |hay| == 0 then false
    else Contains(hay[1..], needle)
  }

  /** An occurrence at position 0 is a prefix. */
  lemma PrefixIsOccurrenceAtZero(needle: string, hay: string)
    ensures needle <= hay <==> OccursAt(needle, hay, 0)
  {
  }

  /** `Contains` decides exactly the reference notion of occurrence. */
  lemma {:induction false} ContainsIff(hay: string, needle: string)
    ensures Contains(hay, needle) <==> OccursIn(needle, hay)
    decreases |hay|
  {
    PrefixIsOccurrenceAtZero(needle, hay);
    if needle <= hay {
    } else if |hay| == 0 {
    } else {
      ContainsIff(hay[1..], needle);
      if OccursIn(needle, hay) {
        var i :| OccursAt(needle, hay, i);
        assert hay[1..][i - 1..i - 1 + |needle|] == hay[i..i + |needle|];
        assert OccursAt(needle, hay[1..], i - 1);
      }
      if OccursIn(needle, hay[1..]) {
        var j :| OccursAt(needle, hay[1..], j);
        assert hay[1..][j..j + |needle|] == hay[j + 1..j + 1 + |needle|];
        assert OccursAt(needle, hay, j + 1);
      }
    }
  }

  /** The empty string contains no non-empty string. */
  lemma EmptyContainsNothing(needle: string)
    requires needle != []
    ensures !Contains([], needle)
  {
  }

  // ---------------------------------------------------------------------
  // The search mask
  // ---------------------------------------------------------------------

  /** A missing text cell reads as the empty string (`fillna("")`). */
  function TextOrEmpty(cell: Option<string>): (r: string)
    ensures cell.None? ==> r == []
    ensures cell.Some? ==> r == cell.value
  {
    cell.GetOr([])
  }

  /** One text cell contains the term, ignoring case. */
  predicate CellMatches(cell: Option<string>, term: string) {
    Contains(LowerStr(TextOrEmpty(cell)), LowerStr(term))
  }

  /** A cell matches exactly when the folded term occurs in the folded, filled cell. */
  lemma CellMatchesMeaning(cell: Option<string>, term: string)
    ensures CellMatches(cell, term) <==> OccursIn(LowerStr(term), LowerStr(TextOrEmpty(cell)))
  {
    ContainsIff(LowerStr(TextOrEmpty(cell)), LowerStr(term));
  }

  /** Reference meaning of "post `p` matches `term`": a non-empty term occurs, ignoring case, in one of the two text fields. */
  ghost predicate Matches(p: Post, term: string) {
    |term| > 0 &&
    (OccursIn(LowerStr(term), LowerStr(TextOrEmpty(p.text))) ||
     OccursIn(LowerStr(term), LowerStr(TextOrEmpty(p.fulltext))))
  }

  /** The search condition: one boolean per row; all false for the empty term. */
  function Mask(df: seq<Post>, term: string): (m: seq<bool>)
    ensures |m| == |df|
  {
    if term != [] then
      seq(|df|, i requires 0 <= i < |df| => CellMatches(df[i].text, term) || CellMatches(df[i].fulltext, term))
    else
      seq(|df|, i => false)
  }

  /** For a non-empty term, row `i`'s mask entry is the cell test on its two text cells. */
  lemma MaskAt(df: seq<Post>, term: string, i: int)
    requires term != [] && 0 <= i < |df|
    ensures Mask(df, term)[i] == (CellMatches(df[i].text, term) || CellMatches(df[i].fulltext, term))
  {
  }

  /** The mask entry of row `i` is true exactly when that row matches. */
  lemma MaskMeaning(df: seq<Post>, term: string, i: int)
    requires 0 <= i < |df|
    ensures Mask(df, term)[i] <==> Matches(df[i], term)
  {
    ContainsIff(LowerStr(TextOrEmpty(df[i].text)), LowerStr(term));
    ContainsIff(LowerStr(TextOrEmpty(df[i].fulltext)), LowerStr(term));
  }

  /** A post with neither text nor fulltext matches no term, empty or not. */
  lemma NullPostNeverMatches(p: Post, term: string)
    requires p.text.None? && p.fulltext.None?
    ensures !Matches(p, term)
    ensures !Mask([p], term)[0]
  {
    if |term| > 0 {
      EmptyContainsNothing(LowerStr(term));
      ContainsIff([], LowerStr(term));
    }
    MaskMeaning([p], term, 0);
  }

  /** Two terms that fold to the same string match the same posts. */
  lemma MatchesIgnoresTermCase(p: Post, term: string, term': string)
    requires LowerStr(term) == LowerStr(term')
    ensures Matches(p, term) <==> Matches(p, term')
  {
    assert |term| == |LowerStr(term)| == |term'|;
  }

  /** Matching ignores case: "Grün" is found by both "grün" and "GRÜN". */
  lemma CaseInsensitiveExample(p: Post)
    requires p.text == Some("Grün")
    ensures Matches(p, "grün") && Matches(p, "GRÜN")
  {
    assert LowerStr("GRÜN") == "grün";
    assert LowerStr("Grün") == "grün";
    assert LowerStr("grün") == "grün";
    assert OccursAt("grün", "grün", 0);
  }

  // ---------------------------------------------------------------------
  // The partition
  // ---------------------------------------------------------------------

  /** `df[search_condition]`. */
  function WithTerm(df: seq<Post>, term: string): (r: seq<Post>)
    ensures |r| <= |df|
  {
    Select(df, Mask(df, term))
  }

  /** `df[~search_condition]`. */
  function WithoutTerm(df: seq<Post>, term: string): (r: seq<Post>)
    ensures |r| <= |df|
  {
    Select(df, Not(Mask(df, term)))
  }

  /**
   * Row `i` lands in the "with" half exactly when it matches and in the
   * "without" half exactly when it does not, so in exactly one of them.
   */
  lemma PartitionByRow(df: seq<Post>, term: string, i: int)
    requires 0 <= i < |df|
    ensures i in TrueIndices(Mask(df, term)) <==> Matches(df[i], term)
    ensures i in TrueIndices(Not(Mask(df, term))) <==> !Matches(df[i], term)
  {
    MaskMeaning(df, term, i);
  }

  /** Both halves keep the table's row order and never repeat a row. */
  lemma PartitionKeepsOrder(df: seq<Post>, term: string)
    ensures |WithTerm(df, term)| == |TrueIndices(Mask(df, term))|
    ensures forall k :: 0 <= k < |WithTerm(df, term)| ==> WithTerm(df, term)[k] == df[TrueIndices(Mask(df, term))[k]]
    ensures |WithoutTerm(df, term)| == |TrueIndices(Not(Mask(df, term)))|
    ensures forall k :: 0 <= k < |WithoutTerm(df, term)| ==> WithoutTerm(df, term)[k] == df[TrueIndices(Not(Mask(df, term)))[k]]
  {
    SelectIsIndexed(df, Mask(df, term));
    SelectIsIndexed(df, Not(Mask(df, term)));
  }

  /** The two halves together are the table: sizes add up and the multisets of rows agree. */
  lemma PartitionComplete(df: seq<Post>, term: string)
    ensures |WithTerm(df, term)| + |WithoutTerm(df, term)| == |df|
    ensures multiset(WithTerm(df, term)) + multiset(WithoutTerm(df, term)) == multiset(df)
  {
    SelectSplit(df, Mask(df, term));
  }

  /** A post is in the "with" half exactly when it is a post of the table that matches. */
  lemma WithTermMembership(df: seq<Post>, term: string, p: Post)
    ensures p in WithTerm(df, term) <==> p in df && Matches(p, term)
  {
    var m := Mask(df, term);
    SelectMembership(df, m, p);
    if p in WithTerm(df, term) {
      var i :| 0 <= i < |df| && m[i] && df[i] == p;
      MaskMeaning(df, term, i);
    }
    if p in df && Matches(p, term) {
      var i :| 0 <= i < |df| && df[i] == p;
      MaskMeaning(df, term, i);
    }
  }

  /** A post is in the "without" half exactly when it is a post of the table that does not match. */
  lemma WithoutTermMembership(df: seq<Post>, term: string, p: Post)
    ensures p in WithoutTerm(df, term) <==> p in df && !Matches(p, term)
  {
    var m := Not(Mask(df, term));
    SelectMembership(df, m, p);
    if p in WithoutTerm(df, term) {
      var i :| 0 <= i < |df| && m[i] && df[i] == p;
      MaskMeaning(df, term, i);
    }
    if p in df && !Matches(p, term) {
      var i :| 0 <= i < |df| && df[i] == p;
      MaskMeaning(df, term, i);
    }
  }

  /** An empty search term matches nothing: the "with" half is empty and the "without" half is the whole table. */
  lemma EmptyTermPartition(df: seq<Post>)
    ensures WithTerm(df, []) == []
    ensures WithoutTerm(df, []) == df
  {
    var m := Mask(df, []);
    SelectNone(df, m);
    SelectAll(df, Not(m));
  }
}
