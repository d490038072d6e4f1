/** The template-versus-spreadsheet comparison of `build_comparison_view`
    (app.py:1446-1503): each discovered placeholder is matched to a column
    exactly, to a similar column, or to none; columns no placeholder claimed
    are reported as unused. */
module Comparison {
  import opened Wrappers
  import opened Text
  import opened Seqs

  /** How a placeholder relates to the columns. */
  datatype Match = Exact(col: string) | Similar(col: string) | Absent

  /** Either lower-cased name contains the other. */
  predicate Related(placeholder: string, col: string) {
    Contains(Lower(col), Lower(placeholder)) || Contains(Lower(placeholder), Lower(col))
  }

  /** The similarity test of a placeholder, as a predicate on columns. */
  function RelatedTo(placeholder: string): string -> bool {
    col => Related(placeholder, col)
  }

  /** The match of one placeholder: the column of the same name; otherwise
      the first related column; otherwise none. */
  function MatchOf(placeholder: string, cols: seq<string>): (r: Match)
    ensures r.Exact? <==> placeholder in cols
    ensures r.Exact? ==> r.col == placeholder
    ensures r.Similar? ==> r.col in cols && Related(placeholder, r.col)
  {
    if placeholder in cols then Exact(placeholder)
    else
      match FirstWhere(cols, RelatedTo(placeholder))
      case Some(j) => Similar(cols[j])
      case None => Absent
  }

  /** A placeholder is reported missing exactly when it is not a column and
      is related to no column. */
  lemma MatchOfAbsent(placeholder: string, cols: seq<string>)
    ensures MatchOf(placeholder, cols).Absent? <==>
      placeholder !in cols && forall j | 0 <= j < |cols| :: !Related(placeholder, cols[j])
  {
  }

  /** The column one placeholder claims: its match, if it has one. */
  function ClaimedBy(placeholder: string, cols: seq<string>): set<string> {
    var m := MatchOf(placeholder, cols);
    if m.Absent? then {} else {m.col}
  }

  function ClaimOf(cols: seq<string>): string -> set<string> {
    p => ClaimedBy(p, cols)
  }

  /** A similar match is the first related column, as `similar_cols[0]`
      picks it. */
  lemma MatchOfSimilarIsFirst(placeholder: string, cols: seq<string>)
    ensures MatchOf(placeholder, cols).Similar? ==>
      exists i | 0 <= i < |cols| ::
        && cols[i] == MatchOf(placeholder, cols).col
        && Related(placeholder, cols[i])
        && forall j | 0 <= j < i :: !Related(placeholder, cols[j])
  {
    var related := RelatedTo(placeholder);
    assert forall j | 0 <= j < |cols| :: related(cols[j]) == Related(placeholder, cols[j]);
    if placeholder !in cols {
      var f := FirstWhere(cols, related);
      if f.Some? {
        assert related(cols[f.value]);
      }
    }
  }

  /** The columns the placeholders claim. */
  function Claimed(placeholders: seq<string>, cols: seq<string>): set<string> {
    UnionOf(placeholders, ClaimOf(cols))
  }

  /** Only columns are claimed, and a column is claimed exactly when some
      placeholder matches it. */
  lemma ClaimedIff(placeholders: seq<string>, cols: seq<string>, c: string)
    ensures c in Claimed(placeholders, cols) <==>
      exists i | 0 <= i < |placeholders| :: !MatchOf(placeholders[i], cols).Absent? && MatchOf(placeholders[i], cols).col == c
    ensures c in Claimed(placeholders, cols) ==> c in cols
  {
    InUnionOf(placeholders, ClaimOf(cols), c);
    assert forall i | 0 <= i < |placeholders| ::
      (c in ClaimOf(cols)(placeholders[i])) == (!MatchOf(placeholders[i], cols).Absent? && MatchOf(placeholders[i], cols).col == c);
  }

  /** The match of one placeholder, as the loop body computes it. */
  method MatchPlaceholder(p: string, cols: seq<string>) returns (m: Match)
    ensures m == MatchOf(p, cols)
  {
    if p in cols {
      return Exact(p);
    }
    var j := FirstWhere(cols, RelatedTo(p));
    if j.Some? {
      return Similar(cols[j.value]);
    }
    return Absent;
  }

  /** The columns the comparison uses: none when the table has no rows. */
  function ComparedColumns(cols: seq<string>, rowCount: nat): seq<string> {
    if rowCount == 0 then [] else cols
  }

  /** The comparison: one report line per placeholder, then the unused
      columns; nothing at all when the template has no placeholders. A table
      without rows offers no columns. */
  method Compare(placeholders: seq<string>, cols: seq<string>, rowCount: nat) returns (lines: seq<(string, Match)>, unused: set<string>)
    ensures placeholders == [] ==> lines == [] && unused == {}
    ensures placeholders != [] ==>
      && |lines| == |placeholders|
      && (forall i | 0 <= i < |lines| ::
            lines[i] == (placeholders[i], MatchOf(placeholders[i], ComparedColumns(cols, rowCount))))
      && unused == (set c | c in ComparedColumns(cols, rowCount)) - Claimed(placeholders, ComparedColumns(cols, rowCount))
  {
    if placeholders == [] {
      return [], {};
    }
    var excel := ComparedColumns(cols, rowCount);
    lines := [];
    var matched: set<string> := {};
    for i := 0 to |placeholders|
      invariant |lines| == i
      invariant forall k | 0 <= k < i :: lines[k] == (placeholders[k], MatchOf(placeholders[k], excel))
      invariant matched == Claimed(placeholders[..i], excel)
    {
      UnionOfStep(placeholders, i, ClaimOf(excel));
      var p := placeholders[i];
      var m := MatchPlaceholder(p, excel);
      lines := lines + [(p, m)];
      if !m.Absent? {
        matched := matched + {m.col};
      }
    }
    assert placeholders[..|placeholders|] == placeholders;
    unused := (set c | c in excel) - matched;
  }

  /** A table without rows reports every placeholder missing and no column
      unused, whatever its headers. */
  lemma EmptyTableMatchesNothing(placeholders: seq<string>, cols: seq<string>)
    ensures forall i | 0 <= i < |placeholders| :: MatchOf(placeholders[i], ComparedColumns(cols, 0)) == Absent
    ensures (set c | c in ComparedColumns(cols, 0)) - Claimed(placeholders, ComparedColumns(cols, 0)) == {}
  {
    forall i | 0 <= i < |placeholders|
      ensures MatchOf(placeholders[i], []) == Absent
    {
      MatchOfAbsent(placeholders[i], []);
    }
  }

  /** A column that some placeholder matches, exactly or as a similar
      column, is never reported unused. */
  lemma MatchedColumnNotUnused(placeholders: seq<string>, cols: seq<string>, i: nat)
    requires i < |placeholders| && !MatchOf(placeholders[i], cols).Absent?
    ensures MatchOf(placeholders[i], cols).col !in (set c | c in cols) - Claimed(placeholders, cols)
  {
    ClaimedIff(placeholders, cols, MatchOf(placeholders[i], cols).col);
  }

  /** An unused column is one that no placeholder matches. */
  lemma UnusedIsUnmatched(placeholders: seq<string>, cols: seq<string>, c: string)
    requires c in (set x | x in cols) - Claimed(placeholders, cols)
    ensures forall i | 0 <= i < |placeholders| ::
      MatchOf(placeholders[i], cols).Absent? || MatchOf(placeholders[i], cols).col != c
  {
    ClaimedIff(placeholders, cols, c);
  }
}
