/** Form generation per spreadsheet row: the bulk loop that fills one form
    per row into an archive (app.py:1414-1433) and the single-record path
    behind each row's button (app.py:1378-1384). */
module Batch {
  import opened Wrappers
  import opened Text
  import opened SlotMaps
  import opened Resolver
  import opened Documents
  import opened Filler
  import opened Seqs

  /** A dataframe row: its index label and its cells. */
  datatype IndexedRow = IndexedRow(index: nat, cells: Row)

  /** An archive entry: a file name and the document stored under it. */
  datatype Entry = Entry(name: string, doc: Document)

  /** What generating one row comes to: building the mapping raised; the
      filler returned no document; or a filled document. */
  datatype RowOutcome = Failed | NoDocument | Generated(doc: Document)

  /** One row's attempt: the row's index label and its outcome. */
  datatype Attempt = Attempt(index: nat, outcome: RowOutcome)

  const FormPrefix: string := "استماره_طرح_الدوره_"
  const DocxSuffix: string := ".docx"

  /** The file name of form number `n`. */
  function FormName(n: nat): (r: string)
    ensures |r| > |FormPrefix| + |DocxSuffix|
  {
    FormPrefix + NatToString(n) + DocxSuffix
  }

  /** Different numbers give different file names. */
  lemma FormNameInjective(a: nat, b: nat)
    requires FormName(a) == FormName(b)
    ensures a == b
  {
    var x := FormName(a);
    assert x[|FormPrefix|..|x| - |DocxSuffix|] == NatToString(a);
    assert FormName(b)[|FormPrefix|..|x| - |DocxSuffix|] == NatToString(b);
    NatToStringInjective(a, b);
  }

  /** Every row of a table is indexed by all of its columns. */
  predicate Covers(rows: seq<IndexedRow>, cols: seq<string>) {
    forall i | 0 <= i < |rows| :: RowCovers(rows[i].cells, cols)
  }

  /** Build the mapping with the rules, then fill the template with it. */
  function Outcome(t: Template, rules: seq<Rule>, cols: seq<string>, cells: Row): RowOutcome
    requires RowCovers(cells, cols)
  {
    match Resolve(rules, cells, cols)
    case Raised => Failed
    case Ok(m) =>
      match Fill(t, m).0
      case Some(d) => Generated(d)
      case None => NoDocument
  }

  /** The attempts the bulk loop makes, one per row, in row order. */
  function Attempts(t: Template, rules: seq<Rule>, cols: seq<string>, rows: seq<IndexedRow>): (r: seq<Attempt>)
    requires Covers(rows, cols)
    ensures |r| == |rows|
  {
    seq(|rows|, i requires 0 <= i < |rows| => Attempt(rows[i].index, Outcome(t, rules, cols, rows[i].cells)))
  }

  /** The archive entry of one attempt: the form, named from the row's index
      label plus one, when one was produced. */
  function EntriesOf(a: Attempt): seq<Entry> {
    if a.outcome.Generated? then [Entry(FormName(a.index + 1), a.outcome.doc)] else []
  }

  /** The warning of one attempt: the row's index label plus one, when
      building its mapping raised. */
  function WarningsOf(a: Attempt): seq<nat> {
    if a.outcome.Failed? then [a.index + 1] else []
  }

  /** The archive the bulk loop writes, attempt by attempt. */
  function Archive(attempts: seq<Attempt>): seq<Entry> {
    Flatten(attempts, EntriesOf)
  }

  /** The warnings the bulk loop shows, attempt by attempt. */
  function Warnings(attempts: seq<Attempt>): seq<nat> {
    Flatten(attempts, WarningsOf)
  }

  /** Each row yields at most one entry or one warning, never both, and a
      row yields an entry exactly when it produced a document. */
  lemma {:induction false} OneResultPerRow(attempts: seq<Attempt>)
    ensures |Archive(attempts)| + |Warnings(attempts)| <= |attempts|
    ensures (forall i | 0 <= i < |attempts| :: attempts[i].outcome.Generated?) ==>
      |Archive(attempts)| == |attempts|
    decreases |attempts|
  {
    if attempts != [] {
      var p := attempts[..|attempts| - 1];
      assert forall i | 0 <= i < |p| :: p[i] == attempts[i];
      OneResultPerRow(p);
    }
  }

  /** Rows are treated independently: the archive of attempts split at any
      point is the two parts' archives, concatenated ... */
  lemma ArchiveSplits(a: seq<Attempt>, b: seq<Attempt>)
    ensures Archive(a + b) == Archive(a) + Archive(b)
  {
    FlattenSplit(a, b, EntriesOf);
  }

  /** ... and so are its warnings. */
  lemma WarningsSplit(a: seq<Attempt>, b: seq<Attempt>)
    ensures Warnings(a + b) == Warnings(a) + Warnings(b)
  {
    FlattenSplit(a, b, WarningsOf);
  }

  /** Every entry is the form of some attempt that produced one, named after
      that attempt's row. */
  lemma {:induction false} EntriesComeFromAttempts(attempts: seq<Attempt>, k: nat)
    requires k < |Archive(attempts)|
    ensures exists i | 0 <= i < |attempts| ::
      && attempts[i].outcome.Generated?
      && Archive(attempts)[k] == Entry(FormName(attempts[i].index + 1), attempts[i].outcome.doc)
    decreases |attempts|
  {
    var p := attempts[..|attempts| - 1];
    if k < |Archive(p)| {
      EntriesComeFromAttempts(p, k);
      var i :| 0 <= i < |p| && p[i].outcome.Generated?
        && Archive(p)[k] == Entry(FormName(p[i].index + 1), p[i].outcome.doc);
      assert p[i] == attempts[i];
    }
  }

  /** Attempts on rows with distinct index labels give archive entries with
      distinct names. */
  lemma {:induction false} DistinctIndexesDistinctNames(attempts: seq<Attempt>)
    requires forall i, j | 0 <= i < j < |attempts| :: attempts[i].index != attempts[j].index
    ensures forall k, l | 0 <= k < l < |Archive(attempts)| :: Archive(attempts)[k].name != Archive(attempts)[l].name
    decreases |attempts|
  {
    if attempts != [] {
      var p, last := attempts[..|attempts| - 1], attempts[|attempts| - 1];
      assert forall i | 0 <= i < |p| :: p[i] == attempts[i];
      assert attempts == p + [last];
      FlattenSnoc(p, last, EntriesOf);
      DistinctIndexesDistinctNames(p);
      var earlier := Archive(p);
      if last.outcome.Generated? {
        NoEarlierEntryNamed(p, last);
        var e := Entry(FormName(last.index + 1), last.outcome.doc);
        assert Archive(attempts) == earlier + [e];
        forall k, l | 0 <= k < l < |earlier| + 1
          ensures (earlier + [e])[k].name != (earlier + [e])[l].name
        {
          if l < |earlier| {
            assert (earlier + [e])[k] == earlier[k] && (earlier + [e])[l] == earlier[l];
          }
        }
      } else {
        assert Archive(attempts) == earlier + [];
        assert earlier + [] == earlier;
      }
    }
  }

  /** No entry of earlier attempts carries the name of an attempt on a row
      with a new index label. */
  lemma NoEarlierEntryNamed(p: seq<Attempt>, x: Attempt)
    requires forall i | 0 <= i < |p| :: p[i].index != x.index
    ensures forall k | 0 <= k < |Archive(p)| :: Archive(p)[k].name != FormName(x.index + 1)
  {
    forall k | 0 <= k < |Archive(p)|
      ensures Archive(p)[k].name != FormName(x.index + 1)
    {
      EntriesComeFromAttempts(p, k);
      var i :| 0 <= i < |p| && p[i].outcome.Generated?
        && Archive(p)[k] == Entry(FormName(p[i].index + 1), p[i].outcome.doc);
      if Archive(p)[k].name == FormName(x.index + 1) {
        FormNameInjective(p[i].index + 1, x.index + 1);
      }
    }
  }

  /** The attempts on a table split at any point are the two parts'
      attempts, concatenated. */
  lemma AttemptsSplit(t: Template, rules: seq<Rule>, cols: seq<string>, a: seq<IndexedRow>, b: seq<IndexedRow>)
    requires Covers(a, cols) && Covers(b, cols)
    ensures Covers(a + b, cols)
    ensures Attempts(t, rules, cols, a + b) == Attempts(t, rules, cols, a) + Attempts(t, rules, cols, b)
  {
    assert forall i | 0 <= i < |a| :: (a + b)[i] == a[i];
    assert forall i | 0 <= i < |b| :: (a + b)[|a| + i] == b[i];
  }

  /** A single attempt's archive and warnings are its own. */
  lemma SingleAttempt(x: Attempt)
    ensures Archive([x]) == EntriesOf(x) && Warnings([x]) == WarningsOf(x)
  {
    assert [] + [x] == [x];
    FlattenSnoc([], x, EntriesOf);
    FlattenSnoc([], x, WarningsOf);
  }

  /** A failed attempt adds no entry ... */
  lemma FailedAttemptAddsNoEntry(before: seq<Attempt>, x: Attempt, after: seq<Attempt>)
    requires x.outcome.Failed?
    ensures Archive(before + [x] + after) == Archive(before) + Archive(after)
  {
    SingleAttempt(x);
    ArchiveSplits(before + [x], after);
    ArchiveSplits(before, [x]);
  }

  /** ... and only its warning. */
  lemma FailedAttemptAddsWarning(before: seq<Attempt>, x: Attempt, after: seq<Attempt>)
    requires x.outcome.Failed?
    ensures Warnings(before + [x] + after) == Warnings(before) + [x.index + 1] + Warnings(after)
  {
    SingleAttempt(x);
    WarningsSplit(before + [x], after);
    WarningsSplit(before, [x]);
  }

  /** A row whose mapping raises only adds its warning: the rows before and
      after it produce exactly what they would without it. */
  lemma FailingRowOnlyWarns(t: Template, rules: seq<Rule>, cols: seq<string>, a: seq<IndexedRow>, row: IndexedRow, b: seq<IndexedRow>)
    requires Covers(a, cols) && RowCovers(row.cells, cols) && Covers(b, cols)
    requires Outcome(t, rules, cols, row.cells).Failed?
    ensures Covers(a + [row] + b, cols)
    ensures var all := Attempts(t, rules, cols, a + [row] + b);
            && Archive(all) == Archive(Attempts(t, rules, cols, a)) + Archive(Attempts(t, rules, cols, b))
            && Warnings(all) == Warnings(Attempts(t, rules, cols, a)) + [row.index + 1] + Warnings(Attempts(t, rules, cols, b))
  {
    var x := Attempt(row.index, Outcome(t, rules, cols, row.cells));
    AttemptsAround(t, rules, cols, a, row, b);
    FailedAttemptAddsNoEntry(Attempts(t, rules, cols, a), x, Attempts(t, rules, cols, b));
    FailedAttemptAddsWarning(Attempts(t, rules, cols, a), x, Attempts(t, rules, cols, b));
  }

  /** The attempts on a table with one row singled out: those of the rows
      before it, that row's own, then those of the rows after it. */
  lemma AttemptsAround(t: Template, rules: seq<Rule>, cols: seq<string>, a: seq<IndexedRow>, row: IndexedRow, b: seq<IndexedRow>)
    requires Covers(a, cols) && RowCovers(row.cells, cols) && Covers(b, cols)
    ensures Covers(a + [row] + b, cols)
    ensures Attempts(t, rules, cols, a + [row] + b) ==
      Attempts(t, rules, cols, a) + [Attempt(row.index, Outcome(t, rules, cols, row.cells))] + Attempts(t, rules, cols, b)
  {
    assert Covers([row], cols);
    assert Attempts(t, rules, cols, [row]) == [Attempt(row.index, Outcome(t, rules, cols, row.cells))];
    AttemptsSplit(t, rules, cols, a, [row]);
    AttemptsSplit(t, rules, cols, a + [row], b);
  }

  /** With a template that opens and saves, every row without unprintable
      cells yields its form. */
  lemma CleanRowGenerates(t: Template, rules: seq<Rule>, cols: seq<string>, cells: Row)
    requires RowCovers(cells, cols)
    requires t.Loaded? && t.saves
    requires forall c | c in cells :: !cells[c].Unprintable?
    ensures Outcome(t, rules, cols, cells).Generated?
  {
    PrintableRowResolves(rules, cells, cols);
  }

  /** The archive and the warnings grow attempt by attempt. */
  lemma ArchiveStep(attempts: seq<Attempt>, i: nat)
    requires i < |attempts|
    ensures Archive(attempts[..i + 1]) == Archive(attempts[..i]) + EntriesOf(attempts[i])
    ensures Warnings(attempts[..i + 1]) == Warnings(attempts[..i]) + WarningsOf(attempts[i])
  {
    assert attempts[..i + 1] == attempts[..i] + [attempts[i]];
    FlattenSnoc(attempts[..i], attempts[i], EntriesOf);
    FlattenSnoc(attempts[..i], attempts[i], WarningsOf);
  }

  /** The body of the bulk loop for one row: the archive entry it writes and
      the warning it shows. */
  method GenerateRow(t: Template, cols: seq<string>, row: IndexedRow) returns (entries: seq<Entry>, warnings: seq<nat>)
    requires RowCovers(row.cells, cols)
    ensures entries == EntriesOf(Attempt(row.index, Outcome(t, RuleTable, cols, row.cells)))
    ensures warnings == WarningsOf(Attempt(row.index, Outcome(t, RuleTable, cols, row.cells)))
  {
    entries, warnings := [], [];
    var mapping := BuildMapping(row.cells, cols);
    if mapping.Raised? {
      warnings := [row.index + 1];
    } else {
      var doc, _ := GenerateDocx(t, mapping.value);
      if doc.Some? {
        entries := [Entry(FormName(row.index + 1), doc.value)];
      }
    }
  }

  /** The bulk loop over the rule table: each row's mapping and form; a row
      whose mapping raises becomes a warning and the loop goes on. */
  method GenerateAll(t: Template, cols: seq<string>, rows: seq<IndexedRow>) returns (archive: seq<Entry>, warnings: seq<nat>)
    requires Covers(rows, cols)
    ensures archive == Archive(Attempts(t, RuleTable, cols, rows))
    ensures warnings == Warnings(Attempts(t, RuleTable, cols, rows))
  {
    ghost var attempts := Attempts(t, RuleTable, cols, rows);
    archive, warnings := [], [];
    for i := 0 to |rows|
      invariant archive == Archive(attempts[..i])
      invariant warnings == Warnings(attempts[..i])
    {
      ArchiveStep(attempts, i);
      var entries, warned := GenerateRow(t, cols, rows[i]);
      archive := archive + entries;
      warnings := warnings + warned;
    }
    assert attempts[..|rows|] == attempts;
  }

  /** One row's button: the form for the row at position `idx` of the page
      that starts at `start`, named from that position; an exception from
      building the mapping escapes. */
  method GenerateOne(t: Template, cols: seq<string>, cells: Row, start: nat, idx: nat) returns (r: Result<Option<Entry>>)
    requires RowCovers(cells, cols)
    ensures r.Raised? <==> Outcome(t, RuleTable, cols, cells).Failed?
    ensures r.Ok? ==> (r.value.Some? <==> Outcome(t, RuleTable, cols, cells).Generated?)
    ensures r.Ok? && r.value.Some? ==>
      r.value.value == Entry(FormName(start + idx + 1), Outcome(t, RuleTable, cols, cells).doc)
  {
    var mapping := BuildMapping(cells, cols);
    if mapping.Raised? {
      return Raised;
    }
    var doc, _ := GenerateDocx(t, mapping.value);
    if doc.Some? {
      return Ok(Some(Entry(FormName(start + idx + 1), doc.value)));
    }
    return Ok(None);
  }
}
