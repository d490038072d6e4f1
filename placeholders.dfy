/** The placeholder discoverer `extract_placeholders_from_word`
    (app.py:504-550): the names of all `{{...}}` tokens in the top-level
    paragraphs and in every readable table cell. */
module Placeholders {
  import opened Wrappers
  import opened Text
  import opened Documents
  import opened Seqs

  /** The length of the run of characters other than '}' that starts `s`. */
  function RunLength(s: string): (n: nat)
    ensures n <= |s|
    ensures forall i | 0 <= i < n :: s[i] != '}'
    ensures n == |s| || s[n] == '}'
    decreases |s|
  {
    if s == [] || s[0] == '}' then 0 else 1 + RunLength(s[1..])
  }

  /** The pattern `\{\{([^}]+)\}\}` tried at the start of `s`: the captured
      name and the text after the match. The greedy class stops at the first
      '}', and backtracking cannot help, so this is the only candidate. */
  function MatchHere(s: string): (r: Option<(string, string)>)
    ensures r.Some? ==> |r.value.1| < |s|
  {
    if |s| >= 2 && s[0] == '{' && s[1] == '{' then
      var n := RunLength(s[2..]);
      if n >= 1 && n + 4 <= |s| && s[n + 2] == '}' && s[n + 3] == '}' then
        Some((s[2..n + 2], s[n + 4..]))
      else None
    else None
  }

  /** `re.findall(r'\{\{([^}]+)\}\}', s)`: the captured names of all
      non-overlapping matches, left to right. */
  function FindAll(s: string): seq<string>
    decreases |s|
  {
    if s == [] then []
    else match MatchHere(s)
      case Some((name, rest)) => [name] + FindAll(rest)
      case None => FindAll(s[1..])
  }

  /** The double-brace token of a name. */
  function Token(name: string): string {
    "{{" + name + "}}"
  }

  /** Every name found is non-empty, free of '}', and its token occurs in
      the text. */
  lemma {:induction false} FindAllSound(s: string, name: string)
    requires name in FindAll(s)
    ensures name != "" && '}' !in name
    ensures Contains(s, Token(name))
    decreases |s|
  {
    match MatchHere(s)
    case Some((first, rest)) =>
      var n := |first|;
      assert s[..n + 4] == Token(first);
      if name == first {
        assert forall i | 0 <= i < n :: first[i] == s[2..][i];
        ContainsAt(s, Token(name), 0);
      } else {
        assert name in FindAll(rest);
        FindAllSound(rest, name);
        assert s[n + 4..|s|] == rest;
        ContainsInPart(s, n + 4, |s|, Token(name));
      }
    case None =>
      FindAllSound(s[1..], name);
      assert s[1..|s|] == s[1..];
      ContainsInPart(s, 1, |s|, Token(name));
  }

  /** A text holds a placeholder only if it holds "{{". */
  lemma {:induction false} NamesNeedOpening(s: string)
    ensures FindAll(s) != [] ==> Contains(s, "{{")
    decreases |s|
  {
    if s != [] {
      if MatchHere(s).Some? {
        assert s[..2] == "{{";
      } else {
        NamesNeedOpening(s[1..]);
      }
    }
  }

  /** The token of a non-empty, '}'-free name is found as exactly that name. */
  lemma TokenFound(name: string)
    requires name != "" && '}' !in name
    ensures FindAll(Token(name)) == [name]
  {
    var s := Token(name);
    var n := RunLength(s[2..]);
    assert s[2..] == name + "}}";
    assert s[2 + |name|] == '}';
    assert forall i | 0 <= i < |name| :: s[2..][i] == name[i];
    assert n == |name|;
    assert s[2..n + 2] == name;
    assert s[n + 4..] == [];
  }

  /** The set of names found in one text. */
  function NamesIn(s: string): set<string> {
    set name | name in FindAll(s)
  }

  function ParagraphNames(p: Paragraph): set<string> {
    if p.Para? then NamesIn(p.text) else {}
  }

  function CellNames(c: DocCell): set<string> {
    if c.DocCell? then NamesIn(c.text) else {}
  }

  function RowNames(r: DocRow): set<string> {
    if r.DocRow? then UnionOf(r.cells, CellNames) else {}
  }

  function TableNames(t: DocTable): set<string> {
    if t.DocTable? then UnionOf(t.rows, RowNames) else {}
  }

  /** What discovery returns: nothing for an unreadable template or when the
      paragraph list cannot be obtained; otherwise the names of the readable
      paragraphs, plus those of the readable cells when the table list can
      be obtained. */
  function Discovered(t: Template): set<string> {
    if t.Unreadable? || t.doc.paragraphs.None? then {}
    else
      UnionOf(t.doc.paragraphs.value, ParagraphNames)
      + if t.doc.tables.Some? then UnionOf(t.doc.tables.value, TableNames) else {}
  }

  /** The name occurs as a token in a readable cell of a readable row of a
      readable table. */
  ghost predicate InSomeCell(ts: seq<DocTable>, name: string) {
    exists i, j, k |
      && 0 <= i < |ts| && ts[i].DocTable?
      && 0 <= j < |ts[i].rows| && ts[i].rows[j].DocRow?
      && 0 <= k < |ts[i].rows[j].cells| && ts[i].rows[j].cells[k].DocCell?
      :: name in FindAll(ts[i].rows[j].cells[k].text)
  }

  /** The name occurs as a token in a readable paragraph. */
  ghost predicate InSomeParagraph(ps: seq<Paragraph>, name: string) {
    exists i | 0 <= i < |ps| && ps[i].Para? :: name in FindAll(ps[i].text)
  }

  lemma TablesIff(ts: seq<DocTable>, name: string)
    ensures name in UnionOf(ts, TableNames) <==> InSomeCell(ts, name)
  {
    InUnionOf(ts, TableNames, name);
    if name in UnionOf(ts, TableNames) {
      var i :| 0 <= i < |ts| && name in TableNames(ts[i]);
      var rows := ts[i].rows;
      InUnionOf(rows, RowNames, name);
      var j :| 0 <= j < |rows| && name in RowNames(rows[j]);
      InUnionOf(rows[j].cells, CellNames, name);
      var k :| 0 <= k < |rows[j].cells| && name in CellNames(rows[j].cells[k]);
    }
    if InSomeCell(ts, name) {
      var i, j, k :|
        && 0 <= i < |ts| && ts[i].DocTable?
        && 0 <= j < |ts[i].rows| && ts[i].rows[j].DocRow?
        && 0 <= k < |ts[i].rows[j].cells| && ts[i].rows[j].cells[k].DocCell?
        && name in FindAll(ts[i].rows[j].cells[k].text);
      InUnionOf(ts[i].rows[j].cells, CellNames, name);
      InUnionOf(ts[i].rows, RowNames, name);
    }
  }

  /** Discovery finds a name exactly when the template opens, its paragraph
      list can be read, and the name's token occurs in a readable paragraph
      or, when the table list can be read, in a readable cell. */
  lemma DiscoveredIff(t: Template, name: string)
    ensures name in Discovered(t) <==>
      && t.Loaded? && t.doc.paragraphs.Some?
      && (|| InSomeParagraph(t.doc.paragraphs.value, name)
          || (t.doc.tables.Some? && InSomeCell(t.doc.tables.value, name)))
  {
    if t.Loaded? && t.doc.paragraphs.Some? {
      InUnionOf(t.doc.paragraphs.value, ParagraphNames, name);
      if t.doc.tables.Some? {
        TablesIff(t.doc.tables.value, name);
      }
    }
  }

  /** Every discovered name is non-empty and free of '}'. */
  lemma DiscoveredSound(t: Template, name: string)
    requires name in Discovered(t)
    ensures name != "" && '}' !in name
  {
    DiscoveredIff(t, name);
    if InSomeParagraph(t.doc.paragraphs.value, name) {
      var ps := t.doc.paragraphs.value;
      var i :| 0 <= i < |ps| && ps[i].Para? && name in FindAll(ps[i].text);
      FindAllSound(ps[i].text, name);
    } else {
      var ts := t.doc.tables.value;
      var i, j, k :|
        && 0 <= i < |ts| && ts[i].DocTable?
        && 0 <= j < |ts[i].rows| && ts[i].rows[j].DocRow?
        && 0 <= k < |ts[i].rows[j].cells| && ts[i].rows[j].cells[k].DocCell?
        && name in FindAll(ts[i].rows[j].cells[k].text);
      FindAllSound(ts[i].rows[j].cells[k].text, name);
    }
  }

  /** A faulty table costs only its own names: every name found elsewhere is
      still found when table `i` cannot be read. */
  lemma BrokenTableKeepsOthers(t: Template, i: nat)
    requires t.Loaded? && t.doc.tables.Some? && i < |t.doc.tables.value|
    ensures var ts := t.doc.tables.value;
            var t' := t.(doc := t.doc.(tables := Some(ts[i := BrokenTable])));
            Discovered(t) - TableNames(ts[i]) <= Discovered(t')
  {
    UnionOfReplace(t.doc.tables.value, TableNames, i, BrokenTable, TableNames(t.doc.tables.value[i]));
  }

  /** A faulty cell costs only its own names. */
  lemma BrokenCellKeepsOthers(t: Template, i: nat, j: nat, k: nat)
    requires t.Loaded? && t.doc.tables.Some?
    requires i < |t.doc.tables.value| && t.doc.tables.value[i].DocTable?
    requires j < |t.doc.tables.value[i].rows| && t.doc.tables.value[i].rows[j].DocRow?
    requires k < |t.doc.tables.value[i].rows[j].cells|
    ensures var ts := t.doc.tables.value;
            var rows := ts[i].rows;
            var cells := rows[j].cells;
            var t' := t.(doc := t.doc.(tables := Some(ts[i := DocTable(rows[j := DocRow(cells[k := BrokenCell])])])));
            Discovered(t) - CellNames(cells[k]) <= Discovered(t')
  {
    var ts := t.doc.tables.value;
    var rows := ts[i].rows;
    var cells := rows[j].cells;
    var lost := CellNames(cells[k]);
    UnionOfReplace(cells, CellNames, k, BrokenCell, lost);
    var row' := DocRow(cells[k := BrokenCell]);
    UnionOfReplace(rows, RowNames, j, row', lost);
    var table' := DocTable(rows[j := row']);
    UnionOfReplace(ts, TableNames, i, table', lost);
  }

  /** Adding a paragraph that holds one token adds exactly that name. */
  lemma AddedTokenParagraph(t: Template, name: string)
    requires t.Loaded? && t.doc.paragraphs.Some?
    requires name != "" && '}' !in name
    ensures var ps := t.doc.paragraphs.value;
            var t' := t.(doc := t.doc.(paragraphs := Some(ps + [Para(Token(name))])));
            Discovered(t') == Discovered(t) + {name}
  {
    TokenFound(name);
    UnionOfAppend(t.doc.paragraphs.value, ParagraphNames, Para(Token(name)));
  }

  /** The paragraph loop: every readable paragraph adds its names. */
  method ScanParagraphs(ps: seq<Paragraph>) returns (names: set<string>)
    ensures names == UnionOf(ps, ParagraphNames)
  {
    names := {};
    for i := 0 to |ps|
      invariant names == UnionOf(ps[..i], ParagraphNames)
    {
      UnionOfAppend(ps[..i], ParagraphNames, ps[i]);
      assert ps[..i + 1] == ps[..i] + [ps[i]];
      if ps[i].Para? {
        names := names + NamesIn(ps[i].text);
      }
    }
    assert ps[..|ps|] == ps;
  }

  /** The cell loop of one row, skipping cells that cannot be read. */
  method ScanCells(cells: seq<DocCell>) returns (names: set<string>)
    ensures names == UnionOf(cells, CellNames)
  {
    names := {};
    for k := 0 to |cells|
      invariant names == UnionOf(cells[..k], CellNames)
    {
      UnionOfAppend(cells[..k], CellNames, cells[k]);
      assert cells[..k + 1] == cells[..k] + [cells[k]];
      if cells[k].DocCell? {
        names := names + NamesIn(cells[k].text);
      }
    }
    assert cells[..|cells|] == cells;
  }

  /** The row loop of one table, skipping rows that cannot be read. */
  method ScanRows(rows: seq<DocRow>) returns (names: set<string>)
    ensures names == UnionOf(rows, RowNames)
  {
    names := {};
    for j := 0 to |rows|
      invariant names == UnionOf(rows[..j], RowNames)
    {
      UnionOfAppend(rows[..j], RowNames, rows[j]);
      assert rows[..j + 1] == rows[..j] + [rows[j]];
      if rows[j].DocRow? {
        var found := ScanCells(rows[j].cells);
        names := names + found;
      }
    }
    assert rows[..|rows|] == rows;
  }

  /** The table loop, skipping tables that cannot be read. */
  method ScanTables(ts: seq<DocTable>) returns (names: set<string>)
    ensures names == UnionOf(ts, TableNames)
  {
    names := {};
    for i := 0 to |ts|
      invariant names == UnionOf(ts[..i], TableNames)
    {
      UnionOfAppend(ts[..i], TableNames, ts[i]);
      assert ts[..i + 1] == ts[..i] + [ts[i]];
      if ts[i].DocTable? {
        var found := ScanRows(ts[i].rows);
        names := names + found;
      }
    }
    assert ts[..|ts|] == ts;
  }

  /** `extract_placeholders_from_word(template)`: the paragraphs, then the
      tables when their list can be read; a template that cannot be opened
      or whose paragraphs cannot be read yields nothing. */
  method ExtractPlaceholders(t: Template) returns (names: set<string>)
    ensures names == Discovered(t)
  {
    if t.Unreadable? || t.doc.paragraphs.None? {
      return {};
    }
    names := ScanParagraphs(t.doc.paragraphs.value);
    if t.doc.tables.Some? {
      var found := ScanTables(t.doc.tables.value);
      names := names + found;
    }
  }
}
