/** The course classifiers `get_status_from_approval_column` (app.py:798-817)
    and `get_delivery_method_from_notes` (app.py:819-832), and the per-row
    status and delivery counting of `calculate_comprehensive_stats`
    (app.py:834-983). */
module Stats {
  import opened Wrappers
  import opened Text

  /** The approval status of a course. */
  datatype Status = Confirmed | Postponed | InProgress | Cancelled | Unknown

  /** How a course is delivered; nothing ever classifies a course as hybrid. */
  datatype Delivery = Remote | InPerson | Hybrid

  /** The keywords of each status, in the order they are tried. */
  const StatusKeywords: seq<(Status, seq<string>)> := [
    (Confirmed, ["مؤكد", "موكد"]),
    (Postponed, ["تاجيل", "تأجيل", "مؤجل"]),
    (InProgress, ["تحت الاجراء", "اجراء", "إجراء"]),
    (Cancelled, ["ملغ", "الغاء", "إلغاء"])
  ]

  /** The two spellings of "remote" in the notes. */
  const RemoteMarks: seq<string> := ["عن بعد", "عن بُعد"]

  /** The text mentions one of the words. */
  predicate MentionsAny(text: string, words: seq<string>) {
    exists i | 0 <= i < |words| :: Contains(text, words[i])
  }

  /** The status of a cell of the approval column: unknown when missing;
      otherwise the trimmed, lower-cased text is tested for the keywords of
      each status in priority order. */
  function StatusOf(cell: Option<string>): Status {
    if cell.None? then Unknown
    else
      var text := Lower(Strip(cell.value));
      if Contains(text, "مؤكد") || Contains(text, "موكد") then Confirmed
      else if Contains(text, "تاجيل") || Contains(text, "تأجيل") || Contains(text, "مؤجل") then Postponed
      else if Contains(text, "تحت الاجراء") || Contains(text, "اجراء") || Contains(text, "إجراء") then InProgress
      else if Contains(text, "ملغ") || Contains(text, "الغاء") || Contains(text, "إلغاء") then Cancelled
      else Unknown
  }

  /** Reference reading of a priority table: the status of the first entry
      whose keywords the text mentions; unknown when there is none. */
  function FirstListed(table: seq<(Status, seq<string>)>, text: string): Status
    decreases |table|
  {
    if table == [] then Unknown
    else if MentionsAny(text, table[0].1) then table[0].0
    else FirstListed(table[1..], text)
  }

  /** The classifier is the priority table read in order. */
  lemma StatusByPriority(cell: Option<string>)
    ensures StatusOf(cell) ==
      if cell.None? then Unknown else FirstListed(StatusKeywords, Lower(Strip(cell.value)))
  {
    if cell.Some? {
      var text := Lower(Strip(cell.value));
      var t := StatusKeywords;
      assert MentionsAny(text, t[0].1) <==> Contains(text, t[0].1[0]) || Contains(text, t[0].1[1]);
      assert MentionsAny(text, t[1].1) <==>
        Contains(text, t[1].1[0]) || Contains(text, t[1].1[1]) || Contains(text, t[1].1[2]);
      assert MentionsAny(text, t[2].1) <==>
        Contains(text, t[2].1[0]) || Contains(text, t[2].1[1]) || Contains(text, t[2].1[2]);
      assert MentionsAny(text, t[3].1) <==>
        Contains(text, t[3].1[0]) || Contains(text, t[3].1[1]) || Contains(text, t[3].1[2]);
      assert t[1..][1..][1..][1..] == [];
    }
  }

  /** A status found by the table comes with one of its keywords, and with
      none of the keywords of any status tried before it. */
  lemma {:induction false} FirstListedWitness(table: seq<(Status, seq<string>)>, text: string, k: nat)
    requires k < |table| && FirstListed(table, text) == table[k].0
    requires forall i, j | 0 <= i < j < |table| :: table[i].0 != table[j].0
    requires forall i | 0 <= i < |table| :: table[i].0 != Unknown
    ensures MentionsAny(text, table[k].1)
    ensures forall i | 0 <= i < k :: !MentionsAny(text, table[i].1)
    decreases |table|
  {
    if !MentionsAny(text, table[0].1) {
      assert k > 0 by {
        if k == 0 {
          assert FirstListed(table, text) == FirstListed(table[1..], text);
          FirstListedIsListed(table[1..], text);
        }
      }
      assert forall i | 0 <= i < |table| - 1 :: table[1..][i] == table[i + 1];
      FirstListedWitness(table[1..], text, k - 1);
    }
  }

  /** The table's answer is unknown or one of its own statuses, not the
      first one when that one is not mentioned. */
  lemma {:induction false} FirstListedIsListed(table: seq<(Status, seq<string>)>, text: string)
    requires forall i | 0 <= i < |table| :: table[i].0 != Unknown
    ensures FirstListed(table, text) == Unknown ||
      exists i | 0 <= i < |table| :: FirstListed(table, text) == table[i].0 && MentionsAny(text, table[i].1)
    decreases |table|
  {
    if table != [] && !MentionsAny(text, table[0].1) {
      FirstListedIsListed(table[1..], text);
      if FirstListed(table[1..], text) != Unknown {
        var i :| 0 <= i < |table| - 1 && FirstListed(table[1..], text) == table[1..][i].0 && MentionsAny(text, table[1..][i].1);
        assert table[1..][i] == table[i + 1];
      }
    }
  }

  /** The delivery method of a cell of the notes column: remote exactly when
      the lower-cased, trimmed text mentions one of the remote spellings;
      in person otherwise, including a missing cell. */
  function DeliveryOf(cell: Option<string>): (d: Delivery)
    ensures d != Hybrid
    ensures d == Remote <==> cell.Some? && MentionsAny(Strip(Lower(cell.value)), RemoteMarks)
  {
    if cell.None? then InPerson
    else
      var text := Strip(Lower(cell.value));
      assert MentionsAny(text, RemoteMarks) <==> Contains(text, RemoteMarks[0]) || Contains(text, RemoteMarks[1]);
      if Contains(text, "عن بعد") || Contains(text, "عن بُعد") then Remote else InPerson
  }

  /** The headers the counting looks for, compared after trimming. */
  const StartDateHeader: string := "تاريخ بداية الدورة بالميلادي"
  const StatusHeader: string := "حالة الاعتماد"
  const NotesHeader: string := "ملاحظات"

  /** The last column whose trimmed name is `name`. */
  function LastNamed(cols: seq<string>, name: string): (r: Option<nat>)
    ensures r.Some? ==> r.value < |cols| && Strip(cols[r.value]) == name
    ensures r.Some? ==> forall j | r.value < j < |cols| :: Strip(cols[j]) != name
    ensures r.None? ==> forall j | 0 <= j < |cols| :: Strip(cols[j]) != name
    decreases |cols|
  {
    if cols == [] then None
    else if Strip(cols[|cols| - 1]) == name then Some(|cols| - 1)
    else LastNamed(cols[..|cols| - 1], name)
  }

  /** The column scan: for each column, the first test in the chain that its
      trimmed name passes decides which role it takes; a later column taking
      the same role replaces an earlier one. */
  method FindColumns(cols: seq<string>) returns (status: Option<nat>, notes: Option<nat>)
    ensures status == LastNamed(cols, StatusHeader)
    ensures notes == LastNamed(cols, NotesHeader)
  {
    status, notes := None, None;
    for i := 0 to |cols|
      invariant status == LastNamed(cols[..i], StatusHeader)
      invariant notes == LastNamed(cols[..i], NotesHeader)
    {
      assert cols[..i + 1][..i] == cols[..i];
      var name := Strip(cols[i]);
      if name == StartDateHeader {
      } else if name == StatusHeader {
        status := Some(i);
      } else if name == NotesHeader {
        notes := Some(i);
      }
    }
    assert cols[..|cols|] == cols;
  }

  /** A table row: one cell per column, None when the cell is missing. */
  type Record = map<string, Option<string>>

  /** Every row has a cell in every column. */
  predicate RecordsCover(rows: seq<Record>, cols: seq<string>) {
    forall i, k | 0 <= i < |rows| && 0 <= k < |cols| :: cols[k] in rows[i]
  }

  /** The cells of column `k`, top to bottom. */
  function ColumnCells(rows: seq<Record>, cols: seq<string>, k: nat): (r: seq<Option<string>>)
    requires RecordsCover(rows, cols) && k < |cols|
    ensures |r| == |rows|
  {
    seq(|rows|, i requires 0 <= i < |rows| => rows[i][cols[k]])
  }

  /** How many cells have the given status. */
  function CountStatus(cells: seq<Option<string>>, s: Status): (n: nat)
    ensures n <= |cells|
    decreases |cells|
  {
    if cells == [] then 0
    else CountStatus(cells[..|cells| - 1], s) + if StatusOf(cells[|cells| - 1]) == s then 1 else 0
  }

  /** How many cells have the given delivery method. */
  function CountDelivery(cells: seq<Option<string>>, d: Delivery): (n: nat)
    ensures n <= |cells|
    decreases |cells|
  {
    if cells == [] then 0
    else CountDelivery(cells[..|cells| - 1], d) + if DeliveryOf(cells[|cells| - 1]) == d then 1 else 0
  }

  /** How many rows are in progress and remote. */
  function CountCurrentRemote(status: seq<Option<string>>, notes: seq<Option<string>>): nat
    requires |status| == |notes|
    decreases |status|
  {
    if status == [] then 0
    else
      var n := |status| - 1;
      CountCurrentRemote(status[..n], notes[..n])
      + if StatusOf(status[n]) == InProgress && DeliveryOf(notes[n]) == Remote then 1 else 0
  }

  /** Every cell has exactly one status, so the five counts add up to the
      number of cells. */
  lemma {:induction false} StatusCountsPartition(cells: seq<Option<string>>)
    ensures CountStatus(cells, Confirmed) + CountStatus(cells, Postponed) + CountStatus(cells, InProgress)
      + CountStatus(cells, Cancelled) + CountStatus(cells, Unknown) == |cells|
    decreases |cells|
  {
    if cells != [] {
      StatusCountsPartition(cells[..|cells| - 1]);
    }
  }

  /** Every cell is remote or in person, never hybrid. */
  lemma {:induction false} DeliveryCountsPartition(cells: seq<Option<string>>)
    ensures CountDelivery(cells, Remote) + CountDelivery(cells, InPerson) == |cells|
    ensures CountDelivery(cells, Hybrid) == 0
    decreases |cells|
  {
    if cells != [] {
      DeliveryCountsPartition(cells[..|cells| - 1]);
    }
  }

  /** Courses in progress and remote are both in progress and remote. */
  lemma {:induction false} CurrentRemoteBounded(status: seq<Option<string>>, notes: seq<Option<string>>)
    requires |status| == |notes|
    ensures CountCurrentRemote(status, notes) <= CountStatus(status, InProgress)
    ensures CountCurrentRemote(status, notes) <= CountDelivery(notes, Remote)
    decreases |status|
  {
    if status != [] {
      CurrentRemoteBounded(status[..|status| - 1], notes[..|notes| - 1]);
    }
  }

  /** The status loop: one counter per status, bumped row by row. */
  method TallyStatuses(cells: seq<Option<string>>)
    returns (confirmed: nat, postponed: nat, inProgress: nat, cancelled: nat, unknown: nat)
    ensures confirmed == CountStatus(cells, Confirmed) && postponed == CountStatus(cells, Postponed)
    ensures inProgress == CountStatus(cells, InProgress) && cancelled == CountStatus(cells, Cancelled)
    ensures unknown == CountStatus(cells, Unknown)
    ensures confirmed + postponed + inProgress + cancelled + unknown == |cells|
  {
    confirmed, postponed, inProgress, cancelled, unknown := 0, 0, 0, 0, 0;
    for i := 0 to |cells|
      invariant confirmed == CountStatus(cells[..i], Confirmed) && postponed == CountStatus(cells[..i], Postponed)
      invariant inProgress == CountStatus(cells[..i], InProgress) && cancelled == CountStatus(cells[..i], Cancelled)
      invariant unknown == CountStatus(cells[..i], Unknown)
    {
      assert cells[..i + 1][..i] == cells[..i];
      var status := StatusOf(cells[i]);
      match status
      case Confirmed => confirmed := confirmed + 1;
      case Postponed => postponed := postponed + 1;
      case InProgress => inProgress := inProgress + 1;
      case Cancelled => cancelled := cancelled + 1;
      case Unknown => unknown := unknown + 1;
    }
    assert cells[..|cells|] == cells;
    StatusCountsPartition(cells);
  }

  /** The delivery loop. */
  method TallyDeliveries(cells: seq<Option<string>>) returns (remote: nat, inPerson: nat, hybrid: nat)
    ensures remote == CountDelivery(cells, Remote) && inPerson == CountDelivery(cells, InPerson)
    ensures remote + inPerson == |cells| && hybrid == 0
  {
    remote, inPerson, hybrid := 0, 0, 0;
    for i := 0 to |cells|
      invariant remote == CountDelivery(cells[..i], Remote) && inPerson == CountDelivery(cells[..i], InPerson)
      invariant hybrid == CountDelivery(cells[..i], Hybrid)
    {
      assert cells[..i + 1][..i] == cells[..i];
      var delivery := DeliveryOf(cells[i]);
      if delivery == Remote {
        remote := remote + 1;
      } else if delivery == InPerson {
        inPerson := inPerson + 1;
      } else {
        // The hybrid counter's branch: the classifier never answers hybrid.
        assert false;
      }
    }
    assert cells[..|cells|] == cells;
    DeliveryCountsPartition(cells);
  }

  /** The loop over courses that are in progress and remote. */
  method TallyCurrentRemote(status: seq<Option<string>>, notes: seq<Option<string>>) returns (n: nat)
    requires |status| == |notes|
    ensures n == CountCurrentRemote(status, notes)
    ensures n <= CountStatus(status, InProgress) && n <= CountDelivery(notes, Remote)
  {
    n := 0;
    for i := 0 to |status|
      invariant n == CountCurrentRemote(status[..i], notes[..i])
    {
      assert status[..i + 1][..i] == status[..i] && notes[..i + 1][..i] == notes[..i];
      if StatusOf(status[i]) == InProgress && DeliveryOf(notes[i]) == Remote {
        n := n + 1;
      }
    }
    assert status[..|status|] == status && notes[..|notes|] == notes;
    CurrentRemoteBounded(status, notes);
  }

  /** The status and delivery counters of the statistics dict. */
  datatype Counts = Counts(
    total: nat,
    confirmed: nat, postponed: nat, inProgress: nat, cancelled: nat, unknown: nat,
    remote: nat, inPerson: nat, hybrid: nat,
    currentRemote: nat)

  const Zero: Counts := Counts(0, 0, 0, 0, 0, 0, 0, 0, 0, 0)

  /** The counting part of `calculate_comprehensive_stats` over the rows of
      the selected period: an empty frame (no rows or no columns) gives all
      zeros; otherwise the status loop, the delivery loop and the loop over
      in-progress remote courses, each run only when its columns exist. */
  method CountCourses(rows: seq<Record>, cols: seq<string>) returns (s: Counts)
    requires RecordsCover(rows, cols)
    ensures s.total == if cols == [] then 0 else |rows|
    ensures s.confirmed + s.postponed + s.inProgress + s.cancelled + s.unknown == s.total
    ensures s.remote + s.inPerson == if LastNamed(cols, NotesHeader).Some? then s.total else 0
    ensures s.hybrid == 0
    ensures s.currentRemote <= s.inProgress && s.currentRemote <= s.remote
    ensures LastNamed(cols, StatusHeader).None? ==> s.unknown == s.total
    ensures LastNamed(cols, StatusHeader).Some? ==>
      var cells := ColumnCells(rows, cols, LastNamed(cols, StatusHeader).value);
      && s.confirmed == CountStatus(cells, Confirmed) && s.postponed == CountStatus(cells, Postponed)
      && s.inProgress == CountStatus(cells, InProgress) && s.cancelled == CountStatus(cells, Cancelled)
      && s.unknown == CountStatus(cells, Unknown)
    ensures LastNamed(cols, NotesHeader).Some? ==>
      var cells := ColumnCells(rows, cols, LastNamed(cols, NotesHeader).value);
      s.remote == CountDelivery(cells, Remote) && s.inPerson == CountDelivery(cells, InPerson)
    ensures LastNamed(cols, StatusHeader).Some? && LastNamed(cols, NotesHeader).Some? ==>
      s.currentRemote == CountCurrentRemote(
        ColumnCells(rows, cols, LastNamed(cols, StatusHeader).value),
        ColumnCells(rows, cols, LastNamed(cols, NotesHeader).value))
    ensures LastNamed(cols, StatusHeader).None? || LastNamed(cols, NotesHeader).None? ==> s.currentRemote == 0
  {
    if rows == [] || cols == [] {
      return Zero;
    }
    var statusCol, notesCol := FindColumns(cols);
    s := Zero.(total := |rows|);
    if statusCol.Some? {
      var cells := ColumnCells(rows, cols, statusCol.value);
      var confirmed, postponed, inProgress, cancelled, unknown := TallyStatuses(cells);
      s := s.(confirmed := confirmed, postponed := postponed, inProgress := inProgress,
              cancelled := cancelled, unknown := unknown);
    } else {
      s := s.(unknown := s.total);
    }
    if notesCol.Some? {
      var cells := ColumnCells(rows, cols, notesCol.value);
      var remote, inPerson, hybrid := TallyDeliveries(cells);
      s := s.(remote := remote, inPerson := inPerson, hybrid := hybrid);
    }
    if statusCol.Some? && notesCol.Some? {
      var n := TallyCurrentRemote(ColumnCells(rows, cols, statusCol.value), ColumnCells(rows, cols, notesCol.value));
      s := s.(currentRemote := n);
    }
  }
}
