/** The document filler `generate_docx_from_template` (app.py:652-763):
    tier 1 writes mapped values into content controls; tier 2, used only
    when walking the body raises, replaces bare tag names in paragraphs. */
module Filler {
  import opened Wrappers
  import opened Text
  import opened SlotMaps
  import opened Documents

  /** The controls the first pass collects: content controls whose tag value
      is present and non-empty. */
  predicate Collected(e: Element) {
    e.Sdt? && e.tag.Some? && e.tag.value != ""
  }

  /** A collected control whose trimmed tag maps to a non-empty value and
      which has at least one text run. */
  predicate Fillable(e: Element, m: SlotMap) {
    && Collected(e)
    && Strip(e.tag.value) in m.values
    && m.values[Strip(e.tag.value)] != ""
    && |e.runs| > 0
  }

  /** The value a fillable control receives. */
  function ValueFor(e: Element, m: SlotMap): string
    requires Fillable(e, m)
  {
    m.values[Strip(e.tag.value)]
  }

  /** The text a control shows: its runs, concatenated. */
  function Shown(runs: seq<string>): string
    decreases |runs|
  {
    if runs == [] then "" else runs[0] + Shown(runs[1..])
  }

  /** The runs after a fill: the value in the first, every other one empty. */
  function Written(runs: seq<string>, v: string): (r: seq<string>)
    requires |runs| > 0
    ensures |r| == |runs|
  {
    [v] + seq(|runs| - 1, _ => "")
  }

  /** A filled control shows exactly its value. */
  lemma {:induction false} WrittenShowsValue(runs: seq<string>, v: string)
    requires |runs| > 0
    ensures Shown(Written(runs, v)) == v
  {
    BlanksShowNothing(|runs| - 1);
    assert Written(runs, v)[1..] == seq(|runs| - 1, _ => "");
  }

  lemma {:induction false} BlanksShowNothing(n: nat)
    ensures Shown(seq(n, _ => "")) == ""
  {
    if n > 0 {
      BlanksShowNothing(n - 1);
      assert seq(n, _ => "")[1..] == seq(n - 1, _ => "");
    }
  }

  /** One control after tier 1. */
  function FillControl(e: Element, m: SlotMap): Element {
    if Fillable(e, m) then e.(runs := Written(e.runs, ValueFor(e, m))) else e
  }

  /** A filled control keeps its tag, its number of runs, and shows its
      value; any other control is left as it was. */
  lemma FilledControlShowsValue(e: Element, m: SlotMap)
    ensures Fillable(e, m) ==>
      && FillControl(e, m).tag == e.tag
      && |FillControl(e, m).runs| == |e.runs|
      && Shown(FillControl(e, m).runs) == ValueFor(e, m)
    ensures !Fillable(e, m) ==> FillControl(e, m) == e
  {
    if Fillable(e, m) {
      WrittenShowsValue(e.runs, ValueFor(e, m));
    }
  }

  /** Tier 1 applied to every control of a body walk. */
  function FillAll(es: seq<Element>, m: SlotMap): seq<Element> {
    seq(|es|, i requires 0 <= i < |es| => FillControl(es[i], m))
  }

  /** The number of fillable controls in a body walk. */
  function CountFillable(es: seq<Element>, m: SlotMap): (n: nat)
    ensures n <= |es|
    decreases |es|
  {
    if es == [] then 0
    else CountFillable(es[..|es| - 1], m) + if Fillable(es[|es| - 1], m) then 1 else 0
  }

  /** The number of fillable controls among the given positions. */
  function CountFillableAt(es: seq<Element>, m: SlotMap, idx: seq<nat>): nat
    requires forall k | 0 <= k < |idx| :: idx[k] < |es|
    decreases |idx|
  {
    if idx == [] then 0
    else CountFillableAt(es, m, idx[..|idx| - 1]) + if Fillable(es[idx[|idx| - 1]], m) then 1 else 0
  }

  /** Blanking every run and then writing the value into the first one. */
  method WriteRuns(runs: seq<string>, v: string) returns (r: seq<string>)
    requires |runs| > 0
    ensures r == Written(runs, v)
  {
    r := runs;
    for j := 0 to |r|
      invariant |r| == |runs|
      invariant forall l | 0 <= l < j :: r[l] == ""
    {
      r := r[j := ""];
    }
    r := r[0 := v];
    assert r == Written(runs, v);
  }

  /** Tier 1's second pass for one collected control: when its trimmed tag
      maps to a non-empty value and it has text runs, blank the runs and
      write the value; report whether it was written. */
  method FillOne(body: seq<Element>, idx: nat, m: SlotMap) returns (filled: seq<Element>, wrote: bool)
    requires idx < |body| && Collected(body[idx])
    ensures filled == body[idx := FillControl(body[idx], m)]
    ensures wrote == Fillable(body[idx], m)
  {
    var e := body[idx];
    filled, wrote := body, false;
    var key := Strip(e.tag.value);
    if key in m.values {
      var v := m.values[key];
      if v != "" && |e.runs| > 0 {
        var runs := WriteRuns(e.runs, v);
        filled := body[idx := e.(runs := runs)];
        wrote := true;
      }
    }
  }

  /** The positions the first pass collects: those of the collected
      controls, in walk order. */
  function CollectedPositions(es: seq<Element>): (r: seq<nat>)
    ensures forall k | 0 <= k < |r| :: r[k] < |es| && Collected(es[r[k]])
    decreases |es|
  {
    if es == [] then []
    else CollectedPositions(es[..|es| - 1]) + if Collected(es[|es| - 1]) then [|es| - 1] else []
  }

  /** The collected positions increase strictly ... */
  lemma {:induction false} CollectedPositionsIncrease(es: seq<Element>)
    ensures forall k, l | 0 <= k < l < |CollectedPositions(es)| ::
      CollectedPositions(es)[k] < CollectedPositions(es)[l]
    decreases |es|
  {
    if es != [] {
      var p := es[..|es| - 1];
      var r := CollectedPositions(p);
      CollectedPositionsIncrease(p);
      assert forall k | 0 <= k < |r| :: r[k] < |p|;
      if Collected(es[|es| - 1]) {
        assert CollectedPositions(es) == r + [|p|];
      } else {
        assert r + [] == r;
      }
    }
  }

  /** ... and hold every collected control. */
  lemma {:induction false} CollectedPositionsComplete(es: seq<Element>, j: nat)
    requires j < |es| && Collected(es[j])
    ensures j in CollectedPositions(es)
    decreases |es|
  {
    if j < |es| - 1 {
      CollectedPositionsComplete(es[..|es| - 1], j);
    }
  }

  /** Counting at positions below `|p|` is the same in `p` and in `p + [x]`. */
  lemma {:induction false} CountAtPrefix(p: seq<Element>, x: Element, m: SlotMap, idx: seq<nat>)
    requires forall k | 0 <= k < |idx| :: idx[k] < |p|
    ensures CountFillableAt(p + [x], m, idx) == CountFillableAt(p, m, idx)
    decreases |idx|
  {
    if idx != [] {
      CountAtPrefix(p, x, m, idx[..|idx| - 1]);
      assert (p + [x])[idx[|idx| - 1]] == p[idx[|idx| - 1]];
    }
  }

  /** Every fillable control is collected, so counting the fillable controls
      among the collected positions counts them all. */
  lemma {:induction false} CountAtCollected(es: seq<Element>, m: SlotMap)
    ensures CountFillableAt(es, m, CollectedPositions(es)) == CountFillable(es, m)
    decreases |es|
  {
    if es != [] {
      var p, x := es[..|es| - 1], es[|es| - 1];
      var r := CollectedPositions(p);
      assert es == p + [x];
      CountAtCollected(p, m);
      CountAtPrefix(p, x, m, r);
      if Collected(x) {
        assert (r + [|p|])[..|r|] == r;
      } else {
        assert r + [] == r;
      }
    }
  }

  /** Tier 1's first pass: walks the body and collects the positions of the
      content controls whose tag value is present and non-empty. */
  method CollectControls(es: seq<Element>) returns (found: seq<nat>)
    ensures found == CollectedPositions(es)
  {
    found := [];
    for i := 0 to |es|
      invariant found == CollectedPositions(es[..i])
    {
      assert es[..i + 1][..i] == es[..i];
      if es[i].Sdt? && es[i].tag.Some? && es[i].tag.value != "" {
        found := found + [i];
      }
    }
    assert es[..|es|] == es;
  }

  /** Counting one more position. */
  lemma CountAtStep(es: seq<Element>, m: SlotMap, idx: seq<nat>, k: nat)
    requires k < |idx| && forall j | 0 <= j < |idx| :: idx[j] < |es|
    ensures CountFillableAt(es, m, idx[..k + 1]) ==
      CountFillableAt(es, m, idx[..k]) + if Fillable(es[idx[k]], m) then 1 else 0
  {
    assert idx[..k + 1][..k] == idx[..k];
  }

  /** Filling one more control that was not filled yet. */
  lemma FilledStep(es: seq<Element>, m: SlotMap, filled: seq<Element>, done: set<nat>, idx: nat)
    requires |filled| == |es| && idx < |es| && idx !in done
    requires forall i | 0 <= i < |es| :: filled[i] == if i in done then FillControl(es[i], m) else es[i]
    ensures filled[idx] == es[idx]
    ensures var next := filled[idx := FillControl(filled[idx], m)];
            forall i | 0 <= i < |es| :: next[i] == if i in done + {idx} then FillControl(es[i], m) else es[i]
  {
  }

  /** The positions the fill loop has handled after `k` rounds. */
  ghost function Handled(found: seq<nat>, k: nat): set<nat>
    requires k <= |found|
  {
    set j | 0 <= j < k :: found[j]
  }

  /** With strictly increasing positions, each round handles a new position. */
  lemma HandledStep(found: seq<nat>, k: nat)
    requires k < |found|
    requires forall a, b | 0 <= a < b < |found| :: found[a] < found[b]
    ensures found[k] !in Handled(found, k)
    ensures Handled(found, k + 1) == Handled(found, k) + {found[k]}
  {
  }

  /** Tier 1 over the body walk: first collect the tagged controls, then
      fill each one whose trimmed tag maps to a non-empty value. */
  method FillControls(es: seq<Element>, m: SlotMap) returns (filled: seq<Element>, count: nat)
    ensures |filled| == |es|
    ensures forall i | 0 <= i < |es| :: filled[i] == FillControl(es[i], m)
    ensures count == CountFillable(es, m)
  {
    var found := CollectControls(es);
    CollectedPositionsIncrease(es);
    CountAtCollected(es, m);
    filled := es;
    count := 0;
    for k := 0 to |found|
      invariant |filled| == |es|
      invariant count == CountFillableAt(es, m, found[..k])
      invariant forall i | 0 <= i < |es| ::
        filled[i] == if i in Handled(found, k) then FillControl(es[i], m) else es[i]
    {
      var idx := found[k];
      CountAtStep(es, m, found, k);
      HandledStep(found, k);
      FilledStep(es, m, filled, Handled(found, k), idx);
      var wrote;
      filled, wrote := FillOne(filled, idx, m);
      if wrote {
        count := count + 1;
      }
    }
    assert found[..|found|] == found;
    FilledEverywhere(es, m, filled);
  }

  /** Once every collected position is handled, every control is as tier 1
      leaves it: a control that is not collected is not fillable. */
  lemma FilledEverywhere(es: seq<Element>, m: SlotMap, filled: seq<Element>)
    requires |filled| == |es|
    requires forall i | 0 <= i < |es| ::
      filled[i] == if i in Handled(CollectedPositions(es), |CollectedPositions(es)|) then FillControl(es[i], m) else es[i]
    ensures forall i | 0 <= i < |es| :: filled[i] == FillControl(es[i], m)
  {
    var found := CollectedPositions(es);
    forall i | 0 <= i < |es|
      ensures filled[i] == FillControl(es[i], m)
    {
      if Collected(es[i]) {
        CollectedPositionsComplete(es, i);
        var j :| 0 <= j < |found| && found[j] == i;
        assert i in Handled(found, |found|);
      }
    }
  }

  /** Tier 2 for one paragraph text: for each key in dict order, when the
      current text contains the bare key and its value is non-empty, replace
      every occurrence and count one replacement. */
  function ReplaceKeys(text: string, keys: seq<string>, values: map<string, string>): (r: (string, nat))
    requires forall k | k in keys :: k in values
    ensures r.1 <= |keys|
    decreases |keys|
  {
    if keys == [] then (text, 0)
    else
      var (t, c) := ReplaceKeys(text, keys[..|keys| - 1], values);
      var k := keys[|keys| - 1];
      if Contains(t, k) && values[k] != "" then (ReplaceAll(t, k, values[k]), c + 1) else (t, c)
  }

  /** A paragraph counts a replacement exactly when its original text
      mentions some key whose value is non-empty; when it counts none, its
      text is unchanged. The first replacement always acts on the original
      text, so a key brought in by an earlier value cannot start the count. */
  lemma {:induction false} ReplaceKeysCountsMention(text: string, keys: seq<string>, values: map<string, string>)
    requires forall k | k in keys :: k in values
    ensures ReplaceKeys(text, keys, values).1 == 0 <==>
      forall k | k in keys && values[k] != "" :: !Contains(text, k)
    ensures ReplaceKeys(text, keys, values).1 == 0 ==> ReplaceKeys(text, keys, values).0 == text
    decreases |keys|
  {
    if keys != [] {
      var init, last := keys[..|keys| - 1], keys[|keys| - 1];
      ReplaceKeysCountsMention(text, init, values);
      assert keys == init + [last];
      assert forall k | k in keys :: k in init || k == last;
    }
  }

  /** A text that holds none of the keys is left alone and counts nothing. */
  lemma {:induction false} ReplaceKeysAbsent(text: string, keys: seq<string>, values: map<string, string>)
    requires forall k | k in keys :: k in values
    requires forall k | k in keys :: !Contains(text, k)
    ensures ReplaceKeys(text, keys, values) == (text, 0)
    decreases |keys|
  {
    if keys != [] {
      ReplaceKeysAbsent(text, keys[..|keys| - 1], values);
    }
  }

  /** Tier 2 for one paragraph; a paragraph whose text cannot be read is
      skipped. */
  function ReplaceInParagraph(p: Paragraph, m: SlotMap): (r: (Paragraph, nat))
    requires Valid(m)
    ensures p.BrokenPara? ==> r == (p, 0)
    ensures r.0.Para? <==> p.Para?
    ensures r.1 <= |m.order|
  {
    if p.BrokenPara? then (p, 0)
    else
      var (t, c) := ReplaceKeys(p.text, m.order, m.values);
      (Para(t), c)
  }

  /** Tier 2 over all top-level paragraphs. */
  function ReplaceInParagraphs(ps: seq<Paragraph>, m: SlotMap): (r: (seq<Paragraph>, nat))
    requires Valid(m)
    ensures |r.0| == |ps|
    decreases |ps|
  {
    if ps == [] then ([], 0)
    else
      var (out, c) := ReplaceInParagraphs(ps[..|ps| - 1], m);
      var (p, d) := ReplaceInParagraph(ps[|ps| - 1], m);
      (out + [p], c + d)
  }

  /** Tier 2 leaves every faulty paragraph where it was and counts at most
      one replacement per paragraph and key. */
  lemma {:induction false} ReplaceInParagraphsBounds(ps: seq<Paragraph>, m: SlotMap)
    requires Valid(m)
    ensures forall i | 0 <= i < |ps| && ps[i].BrokenPara? :: ReplaceInParagraphs(ps, m).0[i] == ps[i]
    ensures ReplaceInParagraphs(ps, m).1 <= |ps| * |m.order|
    decreases |ps|
  {
    if ps != [] {
      var init, last := ps[..|ps| - 1], ps[|ps| - 1];
      ReplaceInParagraphsBounds(init, m);
      var (out, c) := ReplaceInParagraphs(init, m);
      var (p, d) := ReplaceInParagraph(last, m);
      assert ReplaceInParagraphs(ps, m) == (out + [p], c + d);
      assert forall i | 0 <= i < |ps| - 1 :: init[i] == ps[i] && (out + [p])[i] == out[i];
      MulStep(|ps|, |m.order|);
    }
  }

  /** Tier 2 rewrites each paragraph on its own: paragraph i of the result is
      paragraph i's own rewrite, and its count is part of the total. */
  lemma {:induction false} ReplaceInParagraphsAt(ps: seq<Paragraph>, m: SlotMap, i: nat)
    requires Valid(m) && i < |ps|
    ensures ReplaceInParagraphs(ps, m).0[i] == ReplaceInParagraph(ps[i], m).0
    ensures ReplaceInParagraph(ps[i], m).1 <= ReplaceInParagraphs(ps, m).1
    decreases |ps|
  {
    var init := ps[..|ps| - 1];
    if i < |ps| - 1 {
      ReplaceInParagraphsAt(init, m, i);
      assert init[i] == ps[i];
    }
  }

  /** Tier 2 counts nothing exactly when no readable paragraph mentions a
      key whose value is non-empty. */
  lemma {:induction false} ReplaceInParagraphsCountsMention(ps: seq<Paragraph>, m: SlotMap)
    requires Valid(m)
    ensures ReplaceInParagraphs(ps, m).1 == 0 <==>
      forall i, k | 0 <= i < |ps| && ps[i].Para? && k in m.order && m.values[k] != "" :: !Contains(ps[i].text, k)
    decreases |ps|
  {
    if ps != [] {
      var init, last := ps[..|ps| - 1], ps[|ps| - 1];
      ReplaceInParagraphsCountsMention(init, m);
      if last.Para? {
        ReplaceKeysCountsMention(last.text, m.order, m.values);
      }
      assert forall i | 0 <= i < |ps| - 1 :: init[i] == ps[i];
    }
  }

  lemma MulStep(n: nat, k: nat)
    requires n > 0
    ensures (n - 1) * k + k == n * k
  {
  }

  /** Paragraphs that mention no key, in particular all paragraphs under an
      empty mapping, come out unchanged with nothing counted. */
  lemma {:induction false} UntaggedParagraphsUnchanged(ps: seq<Paragraph>, m: SlotMap)
    requires Valid(m)
    requires forall i, k | 0 <= i < |ps| && ps[i].Para? && k in m.order :: !Contains(ps[i].text, k)
    ensures ReplaceInParagraphs(ps, m) == (ps, 0)
    decreases |ps|
  {
    if ps != [] {
      var p, last := ps[..|ps| - 1], ps[|ps| - 1];
      assert forall i | 0 <= i < |p| :: p[i] == ps[i];
      UntaggedParagraphsUnchanged(p, m);
      if last.Para? {
        ReplaceKeysAbsent(last.text, m.order, m.values);
      }
      assert ReplaceInParagraph(last, m) == (last, 0);
      assert ReplaceInParagraphs(ps, m) == (p + [last], 0);
      assert p + [last] == ps;
    }
  }

  /** The loop over the mapping for one paragraph text: each key, in dict
      order, that the current text contains and whose value is non-empty is
      replaced everywhere and counted once. */
  method ReplaceKeysInText(text: string, m: SlotMap) returns (out: string, count: nat)
    requires Valid(m)
    ensures (out, count) == ReplaceKeys(text, m.order, m.values)
  {
    out, count := text, 0;
    for j := 0 to |m.order|
      invariant (out, count) == ReplaceKeys(text, m.order[..j], m.values)
    {
      assert m.order[..j + 1][..j] == m.order[..j];
      var key := m.order[j];
      var value := m.values[key];
      if Contains(out, key) && value != "" {
        out := ReplaceAll(out, key, value);
        count := count + 1;
      }
    }
    assert m.order[..|m.order|] == m.order;
  }

  /** Tier 2 with its paragraph loop; a paragraph whose text cannot be read
      is skipped. */
  method ReplaceInText(ps: seq<Paragraph>, m: SlotMap) returns (out: seq<Paragraph>, count: nat)
    requires Valid(m)
    ensures (out, count) == ReplaceInParagraphs(ps, m)
  {
    out := [];
    count := 0;
    for i := 0 to |ps|
      invariant (out, count) == ReplaceInParagraphs(ps[..i], m)
    {
      assert ps[..i + 1][..i] == ps[..i];
      if ps[i].BrokenPara? {
        out := out + [ps[i]];
      } else {
        var text, n := ReplaceKeysInText(ps[i].text, m);
        out := out + [Para(text)];
        count := count + n;
      }
    }
    assert ps[..|ps|] == ps;
  }

  /** The outcome of one fill: the saved document (None when the template
      cannot be opened or saving raises) and the replacement count. Tier 1
      runs when the body can be walked; otherwise tier 2 runs when the
      paragraph list can be read; otherwise nothing changes. */
  function Fill(t: Template, m: SlotMap): (r: (Option<Document>, nat))
    requires Valid(m)
    ensures r.0.Some? <==> t.Loaded? && t.saves
    ensures r.0.Some? ==> r.0.value.tables == t.doc.tables
    ensures t.Unreadable? ==> r.1 == 0
  {
    match t
    case Unreadable => (None, 0)
    case Loaded(doc, saves) =>
      var (filled, n) :=
        if doc.body.Some? then
          (doc.(body := Some(FillAll(doc.body.value, m))),
           CountFillable(doc.body.value, m))
        else if doc.paragraphs.Some? then
          var (ps, c) := ReplaceInParagraphs(doc.paragraphs.value, m);
          (doc.(paragraphs := Some(ps)), c)
        else (doc, 0);
      (if saves then Some(filled) else None, n)
  }

  /** Filling with an empty mapping changes nothing and counts nothing. */
  lemma FillWithEmptyMapping(t: Template)
    requires t.Loaded? && t.saves
    ensures Fill(t, Empty) == (Some(t.doc), 0)
  {
    if t.doc.body.Some? {
      var es := t.doc.body.value;
      NothingFillableWhenEmpty(es);
      assert FillAll(es, Empty) == es;
    } else if t.doc.paragraphs.Some? {
      UntaggedParagraphsUnchanged(t.doc.paragraphs.value, Empty);
    }
  }

  lemma {:induction false} NothingFillableWhenEmpty(es: seq<Element>)
    ensures CountFillable(es, Empty) == 0
    decreases |es|
  {
    if es != [] {
      NothingFillableWhenEmpty(es[..|es| - 1]);
    }
  }

  /** `generate_docx_from_template(template, mapping)`. */
  method GenerateDocx(t: Template, m: SlotMap) returns (out: Option<Document>, count: nat)
    requires Valid(m)
    ensures (out, count) == Fill(t, m)
  {
    if t.Unreadable? {
      return None, 0;
    }
    var doc := t.doc;
    count := 0;
    if doc.body.Some? {
      var es := doc.body.value;
      var filled;
      filled, count := FillControls(es, m);
      assert filled == FillAll(es, m);
      doc := doc.(body := Some(filled));
    } else if doc.paragraphs.Some? {
      var ps;
      ps, count := ReplaceInText(doc.paragraphs.value, m);
      doc := doc.(paragraphs := Some(ps));
    }
    out := if t.saves then Some(doc) else None;
  }
}
