/**
 * The single-record dossier, in its two renderings: the plain-text export of
 * `generate_dossier_text` and the on-screen card layout of the profile view.
 * Both walk `all_groups` in order and, per group, the group's fields in
 * `group_map` order. Each is described first as structure (sections of
 * field/value entries) and the text is then rendered from that structure.
 */
module Dossier {
  import opened Cells
  import opened Text
  import opened Seqs
  import opened GroupMaps
  import opened Records
  import opened HeaderTaxonomy

  /** One `field: value` line of the export, or one card of the screen. */
  datatype Entry = Entry(field: string, text: string)

  /** The part of the export headed by one group. */
  datatype Section = Section(group: string, entries: seq<Entry>)

  /** How many entries are about `f`. */
  function CountField(es: seq<Entry>, f: string): nat {
    if es == [] then 0
    else CountField(es[..|es| - 1], f) + (if es[|es| - 1].field == f then 1 else 0)
  }

  lemma {:induction false} CountFieldConcat(a: seq<Entry>, b: seq<Entry>, f: string)
    ensures CountField(a + b, f) == CountField(a, f) + CountField(b, f)
  {
    if b == [] {
      assert a + b == a;
    } else {
      assert (a + b)[..|a + b| - 1] == a + b[..|b| - 1];
      CountFieldConcat(a, b[..|b| - 1], f);
    }
  }

  lemma {:induction false} CountFieldAbsent(es: seq<Entry>, f: string)
    requires forall e :: e in es ==> e.field != f
    ensures CountField(es, f) == 0
  {
    if es != [] {
      assert forall e :: e in es[..|es| - 1] ==> e in es;
      CountFieldAbsent(es[..|es| - 1], f);
    }
  }

  // ---------------------------------------------------------------------
  // Text export (`generate_dossier_text`)
  // ---------------------------------------------------------------------

  /** `[f"{col}: {row[col]}" for col in fields if col in row]`. */
  function PresentEntries(row: Row, fields: seq<string>): seq<Entry> {
    if fields == [] then []
    else
      var init, f := fields[..|fields| - 1], fields[|fields| - 1];
      var es := PresentEntries(row, init);
      if f in row then es + [Entry(f, Str(row[f]))] else es
  }

  /** Each line is a listed field that the row has, with the row's value. */
  lemma {:induction false} PresentEntriesSound(row: Row, fields: seq<string>)
    ensures forall e :: e in PresentEntries(row, fields) ==> e.field in fields && e.field in row && e.text == Str(row[e.field])
  {
    if fields != [] {
      var init := fields[..|fields| - 1];
      PresentEntriesSound(row, init);
      assert forall x :: x in init ==> x in fields;
    }
  }

  /** The fields the entries are about, in entry order. */
  function EntryFields(es: seq<Entry>): (fs: seq<string>)
    ensures |fs| == |es|
  {
    if es == [] then [] else EntryFields(es[..|es| - 1]) + [es[|es| - 1].field]
  }

  /** Appending an entry appends its field. */
  lemma EntryFieldsSnoc(es: seq<Entry>, e: Entry)
    ensures EntryFields(es + [e]) == EntryFields(es) + [e.field]
  {
    assert (es + [e])[..|es|] == es;
  }

  /** The lines come in the order of the listed fields. */
  lemma {:induction false} PresentEntriesOrder(row: Row, fields: seq<string>)
    ensures IsSubsequence(EntryFields(PresentEntries(row, fields)), fields)
  {
    if fields != [] {
      var init, f := fields[..|fields| - 1], fields[|fields| - 1];
      assert fields == init + [f];
      var es := PresentEntries(row, init);
      PresentEntriesOrder(row, init);
      if f in row {
        EntryFieldsSnoc(es, Entry(f, Str(row[f])));
        SubsequenceSnoc(EntryFields(es), init, f);
      } else {
        SubsequenceExtend(EntryFields(es), init, f);
      }
    }
  }

  /** The lines of a group's section come in dictionary order of `group_map`. */
  lemma SectionInMapOrder(row: Row, gm: GroupMap, group: string)
    ensures IsSubsequence(EntryFields(SectionFor(row, gm, group).entries), Keys(gm))
  {
    PresentEntriesOrder(row, FieldsOf(gm, group));
    SubsequenceTrans(EntryFields(SectionFor(row, gm, group).entries), FieldsOf(gm, group), Keys(gm));
  }

  /** With no repeated field, a present field gets exactly one line and an absent one none. */
  lemma {:induction false} PresentEntriesCount(row: Row, fields: seq<string>, f: string)
    requires NoDup(fields)
    ensures CountField(PresentEntries(row, fields), f) == if f in fields && f in row then 1 else 0
  {
    if fields != [] {
      var init, last := fields[..|fields| - 1], fields[|fields| - 1];
      assert fields == init + [last];
      assert last !in init;
      PresentEntriesCount(row, init, f);
      var es := PresentEntries(row, init);
      if last in row {
        assert (es + [Entry(last, Str(row[last]))])[..|es|] == es;
      }
    }
  }

  /** The section of one group. */
  function SectionFor(row: Row, gm: GroupMap, group: string): Section {
    Section(group, PresentEntries(row, FieldsOf(gm, group)))
  }

  /** `for group in all_groups`: one section per listed group. */
  function ExportSections(row: Row, gm: GroupMap, groups: seq<string>): seq<Section> {
    if groups == [] then []
    else ExportSections(row, gm, groups[..|groups| - 1]) + [SectionFor(row, gm, groups[|groups| - 1])]
  }

  /** Sections come in `all_groups` order; each entry is a field the row has, with its value, filed under that group. */
  lemma {:induction false} ExportSectionsShape(row: Row, gm: GroupMap, groups: seq<string>)
    ensures |ExportSections(row, gm, groups)| == |groups|
    ensures forall i :: 0 <= i < |groups| ==> ExportSections(row, gm, groups)[i].group == groups[i]
    ensures forall i, e :: 0 <= i < |groups| && e in ExportSections(row, gm, groups)[i].entries ==>
              e.field in row && e.text == Str(row[e.field]) && (e.field, groups[i]) in gm
  {
    if groups != [] {
      var init, g := groups[..|groups| - 1], groups[|groups| - 1];
      var ss := ExportSections(row, gm, init);
      var all := ss + [SectionFor(row, gm, g)];
      assert ExportSections(row, gm, groups) == all;
      ExportSectionsShape(row, gm, init);
      PresentEntriesSound(row, FieldsOf(gm, g));
      forall i | 0 <= i < |groups|
        ensures all[i].group == groups[i]
      {
        if i < |init| {
          assert all[i] == ss[i] && groups[i] == init[i];
        }
      }
      forall i, e | 0 <= i < |groups| && e in all[i].entries
        ensures e.field in row && e.text == Str(row[e.field]) && (e.field, groups[i]) in gm
      {
        if i < |init| {
          assert all[i] == ss[i] && groups[i] == init[i];
        }
      }
    }
  }

  /** Within every section of the export, the lines come in dictionary order of `group_map`. */
  lemma {:induction false} ExportSectionsInMapOrder(row: Row, gm: GroupMap, groups: seq<string>)
    ensures forall i :: 0 <= i < |ExportSections(row, gm, groups)| ==>
              IsSubsequence(EntryFields(ExportSections(row, gm, groups)[i].entries), Keys(gm))
  {
    if groups != [] {
      var init, g := groups[..|groups| - 1], groups[|groups| - 1];
      var ss := ExportSections(row, gm, init);
      var all := ss + [SectionFor(row, gm, g)];
      assert ExportSections(row, gm, groups) == all;
      ExportSectionsInMapOrder(row, gm, init);
      SectionInMapOrder(row, gm, g);
      forall i | 0 <= i < |all|
        ensures IsSubsequence(EntryFields(all[i].entries), Keys(gm))
      {
        if i < |ss| {
          assert all[i] == ss[i];
        }
      }
    }
  }

  /** How many entries about `f` the sections hold altogether. */
  function SectionsCount(ss: seq<Section>, f: string): nat {
    if ss == [] then 0 else SectionsCount(ss[..|ss| - 1], f) + CountField(ss[|ss| - 1].entries, f)
  }

  /**
   * Every field of the map that the row has appears exactly once in the
   * export when its group is listed; every other field not at all.
   */
  lemma {:induction false} ExportListsFieldOnce(row: Row, gm: GroupMap, groups: seq<string>, f: string)
    requires KeysDistinct(gm) && NoDup(groups)
    ensures SectionsCount(ExportSections(row, gm, groups), f)
         == if f in row && Lookup(gm, f).Some? && Lookup(gm, f).value in groups then 1 else 0
  {
    if groups != [] {
      var init, g := groups[..|groups| - 1], groups[|groups| - 1];
      assert groups == init + [g];
      assert g !in init;
      var prev := ExportSections(row, gm, init);
      assert (prev + [SectionFor(row, gm, g)])[..|prev|] == prev;
      ExportListsFieldOnce(row, gm, init, f);
      FieldsOfNoDup(gm, g);
      PresentEntriesCount(row, FieldsOf(gm, g), f);
      LookupStored(gm, f, g);
    }
  }

  const Title: string := "KYRIX INTELLIGENCE COMMAND | DOSSIER EXPORT\n"
  const EndMarker: string := "END OF DOSSIER"

  /** Title, timestamp line and rule; `timestamp` is the formatted clock reading. */
  function Preamble(timestamp: string): string {
    Title + "TIMESTAMP: " + timestamp + "\n" + Repeat('=', 50) + "\n\n"
  }

  function Closing(): string {
    Repeat('=', 50) + "\n" + EndMarker
  }

  function Heading(group: string): string {
    "[" + Upper(group) + "]\n" + Repeat('-', 20) + "\n"
  }

  function EntryLine(e: Entry): string {
    e.field + ": " + e.text + "\n"
  }

  function RenderEntries(es: seq<Entry>): string {
    if es == [] then "" else RenderEntries(es[..|es| - 1]) + EntryLine(es[|es| - 1])
  }

  function RenderSection(s: Section): string {
    Heading(s.group) + RenderEntries(s.entries) + "\n"
  }

  function RenderSections(ss: seq<Section>): string {
    if ss == [] then "" else RenderSections(ss[..|ss| - 1]) + RenderSection(ss[|ss| - 1])
  }

  /** The export: it opens on the title and timestamp lines and closes on the end marker. */
  function DossierText(row: Row, gm: GroupMap, groups: seq<string>, timestamp: string): (report: string)
    ensures Title + "TIMESTAMP: " + timestamp + "\n" <= report
    ensures |report| >= |EndMarker| && report[|report| - |EndMarker|..] == EndMarker
  {
    var body := RenderSections(ExportSections(row, gm, groups));
    assert Preamble(timestamp) + body + Closing() == (Title + "TIMESTAMP: " + timestamp + "\n") + (Repeat('=', 50) + "\n\n" + body + Closing());
    Preamble(timestamp) + body + Closing()
  }

  lemma AppendAssoc(a: string, b: string, c: string)
    ensures (a + b) + c == a + (b + c)
  {
  }

  /** Reading one more field of a group adds its line when the row has it. */
  lemma RenderEntriesStep(row: Row, fields: seq<string>, j: nat)
    requires j < |fields|
    ensures RenderEntries(PresentEntries(row, fields[..j + 1]))
         == RenderEntries(PresentEntries(row, fields[..j]))
            + (if fields[j] in row then fields[j] + ": " + Str(row[fields[j]]) + "\n" else "")
  {
    assert fields[..j + 1][..j] == fields[..j];
    var es := PresentEntries(row, fields[..j]);
    if fields[j] in row {
      var e := Entry(fields[j], Str(row[fields[j]]));
      assert (es + [e])[..|es|] == es;
    }
  }

  /** Reading one more group adds its rendered section. */
  lemma RenderSectionsStep(row: Row, gm: GroupMap, groups: seq<string>, i: nat)
    requires i < |groups|
    ensures RenderSections(ExportSections(row, gm, groups[..i + 1]))
         == RenderSections(ExportSections(row, gm, groups[..i])) + RenderSection(SectionFor(row, gm, groups[i]))
  {
    assert groups[..i + 1][..i] == groups[..i];
    var ss := ExportSections(row, gm, groups[..i]);
    assert (ss + [SectionFor(row, gm, groups[i])])[..|ss|] == ss;
  }

  /** The inner loop of `generate_dossier_text`: appends `col: value` for each listed field the row has. */
  method AppendFieldLines(report: string, row: Row, groupCols: seq<string>) returns (out: string)
    ensures out == report + RenderEntries(PresentEntries(row, groupCols))
  {
    out := report;
    assert groupCols[..0] == [];
    var j := 0;
    while j < |groupCols|
      invariant 0 <= j <= |groupCols|
      invariant out == report + RenderEntries(PresentEntries(row, groupCols[..j]))
    {
      var col := groupCols[j];
      RenderEntriesStep(row, groupCols, j);
      ghost var before := RenderEntries(PresentEntries(row, groupCols[..j]));
      ghost var line := if col in row then col + ": " + Str(row[col]) + "\n" else "";
      if col in row {
        out := out + (col + ": " + Str(row[col]) + "\n");
      }
      assert out == (report + before) + line;
      AppendAssoc(report, before, line);
      j := j + 1;
    }
    assert groupCols[..j] == groupCols;
  }

  /** The body of the group loop of `generate_dossier_text`: heading, field lines, blank line. */
  method AppendSection(report: string, row: Row, gm: GroupMap, group: string) returns (out: string)
    ensures out == report + RenderSection(SectionFor(row, gm, group))
  {
    out := report + ("[" + Upper(group) + "]\n");
    out := out + (Repeat('-', 20) + "\n");
    ghost var headed := out;
    assert headed == report + Heading(group);
    var groupCols := FieldsOf(gm, group);
    out := AppendFieldLines(out, row, groupCols);
    out := out + "\n";
    ghost var entries := RenderEntries(PresentEntries(row, groupCols));
    assert out == (headed + entries) + "\n";
    AppendAssoc(headed, entries, "\n");
    AppendAssoc(report, Heading(group), entries + "\n");
    AppendAssoc(Heading(group), entries, "\n");
  }

  /** `generate_dossier_text`: builds the report by appending, group by group and field by field. */
  method GenerateDossierText(row: Row, gm: GroupMap, groups: seq<string>, timestamp: string) returns (report: string)
    ensures report == DossierText(row, gm, groups, timestamp)
  {
    report := Title;
    report := report + ("TIMESTAMP: " + timestamp + "\n");
    report := report + (Repeat('=', 50) + "\n\n");
    var i := 0;
    while i < |groups|
      invariant 0 <= i <= |groups|
      invariant report == Preamble(timestamp) + RenderSections(ExportSections(row, gm, groups[..i]))
    {
      ghost var prev := RenderSections(ExportSections(row, gm, groups[..i]));
      report := AppendSection(report, row, gm, groups[i]);
      RenderSectionsStep(row, gm, groups, i);
      AppendAssoc(Preamble(timestamp), prev, RenderSection(SectionFor(row, gm, groups[i])));
      i := i + 1;
    }
    assert groups[..i] == groups;
    report := report + (Repeat('=', 50) + "\n");
    report := report + EndMarker;
  }

  // ---------------------------------------------------------------------
  // On-screen profile (the card layout of the profile tab)
  // ---------------------------------------------------------------------

  /** Fields held back from their own group and shown at the foot of each "Enriched" group. */
  const SpecialFields: seq<string> := ["Address of License", "Harmonized Phone Number"]

  /** A card's value: the cell's text, or a dash when it is missing. */
  function Shown(c: Cell): string {
    if c.Some? then c.value else Dash
  }

  /** A field shown in its own group: not a pandas `Unnamed` column and not a special field. */
  predicate IsRegularField(f: string) {
    !Contains(f, "Unnamed") && f !in SpecialFields
  }

  predicate IsEnriched(group: string) {
    Contains(group, "Enriched")
  }

  /** The cards of a group's own fields that the row has, skipping `Unnamed` and special fields. */
  function RegularCards(row: Row, fields: seq<string>): (cs: seq<Entry>)
    ensures forall c :: c in cs ==> c.field in fields && c.field in row && IsRegularField(c.field) && c.text == Shown(row[c.field])
  {
    if fields == [] then []
    else
      var init, f := fields[..|fields| - 1], fields[|fields| - 1];
      assert forall x :: x in init ==> x in fields;
      var cs := RegularCards(row, init);
      if f in row && IsRegularField(f) then cs + [Entry(f, Shown(row[f]))] else cs
  }

  /** The cards of the special fields the row has, in their fixed order. */
  function SpecialCards(row: Row): (cs: seq<Entry>)
    ensures forall c :: c in cs ==> c.field in SpecialFields && c.field in row && c.text == Shown(row[c.field])
    ensures forall f :: f in SpecialFields ==> CountField(cs, f) == if f in row then 1 else 0
  {
    var a, h := SpecialFields[0], SpecialFields[1];
    var first := if a in row then [Entry(a, Shown(row[a]))] else [];
    var second := if h in row then [Entry(h, Shown(row[h]))] else [];
    CountFieldConcat(first, second, a);
    CountFieldConcat(first, second, h);
    first + second
  }

  /** A group's cards: its regular fields, then, for an "Enriched" group, the special fields at the foot. */
  function GroupCards(row: Row, gm: GroupMap, group: string): (cs: seq<Entry>)
    ensures forall a, b :: 0 <= a < b < |cs| && cs[a].field in SpecialFields ==> cs[b].field in SpecialFields
    ensures forall c :: c in cs && c.field in SpecialFields ==> IsEnriched(group)
    ensures forall c :: c in cs ==> c.field in row && c.text == Shown(row[c.field])
    ensures forall c :: c in cs && c.field !in SpecialFields ==> (c.field, group) in gm && !Contains(c.field, "Unnamed")
  {
    var regular := RegularCards(row, FieldsOf(gm, group));
    var special := if IsEnriched(group) then SpecialCards(row) else [];
    assert forall a :: 0 <= a < |regular| ==> regular[a] in regular;
    assert forall b :: 0 <= b < |special| ==> special[b] in special;
    regular + special
  }

  datatype Side = Left | Right

  /** One group's panel: its banner style, the screen column it goes to and its cards. */
  datatype Panel = Panel(group: string, highlighted: bool, side: Side, cards: seq<Entry>)

  /** The profile view: one panel per listed group, alternating left and right, "Enriched" ones highlighted. */
  function ScreenPanels(row: Row, gm: GroupMap, groups: seq<string>): (ps: seq<Panel>)
    ensures |ps| == |groups|
    ensures forall i :: 0 <= i < |groups| ==>
              ps[i].group == groups[i] && ps[i].highlighted == IsEnriched(groups[i])
              && ps[i].side == (if i % 2 == 0 then Left else Right)
              && ps[i].cards == GroupCards(row, gm, groups[i])
  {
    if groups == [] then []
    else
      var n := |groups| - 1;
      ScreenPanels(row, gm, groups[..n])
        + [Panel(groups[n], IsEnriched(groups[n]), if n % 2 == 0 then Left else Right, GroupCards(row, gm, groups[n]))]
  }

  function PanelsCount(ps: seq<Panel>, f: string): nat {
    if ps == [] then 0 else PanelsCount(ps[..|ps| - 1], f) + CountField(ps[|ps| - 1].cards, f)
  }

  /** A group's own cards come in the order of its listed fields. */
  lemma {:induction false} RegularCardsOrder(row: Row, fields: seq<string>)
    ensures IsSubsequence(EntryFields(RegularCards(row, fields)), fields)
  {
    if fields != [] {
      var init, f := fields[..|fields| - 1], fields[|fields| - 1];
      assert fields == init + [f];
      var cs := RegularCards(row, init);
      RegularCardsOrder(row, init);
      if f in row && IsRegularField(f) {
        EntryFieldsSnoc(cs, Entry(f, Shown(row[f])));
        SubsequenceSnoc(EntryFields(cs), init, f);
      } else {
        SubsequenceExtend(EntryFields(cs), init, f);
      }
    }
  }

  /** A panel opens with its regular cards, in dictionary order of `group_map`. */
  lemma PanelInMapOrder(row: Row, gm: GroupMap, group: string)
    ensures var regular := RegularCards(row, FieldsOf(gm, group));
            regular <= GroupCards(row, gm, group) && IsSubsequence(EntryFields(regular), Keys(gm))
  {
    RegularCardsOrder(row, FieldsOf(gm, group));
    SubsequenceTrans(EntryFields(RegularCards(row, FieldsOf(gm, group))), FieldsOf(gm, group), Keys(gm));
  }

  /** With no repeated field, a regular field the row has gets exactly one card, and an absent one none. */
  lemma {:induction false} RegularCardsCount(row: Row, fields: seq<string>, f: string)
    requires NoDup(fields) && IsRegularField(f)
    ensures CountField(RegularCards(row, fields), f) == if f in fields && f in row then 1 else 0
  {
    if fields != [] {
      var init, last := fields[..|fields| - 1], fields[|fields| - 1];
      assert fields == init + [last];
      assert last !in init;
      RegularCardsCount(row, init, f);
      var cs := RegularCards(row, init);
      if last in row && IsRegularField(last) {
        assert (cs + [Entry(last, Shown(row[last]))])[..|cs|] == cs;
      }
    }
  }

  /**
   * On screen, a regular field of the map that the row has is shown exactly
   * once when its group is listed, and otherwise not at all.
   */
  lemma {:induction false} ScreenShowsRegularFieldOnce(row: Row, gm: GroupMap, groups: seq<string>, f: string)
    requires KeysDistinct(gm) && NoDup(groups) && IsRegularField(f)
    ensures PanelsCount(ScreenPanels(row, gm, groups), f)
         == if f in row && Lookup(gm, f).Some? && Lookup(gm, f).value in groups then 1 else 0
  {
    if groups != [] {
      var init, g := groups[..|groups| - 1], groups[|groups| - 1];
      assert groups == init + [g];
      assert g !in init;
      var ps := ScreenPanels(row, gm, groups);
      assert ps[..|ps| - 1] == ScreenPanels(row, gm, init);
      ScreenShowsRegularFieldOnce(row, gm, init, f);
      var regular := RegularCards(row, FieldsOf(gm, g));
      var special := if IsEnriched(g) then SpecialCards(row) else [];
      CountFieldConcat(regular, special, f);
      CountFieldAbsent(special, f);
      FieldsOfNoDup(gm, g);
      RegularCardsCount(row, FieldsOf(gm, g), f);
      LookupStored(gm, f, g);
    }
  }

  /** A special field is shown once in every "Enriched" group when the row has it, and in no other group. */
  lemma SpecialFieldPlacement(row: Row, gm: GroupMap, groups: seq<string>, i: nat, f: string)
    requires i < |groups| && f in SpecialFields
    ensures CountField(ScreenPanels(row, gm, groups)[i].cards, f) == if IsEnriched(groups[i]) && f in row then 1 else 0
  {
    var regular := RegularCards(row, FieldsOf(gm, groups[i]));
    var special := if IsEnriched(groups[i]) then SpecialCards(row) else [];
    CountFieldConcat(regular, special, f);
    CountFieldAbsent(regular, f);
    if !IsEnriched(groups[i]) {
      assert special == [];
    }
  }

  // ---------------------------------------------------------------------
  // Parser and renderers together
  // ---------------------------------------------------------------------

  /**
   * With the map and group list the header parse produces, every mapped
   * field that the row has appears exactly once in the export, under the
   * section of its own group; fields the row lacks or the map does not hold
   * do not appear.
   */
  lemma ParsedExportListsFieldOnce(groupRow: seq<Cell>, headerRow: seq<Cell>, row: Row, f: string)
    ensures var gm := GroupMapAfter(groupRow, headerRow, |headerRow|);
            var groups := AllGroups(groupRow, |headerRow|);
            SectionsCount(ExportSections(row, gm, groups), f) == (if f in row && f in Keys(gm) then 1 else 0)
            && |ExportSections(row, gm, groups)| == |groups|
            && forall i, e :: 0 <= i < |groups| && e in ExportSections(row, gm, groups)[i].entries ==>
                 Lookup(gm, e.field) == Some(groups[i])
  {
    var gm := GroupMapAfter(groupRow, headerRow, |headerRow|);
    var groups := AllGroups(groupRow, |headerRow|);
    GroupMapKeysAreAssignedKeys(groupRow, headerRow, |headerRow|);
    GroupMapValuesAreListed(groupRow, headerRow, |headerRow|);
    DistinctSpec(ColumnGroups(groupRow, |headerRow|));
    ExportListsFieldOnce(row, gm, groups, f);
    ExportSectionsShape(row, gm, groups);
    forall i, e | 0 <= i < |groups| && e in ExportSections(row, gm, groups)[i].entries
      ensures Lookup(gm, e.field) == Some(groups[i])
    {
      LookupStored(gm, e.field, groups[i]);
    }
  }

  /** The same for the screen: every regular mapped field the row has is shown exactly once, under its own group. */
  lemma ParsedScreenShowsFieldOnce(groupRow: seq<Cell>, headerRow: seq<Cell>, row: Row, f: string)
    requires IsRegularField(f)
    ensures var gm := GroupMapAfter(groupRow, headerRow, |headerRow|);
            var groups := AllGroups(groupRow, |headerRow|);
            PanelsCount(ScreenPanels(row, gm, groups), f) == (if f in row && f in Keys(gm) then 1 else 0)
  {
    var gm := GroupMapAfter(groupRow, headerRow, |headerRow|);
    var groups := AllGroups(groupRow, |headerRow|);
    GroupMapKeysAreAssignedKeys(groupRow, headerRow, |headerRow|);
    GroupMapValuesAreListed(groupRow, headerRow, |headerRow|);
    DistinctSpec(ColumnGroups(groupRow, |headerRow|));
    ScreenShowsRegularFieldOnce(row, gm, groups, f);
  }
}
