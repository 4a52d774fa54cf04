/**
 * The comparison table of `render_law_comparison`, without its HTML: for the
 * chosen legislation type and one record from each source, the ordered rows
 * (field name, Qistas text, Diwan text, differs).
 */
module DiffEngine {
  import opened Values
  import opened StatusParser
  import opened Records

  // Legislation types offered in the sidebar
  const Bylaw: string := "نظام"
  const Law: string := "قانون"
  const Instruction: string := "تعليمات"
  const Agreement: string := "اتفاقيات"

  /** The columns that hold a legislation's name and number in each source. */
  datatype ColumnMap = ColumnMap(nameQis: string, nameDiw: string, numQis: string, numDiw: string)

  /** `FIELD_MAPPING` */
  const FieldMapping: map<string, ColumnMap> := map[
    Bylaw := ColumnMap("LegName", "ByLawName", "LegNumber", "ByLawNumber"),
    Law := ColumnMap("LegName", "Law_Name", "LegNumber", "Law_Number"),
    Instruction := ColumnMap("LegName", "Instruction_Name", "LegNumber", "Instruction_Number"),
    Agreement := ColumnMap("LegName", "Agreement_Name", "LegNumber", "Agreement_Number")
  ]

  /** `FIELD_MAPPING.get(option, FIELD_MAPPING["نظام"])` */
  function MappingFor(kind: string): (m: ColumnMap)
    ensures m in FieldMapping.Values
    ensures kind in FieldMapping ==> m == FieldMapping[kind]
    ensures kind !in FieldMapping ==> m == FieldMapping[Bylaw]
    ensures m.nameQis == "LegName" && m.numQis == "LegNumber"
  {
    if kind in FieldMapping then FieldMapping[kind] else FieldMapping[Bylaw]
  }

  /** The fields a table row can show, in the order they can appear. */
  datatype Label =
    | Name | Number | Year | ReplacedFor | MagazineDate | ActiveDate | Status
    | CanceledBy | EndDate | ReplacedBy

  /** The caption of a row, as the table shows it. */
  function Caption(l: Label): string {
    match l
    case Name => "اسم التشريع"
    case Number => "رقم التشريع"
    case Year => "السنة"
    case ReplacedFor => "يحل محل"
    case MagazineDate => "تاريخ الجريدة"
    case ActiveDate => "تاريخ السريان"
    case Status => "الحالة"
    case CanceledBy => "ألغي بواسطة"
    case EndDate => "تاريخ الانتهاء"
    case ReplacedBy => "تم استبداله بواسطة"
  }

  /** No two rows share a caption, so a row's label is what the table shows. */
  lemma CaptionsDistinct(a: Label, b: Label)
    requires a != b
    ensures Caption(a) != Caption(b)
  {
  }

  /** A table row's label and the column it reads in each source. */
  datatype Field = Field(name: Label, qisKey: string, diwKey: string)

  /** `DISPLAY_FIELDS`: shown for every record. */
  function DisplayFields(m: ColumnMap): seq<Field> {
    [ Field(Name, m.nameQis, m.nameDiw),
      Field(Number, m.numQis, m.numDiw),
      Field(Year, "Year", "Year"),
      Field(ReplacedFor, "Replaced For", "Replaced_For"),
      Field(MagazineDate, "Magazine_Date", "Magazine_Date"),
      Field(ActiveDate, "ActiveDate", "Active_Date"),
      Field(Status, "Status", "Status") ]
  }

  /** `CONDITIONAL_FIELDS`: shown only for a legislation no longer in force. */
  const ConditionalFields: seq<Field> := [
    Field(CanceledBy, "Canceled By", "Canceled_By"),
    Field(EndDate, "EndDate", "EndDate"),
    Field(ReplacedBy, "Replaced By", "Replaced_By")
  ]

  /** The text shown for a missing value. */
  const Missing: string := "—"

  datatype DiffRow = DiffRow(field: Label, qistas: string, diwan: string, differs: bool)

  /** `record.get(key, '')` */
  function Get(r: Record, key: string): Value {
    if key in r then r[key] else Text("")
  }

  /** The Qistas record's status cell: `qistas_data.get('Status')`. */
  function StatusCell(q: Record): Value {
    if "Status" in q then q["Status"] else Null
  }

  /** How a cell appears in the table: the missing mark for NA or a blank
      text, otherwise `str(v)` as it is, without trimming. */
  function Shown(v: Value): (s: string)
    ensures s == Missing <==> IsNa(v) || AllSpace(Str(v)) || Str(v) == Missing
    ensures s != Missing ==> s == Str(v)
  {
    StripEmptyIffSpace(Str(v));
    if IsNa(v) || Strip(Str(v)) == "" then Missing else Str(v)
  }

  function MakeRow(field: Label, q: string, d: string): DiffRow {
    DiffRow(field, q, d, q != Missing && d != Missing && q != d)
  }

  /** The row for one of `DISPLAY_FIELDS`. */
  function DisplayRow(f: Field, q: Record, d: Record): DiffRow {
    MakeRow(f.name, Shown(Get(q, f.qisKey)), Shown(Get(d, f.diwKey)))
  }

  /** The row for one of `CONDITIONAL_FIELDS`; a field without a Diwan column
      would show the Qistas value on both sides. */
  function ConditionalRow(f: Field, q: Record, d: Record): DiffRow {
    var dv := if f.diwKey != "" then Get(d, f.diwKey) else Get(q, f.qisKey);
    MakeRow(f.name, Shown(Get(q, f.qisKey)), Shown(dv))
  }

  /** A conditional row is dropped when both sides are missing. */
  predicate Kept(r: DiffRow) {
    !(r.qistas == Missing && r.diwan == Missing)
  }

  function DisplayRows(fields: seq<Field>, q: Record, d: Record): (rows: seq<DiffRow>)
    ensures |rows| == |fields|
    ensures forall i :: 0 <= i < |fields| ==> rows[i] == DisplayRow(fields[i], q, d)
  {
    seq(|fields|, i requires 0 <= i < |fields| => DisplayRow(fields[i], q, d))
  }

  /** The candidate rows for `CONDITIONAL_FIELDS`, before any is dropped. */
  function ConditionalCandidates(q: Record, d: Record): (rows: seq<DiffRow>)
    ensures |rows| == |ConditionalFields|
    ensures forall i :: 0 <= i < |rows| ==> rows[i] == ConditionalRow(ConditionalFields[i], q, d)
  {
    seq(|ConditionalFields|, i requires 0 <= i < |ConditionalFields| => ConditionalRow(ConditionalFields[i], q, d))
  }

  /** The `continue` of the conditional loop: rows whose two sides are both
      missing are dropped, the others keep their order. */
  function KeepPresent(rows: seq<DiffRow>): (kept: seq<DiffRow>)
    ensures |kept| <= |rows|
    ensures forall r :: r in kept <==> r in rows && Kept(r)
  {
    if rows == [] then []
    else (if Kept(rows[0]) then [rows[0]] else []) + KeepPresent(rows[1..])
  }

  /** True when the Qistas status reads as 2, "no longer in force". */
  predicate ShowsConditional(q: Record) {
    ParseStatus(StatusCell(q)) == Some(2)
  }

  /** The rows after the seventh: at most one per conditional field, none
      unless the status reads 2, and never one whose two sides are missing. */
  function ConditionalTail(q: Record, d: Record): (tail: seq<DiffRow>)
    ensures |tail| <= |ConditionalFields|
    ensures forall r :: r in tail <==> ShowsConditional(q) && r in ConditionalCandidates(q, d) && Kept(r)
  {
    if ShowsConditional(q) then KeepPresent(ConditionalCandidates(q, d)) else []
  }

  /** The rows of the comparison table, in order: the seven always-shown
      rows, then up to three conditional rows when the status reads 2. */
  function BuildRows(kind: string, q: Record, d: Record): (rows: seq<DiffRow>)
    ensures 7 <= |rows| <= 10
    ensures !ShowsConditional(q) ==> |rows| == 7
    ensures forall i :: 0 <= i < 7 ==> rows[i] == DisplayRow(DisplayFields(MappingFor(kind))[i], q, d)
  {
    DisplayRows(DisplayFields(MappingFor(kind)), q, d) + ConditionalTail(q, d)
  }

  // ---------------------------------------------------------------------
  // Properties of the table

  /** The table is the seven always-shown rows followed by the kept
      conditional rows. */
  lemma BuildRowsSplit(kind: string, q: Record, d: Record)
    ensures var rows := BuildRows(kind, q, d);
      && |rows| == 7 + |ConditionalTail(q, d)|
      && rows[..7] == DisplayRows(DisplayFields(MappingFor(kind)), q, d)
      && rows[7..] == ConditionalTail(q, d)
  {
  }

  /** The table starts with the seven always-shown rows, in the fixed label
      order, each reading its column from the type's mapping; then come at
      most three more. A status other than 2 gives exactly seven rows. */
  lemma BuildRowsShape(kind: string, q: Record, d: Record)
    ensures var rows := BuildRows(kind, q, d);
      && 7 <= |rows| <= 10
      && (!ShowsConditional(q) ==> |rows| == 7)
      && (forall i :: 0 <= i < 7 ==> rows[i] == DisplayRow(DisplayFields(MappingFor(kind))[i], q, d))
      && [rows[0].field, rows[1].field, rows[2].field, rows[3].field, rows[4].field, rows[5].field, rows[6].field]
         == [Name, Number, Year, ReplacedFor, MagazineDate, ActiveDate, Status]
  {
    BuildRowsSplit(kind, q, d);
    var rows := BuildRows(kind, q, d);
    var shown := DisplayRows(DisplayFields(MappingFor(kind)), q, d);
    assert forall i :: 0 <= i < 7 ==> rows[i] == rows[..7][i] == shown[i];
  }

  /** `differs` is set exactly when both sides are present and unequal. */
  predicate DiffersIffUnequal(r: DiffRow) {
    r.differs <==> r.qistas != Missing && r.diwan != Missing && r.qistas != r.diwan
  }

  lemma DisplayRowsDiffer(fields: seq<Field>, q: Record, d: Record)
    ensures forall r :: r in DisplayRows(fields, q, d) ==> DiffersIffUnequal(r)
  {
    var rows := DisplayRows(fields, q, d);
    forall r | r in rows
      ensures DiffersIffUnequal(r)
    {
      var i :| 0 <= i < |rows| && rows[i] == r;
      assert r == DisplayRow(fields[i], q, d);
    }
  }

  lemma ConditionalTailDiffers(q: Record, d: Record)
    ensures forall r :: r in ConditionalTail(q, d) ==> DiffersIffUnequal(r)
  {
    var cands := ConditionalCandidates(q, d);
    forall r | r in ConditionalTail(q, d)
      ensures DiffersIffUnequal(r)
    {
      assert r in cands;
      var i :| 0 <= i < |cands| && cands[i] == r;
      assert r == ConditionalRow(ConditionalFields[i], q, d);
    }
  }

  /** A row differs exactly when both sides are present and their texts are
      not equal; a missing side never counts as a difference. */
  lemma DiffersExactly(kind: string, q: Record, d: Record)
    ensures forall r :: r in BuildRows(kind, q, d) ==>
      (r.differs <==> r.qistas != Missing && r.diwan != Missing && r.qistas != r.diwan)
  {
    DisplayRowsDiffer(DisplayFields(MappingFor(kind)), q, d);
    ConditionalTailDiffers(q, d);
    forall r | r in BuildRows(kind, q, d)
      ensures DiffersIffUnequal(r)
    {
      assert r in DisplayRows(DisplayFields(MappingFor(kind)), q, d) || r in ConditionalTail(q, d);
    }
  }

  /** The rank of a label in `CONDITIONAL_FIELDS`. */
  function ConditionalRank(l: Label): int {
    match l
    case CanceledBy => 0
    case EndDate => 1
    case ReplacedBy => 2
    case _ => -1
  }

  /** The rows' labels come in strictly increasing rank. */
  predicate RanksIncrease(rows: seq<DiffRow>) {
    forall i, j :: 0 <= i < j < |rows| ==> ConditionalRank(rows[i].field) < ConditionalRank(rows[j].field)
  }

  lemma RanksIncreaseTail(rows: seq<DiffRow>)
    requires rows != [] && RanksIncrease(rows)
    ensures RanksIncrease(rows[1..])
    ensures forall r :: r in rows[1..] ==> ConditionalRank(rows[0].field) < ConditionalRank(r.field)
  {
    forall i, j | 0 <= i < j < |rows[1..]|
      ensures ConditionalRank(rows[1..][i].field) < ConditionalRank(rows[1..][j].field)
    {
      assert rows[1..][i] == rows[i + 1] && rows[1..][j] == rows[j + 1];
    }
  }

  lemma RanksIncreaseCons(x: DiffRow, rest: seq<DiffRow>)
    requires RanksIncrease(rest)
    requires forall r :: r in rest ==> ConditionalRank(x.field) < ConditionalRank(r.field)
    ensures RanksIncrease([x] + rest)
  {
    var s := [x] + rest;
    forall i, j | 0 <= i < j < |s|
      ensures ConditionalRank(s[i].field) < ConditionalRank(s[j].field)
    {
      assert s[j] == rest[j - 1];
      if i > 0 {
        assert s[i] == rest[i - 1];
      }
    }
  }

  /** Dropping rows keeps the remaining ones in their order. */
  lemma {:induction false} KeepPresentOrdered(rows: seq<DiffRow>)
    requires RanksIncrease(rows)
    ensures RanksIncrease(KeepPresent(rows))
  {
    if rows != [] {
      RanksIncreaseTail(rows);
      KeepPresentOrdered(rows[1..]);
      var rest := KeepPresent(rows[1..]);
      if Kept(rows[0]) {
        assert KeepPresent(rows) == [rows[0]] + rest;
        RanksIncreaseCons(rows[0], rest);
      } else {
        assert KeepPresent(rows) == [] + rest == rest;
      }
    }
  }

  /** Candidate `i` carries the label of conditional field `i`, whose rank
      is `i`. */
  lemma CandidatesRanked(q: Record, d: Record)
    ensures var cands := ConditionalCandidates(q, d);
      forall i :: 0 <= i < |cands| ==> cands[i].field == ConditionalFields[i].name && ConditionalRank(cands[i].field) == i
  {
  }

  lemma TailRanked(q: Record, d: Record)
    ensures RanksIncrease(ConditionalTail(q, d))
    ensures forall r :: r in ConditionalTail(q, d) ==> 0 <= ConditionalRank(r.field)
  {
    var cands := ConditionalCandidates(q, d);
    CandidatesRanked(q, d);
    assert RanksIncrease(cands);
    KeepPresentOrdered(cands);
    forall r | r in ConditionalTail(q, d)
      ensures 0 <= ConditionalRank(r.field)
    {
      assert r in cands;
    }
  }

  /** The conditional rows keep the order of `CONDITIONAL_FIELDS`:
      canceled-by, end date, replaced-by. */
  lemma ConditionalRowsOrdered(kind: string, q: Record, d: Record)
    ensures var rows := BuildRows(kind, q, d);
      && 7 <= |rows|
      && (forall r :: r in rows[7..] ==> 0 <= ConditionalRank(r.field))
      && RanksIncrease(rows[7..])
  {
    BuildRowsSplit(kind, q, d);
    TailRanked(q, d);
  }

  /** The tail holds field `c`'s row when the status reads 2 and the row is
      kept, and no other row with its label. */
  lemma TailHolds(q: Record, d: Record, c: int)
    requires 0 <= c < |ConditionalFields|
    ensures var tail := ConditionalTail(q, d); var row := ConditionalRow(ConditionalFields[c], q, d);
      && (row in tail <==> ShowsConditional(q) && Kept(row))
      && (forall r :: r in tail && r.field == ConditionalFields[c].name ==> r == row)
  {
    var cands := ConditionalCandidates(q, d);
    CandidatesRanked(q, d);
    forall r | r in ConditionalTail(q, d) && r.field == ConditionalFields[c].name
      ensures r == cands[c]
    {
      assert r in cands;
      var i :| 0 <= i < |cands| && cands[i] == r;
      assert ConditionalRank(cands[i].field) == ConditionalRank(cands[c].field);
    }
  }

  /** A conditional field appears after the seventh row exactly when the
      status reads 2 and its row is kept (one of its sides has a value), and
      then as the row built from its columns. */
  lemma ConditionalRowsShown(kind: string, q: Record, d: Record, c: int)
    requires 0 <= c < |ConditionalFields|
    ensures var rows := BuildRows(kind, q, d); var f := ConditionalFields[c];
      && 7 <= |rows|
      && ((exists r :: r in rows[7..] && r.field == f.name) <==> ShowsConditional(q) && Kept(ConditionalRow(f, q, d)))
      && (forall r :: r in rows[7..] && r.field == f.name ==> r == ConditionalRow(f, q, d))
  {
    BuildRowsSplit(kind, q, d);
    TailHolds(q, d, c);
    var row := ConditionalRow(ConditionalFields[c], q, d);
    assert row.field == ConditionalFields[c].name;
  }

  /** An unknown legislation type reads its columns as a bylaw does. */
  lemma UnknownKindIsBylaw(kind: string, q: Record, d: Record)
    requires kind !in FieldMapping
    ensures BuildRows(kind, q, d) == BuildRows(Bylaw, q, d)
  {
  }

  /** An empty text shows as missing. */
  lemma EmptyShownMissing()
    ensures Shown(Text("")) == Missing
  {
  }

  lemma DisplayRowsEmptyDiwan(fields: seq<Field>, q: Record)
    ensures forall r :: r in DisplayRows(fields, q, map[]) ==> r.diwan == Missing
  {
    EmptyShownMissing();
    var rows := DisplayRows(fields, q, map[]);
    forall r | r in rows
      ensures r.diwan == Missing
    {
      var i :| 0 <= i < |rows| && rows[i] == r;
      assert r == DisplayRow(fields[i], q, map[]);
    }
  }

  lemma TailEmptyDiwan(q: Record)
    ensures forall r :: r in ConditionalTail(q, map[]) ==> r.diwan == Missing
  {
    var cands := ConditionalCandidates(q, map[]);
    forall r | r in ConditionalTail(q, map[])
      ensures r.diwan == Missing
    {
      assert r in cands;
      var i :| 0 <= i < |cands| && cands[i] == r;
      CandidateEmptyDiwan(q, i);
    }
  }

  /** Each conditional field has a Diwan column, so against the empty record
      its Diwan side is missing. */
  lemma CandidateEmptyDiwan(q: Record, c: int)
    requires 0 <= c < |ConditionalFields|
    ensures ConditionalRow(ConditionalFields[c], q, map[]).diwan == Missing
  {
    var f := ConditionalFields[c];
    assert f.diwKey in {"Canceled_By", "EndDate", "Replaced_By"};
    var empty: Record := map[];
    assert Get(empty, f.diwKey) == Text("");
    EmptyShownMissing();
  }

  /** Every row built against the empty record is missing on that side. */
  lemma EmptyDiwanRows(kind: string, q: Record)
    ensures forall r :: r in BuildRows(kind, q, map[]) ==> r.diwan == Missing
  {
    DisplayRowsEmptyDiwan(DisplayFields(MappingFor(kind)), q);
    TailEmptyDiwan(q);
  }

  /** Past the end of the Diwan source the record is empty, so every Diwan
      cell is missing and no row differs. */
  lemma PastEndOfDiwan(kind: string, index: nat, qistas: seq<Row>, diwan: seq<Row>)
    requires index >= |diwan|
    ensures forall r :: r in BuildRows(kind, GetLegislationData(index, qistas), GetLegislationData(index, diwan)) ==>
      r.diwan == Missing && !r.differs
  {
    var q := GetLegislationData(index, qistas);
    EmptyDiwanRows(kind, q);
    DiffersExactly(kind, q, map[]);
  }

  /** Past the end of the Qistas source the status reads as none, so the
      table has exactly the seven rows, each missing on the Qistas side. */
  lemma PastEndOfQistas(kind: string, index: nat, qistas: seq<Row>, diwan: seq<Row>)
    requires index >= |qistas|
    ensures var rows := BuildRows(kind, GetLegislationData(index, qistas), GetLegislationData(index, diwan));
      |rows| == 7 && forall r :: r in rows ==> r.qistas == Missing && !r.differs
  {
    var d := GetLegislationData(index, diwan);
    EmptyShownMissing();
    assert !ShowsConditional(map[]);
    BuildRowsSplit(kind, map[], d);
    var shown := DisplayRows(DisplayFields(MappingFor(kind)), map[], d);
    forall r | r in BuildRows(kind, map[], d)
      ensures r.qistas == Missing && !r.differs
    {
      var i :| 0 <= i < |shown| && shown[i] == r;
    }
  }

  /** A present text is shown as it is, untrimmed, so texts that differ only
      in surrounding white space count as different. */
  lemma TextsCompareUntrimmed(field: Label, a: string, b: string)
    requires !AllSpace(a) && !AllSpace(b) && a != Missing && b != Missing
    ensures MakeRow(field, Shown(Text(a)), Shown(Text(b))).differs <==> a != b
  {
  }

  lemma ExampleTrailingSpace()
    ensures MakeRow(Name, Shown(Text("X ")), Shown(Text("X"))).differs
  {
    assert "X "[0] == 'X' && "X"[0] == 'X' && !IsSpace('X');
    TextsCompareUntrimmed(Name, "X ", "X");
  }

  lemma FiveToString()
    ensures IntToString(5) == "5"
  {
    assert DigitChar(5) == '5';
    assert NatToString(5) == [DigitChar(5)];
  }

  /** A text that starts with a visible character other than the dash is
      shown as it is. */
  lemma ShownVisible(v: Value)
    requires !IsNa(v) && |Str(v)| > 0 && !IsSpace(Str(v)[0]) && Str(v)[0] != Missing[0]
    ensures Shown(v) == Str(v)
  {
    assert Str(v) != Missing;
  }

  lemma ShownFive()
    ensures Shown(Int(5)) == "5"
  {
    FiveToString();
    ShownVisible(Int(5));
  }

  lemma ShownTextFive()
    ensures Shown(Text("5")) == "5"
  {
    ShownVisible(Text("5"));
  }

  lemma ShownFiveFloat()
    ensures Shown(Float(5)) == "5.0"
  {
    FiveToString();
    assert Str(Float(5)) == "5.0";
    ShownVisible(Float(5));
  }

  /** A whole-number float cell shows as "5.0", so it differs from the
      integer 5 on the other side. */
  lemma ExampleIntAgainstFloat()
    ensures MakeRow(Number, Shown(Int(5)), Shown(Float(5))).differs
  {
    ShownFive();
    ShownFiveFloat();
    LiteralsDiffer();
  }

  /** ... and from the text "5". */
  lemma ExampleTextAgainstFloat()
    ensures MakeRow(Number, Shown(Text("5")), Shown(Float(5))).differs
  {
    ShownTextFive();
    ShownFiveFloat();
    LiteralsDiffer();
  }

  lemma LiteralsDiffer()
    ensures "5" != Missing && "5.0" != Missing && "5" != "5.0"
  {
    assert |"5.0"| == 3;
    assert "5"[0] != Missing[0];
  }

  /** A cell holding the missing mark itself is treated as missing. */
  lemma DashIsMissing(field: Label, other: Value)
    ensures Shown(Text(Missing)) == Missing
    ensures !MakeRow(field, Shown(Text(Missing)), Shown(other)).differs
  {
  }

  /** A bylaw no longer in force with a canceling law recorded only in
      Qistas: the canceled-by row appears, missing on the Diwan side and not
      marked as a difference. */
  lemma CanceledOnlyInQistas(kind: string, q: Record, d: Record, canceler: string)
    requires "Status" in q && q["Status"] == Int(2)
    requires "Canceled By" in q && q["Canceled By"] == Text(canceler)
    requires !AllSpace(canceler) && canceler != Missing
    requires "Canceled_By" !in d
    ensures var rows := BuildRows(kind, q, d);
      7 <= |rows| && DiffRow(CanceledBy, canceler, Missing, false) in rows[7..]
  {
    CanceledRow(q, d, canceler);
    TailHolds(q, d, 0);
    BuildRowsSplit(kind, q, d);
  }

  /** The row of the first conditional field when only Qistas names a
      canceller. */
  lemma CanceledRow(q: Record, d: Record, canceler: string)
    requires "Status" in q && q["Status"] == Int(2)
    requires "Canceled By" in q && q["Canceled By"] == Text(canceler)
    requires !AllSpace(canceler) && canceler != Missing
    requires "Canceled_By" !in d
    ensures ShowsConditional(q)
    ensures ConditionalRow(ConditionalFields[0], q, d) == DiffRow(CanceledBy, canceler, Missing, false)
  {
    assert StatusCell(q) == Int(2);
    var f := ConditionalFields[0];
    assert f == Field(CanceledBy, "Canceled By", "Canceled_By");
    assert Get(q, f.qisKey) == Text(canceler);
    assert Get(d, f.diwKey) == Text("");
    EmptyShownMissing();
    assert Shown(Text(canceler)) == canceler;
  }
}
