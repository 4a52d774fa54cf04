/**
 * The review session kept in `st.session_state`: the verdict log, the review
 * cursor and the two UI flags, with the button-driven transitions that change
 * them. The two JSON files that `save_persistent` writes are ghost fields,
 * so the invariant can say that loading them back gives the in-memory state.
 */
module Session {
  import opened Values
  import opened Records

  /** One verdict: the entry time, the source judged correct, then the
      fields of the chosen or entered record. */
  type Entry = map<string, Value>

  const DateKey: string := "تاريخ الإدخال"
  const SourceKey: string := "المصدر الصحيح"

  // Source tags written into an entry
  const QistasTag: string := "قسطاس"
  const DiwanTag: string := "الديوان"
  const OtherTag: string := "مصدر آخر"

  /** `saved if saved else []` for the verdict file; `None` is a missing or
      unreadable file. */
  function LoadedLog(saved: Option<seq<Entry>>): (log: seq<Entry>)
    ensures saved.None? ==> log == []
  {
    if saved.Some? && saved.value != [] then saved.value else []
  }

  /** `saved if saved else 0` for the progress file. */
  function LoadedCursor(saved: Option<nat>): (cursor: nat)
    ensures saved.None? ==> cursor == 0
  {
    if saved.Some? && saved.value != 0 then saved.value else 0
  }

  /** Loading what was saved gives it back, the empty log and cursor 0
      included (both are falsy, and fall back to themselves). */
  lemma SaveLoadRoundTrip(log: seq<Entry>, cursor: nat)
    ensures LoadedLog(Some(log)) == log
    ensures LoadedCursor(Some(cursor)) == cursor
  {
  }

  /** The record written by `save_comparison_record`: `{date, source, **data}`,
      so a field of `data` with the same name overrides the first two. */
  function NewEntry(now: string, tag: string, data: Record): (e: Entry)
    ensures e.Keys == data.Keys + {DateKey, SourceKey}
    ensures forall k :: k in data ==> e[k] == data[k]
    ensures DateKey !in data ==> e[DateKey] == Text(now)
    ensures SourceKey !in data ==> e[SourceKey] == Text(tag)
  {
    map[DateKey := Text(now), SourceKey := Text(tag)] + data
  }

  /** The cursor after `move_to_next_record`: one step on while another
      pair remains, otherwise unchanged. */
  function Advance(cursor: nat, total: nat): (next: nat)
    ensures next == cursor || next == cursor + 1
    ensures next == cursor + 1 <==> cursor + 1 < total
  {
    if cursor + 1 < total then cursor + 1 else cursor
  }

  /** Advancing never takes a cursor that points at a pair past the last
      pair, and never moves it back. */
  lemma AdvanceStaysInRange(cursor: nat, total: nat)
    requires cursor < total
    ensures cursor <= Advance(cursor, total) < total
    ensures cursor == total - 1 ==> Advance(cursor, total) == cursor
  {
  }

  /** Python truthiness of a cell used as a form default. */
  predicate Truthy(v: Value) {
    match v
    case Null => false
    case NaN => true
    case Int(i) => i != 0
    case Float(w) => w != 0
    case Text(s) => s != []
  }

  /** The custom form's initial texts: `str(v) if v else ""` for each field
      of the reference (Qistas) record. */
  function FormDefaults(reference: Record): (texts: map<string, string>)
    ensures texts.Keys == reference.Keys
    ensures forall k :: k in reference && reference[k].Text? ==> texts[k] == reference[k].s
    ensures forall k :: k in reference && (reference[k] == Int(0) || reference[k] == Float(0)) ==> texts[k] == ""
    ensures forall k :: k in reference && reference[k].Int? && reference[k].i != 0 ==> texts[k] == IntToString(reference[k].i)
    ensures forall k :: k in reference && reference[k].Float? && reference[k].whole != 0 ==> texts[k] == IntToString(reference[k].whole) + ".0"
    ensures forall k :: k in reference && reference[k].Null? ==> texts[k] == ""
    ensures forall k :: k in reference && reference[k].NaN? ==> texts[k] == "nan"
  {
    map k | k in reference :: if Truthy(reference[k]) then Str(reference[k]) else ""
  }

  /** What the submitted form records: every field as the text typed in. */
  function EnteredRecord(entered: map<string, string>): (r: Record)
    ensures r.Keys == entered.Keys
    ensures forall k :: k in r ==> r[k] == Text(entered[k])
  {
    map k | k in entered :: Text(entered[k])
  }

  /** Submitting the form untouched on a record of texts records the same
      fields as choosing that source. */
  lemma UntouchedFormKeepsTexts(reference: Record)
    requires forall k :: k in reference ==> reference[k].Text?
    ensures EnteredRecord(FormDefaults(reference)) == reference
  {
    var r := EnteredRecord(FormDefaults(reference));
    assert r.Keys == reference.Keys;
    forall k | k in r
      ensures r[k] == reference[k]
    {
    }
  }

  /** A zero in the reference record is offered as an empty text, so an
      untouched form records '' where the source held 0. */
  lemma UntouchedFormBlanksZero(reference: Record, k: string)
    requires k in reference && reference[k] == Int(0)
    ensures EnteredRecord(FormDefaults(reference))[k] == Text("")
  {
  }

  class ReviewSession {
    /** `comparison_data` */
    var log: seq<Entry>
    /** `current_index` */
    var cursor: nat
    /** `show_custom_form` */
    var showCustomForm: bool
    /** `confirm_delete` */
    var confirmDelete: bool
    /** What the verdict file holds; `None` while it does not exist. */
    ghost var savedLog: Option<seq<Entry>>
    /** What the progress file holds. */
    ghost var savedCursor: Option<nat>

    /** Loading the files gives the session's log and cursor, and the delete
        confirmation is only pending while there are verdicts to delete. */
    ghost predicate Valid()
      reads this
    {
      && LoadedLog(savedLog) == log
      && LoadedCursor(savedCursor) == cursor
      && (confirmDelete ==> log != [])
    }

    /** `SessionManager.initialize` on a fresh session: the log and cursor
        come from the files, both flags start off. */
    constructor Initialize(dataFile: Option<seq<Entry>>, progressFile: Option<nat>)
      ensures log == LoadedLog(dataFile) && cursor == LoadedCursor(progressFile)
      ensures !showCustomForm && !confirmDelete
      ensures savedLog == dataFile && savedCursor == progressFile
      ensures Valid()
    {
      log := LoadedLog(dataFile);
      cursor := LoadedCursor(progressFile);
      showCustomForm := false;
      confirmDelete := false;
      savedLog := dataFile;
      savedCursor := progressFile;
    }

    /** `SessionManager.save_persistent`: both files now hold the session. */
    method SavePersistent()
      requires confirmDelete ==> log != []
      modifies this
      ensures savedLog == Some(log) && savedCursor == Some(cursor)
      ensures log == old(log) && cursor == old(cursor)
      ensures showCustomForm == old(showCustomForm) && confirmDelete == old(confirmDelete)
      ensures Valid()
    {
      savedLog := Some(log);
      savedCursor := Some(cursor);
      SaveLoadRoundTrip(log, cursor);
    }

    /** `save_comparison_record`: exactly one entry is appended and saved. */
    method SaveComparisonRecord(now: string, tag: string, data: Record)
      requires Valid()
      modifies this
      ensures log == old(log) + [NewEntry(now, tag, data)]
      ensures cursor == old(cursor)
      ensures showCustomForm == old(showCustomForm) && confirmDelete == old(confirmDelete)
      ensures Valid()
    {
      log := log + [NewEntry(now, tag, data)];
      SavePersistent();
    }

    /** `move_to_next_record`: the cursor advances only while another pair
        remains; at the last pair it stays. */
    method MoveToNextRecord(total: nat)
      requires Valid()
      modifies this
      ensures cursor == Advance(old(cursor), total)
      ensures log == old(log)
      ensures showCustomForm == old(showCustomForm) && confirmDelete == old(confirmDelete)
      ensures Valid()
    {
      if cursor + 1 < total {
        cursor := cursor + 1;
        SavePersistent();
      }
    }

    /** The "Qistas is correct" button: records the Qistas row under review
        and moves on. */
    method ChooseQistas(now: string, qistas: seq<Row>, diwan: seq<Row>)
      requires Valid() && cursor < PairCount(qistas, diwan)
      modifies this
      ensures log == old(log) + [NewEntry(now, QistasTag, GetLegislationData(old(cursor), qistas))]
      ensures cursor == Advance(old(cursor), PairCount(qistas, diwan))
      ensures cursor < PairCount(qistas, diwan)
      ensures showCustomForm == old(showCustomForm) && confirmDelete == old(confirmDelete)
      ensures Valid()
    {
      SaveComparisonRecord(now, QistasTag, GetLegislationData(cursor, qistas));
      MoveToNextRecord(PairCount(qistas, diwan));
    }

    /** The "Diwan is correct" button. */
    method ChooseDiwan(now: string, qistas: seq<Row>, diwan: seq<Row>)
      requires Valid() && cursor < PairCount(qistas, diwan)
      modifies this
      ensures log == old(log) + [NewEntry(now, DiwanTag, GetLegislationData(old(cursor), diwan))]
      ensures cursor == Advance(old(cursor), PairCount(qistas, diwan))
      ensures cursor < PairCount(qistas, diwan)
      ensures showCustomForm == old(showCustomForm) && confirmDelete == old(confirmDelete)
      ensures Valid()
    {
      SaveComparisonRecord(now, DiwanTag, GetLegislationData(cursor, diwan));
      MoveToNextRecord(PairCount(qistas, diwan));
    }

    /** The "neither" button opens the custom form; nothing is saved. */
    method ChooseNone()
      requires Valid()
      modifies this
      ensures showCustomForm
      ensures log == old(log) && cursor == old(cursor) && confirmDelete == old(confirmDelete)
      ensures savedLog == old(savedLog) && savedCursor == old(savedCursor)
      ensures Valid()
    {
      showCustomForm := true;
    }

    /** Submitting the custom form: the typed-in texts are recorded under
        the "other source" tag, the form closes and the cursor moves on. The
        form has one field per column of the Qistas record. */
    method SubmitCustom(now: string, entered: map<string, string>, qistas: seq<Row>, diwan: seq<Row>)
      requires Valid() && showCustomForm && cursor < PairCount(qistas, diwan)
      requires entered.Keys == GetLegislationData(cursor, qistas).Keys
      modifies this
      ensures log == old(log) + [NewEntry(now, OtherTag, EnteredRecord(entered))]
      ensures cursor == Advance(old(cursor), PairCount(qistas, diwan))
      ensures cursor < PairCount(qistas, diwan)
      ensures !showCustomForm && confirmDelete == old(confirmDelete)
      ensures Valid()
    {
      SaveComparisonRecord(now, OtherTag, EnteredRecord(entered));
      showCustomForm := false;
      MoveToNextRecord(PairCount(qistas, diwan));
    }

    /** Cancelling the custom form closes it and records nothing. */
    method CancelCustom()
      requires Valid() && showCustomForm
      modifies this
      ensures !showCustomForm
      ensures log == old(log) && cursor == old(cursor) && confirmDelete == old(confirmDelete)
      ensures savedLog == old(savedLog) && savedCursor == old(savedCursor)
      ensures Valid()
    {
      showCustomForm := false;
    }

    /** The "previous" button, shown while the cursor is past the first
        pair: one step back, form closed, progress saved. */
    method Back()
      requires Valid() && cursor > 0
      modifies this
      ensures cursor == old(cursor) - 1
      ensures log == old(log) && !showCustomForm && confirmDelete == old(confirmDelete)
      ensures Valid()
    {
      cursor := cursor - 1;
      showCustomForm := false;
      SavePersistent();
    }

    /** The "start again" button, shown once the cursor is at or past the
        pair count. */
    method Restart(total: nat)
      requires Valid() && cursor >= total
      modifies this
      ensures cursor == 0
      ensures log == old(log) && !showCustomForm && confirmDelete == old(confirmDelete)
      ensures Valid()
    {
      cursor := 0;
      showCustomForm := false;
      SavePersistent();
    }

    /** First phase of "clear all data": ask for confirmation. */
    method StartDelete()
      requires Valid() && log != [] && !confirmDelete
      modifies this
      ensures confirmDelete
      ensures log == old(log) && cursor == old(cursor) && showCustomForm == old(showCustomForm)
      ensures savedLog == old(savedLog) && savedCursor == old(savedCursor)
      ensures Valid()
    {
      confirmDelete := true;
    }

    /** Confirming the delete empties the log, resets the cursor and leaves
        an empty verdict file and a zero progress file behind. */
    method ConfirmDelete()
      requires Valid() && log != [] && confirmDelete
      modifies this
      ensures log == [] && cursor == 0 && !confirmDelete
      ensures savedLog == Some([]) && savedCursor == Some(0)
      ensures showCustomForm == old(showCustomForm)
      ensures Valid()
    {
      log := [];
      cursor := 0;
      savedLog := Some([]);
      savedCursor := Some(0);
      confirmDelete := false;
    }

    /** Declining the delete keeps everything. */
    method CancelDelete()
      requires Valid() && log != [] && confirmDelete
      modifies this
      ensures !confirmDelete
      ensures log == old(log) && cursor == old(cursor) && showCustomForm == old(showCustomForm)
      ensures savedLog == old(savedLog) && savedCursor == old(savedCursor)
      ensures Valid()
    {
      confirmDelete := false;
    }
  }

  /** The source tag of an entry whose data has no field of that name. */
  function TagOf(e: Entry): Value {
    if SourceKey in e then e[SourceKey] else Null
  }

  lemma TagOfNewEntry(now: string, tag: string, data: Record)
    requires SourceKey !in data
    ensures TagOf(NewEntry(now, tag, data)) == Text(tag)
  {
  }

  /** The first two choices of the session below: Qistas, then Diwan. */
  method ReviewTwoPairs(qistas: seq<Row>, diwan: seq<Row>, now: string)
    returns (s: ReviewSession)
    requires |qistas| == 3 && |diwan| == 5
    requires SourceKey !in qistas[0] && SourceKey !in diwan[1]
    ensures fresh(s) && s.Valid() && !s.showCustomForm
    ensures |s.log| == 2 && s.cursor == 2
    ensures TagOf(s.log[0]) == Text(QistasTag) && TagOf(s.log[1]) == Text(DiwanTag)
  {
    assert PairCount(qistas, diwan) == 3;
    s := new ReviewSession.Initialize(None, None);
    s.ChooseQistas(now, qistas, diwan);
    TagOfNewEntry(now, QistasTag, GetLegislationData(0, qistas));
    assert |s.log| == 1 && TagOf(s.log[0]) == Text(QistasTag);
    s.ChooseDiwan(now, qistas, diwan);
    TagOfNewEntry(now, DiwanTag, GetLegislationData(1, diwan));
  }

  /** A first session over three Qistas rows and five Diwan rows with no
      saved files: Qistas is chosen, then Diwan, then a custom record is
      entered. Three verdicts are logged in that order, but the cursor stops
      at the last pair, 2, rather than passing the end. */
  method ReviewThreePairs(qistas: seq<Row>, diwan: seq<Row>, now: string, entered: map<string, string>)
    returns (s: ReviewSession)
    requires |qistas| == 3 && |diwan| == 5
    requires SourceKey !in qistas[0] && SourceKey !in diwan[1]
    requires SourceKey !in entered && entered.Keys == qistas[2].Keys
    ensures fresh(s) && s.Valid()
    ensures |s.log| == 3 && s.cursor == 2
    ensures TagOf(s.log[0]) == Text(QistasTag) && TagOf(s.log[1]) == Text(DiwanTag)
    ensures TagOf(s.log[2]) == Text(OtherTag)
  {
    s := ReviewTwoPairs(qistas, diwan, now);
    s.ChooseNone();
    assert PairCount(qistas, diwan) == 3;
    s.SubmitCustom(now, entered, qistas, diwan);
    TagOfNewEntry(now, OtherTag, EnteredRecord(entered));
  }

  /** After those three verdicts a further choice at the last pair logs a
      fourth verdict for the same pair, and the cursor still stays at 2. */
  method ChooseAgainAtLastPair(qistas: seq<Row>, diwan: seq<Row>, now: string, entered: map<string, string>)
    returns (s: ReviewSession)
    requires |qistas| == 3 && |diwan| == 5
    requires SourceKey !in qistas[0] && SourceKey !in diwan[1] && SourceKey !in qistas[2]
    requires SourceKey !in entered && entered.Keys == qistas[2].Keys
    ensures fresh(s) && s.Valid()
    ensures |s.log| == 4 && s.cursor == 2
    ensures s.log[3] == NewEntry(now, QistasTag, GetLegislationData(2, qistas))
    ensures TagOf(s.log[3]) == Text(QistasTag)
  {
    s := ReviewThreePairs(qistas, diwan, now, entered);
    s.ChooseQistas(now, qistas, diwan);
    TagOfNewEntry(now, QistasTag, GetLegislationData(2, qistas));
  }
}
