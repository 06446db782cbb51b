/** The transcription tool (components/Tools.tsx): the saved transcriptions read back from
    browser storage, saving the current transcription under a process number, deleting a saved
    one, and the name a saved transcription is downloaded under. Recording, the AI transcription
    calls and the file dialogs are not modelled. */
module ToolsView {
  import opened Wrappers
  import opened Types
  import opened Calendar
  import opened Seqs
  import Text
  import Persistence
  import C = Collections
  import EventsView

  /** The tab the recording came from. */
  datatype Tab = AudioTab | VideoTab

  const MissingProcess: string := "Por favor, informe o número do processo para salvar."
  const MissingTranscription: string := "Não há transcrição para salvar."

  // ---------------------------------------------------------------- loading

  /** The saved list: read through the reviver that turns every value under "date" into a
      `Date`; an absent entry or one that does not parse leaves the list empty. */
  function LoadTranscriptions(stored: Option<string>, parse: string -> Option<Persistence.Json>,
                              parseDate: string -> JsDate,
                              decode: Persistence.Json -> seq<TranscriptionRecord>): (r: seq<TranscriptionRecord>)
    ensures stored.None? || stored == Some("") ==> r == []
    ensures stored.Some? && stored.value != "" && parse(stored.value).None? ==> r == []
  {
    Persistence.LoadCollection(stored, parse, (k, v) => Persistence.TranscriptDateReviver(k, v, parseDate),
                               decode, [])
  }

  /** Every member named "date", at any depth, holds a `Date`. */
  predicate DatesRevived(v: Persistence.Json)
    decreases v, 1
  {
    match v
    case JArr(items) => ItemsDatesRevived(items)
    case JObj(members) => MembersDatesRevived(members)
    case _ => true
  }

  predicate ItemsDatesRevived(items: seq<Persistence.Json>)
    decreases items, 0
  {
    items == [] || (DatesRevived(items[0]) && ItemsDatesRevived(items[1..]))
  }

  predicate MembersDatesRevived(members: seq<Persistence.Member>)
    decreases members, 0
  {
    members == [] ||
    ((members[0].key == "date" ==> members[0].value.JDate?) &&
     DatesRevived(members[0].value) && MembersDatesRevived(members[1..]))
  }

  /** Whatever was saved, the tree handed to `decode` holds a `Date` under every "date" key. */
  lemma {:induction false} ReviveTranscriptDates(key: string, v: Persistence.Json, parseDate: string -> JsDate)
    ensures DatesRevived(Persistence.Revive(key, v, (k, x) => Persistence.TranscriptDateReviver(k, x, parseDate)))
    decreases v, 1
  {
    var rv := (k, x) => Persistence.TranscriptDateReviver(k, x, parseDate);
    match v
    case JArr(items) =>
      ReviveItemsDates(items, 0, parseDate);
      if key == "date" {
        assert Persistence.Revive(key, v, rv).JDate?;
      }
    case JObj(members) =>
      ReviveMembersDates(members, parseDate);
      if key == "date" {
        assert Persistence.Revive(key, v, rv).JDate?;
      }
    case _ =>
  }

  lemma {:induction false} ReviveItemsDates(items: seq<Persistence.Json>, from: nat, parseDate: string -> JsDate)
    ensures ItemsDatesRevived(Persistence.ReviveItems(items, from, (k, x) => Persistence.TranscriptDateReviver(k, x, parseDate)))
    decreases items, 0
  {
    var rv := (k, x) => Persistence.TranscriptDateReviver(k, x, parseDate);
    if items != [] {
      var r := Persistence.ReviveItems(items, from, rv);
      ReviveTranscriptDates(Text.NatToString(from), items[0], parseDate);
      ReviveItemsDates(items[1..], from + 1, parseDate);
      assert r[1..] == Persistence.ReviveItems(items[1..], from + 1, rv);
    }
  }

  lemma {:induction false} ReviveMembersDates(members: seq<Persistence.Member>, parseDate: string -> JsDate)
    ensures MembersDatesRevived(Persistence.ReviveMembers(members, (k, x) => Persistence.TranscriptDateReviver(k, x, parseDate)))
    decreases members, 0
  {
    var rv := (k, x) => Persistence.TranscriptDateReviver(k, x, parseDate);
    if members != [] {
      var r := Persistence.ReviveMembers(members, rv);
      ReviveTranscriptDates(members[0].key, members[0].value, parseDate);
      ReviveMembersDates(members[1..], parseDate);
      assert r[1..] == Persistence.ReviveMembers(members[1..], rv);
    }
  }

  // ---------------------------------------------------------------- saving

  /** `handleSave`'s checks and record: a process number and a transcription that are blank
      once trimmed are refused with their alerts; otherwise a record with the trimmed number,
      the untrimmed transcription, the type of the active tab, the current time and no link. */
  function NewTranscript(processNumber: string, transcription: string, tab: Tab, id: string, now: int): (r: Result<TranscriptionRecord>)
    ensures r.Err? <==> Text.Trim(processNumber) == "" || Text.Trim(transcription) == ""
    ensures r.Err? ==> r.error == (if Text.Trim(processNumber) == "" then MissingProcess else MissingTranscription)
    ensures r.Ok? ==> r.value.id == id && r.value.content == transcription &&
                      r.value.recordType == (if tab == AudioTab then Audio else Video) &&
                      r.value.date == Valid(now) && r.value.originLink == None
  {
    if Text.Trim(processNumber) == "" then Err(MissingProcess)
    else if Text.Trim(transcription) == "" then Err(MissingTranscription)
    else Ok(TranscriptionRecord(id, Text.Trim(processNumber), if tab == AudioTab then Audio else Video,
                                transcription, Valid(now), None))
  }

  /** The number saved is the typed number without its surrounding whitespace: non-empty,
      without whitespace at either end, and a contiguous part of what was typed. */
  lemma SavedNumberIsTrimmed(processNumber: string, transcription: string, tab: Tab, id: string, now: int)
    requires NewTranscript(processNumber, transcription, tab, id, now).Ok?
    ensures var p := NewTranscript(processNumber, transcription, tab, id, now).value.processNumber;
            var k := |processNumber| - |Text.TrimStart(processNumber)|;
            p != [] && !Text.IsSpace(p[0]) && !Text.IsSpace(p[|p| - 1]) &&
            k + |p| <= |processNumber| && p == processNumber[k..k + |p|]
  {
    Text.TrimmedEnds(processNumber);
  }

  // ---------------------------------------------------------------- deleting

  function TranscriptId(t: TranscriptionRecord): string {
    t.id
  }

  /** `handleDelete`'s filter. */
  function RemoveTranscript(saved: seq<TranscriptionRecord>, id: string): (r: seq<TranscriptionRecord>)
    ensures forall i :: 0 <= i < |r| ==> r[i].id != id
  {
    C.RemoveById(saved, id, TranscriptId)
  }

  /** Deleting keeps every other record, in order. */
  lemma RemoveTranscriptKeepsOthers(saved: seq<TranscriptionRecord>, id: string)
    ensures var r := RemoveTranscript(saved, id);
            IsSubsequence(r, saved) && (forall x :: x in saved && x.id != id ==> x in r) &&
            |r| + Count(saved, (x: TranscriptionRecord) => x.id == id) == |saved|
  {
    C.RemoveByIdFacts(saved, id, TranscriptId);
    RemovedCount(saved, id);
  }

  lemma RemovedCount(saved: seq<TranscriptionRecord>, id: string)
    ensures |RemoveTranscript(saved, id)| + Count(saved, (x: TranscriptionRecord) => x.id == id) == |saved|
  {
    var q := (x: TranscriptionRecord) => x.id == id;
    C.RemoveByIdFacts(saved, id, TranscriptId);
    forall x | x in saved ensures C.IdIs(TranscriptId, id)(x) == q(x) {
      assert C.IdIs(TranscriptId, id)(x) == (TranscriptId(x) == id);
    }
    FilterCongruent(saved, C.IdIs(TranscriptId, id), q);
  }

  /** Deleting the record just saved, when its id was fresh, gives back the list as it was. */
  lemma DeleteUndoesSave(saved: seq<TranscriptionRecord>, record: TranscriptionRecord)
    requires forall i :: 0 <= i < |saved| ==> saved[i].id != record.id
    ensures RemoveTranscript([record] + saved, record.id) == saved
  {
    C.RemoveFreshFront(record, saved, TranscriptId);
  }

  // ---------------------------------------------------------------- the component's state

  /** The component's state: the active tab, the two form fields and the saved list. */
  class TranscriptionTool {
    var activeTab: Tab
    var processNumber: string
    var transcription: string
    var saved: seq<TranscriptionRecord>

    /** The first render: audio tab, empty fields, the saved list read from storage. */
    constructor Load(stored: Option<string>, parse: string -> Option<Persistence.Json>,
                     parseDate: string -> JsDate, decode: Persistence.Json -> seq<TranscriptionRecord>)
      ensures activeTab == AudioTab && processNumber == "" && transcription == ""
      ensures saved == LoadTranscriptions(stored, parse, parseDate, decode)
    {
      activeTab := AudioTab;
      processNumber := "";
      transcription := "";
      saved := LoadTranscriptions(stored, parse, parseDate, decode);
    }

    /** `handleSave` with the fresh id and the clock as arguments: on success the record goes to
        the front of the list and both fields are cleared; on a refusal nothing changes. */
    method Save(id: string, now: int) returns (r: Result<TranscriptionRecord>)
      modifies this
      ensures r == NewTranscript(old(processNumber), old(transcription), old(activeTab), id, now)
      ensures r.Ok? ==> saved == [r.value] + old(saved) && processNumber == "" && transcription == ""
      ensures r.Err? ==> saved == old(saved) && processNumber == old(processNumber) &&
                         transcription == old(transcription)
      ensures activeTab == old(activeTab)
    {
      r := NewTranscript(processNumber, transcription, activeTab, id, now);
      if r.Ok? {
        saved := [r.value] + saved;
        transcription := "";
        processNumber := "";
      }
    }

    /** `handleDelete`: when the user confirms, the records with that id are dropped. */
    method Delete(id: string, confirmed: bool)
      modifies this
      ensures saved == if confirmed then RemoveTranscript(old(saved), id) else old(saved)
      ensures activeTab == old(activeTab) && processNumber == old(processNumber) &&
              transcription == old(transcription)
    {
      if confirmed {
        saved := RemoveTranscript(saved, id);
      }
    }
  }

  // ---------------------------------------------------------------- downloading

  datatype Format = Txt | Doc {
    function Extension(): string {
      match this
      case Txt => "txt"
      case Doc => "doc"
    }

    function MimeType(): string {
      match this
      case Txt => "text/plain"
      case Doc => "application/msword"
    }
  }

  /** `replace(/[^a-z0-9]/gi, '_')`: every character that is not an ASCII letter or digit
      becomes an underscore. The pattern has no `u` flag, so it matches UTF-16 code units: a
      character beyond U+FFFF, two code units, becomes two underscores. */
  function SafeFileName(s: string): (r: string)
    ensures |r| == Text.Utf16Length(s)
    ensures forall i :: 0 <= i < |r| ==> Text.IsAsciiAlnum(r[i]) || r[i] == '_'
    decreases |s|
  {
    if s == [] then []
    else
      Text.Utf16LengthCons(s);
      SafeChar(s[0]) + SafeFileName(s[1..])
  }

  /** One character's replacement: itself, or one underscore per code unit. */
  function SafeChar(c: char): (r: string)
    ensures |r| == Text.Utf16Units(c)
    ensures forall i :: 0 <= i < |r| ==> Text.IsAsciiAlnum(r[i]) || r[i] == '_'
  {
    if Text.IsAsciiAlnum(c) then [c] else Text.Run('_', Text.Utf16Units(c))
  }

  /** On text within U+0000..U+FFFF the name keeps its length, and each character is kept when
      it is an ASCII letter or digit and becomes '_' otherwise. */
  lemma {:induction false} SafeFileNameBmp(s: string)
    requires forall i :: 0 <= i < |s| ==> s[i] as int <= 0xFFFF
    ensures |SafeFileName(s)| == |s|
    ensures forall i :: 0 <= i < |s| ==> SafeFileName(s)[i] == (if Text.IsAsciiAlnum(s[i]) then s[i] else '_')
    decreases |s|
  {
    if s != [] {
      SafeFileNameBmp(s[1..]);
      var r, rest := SafeFileName(s), SafeFileName(s[1..]);
      assert SafeChar(s[0]) == [if Text.IsAsciiAlnum(s[0]) then s[0] else '_'];
      assert r == [r[0]] + rest;
      forall i | 0 <= i < |s| ensures r[i] == (if Text.IsAsciiAlnum(s[i]) then s[i] else '_') {
        if i > 0 { assert r[i] == rest[i - 1] && s[i] == s[1..][i - 1]; }
      }
    }
  }

  /** A name of letters, digits and underscores is left as it is. */
  lemma {:induction false} SafeFileNameFixed(s: string)
    requires forall i :: 0 <= i < |s| ==> Text.IsAsciiAlnum(s[i]) || s[i] == '_'
    ensures SafeFileName(s) == s
    decreases |s|
  {
    if s != [] {
      SafeFileNameFixed(s[1..]);
      assert SafeChar(s[0]) == [s[0]];
      assert s == [s[0]] + s[1..];
    }
  }

  /** A sanitised name holds only letters, digits and underscores, and sanitising it again
      changes nothing. */
  lemma SafeFileNameClean(s: string)
    ensures forall i :: 0 <= i < |SafeFileName(s)| ==> Text.IsAsciiAlnum(SafeFileName(s)[i]) || SafeFileName(s)[i] == '_'
    ensures SafeFileName(SafeFileName(s)) == SafeFileName(s)
  {
    SafeFileNameFixed(SafeFileName(s));
  }

  /** The download's file name, `Transcricao_<number>_<YYYY-MM-DD>.<ext>`; `toISOString` throws
      on an invalid date. */
  function DownloadName(record: TranscriptionRecord, format: Format): (r: Result<string>)
    ensures r.Err? <==> record.date.Invalid?
  {
    if record.date.IsNaN() then Err("Invalid time value")
    else Ok("Transcricao_" + SafeFileName(record.processNumber) + "_" +
            EventsView.FormatDateForInput(record.date) + "." + format.Extension())
  }

  /** The date in the file name is the record's UTC calendar date. */
  lemma DownloadNameDate(record: TranscriptionRecord, format: Format)
    requires record.date.Valid?
    ensures DownloadName(record, format) ==
              Ok("Transcricao_" + SafeFileName(record.processNumber) + "_" +
                 EventsView.CivilIso(CivilOfTime(record.date.time)) + "." + format.Extension())
  {
    EventsView.FormatIsIsoDate(record.date.time);
  }
}
