/** Reading the collections back from browser storage. `JSON.parse` and `Date.parse` belong to
    the runtime: the model receives them as functions (`parse` yields the JSON tree of a text, or
    `None` where the runtime throws; `parseDate` is what `new Date(string)` gives). The reviver
    walk that `JSON.parse(text, reviver)` performs on that tree is modelled exactly. */
module Persistence {
  import opened Wrappers
  import opened Calendar
  import Text

  /** A parsed JSON value; `JDate` is the `Date` object a reviver may put in place of a value. */
  datatype Json =
    | JNull
    | JBool(b: bool)
    | JNum(n: int)
    | JStr(s: string)
    | JDate(d: JsDate)
    | JArr(items: seq<Json>)
    | JObj(members: seq<Member>)

  datatype Member = Member(key: string, value: Json)

  /** The property names whose string values the application's reviver turns into dates. */
  const DateKeys: set<string> :=
    {"startDate", "endDate", "date", "legalDeadline", "cnmpDeadline", "registrationDate"}

  /** The reviver of the three collections: a string under a date key that parses to a valid
      date becomes that date; every other value is returned unchanged. */
  function DateReviver(key: string, v: Json, parseDate: string -> JsDate): (r: Json)
    ensures r != v <==> key in DateKeys && v.JStr? && parseDate(v.s).Valid?
    ensures r != v ==> r == JDate(parseDate(v.s))
  {
    if v.JStr? && key in DateKeys then
      var d := parseDate(v.s);
      if d.IsNaN() then v else JDate(d)
    else v
  }

  /** The reviver of saved transcriptions: every value under the key "date" becomes a `Date`,
      valid or not. An array or object there is taken as an invalid date; JavaScript first turns
      it into text, which for an array of one date string would parse. The tool only ever saves
      a date string under that key. */
  function TranscriptDateReviver(key: string, v: Json, parseDate: string -> JsDate): (r: Json)
    ensures key != "date" ==> r == v
    ensures key == "date" ==> r.JDate?
    ensures key == "date" && v.JStr? ==> r == JDate(parseDate(v.s))
    ensures key == "date" && v.JNum? ==> r == JDate(TimeClip(v.n))
  {
    if key != "date" then v
    else match v
      case JStr(s) => JDate(parseDate(s))
      case JNum(n) => JDate(TimeClip(n))
      case JDate(d) => v
      case JNull => JDate(Valid(0))
      case JBool(b) => JDate(Valid(if b then 1 else 0))
      case _ => JDate(Invalid)
  }

  /** The walk `JSON.parse` performs with a reviver: children first (array elements under their
      index as key, object members under their own key), then the value itself under `key`. */
  function Revive(key: string, v: Json, reviver: (string, Json) -> Json): Json
    decreases v, 1
  {
    match v
    case JArr(items) => reviver(key, JArr(ReviveItems(items, 0, reviver)))
    case JObj(members) => reviver(key, JObj(ReviveMembers(members, reviver)))
    case _ => reviver(key, v)
  }

  function ReviveItems(items: seq<Json>, from: nat, reviver: (string, Json) -> Json): (r: seq<Json>)
    ensures |r| == |items|
    decreases items, 0
  {
    if items == [] then []
    else [Revive(Text.NatToString(from), items[0], reviver)] + ReviveItems(items[1..], from + 1, reviver)
  }

  function ReviveMembers(members: seq<Member>, reviver: (string, Json) -> Json): (r: seq<Member>)
    ensures |r| == |members|
    ensures forall i :: 0 <= i < |r| ==> r[i].key == members[i].key
    decreases members, 0
  {
    if members == [] then []
    else [Member(members[0].key, Revive(members[0].key, members[0].value, reviver))]
         + ReviveMembers(members[1..], reviver)
  }

  /** `JSON.stringify` writes a `Date` as its ISO string (`iso`); an invalid date becomes null. */
  function Encode(v: Json, iso: int -> string): Json
    decreases v, 1
  {
    match v
    case JDate(d) => if d.Valid? then JStr(iso(d.time)) else JNull
    case JArr(items) => JArr(EncodeItems(items, iso))
    case JObj(members) => JObj(EncodeMembers(members, iso))
    case _ => v
  }

  function EncodeItems(items: seq<Json>, iso: int -> string): (r: seq<Json>)
    ensures |r| == |items|
    decreases items, 0
  {
    if items == [] then [] else [Encode(items[0], iso)] + EncodeItems(items[1..], iso)
  }

  function EncodeMembers(members: seq<Member>, iso: int -> string): (r: seq<Member>)
    ensures |r| == |members|
    decreases members, 0
  {
    if members == [] then []
    else [Member(members[0].key, Encode(members[0].value, iso))] + EncodeMembers(members[1..], iso)
  }

  /** The trees the application writes: dates (valid ones) sit only under date keys, and no
      string under a date key is itself readable as a date. `key` is the key `v` sits under. */
  predicate WellPlaced(key: string, v: Json, parseDate: string -> JsDate)
    decreases v, 1
  {
    match v
    case JDate(d) => d.Valid? && key in DateKeys
    case JStr(s) => key in DateKeys ==> parseDate(s).IsNaN()
    case JArr(items) => key !in DateKeys && ItemsWellPlaced(items, 0, parseDate)
    case JObj(members) => key !in DateKeys && MembersWellPlaced(members, parseDate)
    case _ => true
  }

  predicate ItemsWellPlaced(items: seq<Json>, from: nat, parseDate: string -> JsDate)
    decreases items, 0
  {
    items == [] ||
    (WellPlaced(Text.NatToString(from), items[0], parseDate) && ItemsWellPlaced(items[1..], from + 1, parseDate))
  }

  predicate MembersWellPlaced(members: seq<Member>, parseDate: string -> JsDate)
    decreases members, 0
  {
    members == [] ||
    (WellPlaced(members[0].key, members[0].value, parseDate) && MembersWellPlaced(members[1..], parseDate))
  }

  /** Saving and loading back restores every date: reviving the stringified tree gives the
      original tree, provided `parseDate` reads every ISO string `iso` writes back exactly. */
  lemma {:induction false} ReviveEncodeRoundTrip(key: string, v: Json, iso: int -> string, parseDate: string -> JsDate)
    requires forall t :: -MaxTime <= t <= MaxTime ==> parseDate(iso(t)) == Valid(t)
    requires WellPlaced(key, v, parseDate)
    requires NoDatesOutOfRange(v)
    ensures Revive(key, Encode(v, iso), (k, x) => DateReviver(k, x, parseDate)) == v
    decreases v, 1
  {
    var rv := (k, x) => DateReviver(k, x, parseDate);
    match v
    case JArr(items) =>
      ItemsRoundTrip(items, 0, iso, parseDate);
    case JObj(members) =>
      MembersRoundTrip(members, iso, parseDate);
    case _ =>
  }

  /** Every date in the tree is a valid time value (as `Date` objects always are once clipped). */
  predicate NoDatesOutOfRange(v: Json)
    decreases v, 1
  {
    match v
    case JDate(d) => d.Valid? ==> -MaxTime <= d.time <= MaxTime
    case JArr(items) => forall i :: 0 <= i < |items| ==> NoDatesOutOfRange(items[i])
    case JObj(members) => forall i :: 0 <= i < |members| ==> NoDatesOutOfRange(members[i].value)
    case _ => true
  }

  lemma {:induction false} ItemsRoundTrip(items: seq<Json>, from: nat, iso: int -> string, parseDate: string -> JsDate)
    requires forall t :: -MaxTime <= t <= MaxTime ==> parseDate(iso(t)) == Valid(t)
    requires ItemsWellPlaced(items, from, parseDate)
    requires forall i :: 0 <= i < |items| ==> NoDatesOutOfRange(items[i])
    ensures ReviveItems(EncodeItems(items, iso), from, (k, x) => DateReviver(k, x, parseDate)) == items
    decreases items, 0
  {
    if items != [] {
      ReviveEncodeRoundTrip(Text.NatToString(from), items[0], iso, parseDate);
      ItemsRoundTrip(items[1..], from + 1, iso, parseDate);
    }
  }

  lemma {:induction false} MembersRoundTrip(members: seq<Member>, iso: int -> string, parseDate: string -> JsDate)
    requires forall t :: -MaxTime <= t <= MaxTime ==> parseDate(iso(t)) == Valid(t)
    requires MembersWellPlaced(members, parseDate)
    requires forall i :: 0 <= i < |members| ==> NoDatesOutOfRange(members[i].value)
    ensures ReviveMembers(EncodeMembers(members, iso), (k, x) => DateReviver(k, x, parseDate)) == members
    decreases members, 0
  {
    if members != [] {
      ReviveEncodeRoundTrip(members[0].key, members[0].value, iso, parseDate);
      MembersRoundTrip(members[1..], iso, parseDate);
    }
  }

  /** `JSON.parse(saved, reviver)` behind the `if (saved)` test and the `try`: an absent or
      empty entry, or one the parser rejects, yields the fallback; otherwise the revived tree,
      read as a collection by `decode`. */
  function LoadCollection<T>(saved: Option<string>, parse: string -> Option<Json>,
                             reviver: (string, Json) -> Json, decode: Json -> seq<T>,
                             fallback: seq<T>): (r: seq<T>)
    ensures saved.None? || saved == Some("") ==> r == fallback
    ensures saved.Some? && saved.value != "" && parse(saved.value).None? ==> r == fallback
    ensures saved.Some? && saved.value != "" && parse(saved.value).Some? ==>
              r == decode(Revive("", parse(saved.value).value, reviver))
  {
    match saved
    case None => fallback
    case Some(text) =>
      if text == "" then fallback
      else match parse(text)
        case None => fallback
        case Some(tree) => decode(Revive("", tree, reviver))
  }
}
