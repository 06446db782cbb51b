/** The local logic around the AI extraction calls (services/geminiService.ts): cleaning the
    model's reply down to its JSON text, turning a file read as a data URL into an inline part,
    truncating HTML input, and normalising the parsed reply. The calls themselves, their prompts
    and schemas are not modelled; `JSON.parse` is a parameter that yields a tree or `None` where
    it throws. */
module Gemini {
  import opened Wrappers
  import Text
  import opened Persistence

  // ---------------------------------------------------------------- cleanJsonString

  /** A Markdown code fence, and the fence that opens a JSON block. */
  const Fence: string := "```"
  const JsonFence: string := "```json"

  /** `text.replace(/```json/g, '').replace(/```/g, '')`. */
  function StripFences(text: string): (clean: string)
    ensures |clean| <= |text|
  {
    Text.RemoveAll(Text.RemoveAll(text, JsonFence), Fence)
  }

  /** `cleanJsonString`: fences stripped, then the cut below. The `try` never catches anything:
      none of these string operations throws. */
  function CleanJsonString(text: string): (r: string)
  {
    CutJson(StripFences(text))
  }

  /** The text from the first '{' to the last '}' when both occur (through `substring`, which
      swaps its bounds when the last '}' comes before the first '{'); failing that, from the first
      '[' to the last ']'; failing that, "{}". */
  function CutJson(clean: string): (r: string)
  {
    var startIndex, endIndex := Text.IndexOfChar(clean, '{'), Text.LastIndexOfChar(clean, '}');
    if startIndex != -1 && endIndex != -1 then
      Text.Substring(clean, startIndex, endIndex + 1)
    else
      var startArr, endArr := Text.IndexOfChar(clean, '['), Text.LastIndexOfChar(clean, ']');
      if startArr != -1 && endArr != -1 then Text.Substring(clean, startArr, endArr + 1)
      else "{}"
  }

  /** Fence removal leaves no fence behind. */
  lemma StripFencesLeavesNoFence(text: string)
    ensures !Text.Includes(StripFences(text), Fence)
  {
    assert Fence == Text.Run('`', 3);
    Text.RemoveAllRunLeavesNone(Text.RemoveAll(text, JsonFence), '`', 3);
  }

  /** A slice of a string holds only what the string holds. */
  lemma IncludesSlice(s: string, a: nat, b: nat, sub: string)
    requires a <= b <= |s| && Text.Includes(s[a..b], sub)
    ensures Text.Includes(s, sub)
  {
    var t := s[a..b];
    var i :| 0 <= i <= |t| - |sub| && Text.OccursAt(t, sub, i);
    var u, v := s[a + i..a + i + |sub|], t[i..i + |sub|];
    forall k | 0 <= k < |sub| ensures u[k] == v[k] {
      assert t[i + k] == s[a + i + k];
    }
    assert u == v;
    assert Text.OccursAt(s, sub, a + i);
  }

  /** Every character of a slice is a character of the string. */
  lemma InSlice(s: string, a: nat, b: nat, c: char)
    requires a <= b <= |s| && c in s[a..b]
    ensures c in s
  {
    var k :| 0 <= k < b - a && s[a..b][k] == c;
    assert s[a + k] == c;
  }

  /** With both braces present and in order, the cut is the slice from the first '{' through the
      last '}'; when the last '}' comes first, `substring` swaps the bounds and the cut is the text
      strictly between the two, which holds no brace at all. */
  lemma CutJsonObject(clean: string)
    requires '{' in clean && '}' in clean
    ensures var s, e := Text.IndexOfChar(clean, '{'), Text.LastIndexOfChar(clean, '}');
            var r := CutJson(clean);
            (s <= e ==> r == clean[s..e + 1] && r[0] == '{' && r[|r| - 1] == '}') &&
            (e < s ==> r == clean[e + 1..s] && '{' !in r && '}' !in r)
  {
  }

  /** Without a '{' … '}' pair but with both brackets, the cut is the slice from the first '['
      through the last ']' when they are in order; when the last ']' comes first, `substring`
      swaps the bounds and the cut is the text strictly between the two, which holds no bracket. */
  lemma CutJsonArray(clean: string)
    requires ('{' !in clean || '}' !in clean) && '[' in clean && ']' in clean
    ensures var s, e := Text.IndexOfChar(clean, '['), Text.LastIndexOfChar(clean, ']');
            var r := CutJson(clean);
            (s <= e ==> r == clean[s..e + 1] && r[0] == '[' && r[|r| - 1] == ']') &&
            (e < s ==> r == clean[e + 1..s] && '[' !in r && ']' !in r)
  {
  }

  /** Without a brace pair and without a bracket pair the cut is exactly "{}". */
  lemma CutJsonFallback(clean: string)
    requires ('{' !in clean || '}' !in clean) && ('[' !in clean || ']' !in clean)
    ensures CutJson(clean) == "{}"
  {
  }

  /** The cut is a slice of its input or "{}". */
  lemma CutJsonSlice(clean: string) returns (lo: nat, hi: nat)
    ensures CutJson(clean) == "{}" || (lo <= hi <= |clean| && CutJson(clean) == clean[lo..hi])
  {
    var s, e := Text.IndexOfChar(clean, '{'), Text.LastIndexOfChar(clean, '}');
    var sa, ea := Text.IndexOfChar(clean, '['), Text.LastIndexOfChar(clean, ']');
    if s != -1 && e != -1 {
      assert CutJson(clean) == Text.Substring(clean, s, e + 1);
      lo, hi := SubstringBounds(clean, s, e + 1);
    } else if sa != -1 && ea != -1 {
      assert CutJson(clean) == Text.Substring(clean, sa, ea + 1);
      lo, hi := SubstringBounds(clean, sa, ea + 1);
    } else {
      lo, hi := 0, 0;
    }
  }

  /** The bounds of the slice `substring` takes. */
  lemma SubstringBounds(s: string, a: int, b: int) returns (lo: nat, hi: nat)
    ensures lo <= hi <= |s| && Text.Substring(s, a, b) == s[lo..hi]
  {
    lo := Text.Clamp(if a <= b then a else b, |s|);
    hi := Text.Clamp(if a <= b then b else a, |s|);
  }

  /** The cleaned text never contains a code fence. */
  lemma CleanJsonHasNoFence(text: string)
    ensures !Text.Includes(CleanJsonString(text), Fence)
  {
    var clean := StripFences(text);
    StripFencesLeavesNoFence(text);
    var r := CleanJsonString(text);
    var lo, hi := CutJsonSlice(clean);
    if r != "{}" && Text.Includes(r, Fence) { IncludesSlice(clean, lo, hi, Fence); }
  }

  /** Removing a pattern that does not occur changes nothing. */
  lemma {:induction false} RemoveAllAbsent(s: string, pat: string)
    requires pat != [] && !Text.Includes(s, pat)
    ensures Text.RemoveAll(s, pat) == s
    decreases |s|
  {
    if |s| >= |pat| {
      assert !Text.OccursAt(s, pat, 0);
      assert !Text.Includes(s[1..], pat) by {
        assert s[1..|s|] == s[1..];
        if Text.Includes(s[1..], pat) { IncludesSlice(s, 1, |s|, pat); }
      }
      RemoveAllAbsent(s[1..], pat);
    }
  }

  /** A text without a fence has no JSON fence either, so fence removal leaves it unchanged. */
  lemma StripFencesAbsent(s: string)
    requires !Text.Includes(s, Fence)
    ensures StripFences(s) == s
  {
    if Text.Includes(s, JsonFence) {
      var i :| 0 <= i <= |s| - |JsonFence| && Text.OccursAt(s, JsonFence, i);
      assert s[i..i + 3] == s[i..i + 7][..3];
      assert Text.OccursAt(s, Fence, i);
    }
    RemoveAllAbsent(s, JsonFence);
    RemoveAllAbsent(s, Fence);
  }

  /** The slice of `s` from its first `open` through its last `close` starts at its own first
      `open` and ends at its own last `close`. */
  lemma SliceEnds(s: string, open: char, close: char)
    requires open in s && close in s && open != close
    requires Text.IndexOfChar(s, open) <= Text.LastIndexOfChar(s, close)
    ensures var a, b := Text.IndexOfChar(s, open), Text.LastIndexOfChar(s, close);
            var r := s[a..b + 1];
            Text.IndexOfChar(r, open) == 0 && Text.LastIndexOfChar(r, close) == |r| - 1
  {
    var a, b := Text.IndexOfChar(s, open), Text.LastIndexOfChar(s, close);
    var r := s[a..b + 1];
    assert r[0] == open && r[|r| - 1] == close;
    assert r[|r|..] == [];
  }

  /** Cleaning is idempotent whenever the cut it makes is not a swapped one: cleaning the cleaned
      text gives it back. */
  lemma CleanJsonIdempotent(text: string)
    requires var clean := StripFences(text);
             ('{' in clean && '}' in clean ==>
                Text.IndexOfChar(clean, '{') <= Text.LastIndexOfChar(clean, '}')) &&
             (('{' !in clean || '}' !in clean) && '[' in clean && ']' in clean ==>
                Text.IndexOfChar(clean, '[') <= Text.LastIndexOfChar(clean, ']'))
    ensures CleanJsonString(CleanJsonString(text)) == CleanJsonString(text)
  {
    var clean := StripFences(text);
    var r := CleanJsonString(text);
    assert r == CutJson(clean);
    CleanJsonHasNoFence(text);
    StripFencesAbsent(r);
    assert CleanJsonString(r) == CutJson(r);
    CutJsonIdempotent(clean);
  }

  /** The cut of a cut is itself, unless the cut was a swapped one. */
  lemma CutJsonIdempotent(clean: string)
    requires '{' in clean && '}' in clean ==>
               Text.IndexOfChar(clean, '{') <= Text.LastIndexOfChar(clean, '}')
    requires ('{' !in clean || '}' !in clean) && '[' in clean && ']' in clean ==>
               Text.IndexOfChar(clean, '[') <= Text.LastIndexOfChar(clean, ']')
    ensures CutJson(CutJson(clean)) == CutJson(clean)
  {
    if '{' in clean && '}' in clean {
      CutObjectIdempotent(clean);
    } else if '[' in clean && ']' in clean {
      CutArrayIdempotent(clean);
    } else {
      CutJsonFallback(clean);
      CutOfBraces();
    }
  }

  lemma CutObjectIdempotent(clean: string)
    requires '{' in clean && '}' in clean
    requires Text.IndexOfChar(clean, '{') <= Text.LastIndexOfChar(clean, '}')
    ensures CutJson(CutJson(clean)) == CutJson(clean)
  {
    var r := CutJson(clean);
    CutJsonObject(clean);
    SliceEnds(clean, '{', '}');
    assert '{' in r && '}' in r;
  }

  lemma CutArrayIdempotent(clean: string)
    requires ('{' !in clean || '}' !in clean) && '[' in clean && ']' in clean
    requires Text.IndexOfChar(clean, '[') <= Text.LastIndexOfChar(clean, ']')
    ensures CutJson(CutJson(clean)) == CutJson(clean)
  {
    var r := CutJson(clean);
    ArrayCutFacts(clean);
    CutOfBracketed(r);
  }

  /** What `CutOfBracketed` needs of an array cut. */
  lemma ArrayCutFacts(clean: string)
    requires ('{' !in clean || '}' !in clean) && '[' in clean && ']' in clean
    requires Text.IndexOfChar(clean, '[') <= Text.LastIndexOfChar(clean, ']')
    ensures var r := CutJson(clean);
            ('{' !in r || '}' !in r) && r != [] &&
            Text.IndexOfChar(r, '[') == 0 && Text.LastIndexOfChar(r, ']') == |r| - 1
  {
    var s, e := Text.IndexOfChar(clean, '['), Text.LastIndexOfChar(clean, ']');
    CutJsonArray(clean);
    SliceEnds(clean, '[', ']');
    NoBracePairInSlice(clean, s, e + 1);
  }

  /** A slice of a text without a brace pair has no brace pair either. */
  lemma NoBracePairInSlice(clean: string, a: nat, b: nat)
    requires ('{' !in clean || '}' !in clean) && a <= b <= |clean|
    ensures '{' !in clean[a..b] || '}' !in clean[a..b]
  {
    if '{' in clean[a..b] { InSlice(clean, a, b, '{'); }
    if '}' in clean[a..b] { InSlice(clean, a, b, '}'); }
  }

  /** A text that starts with its first '[' and ends with its last ']', and lacks a brace pair,
      cuts to itself. */
  lemma CutOfBracketed(r: string)
    requires ('{' !in r || '}' !in r) && r != []
    requires Text.IndexOfChar(r, '[') == 0 && Text.LastIndexOfChar(r, ']') == |r| - 1
    ensures CutJson(r) == r
  {
    assert r[..] == r;
  }

  /** The fallback "{}" cuts to itself. */
  lemma CutOfBraces()
    ensures CutJson("{}") == "{}"
  {
    assert "{}"[0] == '{' && "{}"[1] == '}';
    assert Text.IndexOfChar("{}", '{') == 0;
    assert Text.LastIndexOfChar("{}", '}') == 1;
  }

  // ---------------------------------------------------------------- fileToGenerativePart

  /** The part sent inline with a request: base64 data and its MIME type. */
  datatype InlineData = InlineData(data: string, mimeType: string)

  const PdfMime: string := "application/pdf"

  /** The base64 payload of a data URL: what follows the first comma, or the whole text when
      there is no comma. */
  function Base64Payload(dataUrl: string): (r: string)
    ensures |r| <= |dataUrl|
  {
    var commaIndex := Text.IndexOfChar(dataUrl, ',');
    if commaIndex != -1 then dataUrl[commaIndex + 1..] else dataUrl
  }

  /** The payload is the text after the first comma: the data URL is a comma-free header, a
      comma, and the payload. */
  lemma Base64PayloadSplit(dataUrl: string)
    ensures ',' !in dataUrl ==> Base64Payload(dataUrl) == dataUrl
    ensures ',' in dataUrl ==>
              var r := Base64Payload(dataUrl);
              var k := |dataUrl| - |r| - 1;
              0 <= k && dataUrl[k] == ',' && ',' !in dataUrl[..k] &&
              dataUrl == dataUrl[..k] + "," + r
  {
    if ',' in dataUrl {
      var k := Text.IndexOfChar(dataUrl, ',');
      assert dataUrl == dataUrl[..k] + [dataUrl[k]] + dataUrl[k + 1..];
    }
  }

  /** The MIME type sent: PDF when the lower-cased name ends in ".pdf" or the browser gave no
      type, the browser's type otherwise. */
  function MimeType(name: string, fileType: string): (r: string)
    ensures r == PdfMime || r == fileType
    ensures r == PdfMime <==> Text.EndsWith(Text.ToLower(name), ".pdf") || fileType == "" || fileType == PdfMime
  {
    if Text.EndsWith(Text.ToLower(name), ".pdf") then PdfMime
    else if fileType == "" then PdfMime
    else fileType
  }

  /** `fileToGenerativePart` once the reader has produced `result`: no API key and an empty
      result are errors; otherwise the payload and the chosen MIME type. */
  function FileToGenerativePart(hasApiKey: bool, result: string, name: string, fileType: string): (r: Result<InlineData>)
    ensures r.Ok? <==> hasApiKey && result != ""
    ensures r.Ok? ==> r.value.data == Base64Payload(result) && r.value.mimeType == MimeType(name, fileType)
  {
    if !hasApiKey then Err("API Key não configurada.")
    else if result == "" then Err("Falha ao ler o arquivo: base64 vazio.")
    else Ok(InlineData(Base64Payload(result), MimeType(name, fileType)))
  }

  // ---------------------------------------------------------------- extractDeadlinesFromHtml

  /** The most HTML characters sent to the model. */
  const MaxHtml: nat := 500000

  /** `htmlContent.substring(0, 500000)`: the first 500000 characters. */
  function TruncateHtml(html: string): (r: string)
    ensures |r| == if |html| <= MaxHtml then |html| else MaxHtml
    ensures r == html[..|r|]
  {
    Text.Substring(html, 0, MaxHtml)
  }

  // ---------------------------------------------------------------- normalising the reply

  /** `obj[key]` of a parsed JSON object: the last member with that key (JSON.parse keeps the
      last of duplicate keys); absent on other values. */
  function Property(members: seq<Member>, key: string): (r: Option<Json>)
    ensures r.None? <==> forall i :: 0 <= i < |members| ==> members[i].key != key
    ensures r.Some? ==> exists i :: 0 <= i < |members| && members[i] == Member(key, r.value) &&
                          forall j :: i < j < |members| ==> members[j].key != key
    decreases |members|
  {
    if members == [] then None
    else if members[|members| - 1].key == key then Some(members[|members| - 1].value)
    else Property(members[..|members| - 1], key)
  }

  /** `parsed.field`: a property of an object; `undefined` on any other non-null value. */
  function Field(parsed: Json, key: string): Option<Json> {
    if parsed.JObj? then Property(parsed.members, key) else None
  }

  /** JavaScript truthiness of a possibly undefined value. */
  predicate Truthy(v: Option<Json>) {
    match v
    case None => false
    case Some(JNull) => false
    case Some(JBool(b)) => b
    case Some(JNum(n)) => n != 0
    case Some(JStr(s)) => s != ""
    case Some(_) => true
  }

  /** `x || []`. */
  function OrEmptyList(v: Option<Json>): (r: Json)
    ensures Truthy(v) ==> r == v.value
    ensures !Truthy(v) ==> r == JArr([])
  {
    if Truthy(v) then v.value else JArr([])
  }

  /** `x?.length`: the length of an array or a string, the `length` property of an object. */
  function LengthOf(v: Option<Json>): Option<Json> {
    match v
    case Some(JArr(items)) => Some(JNum(|items|))
    case Some(JStr(s)) => Some(JNum(|s|))
    case Some(JObj(members)) => Property(members, "length")
    case _ => None
  }

  /** `response.text || '{}'`: a missing or empty reply reads as "{}". */
  function ReplyText(responseText: Option<string>): (t: string)
    ensures t != ""
    ensures responseText.Some? && responseText.value != "" ==> t == responseText.value
  {
    if responseText.None? || responseText.value == "" then "{}" else responseText.value
  }

  /** A normalised reply: the list of records and, for hearings and procedures, `total`. */
  datatype Extraction = Extraction(items: Json, total: Json)

  /** The reply handling shared by the extract functions: `JSON.parse(cleanJsonString(text ||
      '{}'))`, then `parsed.field || []` and `parsed.field?.length || 0`. A parse failure, or
      reading a property of `null`, rejects the call. */
  function ReadReply(responseText: Option<string>, parse: string -> Option<Json>, field: string): (r: Result<Extraction>)
    ensures r.Ok? <==> var t := parse(CleanJsonString(ReplyText(responseText)));
                       t.Some? && t.value != JNull
  {
    match parse(CleanJsonString(ReplyText(responseText)))
    case None => Err("JSON.parse")
    case Some(JNull) => Err("Cannot read properties of null")
    case Some(parsed) =>
      var v := Field(parsed, field);
      var len := LengthOf(v);
      Ok(Extraction(OrEmptyList(v), if Truthy(len) then len.value else JNum(0)))
  }

  /** A reply whose field is an array yields that array and a total equal to its length; a
      reply without the field yields the empty list and a total of 0. */
  lemma ReadReplyNormalises(responseText: Option<string>, parse: string -> Option<Json>, field: string)
    requires ReadReply(responseText, parse, field).Ok?
    ensures var parsed := parse(CleanJsonString(ReplyText(responseText))).value;
            var r := ReadReply(responseText, parse, field).value;
            (Field(parsed, field).None? ==> r.items == JArr([]) && r.total == JNum(0)) &&
            (forall items :: Field(parsed, field) == Some(JArr(items)) ==>
                r.items == JArr(items) && r.total == JNum(|items|))
  {
  }
}
