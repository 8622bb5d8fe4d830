/**
 * The record feeds of the API (backend/api.py): the boolean environment
 * switches, the rekt-database record filter and its refresh, the leaks and
 * news refreshes, and the phishing-domain search.
 *
 * Reading and decoding the feed files is not modelled: each refresh is
 * given the decoded file content and the file's modification time as a
 * string. The clock, the HTML sanitiser and the news date parser are
 * parameters.
 */
module Feeds {
  import opened Wrappers
  import opened Values
  import Text
  import Sorting

  // ---------------------------------------------------------------------
  // env_bool

  /** The values `env_bool` reads as true, after `strip().lower()`. */
  predicate TrueWord(s: string) {
    s == "1" || s == "true" || s == "yes" || s == "on"
  }

  /** `env_bool(name, default)`, given `os.getenv(name)`. */
  function EnvBool(raw: Option<string>, default: bool): bool {
    if raw.None? then default else TrueWord(Text.Lower(Text.Strip(raw.value)))
  }

  lemma {:induction false} TrimStartLower(s: string)
    ensures Text.TrimStart(Text.Lower(s)) == Text.Lower(Text.TrimStart(s))
    decreases |s|
  {
    if |s| > 0 {
      assert Text.Lower(s)[1..] == Text.Lower(s[1..]);
      TrimStartLower(s[1..]);
    }
  }

  lemma {:induction false} TrimEndLower(s: string)
    ensures Text.TrimEnd(Text.Lower(s)) == Text.Lower(Text.TrimEnd(s))
    decreases |s|
  {
    if |s| > 0 {
      assert Text.Lower(s)[..|s| - 1] == Text.Lower(s[..|s| - 1]);
      TrimEndLower(s[..|s| - 1]);
    }
  }

  /** Lower-casing and stripping can be done in either order. */
  lemma StripLower(s: string)
    ensures Text.Strip(Text.Lower(s)) == Text.Lower(Text.Strip(s))
  {
    TrimStartLower(s);
    TrimEndLower(Text.TrimStart(s));
  }

  /**
   * A set variable is read ignoring case and surrounding whitespace, and
   * is never replaced by the default; only an unset one is.
   */
  lemma EnvBoolReading(raw: string, a: string, b: string, default: bool)
    requires Text.AllSpace(a) && Text.AllSpace(b) && Text.Trimmed(raw)
    ensures EnvBool(Some(a + raw + b), default) == TrueWord(Text.Lower(raw))
    ensures EnvBool(Some(Text.Lower(raw)), default) == EnvBool(Some(raw), default)
    ensures EnvBool(None, default) == default
  {
    Text.StripOfPadded(a, raw, b);
    StripLower(raw);
    Text.StripOfPadded("", raw, "");
    assert "" + raw + "" == raw;
    Text.LowerIdempotent(raw);
  }

  /** `LOW_MEMORY_MODE=" On "` switches the mode on; an empty value switches it off. */
  lemma EnvBoolExamples()
    ensures EnvBool(Some(" On "), false)
    ensures !EnvBool(Some(""), true)
  {
    EnvBoolReading("On", " ", " ", false);
    assert " " + "On" + " " == " On ";
    assert Text.Lower("On") == "on";
  }

  // ---------------------------------------------------------------------
  // filter_record, sort_key and the rekt refresh

  /** The fields a rekt record is cut down to. */
  const RecordFields: set<string> := {
    "project_name", "name_categories", "website_link", "funds_lost", "scam_type", "date",
    "root_cause", "quick_summary", "details", "block_data", "proof_link", "chain",
    "token_name", "token_address"
  }

  /** The scam type: legacy records hold it as `{"type": ...}`, normalized ones as a string. */
  function ScamType(m: map<string, Json>): Json {
    var raw := Get(m, "scam_type");
    if raw.JObj? then Get(raw.fields, "type") else raw
  }

  predicate IsHoneypot(scamType: Json) {
    scamType.JStr? && Text.Lower(Text.Strip(scamType.s)) == "honeypot"
  }

  /** `filter_record(record)`: None for a honeypot and for a record that is not a dict. */
  function FilterRecord(record: Json): Option<Json> {
    if !record.JObj? then None
    else
      var m := record.fields;
      var st := ScamType(m);
      if IsHoneypot(st) then None
      else Some(JObj(map k | k in RecordFields :: if k == "scam_type" then st else Get(m, k)))
  }

  /**
   * The filtered record has exactly the fourteen fields, each copied from
   * the record (None where missing) except the scam type, which is
   * unwrapped; it is dropped exactly when it is a honeypot or not a dict.
   */
  lemma FilterRecordShape(record: Json)
    ensures FilterRecord(record).None? <==> !record.JObj? || IsHoneypot(ScamType(record.fields))
    ensures FilterRecord(record).Some? ==>
      var r := FilterRecord(record).value;
      && r.JObj? && r.fields.Keys == RecordFields
      && r.fields["scam_type"] == ScamType(record.fields)
      && (forall k :: k in RecordFields && k != "scam_type" ==> r.fields[k] == Get(record.fields, k))
      && Truthy(r)
  {
    if FilterRecord(record).Some? {
      assert "date" in FilterRecord(record).value.fields;
    }
  }

  /** `{"type": classification} if classification else None`, as the rekt puller writes it. */
  function WrapScamType(classification: Json): Json {
    if Truthy(classification) then JObj(map["type" := classification]) else JNull
  }

  /** The filter reads back what the puller wrote: the classification, or None when it was falsy. */
  lemma WrapScamTypeRoundTrip(m: map<string, Json>, classification: Json)
    ensures ScamType(m["scam_type" := classification]) == (if classification.JObj? then Get(classification.fields, "type") else classification)
    ensures ScamType(m["scam_type" := WrapScamType(classification)]) == (if Truthy(classification) then classification else JNull)
  {
  }

  /** A date that `sort_key` returns as something the sort can compare with strings. */
  predicate DateIsStr(r: Json) {
    r.JObj? && (Get(r.fields, "date") == JNull || Get(r.fields, "date").JStr?)
  }

  /** `sort_key(record)`: the date, with None read as "". */
  function RektDateKey(r: Json): string {
    if r.JObj? then StrOr(Get(r.fields, "date"), "") else ""
  }

  /** The record list of a rekt file: `items`, else `data`; None when neither is a list. */
  function RektRecords(data: Json): Option<seq<Json>> {
    if !Truthy(data) || !data.JObj? then None
    else
      var items := Get(data.fields, "items");
      if items.JArr? then Some(items.items)
      else
        var d := Get(data.fields, "data");
        if d.JArr? then Some(d.items) else None
  }

  /** The filtered records that are kept, in input order. */
  function KeptRecords(records: seq<Json>): seq<Json>
    decreases |records|
  {
    if |records| == 0 then []
    else
      var f := FilterRecord(records[|records| - 1]);
      KeptRecords(records[..|records| - 1]) + (if f.Some? then [f.value] else [])
  }

  /** What `refresh_rekt_data` stores; None where it returns early or the sort raises. */
  function RektSpec(data: Json): Option<seq<Json>> {
    match RektRecords(data)
    case None => None
    case Some(records) =>
      var kept := KeptRecords(records);
      if Sorting.Comparable(kept, DateIsStr) then Some(Sorting.SortDesc(kept, RektDateKey)) else None
  }

  /** The kept records are exactly the filtered forms of the records that pass the filter. */
  lemma KeptRecordsMembers(records: seq<Json>)
    ensures forall r :: r in KeptRecords(records) <==> exists i :: 0 <= i < |records| && FilterRecord(records[i]) == Some(r)
  {
    KeptRecordsSound(records);
    KeptRecordsComplete(records);
  }

  lemma {:induction false} KeptRecordsSound(records: seq<Json>)
    ensures forall r :: r in KeptRecords(records) ==> exists i :: 0 <= i < |records| && FilterRecord(records[i]) == Some(r)
    decreases |records|
  {
    if |records| > 0 {
      var p := records[..|records| - 1];
      var f := FilterRecord(records[|records| - 1]);
      var tail := if f.Some? then [f.value] else [];
      KeptRecordsSound(p);
      assert KeptRecords(records) == KeptRecords(p) + tail;
      forall r | r in KeptRecords(records) ensures exists i :: 0 <= i < |records| && FilterRecord(records[i]) == Some(r) {
        if r in KeptRecords(p) {
          var i :| 0 <= i < |p| && FilterRecord(p[i]) == Some(r);
          assert records[i] == p[i];
        } else {
          assert FilterRecord(records[|records| - 1]) == Some(r);
        }
      }
    }
  }

  lemma {:induction false} KeptRecordsComplete(records: seq<Json>)
    ensures forall i :: 0 <= i < |records| && FilterRecord(records[i]).Some? ==> FilterRecord(records[i]).value in KeptRecords(records)
    decreases |records|
  {
    if |records| > 0 {
      var p := records[..|records| - 1];
      var f := FilterRecord(records[|records| - 1]);
      var tail := if f.Some? then [f.value] else [];
      KeptRecordsComplete(p);
      assert KeptRecords(records) == KeptRecords(p) + tail;
      forall i | 0 <= i < |records| && FilterRecord(records[i]).Some? ensures FilterRecord(records[i]).value in KeptRecords(records) {
        if i < |p| {
          assert p[i] == records[i];
        }
      }
    }
  }

  /**
   * The refreshed rekt list holds the filtered form of every record that is
   * not a honeypot, and nothing else, newest date first, records without a
   * date last, records of equal date in file order.
   */
  lemma RektSpecContents(data: Json)
    requires RektSpec(data).Some?
    ensures forall r :: r in RektSpec(data).value <==>
      exists i :: 0 <= i < |RektRecords(data).value| && FilterRecord(RektRecords(data).value[i]) == Some(r)
    ensures multiset(RektSpec(data).value) == multiset(KeptRecords(RektRecords(data).value))
    ensures Sorting.SortedDesc(RektSpec(data).value, RektDateKey)
    ensures forall k :: Sorting.WithKey(RektSpec(data).value, RektDateKey, k)
                     == Sorting.WithKey(KeptRecords(RektRecords(data).value), RektDateKey, k)
    ensures forall i, j :: 0 <= i < j < |RektSpec(data).value| && RektDateKey(RektSpec(data).value[i]) == "" ==>
      RektDateKey(RektSpec(data).value[j]) == ""
  {
    var kept := KeptRecords(RektRecords(data).value);
    var out := RektSpec(data).value;
    KeptRecordsMembers(RektRecords(data).value);
    Sorting.SortDescOrdered(kept, RektDateKey);
    forall k ensures Sorting.WithKey(out, RektDateKey, k) == Sorting.WithKey(kept, RektDateKey, k) {
      Sorting.SortDescStable(kept, RektDateKey, k);
    }
    forall r ensures r in out <==> r in kept {
      assert r in out <==> r in multiset(out);
    }
    forall i, j | 0 <= i < j < |out| && RektDateKey(out[i]) == "" ensures RektDateKey(out[j]) == "" {
      Sorting.EmptyKeysLast(out, RektDateKey, i, j);
    }
  }

  /** The refresh stores nothing new exactly when the file has no record list or dates that cannot be compared. */
  lemma RektSpecFails(data: Json)
    ensures RektSpec(data).None? <==>
      RektRecords(data).None? ||
      (|KeptRecords(RektRecords(data).value)| >= 2 &&
       exists r :: r in KeptRecords(RektRecords(data).value) && !DateIsStr(r))
  {
    if RektRecords(data).Some? {
      var kept := KeptRecords(RektRecords(data).value);
      if !Sorting.Comparable(kept, DateIsStr) {
        var i :| 0 <= i < |kept| && !DateIsStr(kept[i]);
        assert kept[i] in kept;
      }
    }
  }

  /** The shared shape of `rekt_cache`, `leaks_cache` and `news_cache`. */
  datatype FeedState = FeedState(data: Option<seq<Json>>, lastUpdated: Option<string>, totalRecords: Option<nat>)

  /** A successful refresh stores the list, the file time and the list's length. */
  function Stored(old_: FeedState, result: Option<seq<Json>>, mtime: string): FeedState {
    match result
    case None => old_
    case Some(d) => FeedState(Some(d), Some(mtime), Some(|d|))
  }

  // ---------------------------------------------------------------------
  // refresh_leaks_data

  /** What `sanitize_description` returns: the cleaned text and the links found. */
  datatype Sanitized = Sanitized(text: string, references: seq<string>)

  /** The item without its `_pl` keys. */
  function DropPl(m: map<string, Json>): map<string, Json> {
    map k | k in m && !Text.EndsWith(k, "_pl") :: m[k]
  }

  /**
   * `sanitize_description(description, domain)`: a falsy description gives
   * no text and no references; an HTML string goes to the sanitiser; any
   * other value makes the HTML parser raise.
   */
  function SanitizeOf(description: Json, domain: Json, sanitizeHtml: (string, Json) -> Sanitized): Option<Sanitized> {
    if !Truthy(description) then Some(Sanitized("", []))
    else if description.JStr? then Some(sanitizeHtml(description.s, domain))
    else None
  }

  function AsJsonStrings(ss: seq<string>): seq<Json> {
    seq(|ss|, i requires 0 <= i < |ss| => JStr(ss[i]))
  }

  /** One leak record after cleaning; None where the sanitiser raises. */
  function CleanLeak(m: map<string, Json>, sanitizeHtml: (string, Json) -> Sanitized): Option<map<string, Json>> {
    var c := DropPl(m);
    if "description" !in c then Some(c)
    else
      match SanitizeOf(c["description"], Get(c, "domain"), sanitizeHtml)
      case None => None
      case Some(s) =>
        var c1 := c["description" := JStr(s.text)];
        Some(if |s.references| > 0 then c1["references" := JArr(AsJsonStrings(s.references))] else c1)
  }

  /** The cleaned list, in file order; None where an item is not a dict or cannot be sanitised. */
  function CleanLeaks(items: seq<Json>, sanitizeHtml: (string, Json) -> Sanitized): Option<seq<Json>>
    decreases |items|
  {
    if |items| == 0 then Some([])
    else
      match CleanLeaks(items[..|items| - 1], sanitizeHtml)
      case None => None
      case Some(done) =>
        var item := items[|items| - 1];
        if !item.JObj? then None
        else
          match CleanLeak(item.fields, sanitizeHtml)
          case None => None
          case Some(c) => Some(done + [JObj(c)])
  }

  /** What `refresh_leaks_data` stores; None where it returns early or raises. */
  function LeaksSpec(data: Json, sanitizeHtml: (string, Json) -> Sanitized): Option<seq<Json>> {
    if !Truthy(data) || !data.JArr? then None else CleanLeaks(data.items, sanitizeHtml)
  }

  /**
   * A cleaned leak has no `_pl` key and keeps every other key of the
   * record; only the description, now the sanitiser's plain text, and the
   * references, added beside it only when the sanitiser found some, differ
   * from the record.
   */
  lemma CleanLeakShape(m: map<string, Json>, sanitizeHtml: (string, Json) -> Sanitized)
    requires CleanLeak(m, sanitizeHtml).Some?
    ensures forall k :: k in CleanLeak(m, sanitizeHtml).value ==> !Text.EndsWith(k, "_pl")
    ensures forall k :: k in m && !Text.EndsWith(k, "_pl") ==> k in CleanLeak(m, sanitizeHtml).value
    ensures forall k :: k in m && !Text.EndsWith(k, "_pl") && k != "description" && k != "references" ==>
      CleanLeak(m, sanitizeHtml).value[k] == m[k]
    ensures "description" in DropPl(m) ==>
      var sd := SanitizeOf(DropPl(m)["description"], Get(DropPl(m), "domain"), sanitizeHtml);
      && sd.Some?
      && CleanLeak(m, sanitizeHtml).value["description"] == JStr(sd.value.text)
      && (|sd.value.references| > 0 ==>
            CleanLeak(m, sanitizeHtml).value["references"] == JArr(AsJsonStrings(sd.value.references)))
      && (|sd.value.references| == 0 ==>
            CleanLeak(m, sanitizeHtml).value == DropPl(m)["description" := JStr(sd.value.text)])
    ensures "description" !in DropPl(m) ==> CleanLeak(m, sanitizeHtml).value == DropPl(m)
  {
    assert !Text.EndsWith("references", "_pl") by {
      assert "references"[|"references"| - 3..] == "ces";
    }
  }

  /** The cleaned list has one entry per record, in file order. */
  lemma {:induction false} CleanLeaksPointwise(items: seq<Json>, sanitizeHtml: (string, Json) -> Sanitized)
    requires CleanLeaks(items, sanitizeHtml).Some?
    ensures |CleanLeaks(items, sanitizeHtml).value| == |items|
    ensures forall i :: 0 <= i < |items| ==>
      items[i].JObj? && CleanLeak(items[i].fields, sanitizeHtml).Some? &&
      CleanLeaks(items, sanitizeHtml).value[i] == JObj(CleanLeak(items[i].fields, sanitizeHtml).value)
    decreases |items|
  {
    if |items| > 0 {
      var p := items[..|items| - 1];
      CleanLeaksPointwise(p, sanitizeHtml);
      forall i | 0 <= i < |p| ensures items[i] == p[i] { }
    }
  }

  /** A list fails to clean exactly when some record is not a dict or cannot be sanitised. */
  lemma {:induction false} CleanLeaksFails(items: seq<Json>, sanitizeHtml: (string, Json) -> Sanitized)
    ensures CleanLeaks(items, sanitizeHtml).None? <==>
      exists i :: 0 <= i < |items| && (!items[i].JObj? || CleanLeak(items[i].fields, sanitizeHtml).None?)
    decreases |items|
  {
    if |items| > 0 {
      var p := items[..|items| - 1];
      CleanLeaksFails(p, sanitizeHtml);
      if exists i :: 0 <= i < |p| && (!p[i].JObj? || CleanLeak(p[i].fields, sanitizeHtml).None?) {
        var i :| 0 <= i < |p| && (!p[i].JObj? || CleanLeak(p[i].fields, sanitizeHtml).None?);
        assert items[i] == p[i];
      }
      if exists i :: 0 <= i < |items| && (!items[i].JObj? || CleanLeak(items[i].fields, sanitizeHtml).None?) {
        var i :| 0 <= i < |items| && (!items[i].JObj? || CleanLeak(items[i].fields, sanitizeHtml).None?);
        if i < |p| {
          assert p[i] == items[i];
        }
      }
    }
  }

  // ---------------------------------------------------------------------
  // refresh_news_data

  /**
   * `parse_news_datetime(value)`: None for anything but a non-blank string;
   * the stripped text goes to the date parser, which gives a time in
   * seconds or None.
   */
  function ParseNewsTime(value: Json, parseText: string -> Option<int>): Option<int> {
    if !value.JStr? || |Text.Strip(value.s)| == 0 then None else parseText(Text.Strip(value.s))
  }

  /** 24 hours, in seconds. */
  const FutureWindow: int := 24 * 60 * 60

  /** A dict whose `pubDate` parses to more than 24 hours after `now`. */
  predicate FutureDated(item: Json, now: int, parseText: string -> Option<int>) {
    item.JObj? &&
    var t := ParseNewsTime(Get(item.fields, "pubDate"), parseText);
    t.Some? && t.value > now + FutureWindow
  }

  /** The items that are not future-dated, in file order. */
  function NewsKept(items: seq<Json>, now: int, parseText: string -> Option<int>): seq<Json>
    decreases |items|
  {
    if |items| == 0 then []
    else
      var last := items[|items| - 1];
      NewsKept(items[..|items| - 1], now, parseText) + (if FutureDated(last, now, parseText) then [] else [last])
  }

  /** The item list of a news file: the file itself, or its `data` field. */
  function NewsItems(data: Json): Option<seq<Json>> {
    if !Truthy(data) then None
    else
      var items := if data.JObj? then Get(data.fields, "data") else data;
      if items.JArr? then Some(items.items) else None
  }

  function NewsSpec(data: Json, now: int, parseText: string -> Option<int>): Option<seq<Json>> {
    match NewsItems(data)
    case None => None
    case Some(items) => Some(NewsKept(items, now, parseText))
  }

  /** The number of future-dated items, the `dropped_future` count. */
  function DroppedFuture(items: seq<Json>, now: int, parseText: string -> Option<int>): nat
    decreases |items|
  {
    if |items| == 0 then 0
    else DroppedFuture(items[..|items| - 1], now, parseText) + (if FutureDated(items[|items| - 1], now, parseText) then 1 else 0)
  }

  /**
   * The news filter keeps exactly the items that are not future-dated, in
   * file order, and the kept and dropped counts add up to the input.
   */
  lemma {:induction false} NewsKeptContents(items: seq<Json>, now: int, parseText: string -> Option<int>)
    ensures forall x :: x in NewsKept(items, now, parseText) <==> x in items && !FutureDated(x, now, parseText)
    ensures |NewsKept(items, now, parseText)| + DroppedFuture(items, now, parseText) == |items|
    ensures NewsKept(items, now, parseText) == items <==> DroppedFuture(items, now, parseText) == 0
    decreases |items|
  {
    if |items| > 0 {
      var p := items[..|items| - 1];
      NewsKeptContents(p, now, parseText);
      assert items == p + [items[|items| - 1]];
      if DroppedFuture(items, now, parseText) > 0 {
        assert |NewsKept(items, now, parseText)| < |items|;
      }
    }
  }

  /** Items that are not dicts, and dicts without a parseable date, are always kept. */
  lemma NewsKeepsUndated(items: seq<Json>, now: int, parseText: string -> Option<int>, i: nat)
    requires i < |items|
    requires !items[i].JObj? || ParseNewsTime(Get(items[i].fields, "pubDate"), parseText).None?
    ensures items[i] in NewsKept(items, now, parseText)
  {
    NewsKeptContents(items, now, parseText);
  }

  // ---------------------------------------------------------------------
  // The feed caches

  class FeedCache {
    var data: Option<seq<Json>>
    var lastUpdated: Option<string>
    var totalRecords: Option<nat>

    function State(): FeedState
      reads this
    {
      FeedState(data, lastUpdated, totalRecords)
    }

    constructor()
      ensures State() == FeedState(None, None, None)
    {
      data, lastUpdated, totalRecords := None, None, None;
    }

    /** `refresh_rekt_data()`, given the file content and its modification time. */
    method RefreshRekt(content: Json, mtime: string)
      modifies this
      ensures State() == Stored(old(State()), RektSpec(content), mtime)
    {
      var records := RektRecords(content);
      if records.None? {
        return;
      }
      var filtered := FilterRecords(records.value);
      if !Sorting.Comparable(filtered, DateIsStr) {
        return;
      }
      var sorted := Sorting.SortDesc(filtered, RektDateKey);
      data, lastUpdated, totalRecords := Some(sorted), Some(mtime), Some(|sorted|);
    }

    /** `refresh_leaks_data()`, given the file content and its modification time. */
    method RefreshLeaks(content: Json, mtime: string, sanitizeHtml: (string, Json) -> Sanitized)
      modifies this
      ensures State() == Stored(old(State()), LeaksSpec(content, sanitizeHtml), mtime)
    {
      if !Truthy(content) || !content.JArr? {
        return;
      }
      var cleaned := CleanLeakItems(content.items, sanitizeHtml);
      if cleaned.None? {
        return;
      }
      data, lastUpdated, totalRecords := Some(cleaned.value), Some(mtime), Some(|cleaned.value|);
    }

    /** `refresh_news_data()`, given the file content, its modification time and the current time. */
    method RefreshNews(content: Json, mtime: string, now: int, parseText: string -> Option<int>)
      modifies this
      ensures State() == Stored(old(State()), NewsSpec(content, now, parseText), mtime)
    {
      var items := NewsItems(content);
      if items.None? {
        return;
      }
      var kept, dropped := DropFutureNews(items.value, now, parseText);
      data, lastUpdated, totalRecords := Some(kept), Some(mtime), Some(|kept|);
    }
  }

  /** The record loop of `refresh_rekt_data`. */
  method FilterRecords(records: seq<Json>) returns (filtered: seq<Json>)
    ensures filtered == KeptRecords(records)
  {
    filtered := [];
    var i := 0;
    while i < |records|
      invariant 0 <= i <= |records|
      invariant filtered == KeptRecords(records[..i])
    {
      assert records[..i + 1][..i] == records[..i];
      var f := FilterRecord(records[i]);
      if f.Some? {
        filtered := filtered + [f.value];
      }
      i := i + 1;
    }
    assert records[..|records|] == records;
  }

  /** The item loop of `refresh_leaks_data`. */
  method CleanLeakItems(items: seq<Json>, sanitizeHtml: (string, Json) -> Sanitized) returns (r: Option<seq<Json>>)
    ensures r == CleanLeaks(items, sanitizeHtml)
  {
    var cleaned: seq<Json> := [];
    var i := 0;
    while i < |items|
      invariant 0 <= i <= |items|
      invariant CleanLeaks(items[..i], sanitizeHtml) == Some(cleaned)
    {
      assert items[..i + 1][..i] == items[..i];
      var item := items[i];
      if !item.JObj? {
        CleanLeaksStaysNone(items, i + 1, sanitizeHtml);
        return None;
      }
      var c := CleanLeak(item.fields, sanitizeHtml);
      if c.None? {
        CleanLeaksStaysNone(items, i + 1, sanitizeHtml);
        return None;
      }
      cleaned := cleaned + [JObj(c.value)];
      i := i + 1;
    }
    assert items[..|items|] == items;
    r := Some(cleaned);
  }

  lemma {:induction false} CleanLeaksStaysNone(items: seq<Json>, n: nat, sanitizeHtml: (string, Json) -> Sanitized)
    requires n <= |items| && CleanLeaks(items[..n], sanitizeHtml).None?
    ensures CleanLeaks(items, sanitizeHtml).None?
    decreases |items| - n
  {
    if n < |items| {
      assert items[..n + 1][..n] == items[..n];
      CleanLeaksStaysNone(items, n + 1, sanitizeHtml);
    } else {
      assert items[..n] == items;
    }
  }

  /** The item loop of `refresh_news_data`: the kept items and the `dropped_future` count. */
  method DropFutureNews(items: seq<Json>, now: int, parseText: string -> Option<int>) returns (kept: seq<Json>, dropped: nat)
    ensures kept == NewsKept(items, now, parseText)
    ensures dropped == DroppedFuture(items, now, parseText)
  {
    var futureCutoff := now + FutureWindow;
    kept, dropped := [], 0;
    var i := 0;
    while i < |items|
      invariant 0 <= i <= |items|
      invariant kept == NewsKept(items[..i], now, parseText)
      invariant dropped == DroppedFuture(items[..i], now, parseText)
    {
      assert items[..i + 1][..i] == items[..i];
      var item := items[i];
      var pubTime := if item.JObj? then ParseNewsTime(Get(item.fields, "pubDate"), parseText) else None;
      if pubTime.Some? && pubTime.value > futureCutoff {
        dropped := dropped + 1;
      } else {
        kept := kept + [item];
      }
      i := i + 1;
    }
    assert items[..|items|] == items;
  }

  // ---------------------------------------------------------------------
  // search_domain

  /**
   * `any(d.lower() == target for d in domains)` with `target` already
   * lower-cased: stops at the first match; an entry that is not a string
   * before any match raises.
   */
  function AnyMatch(domains: seq<Json>, target: string): Result<bool, HttpError>
    decreases |domains|
  {
    if |domains| == 0 then Ok(false)
    else if !domains[0].JStr? then Err(ServerError)
    else if Text.Lower(domains[0].s) == target then Ok(true)
    else AnyMatch(domains[1..], target)
  }

  /** `search_domain(domain)` over the phishing domain list: 503 when it is empty. */
  function SearchDomain(domains: seq<Json>, domain: string): Result<bool, HttpError> {
    if |domains| == 0 then Err(Unavailable) else AnyMatch(domains, Text.Lower(domain))
  }

  predicate MatchesAt(domains: seq<Json>, target: string, i: int)
    requires 0 <= i < |domains|
  {
    domains[i].JStr? && Text.Lower(domains[i].s) == target
  }

  /**
   * The scan answers true exactly when some entry matches and every entry
   * before the first match is a string, false exactly when every entry is a
   * string and none matches, and raises otherwise.
   */
  lemma {:induction false} AnyMatchMeaning(domains: seq<Json>, target: string)
    ensures AnyMatch(domains, target) == Ok(true) <==>
      exists i :: 0 <= i < |domains| && MatchesAt(domains, target, i) &&
        forall j :: 0 <= j < i ==> domains[j].JStr?
    ensures AnyMatch(domains, target) == Ok(false) <==>
      forall i :: 0 <= i < |domains| ==> domains[i].JStr? && !MatchesAt(domains, target, i)
    decreases |domains|
  {
    if |domains| > 0 {
      var t := domains[1..];
      AnyMatchMeaning(t, target);
      if domains[0].JStr? && Text.Lower(domains[0].s) != target {
        if exists i :: 0 <= i < |t| && MatchesAt(t, target, i) && forall j :: 0 <= j < i ==> t[j].JStr? {
          var i :| 0 <= i < |t| && MatchesAt(t, target, i) && forall j :: 0 <= j < i ==> t[j].JStr?;
          assert MatchesAt(domains, target, i + 1);
          forall j | 0 <= j < i + 1 ensures domains[j].JStr? {
            if j > 0 {
              assert domains[j] == t[j - 1];
            }
          }
        }
        if exists i :: 0 <= i < |domains| && MatchesAt(domains, target, i) && forall j :: 0 <= j < i ==> domains[j].JStr? {
          var i :| 0 <= i < |domains| && MatchesAt(domains, target, i) && forall j :: 0 <= j < i ==> domains[j].JStr?;
          assert i > 0;
          assert MatchesAt(t, target, i - 1);
          forall j | 0 <= j < i - 1 ensures t[j].JStr? {
            assert t[j] == domains[j + 1];
          }
        }
        if forall i :: 0 <= i < |t| ==> t[i].JStr? && !MatchesAt(t, target, i) {
          forall i | 0 <= i < |domains| ensures domains[i].JStr? && !MatchesAt(domains, target, i) {
            if i > 0 {
              assert domains[i] == t[i - 1];
              assert !MatchesAt(t, target, i - 1);
            }
          }
        }
        if forall i :: 0 <= i < |domains| ==> domains[i].JStr? && !MatchesAt(domains, target, i) {
          forall i | 0 <= i < |t| ensures t[i].JStr? && !MatchesAt(t, target, i) {
            assert t[i] == domains[i + 1];
            assert !MatchesAt(domains, target, i + 1);
          }
        }
      } else if domains[0].JStr? {
        assert MatchesAt(domains, target, 0);
      } else {
        assert !domains[0].JStr?;
      }
    }
  }

  /** The search ignores the case of the domain asked for. */
  lemma SearchIgnoresCase(domains: seq<Json>, domain: string)
    ensures SearchDomain(domains, Text.Lower(domain)) == SearchDomain(domains, domain)
  {
    Text.LowerIdempotent(domain);
  }
}
