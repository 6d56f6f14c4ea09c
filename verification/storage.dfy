/**
 * The persisted log store of `src/utils/storage.js`: one collection of
 * entries kept as JSON text under a fixed key of the browser's key/value
 * storage. Storage is a map threaded through the operations, JSON is an
 * abstract codec, and a write the device refuses (quota, private mode) is a
 * boolean input; none of the operations ever raises to its caller.
 */
module Storage {
  import opened Entries
  import opened Sorting
  import opened Text

  /** The one key the store uses. */
  const StorageKey := "ai-skill-tracker-logs-v1"

  /** The browser's key/value storage; an absent key is `getItem` returning null. */
  type Store = map<string, string>

  /** What `JSON.parse` makes of a stored text: it throws, it yields a value
      that is not an array (`"null"`, `"{}"`, `"0"`), or it yields the entries. */
  datatype Json = Malformed | NonArray | EntryArray(entries: seq<Entry>)

  /** `JSON.parse` and `JSON.stringify`, restricted to entry arrays. */
  datatype Codec = Codec(parse: string -> Json, serialize: seq<Entry> -> string)

  /** Serialising `xs` yields a non-empty text that parses back to `xs`, as
      `JSON.stringify` followed by `JSON.parse` does for an array of plain
      records. It is asked only of the collection actually saved: a codec
      that did this for every collection would be an injection of the
      entries, whose hours are reals, into the countable set of strings. */
  ghost predicate RoundTrips(c: Codec, xs: seq<Entry>) {
    c.serialize(xs) != "" && c.parse(c.serialize(xs)) == EntryArray(xs)
  }

  /** Every collection has a codec that round-trips it. */
  lemma RoundTripsAchievable(xs: seq<Entry>)
    ensures RoundTrips(Codec(t => EntryArray(xs), ys => "[]"), xs)
  {
  }

  /** Apart from the store's own key, `t` holds the same keys and texts as `s`. */
  ghost predicate OthersUnchanged(s: Store, t: Store) {
    forall k :: k != StorageKey ==> (k in t <==> k in s) && (k in s ==> t[k] == s[k])
  }

  /** `loadLogs`: an absent or empty text, a text that does not parse, and a
      text that is not an array all read as no entries. This is the
      corrected reading of a non-array text (see `LoadLogsAsWritten`). */
  function LoadLogs(s: Store, c: Codec): (r: seq<Entry>)
    ensures StorageKey !in s || s[StorageKey] == "" ==> r == []
    ensures StorageKey in s && s[StorageKey] != "" && !c.parse(s[StorageKey]).EntryArray? ==> r == []
    ensures StorageKey in s && s[StorageKey] != "" && c.parse(s[StorageKey]).EntryArray? ==>
      r == c.parse(s[StorageKey]).entries
    ensures r != [] ==> StorageKey in s && c.parse(s[StorageKey]) == EntryArray(r)
  {
    if StorageKey !in s || s[StorageKey] == "" then []
    else match c.parse(s[StorageKey])
      case EntryArray(xs) => xs
      case _ => []
  }

  /** `saveLogs`: a refused write leaves the storage as it was; an accepted
      one replaces the text under the store's key and nothing else. */
  function SaveLogs(s: Store, logs: seq<Entry>, c: Codec, accepted: bool): (t: Store)
    ensures !accepted ==> t == s
    ensures accepted ==> StorageKey in t && t[StorageKey] == c.serialize(logs)
    ensures OthersUnchanged(s, t)
  {
    if accepted then s[StorageKey := c.serialize(logs)] else s
  }

  /** What is saved is what is loaded next. */
  lemma SaveThenLoad(s: Store, logs: seq<Entry>, c: Codec)
    requires RoundTrips(c, logs)
    ensures LoadLogs(SaveLogs(s, logs, c, true), c) == logs
  {
  }

  /** `addLog`: load, append, save. */
  function AddLog(s: Store, e: Entry, c: Codec, accepted: bool): (t: Store)
    ensures !accepted ==> t == s
    ensures OthersUnchanged(s, t)
  {
    SaveLogs(s, LoadLogs(s, c) + [e], c, accepted)
  }

  /** After an accepted `addLog` the stored collection is the previous one
      with the entry appended: one longer, with the old entries as prefix. */
  lemma AddLogAppends(s: Store, e: Entry, c: Codec)
    requires RoundTrips(c, LoadLogs(s, c) + [e])
    ensures LoadLogs(AddLog(s, e, c, true), c) == LoadLogs(s, c) + [e]
    ensures |LoadLogs(AddLog(s, e, c, true), c)| == |LoadLogs(s, c)| + 1
    ensures LoadLogs(AddLog(s, e, c, true), c)[..|LoadLogs(s, c)|] == LoadLogs(s, c)
  {
    SaveThenLoad(s, LoadLogs(s, c) + [e], c);
  }

  /** `removeLog`: keep the entries whose id differs, then save. */
  function RemoveLog(s: Store, id: string, c: Codec, accepted: bool): (t: Store)
    ensures !accepted ==> t == s
    ensures OthersUnchanged(s, t)
  {
    SaveLogs(s, Filter(LoadLogs(s, c), Id, id, false), c, accepted)
  }

  /** After an accepted `removeLog(id)` the store holds exactly the entries
      whose id is not `id`, each as often as before, in their old relative
      order; when no entry has that id the collection is unchanged. */
  lemma RemoveLogKeepsOthers(s: Store, id: string, c: Codec)
    requires RoundTrips(c, Filter(LoadLogs(s, c), Id, id, false))
    ensures LoadLogs(RemoveLog(s, id, c, true), c) == Filter(LoadLogs(s, c), Id, id, false)
    ensures forall e :: e in LoadLogs(RemoveLog(s, id, c, true), c) <==> e in LoadLogs(s, c) && e.id != id
    ensures forall e {:trigger multiset(LoadLogs(RemoveLog(s, id, c, true), c))[e]} ::
      multiset(LoadLogs(RemoveLog(s, id, c, true), c))[e]
        == if e.id != id then multiset(LoadLogs(s, c))[e] else 0
    ensures (forall e :: e in LoadLogs(s, c) ==> e.id != id) ==> LoadLogs(RemoveLog(s, id, c, true), c) == LoadLogs(s, c)
  {
    var before := LoadLogs(s, c);
    SaveThenLoad(s, Filter(before, Id, id, false), c);
    FilterContents(before, Id, id, false);
    if forall e :: e in before ==> e.id != id {
      FilterAllPass(before, Id, id, false);
    }
  }

  /** Removing the same id twice leaves the storage as removing it once. */
  lemma RemoveLogIdempotent(s: Store, id: string, c: Codec)
    requires RoundTrips(c, Filter(LoadLogs(s, c), Id, id, false))
    ensures RemoveLog(RemoveLog(s, id, c, true), id, c, true) == RemoveLog(s, id, c, true)
  {
    var once := RemoveLog(s, id, c, true);
    RemoveLogKeepsOthers(s, id, c);
    FilterIdempotent(LoadLogs(s, c), Id, id, false);
    assert LoadLogs(once, c) == Filter(LoadLogs(s, c), Id, id, false);
  }

  /** `a.timestamp.localeCompare(b.timestamp) < 0`; on ISO-8601 timestamps
      of one format this is the code-point order. */
  predicate TimestampBefore(a: Entry, b: Entry) {
    LexBefore(a.timestamp, b.timestamp)
  }

  lemma TimestampOrderIsWeak()
    ensures StrictWeakOrder(TimestampBefore)
  {
    LexOrderIsWeak();
    forall a: Entry, b: Entry
      ensures TimestampBefore(a, b) ==> !TimestampBefore(b, a)
    {
      assert LexBefore(a.timestamp, b.timestamp) ==> !LexBefore(b.timestamp, a.timestamp);
    }
    forall a: Entry, b: Entry, c: Entry
      ensures !TimestampBefore(a, b) && !TimestampBefore(b, c) ==> !TimestampBefore(a, c)
    {
      var x, y, z := a.timestamp, b.timestamp, c.timestamp;
      assert !LexBefore(x, y) && !LexBefore(y, z) ==> !LexBefore(x, z);
    }
  }

  /** For timestamps, a tie is an equal timestamp. */
  lemma {:induction false} TiedIsSameTimestamp(xs: seq<Entry>, v: Entry)
    ensures TiedWith(xs, v, TimestampBefore) == Filter(xs, Timestamp, v.timestamp, true)
  {
    if |xs| > 0 {
      TiedIsSameTimestamp(xs[1..], v);
      LexTotal(xs[0].timestamp, v.timestamp);
      LexIrreflexive(v.timestamp);
    }
  }

  /** `getTodayLogs(today)`: the entries dated `today`, stable-sorted by timestamp. */
  function GetTodayLogs(s: Store, today: string, c: Codec): seq<Entry> {
    SortBy(Filter(LoadLogs(s, c), Date, today, true), TimestampBefore)
  }

  /** `getTodayLogs` holds every stored entry dated `today` (as often as it
      is stored) and nothing else, in ascending timestamp order, and entries
      with equal timestamps keep their stored order. */
  lemma GetTodayLogsSpec(s: Store, today: string, c: Codec)
    ensures forall e {:trigger multiset(GetTodayLogs(s, today, c))[e]} ::
      multiset(GetTodayLogs(s, today, c))[e]
        == if e.date == today then multiset(LoadLogs(s, c))[e] else 0
    ensures forall e :: e in GetTodayLogs(s, today, c) <==> e in LoadLogs(s, c) && e.date == today
    ensures forall i, j :: 0 <= i < j < |GetTodayLogs(s, today, c)| ==>
      !LexBefore(GetTodayLogs(s, today, c)[j].timestamp, GetTodayLogs(s, today, c)[i].timestamp)
    ensures forall t :: Filter(GetTodayLogs(s, today, c), Timestamp, t, true)
                        == Filter(Filter(LoadLogs(s, c), Date, today, true), Timestamp, t, true)
  {
    var stored := LoadLogs(s, c);
    var sel := Filter(stored, Date, today, true);
    var r := SortBy(sel, TimestampBefore);
    FilterContents(stored, Date, today, true);
    TimestampOrderIsWeak();
    SortBySorted(sel, TimestampBefore);
    forall e
      ensures e in r <==> e in stored && e.date == today
    {
      assert e in r <==> e in multiset(r);
      assert e in sel <==> e in multiset(sel);
    }
    forall t
      ensures Filter(r, Timestamp, t, true) == Filter(sel, Timestamp, t, true)
    {
      var v := Entry("", "", "", "", 0.0, "", t);
      SortByStable(sel, v, TimestampBefore);
      TiedIsSameTimestamp(r, v);
      TiedIsSameTimestamp(sel, v);
    }
  }

  /** `clearAll`: an accepted removal deletes the key and nothing else; a
      refused one changes nothing. */
  function ClearAll(s: Store, accepted: bool): (t: Store)
    ensures accepted ==> StorageKey !in t
    ensures !accepted ==> t == s
    ensures OthersUnchanged(s, t)
  {
    if accepted then s - {StorageKey} else s
  }

  /** After an accepted `clearAll` the next `loadLogs` finds no entries. */
  lemma ClearAllEmpties(s: Store, c: Codec)
    ensures LoadLogs(ClearAll(s, true), c) == []
  {
  }

  /** An entry added for `today` shows up in today's view. */
  lemma AddedEntryShowsToday(s: Store, e: Entry, today: string, c: Codec)
    requires RoundTrips(c, LoadLogs(s, c) + [e])
    requires e.date == today
    ensures e in GetTodayLogs(AddLog(s, e, c, true), today, c)
  {
    AddLogAppends(s, e, c);
    GetTodayLogsSpec(AddLog(s, e, c, true), today, c);
    assert e in LoadLogs(AddLog(s, e, c, true), c);
  }

  /** After removing an id, no entry with that id is in today's view. */
  lemma RemovedEntryLeavesToday(s: Store, id: string, today: string, c: Codec)
    requires RoundTrips(c, Filter(LoadLogs(s, c), Id, id, false))
    ensures forall e :: e in GetTodayLogs(RemoveLog(s, id, c, true), today, c) ==> e.id != id
  {
    RemoveLogKeepsOthers(s, id, c);
    GetTodayLogsSpec(RemoveLog(s, id, c, true), today, c);
  }

  // ---------------------------------------------------------------------
  // `loadLogs` as written: `return JSON.parse(raw)` hands back whatever the
  // text parses to. A stored text such as "null" parses to a non-array, and
  // the callers' `logs.push` and `.filter` then throw a TypeError.

  /** What the written `loadLogs` returns: entries, or a parsed non-array value. */
  datatype Loaded = Logs(entries: seq<Entry>) | NotAList

  /** An operation that either returns or throws past its caller. */
  datatype Outcome<T> = Returns(value: T) | Throws

  function LoadLogsAsWritten(s: Store, c: Codec): Loaded {
    if StorageKey !in s || s[StorageKey] == "" then Logs([])
    else match c.parse(s[StorageKey])
      case Malformed => Logs([])
      case NonArray => NotAList
      case EntryArray(xs) => Logs(xs)
  }

  function AddLogAsWritten(s: Store, e: Entry, c: Codec, accepted: bool): Outcome<Store> {
    match LoadLogsAsWritten(s, c)
    case NotAList => Throws
    case Logs(xs) => Returns(SaveLogs(s, xs + [e], c, accepted))
  }

  function RemoveLogAsWritten(s: Store, id: string, c: Codec, accepted: bool): Outcome<Store> {
    match LoadLogsAsWritten(s, c)
    case NotAList => Throws
    case Logs(xs) => Returns(SaveLogs(s, Filter(xs, Id, id, false), c, accepted))
  }

  function GetTodayLogsAsWritten(s: Store, today: string, c: Codec): Outcome<seq<Entry>> {
    match LoadLogsAsWritten(s, c)
    case NotAList => Throws
    case Logs(xs) => Returns(SortBy(Filter(xs, Date, today, true), TimestampBefore))
  }

  /** Where the stored text is not a non-array JSON value, the written
      functions and the corrected ones agree. */
  lemma AsWrittenAgreesElsewhere(s: Store, e: Entry, id: string, today: string, c: Codec, accepted: bool)
    requires StorageKey !in s || c.parse(s[StorageKey]) != NonArray
    ensures LoadLogsAsWritten(s, c) == Logs(LoadLogs(s, c))
    ensures AddLogAsWritten(s, e, c, accepted) == Returns(AddLog(s, e, c, accepted))
    ensures RemoveLogAsWritten(s, id, c, accepted) == Returns(RemoveLog(s, id, c, accepted))
    ensures GetTodayLogsAsWritten(s, today, c) == Returns(GetTodayLogs(s, today, c))
  {
  }

  /** The discrepancy: with a non-array text stored (for example "null"),
      the written `addLog`, `removeLog` and `getTodayLogs` throw, whatever
      the codec, and whether or not the device would accept the write. */
  lemma NonArrayTextThrows(s: Store, e: Entry, id: string, today: string, c: Codec, accepted: bool)
    requires StorageKey in s && s[StorageKey] != "" && c.parse(s[StorageKey]) == NonArray
    ensures LoadLogsAsWritten(s, c) == NotAList
    ensures AddLogAsWritten(s, e, c, accepted) == Throws
    ensures RemoveLogAsWritten(s, id, c, accepted) == Throws
    ensures GetTodayLogsAsWritten(s, today, c) == Throws
  {
  }

  /** On the same stored text the corrected store reads no entries, an add
      records just the new one, and a removal leaves an empty collection. */
  lemma NonArrayTextRecovers(s: Store, e: Entry, id: string, c: Codec)
    requires StorageKey in s && s[StorageKey] != "" && c.parse(s[StorageKey]) == NonArray
    requires RoundTrips(c, [e]) && RoundTrips(c, [])
    ensures LoadLogs(s, c) == []
    ensures LoadLogs(AddLog(s, e, c, true), c) == [e]
    ensures LoadLogs(RemoveLog(s, id, c, true), c) == []
  {
    assert LoadLogs(s, c) + [e] == [e];
    AddLogAppends(s, e, c);
    RemoveLogKeepsOthers(s, id, c);
  }
}
