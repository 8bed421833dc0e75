/** The diary editor: one entry per date, kept in the browser's key-value
    storage under the key "diary_" + date. The storage is a map from keys to
    values; the selected date and the text area are fields of the editor. */
module Diary {
  import opened Sequences
  import opened DiaryText

  /** The prefix that marks a storage key as a diary entry. */
  const Prefix: string := "diary_"

  /** How many characters of an entry the list shows. */
  const PreviewLength: nat := 100

  type Storage = map<string, string>

  // ---------------------------------------------------------------------------
  // Keys

  /** The storage key of the entry for `date`: the prefix followed by the date. */
  function StorageKey(date: string): (key: string)
    ensures |key| == |Prefix| + |date|
    ensures key[..|Prefix|] == Prefix && key[|Prefix|..] == date
  {
    Prefix + date
  }

  /** A key that starts with the prefix. */
  predicate IsDiaryKey(key: string)
  {
    Prefix <= key
  }

  /** The date of a diary key. The script replaces the first occurrence of the
      prefix with nothing; in a key that starts with it, that occurrence is the
      start of the key. */
  function DateOf(key: string): (date: string)
    requires IsDiaryKey(key)
    ensures |date| == |key| - |Prefix| && StorageKey(date) == key
  {
    key[|Prefix|..]
  }

  /** Keys and dates are in one-to-one correspondence. */
  lemma KeyRoundTrip(date: string, key: string)
    ensures IsDiaryKey(StorageKey(date)) && DateOf(StorageKey(date)) == date
    ensures IsDiaryKey(key) ==> StorageKey(DateOf(key)) == key
  {
    if IsDiaryKey(key) {
      assert key == key[..|Prefix|] + key[|Prefix|..];
    }
  }

  /** The dates that have an entry in `store`. */
  function DatesOf(store: Storage): set<string>
  {
    set k | k in store && IsDiaryKey(k) :: DateOf(k)
  }

  lemma DatesOfKeys(store: Storage, date: string)
    ensures date in DatesOf(store) <==> StorageKey(date) in store
  {
    KeyRoundTrip(date, StorageKey(date));
    if date in DatesOf(store) {
      var k :| k in store && IsDiaryKey(k) && DateOf(k) == date;
      KeyRoundTrip(date, k);
    }
  }

  // ---------------------------------------------------------------------------
  // Loading, saving and removing

  /** What loading `date` puts in the text area: the stored entry, or the
      empty text when there is none. (A stored empty value also gives the
      empty text.) */
  function LoadedText(store: Storage, date: string): (text: string)
    ensures StorageKey(date) in store ==> text == store[StorageKey(date)]
    ensures StorageKey(date) !in store ==> text == ""
  {
    var key := StorageKey(date);
    if key in store && store[key] != "" then store[key] else ""
  }

  /** The storage after saving `text` for `date`: the trimmed text is stored
      when it is not empty, and otherwise nothing changes. No other key is
      touched. */
  function SavedStore(store: Storage, date: string, text: string): (m: Storage)
    ensures Trim(text) != "" ==> StorageKey(date) in m && m[StorageKey(date)] == Trim(text)
    ensures Trim(text) == "" ==> m == store
    ensures forall k | k != StorageKey(date) :: (k in m <==> k in store) && (k in store ==> m[k] == store[k])
  {
    var content := Trim(text);
    if content != "" then store[StorageKey(date) := content] else store
  }

  /** Saving a non-blank text adds its date to the dates with an entry, and a
      blank text changes no date. */
  lemma SaveAddsDate(store: Storage, date: string, text: string)
    ensures Trim(text) != "" ==> DatesOf(SavedStore(store, date, text)) == DatesOf(store) + {date}
    ensures Trim(text) == "" ==> DatesOf(SavedStore(store, date, text)) == DatesOf(store)
  {
    var m := SavedStore(store, date, text);
    forall d
      ensures d in DatesOf(m) <==> d in DatesOf(store) || (Trim(text) != "" && d == date)
    {
      DatesOfKeys(m, d);
      DatesOfKeys(store, d);
      KeyRoundTrip(d, StorageKey(date));
      KeyRoundTrip(date, StorageKey(d));
    }
  }

  /** Loading right after saving gives back the trimmed text, or the old entry
      when the text was blank. */
  lemma SaveThenLoad(store: Storage, date: string, text: string)
    ensures LoadedText(SavedStore(store, date, text), date)
            == if Trim(text) != "" then Trim(text) else LoadedText(store, date)
  {
  }

  /** Removing the entry of `date` removes exactly that date. */
  lemma RemoveDropsDate(store: Storage, date: string)
    ensures DatesOf(store - {StorageKey(date)}) == DatesOf(store) - {date}
  {
    var m := store - {StorageKey(date)};
    forall d
      ensures d in DatesOf(m) <==> d in DatesOf(store) && d != date
    {
      DatesOfKeys(m, d);
      DatesOfKeys(store, d);
      KeyRoundTrip(d, StorageKey(date));
      KeyRoundTrip(date, StorageKey(d));
    }
  }

  /** Every diary entry is non-empty and trimmed. */
  ghost predicate Clean(store: Storage)
  {
    forall k | k in store && IsDiaryKey(k) :: store[k] != "" && Trim(store[k]) == store[k]
  }

  /** Saving and removing keep every entry non-empty and trimmed. */
  lemma SaveKeepsClean(store: Storage, date: string, text: string)
    requires Clean(store)
    ensures Clean(SavedStore(store, date, text))
    ensures Clean(store - {StorageKey(date)})
  {
    var m := SavedStore(store, date, text);
    forall k | k in m && IsDiaryKey(k)
      ensures m[k] != "" && Trim(m[k]) == m[k]
    {
      if k == StorageKey(date) && Trim(text) != "" {
        TrimIdempotent(text);
      }
    }
  }

  // ---------------------------------------------------------------------------
  // The list of entries and the search

  /** The list shows the first PreviewLength characters of an entry, followed
      by an ellipsis when the entry is longer. */
  function Preview(content: string): (p: string)
    ensures |p| <= PreviewLength + 3
    ensures |content| <= PreviewLength ==> p == content
    ensures |content| > PreviewLength ==> |p| == PreviewLength + 3 && p[..PreviewLength] == content[..PreviewLength] && p[PreviewLength..] == "..."
  {
    if content == "" then ""
    else
      var end := if |content| < PreviewLength then |content| else PreviewLength;
      content[..end] + (if |content| > PreviewLength then "..." else "")
  }

  /** The dates with an entry, in ascending order. */
  ghost function AllDates(store: Storage): (dates: seq<string>)
    ensures StrictlySorted(dates)
    ensures forall d :: d in dates <==> StorageKey(d) in store
  {
    forall d ensures d in SortedOf(DatesOf(store)) <==> StorageKey(d) in store {
      DatesOfKeys(store, d);
    }
    SortedOf(DatesOf(store))
  }

  /** One search hit: a date and its entry. */
  datatype Entry = Entry(date: string, content: string)

  /** A non-empty entry that contains the keyword, ignoring ASCII case. */
  predicate Matches(content: string, keyword: string)
    ensures Matches(content, keyword) ==> content != "" && |keyword| <= |content|
    ensures keyword == "" ==> (Matches(content, keyword) <==> content != "")
  {
    content != "" && Contains(Lower(content), Lower(keyword))
  }

  /** The dates of `dates` whose entry matches, with the entry, in the order of `dates`. */
  function Hits(dates: seq<string>, store: Storage, keyword: string): (hits: seq<Entry>)
    ensures |hits| <= |dates|
    decreases |dates|
  {
    if dates == [] then []
    else
      var date := dates[|dates| - 1];
      var key := StorageKey(date);
      Hits(dates[..|dates| - 1], store, keyword)
        + (if key in store && Matches(store[key], keyword) then [Entry(date, store[key])] else [])
  }

  function DatesOfHits(hits: seq<Entry>): (dates: seq<string>)
    ensures |dates| == |hits| && forall i | 0 <= i < |hits| :: dates[i] == hits[i].date
  {
    seq(|hits|, i requires 0 <= i < |hits| => hits[i].date)
  }

  /** The search result: every date whose entry matches, in ascending order. */
  ghost function Search(store: Storage, keyword: string): (hits: seq<Entry>)
    ensures forall e | e in hits ::
      StorageKey(e.date) in store && e.content == store[StorageKey(e.date)] && Matches(e.content, keyword)
  {
    HitsSpec(AllDates(store), store, keyword);
    Hits(AllDates(store), store, keyword)
  }

  /** Hits keeps exactly the dates whose entry matches, each paired with its entry. */
  lemma {:induction false} HitsMembers(dates: seq<string>, store: Storage, keyword: string)
    ensures forall d :: d in DatesOfHits(Hits(dates, store, keyword)) <==>
      d in dates && StorageKey(d) in store && Matches(store[StorageKey(d)], keyword)
    ensures forall e | e in Hits(dates, store, keyword) ::
      StorageKey(e.date) in store && e.content == store[StorageKey(e.date)]
    decreases |dates|
  {
    if dates != [] {
      var init := dates[..|dates| - 1];
      var date := dates[|dates| - 1];
      var key := StorageKey(date);
      var hit := key in store && Matches(store[key], keyword);
      var last := if hit then [Entry(date, store[key])] else [];
      HitsMembers(init, store, keyword);
      var before := Hits(init, store, keyword);
      assert Hits(dates, store, keyword) == before + last;
      assert dates == init + [date];
      assert DatesOfHits(before + last) == DatesOfHits(before) + DatesOfHits(last);
      assert DatesOfHits(last) == if hit then [date] else [];
    }
  }

  /** Hits keeps the ascending order of its input. */
  lemma {:induction false} HitsSorted(dates: seq<string>, store: Storage, keyword: string)
    requires StrictlySorted(dates)
    ensures StrictlySorted(DatesOfHits(Hits(dates, store, keyword)))
    decreases |dates|
  {
    if dates != [] {
      var init := dates[..|dates| - 1];
      var date := dates[|dates| - 1];
      var key := StorageKey(date);
      var hit := key in store && Matches(store[key], keyword);
      var last := if hit then [Entry(date, store[key])] else [];
      assert StrictlySorted(init) by {
        forall i, j | 0 <= i < j < |init| ensures Less(init[i], init[j]) {
          assert init[i] == dates[i] && init[j] == dates[j];
        }
      }
      HitsSorted(init, store, keyword);
      HitsMembers(init, store, keyword);
      var before := Hits(init, store, keyword);
      assert Hits(dates, store, keyword) == before + last;
      assert DatesOfHits(before + last) == DatesOfHits(before) + DatesOfHits(last);
      assert DatesOfHits(last) == if hit then [date] else [];
      forall i | 0 <= i < |before|
        ensures Less(before[i].date, date)
      {
        assert DatesOfHits(before)[i] in DatesOfHits(before);
        var k :| 0 <= k < |init| && init[k] == before[i].date;
        assert dates[k] == init[k];
      }
    }
  }

  /** Hits keeps the dates whose entry matches, pairs each with its entry, and
      keeps the ascending order of its input. */
  lemma HitsSpec(dates: seq<string>, store: Storage, keyword: string)
    ensures forall d :: d in DatesOfHits(Hits(dates, store, keyword)) <==>
      d in dates && StorageKey(d) in store && Matches(store[StorageKey(d)], keyword)
    ensures forall e | e in Hits(dates, store, keyword) ::
      StorageKey(e.date) in store && e.content == store[StorageKey(e.date)]
    ensures StrictlySorted(dates) ==> StrictlySorted(DatesOfHits(Hits(dates, store, keyword)))
  {
    HitsMembers(dates, store, keyword);
    if StrictlySorted(dates) {
      HitsSorted(dates, store, keyword);
    }
  }

  /** What the search promises: ascending dates, exactly the dates whose
      entry matches, each with its stored entry. */
  lemma SearchSpec(store: Storage, keyword: string)
    ensures StrictlySorted(DatesOfHits(Search(store, keyword)))
    ensures forall d :: d in DatesOfHits(Search(store, keyword)) <==>
      StorageKey(d) in store && Matches(store[StorageKey(d)], keyword)
    ensures forall e | e in Search(store, keyword) ::
      StorageKey(e.date) in store && e.content == store[StorageKey(e.date)]
  {
    HitsSpec(AllDates(store), store, keyword);
  }

  // ---------------------------------------------------------------------------
  // The editor

  class DiaryApp {
    /** The browser's key-value storage. */
    var store: Storage
    /** The value of the date picker. */
    var date: string
    /** The value of the text area. */
    var text: string

    /** Opening the page on `today` loads today's entry. */
    constructor (today: string, storage: Storage)
      ensures store == storage && date == today && text == LoadedText(storage, today)
    {
      store := storage;
      date := today;
      text := "";
      new;
      LoadDiary();
    }

    method LoadDiary()
      modifies this`text
      ensures text == LoadedText(store, date)
    {
      var storageKey := StorageKey(date);
      if storageKey in store && store[storageKey] != "" {
        text := store[storageKey];
      } else {
        text := "";
      }
    }

    method SaveDiary()
      modifies this`store
      ensures store == SavedStore(old(store), date, text)
    {
      var content := Trim(text);
      var storageKey := StorageKey(date);
      if content != "" {
        store := store[storageKey := content];
      }
    }

    /** The periodic and before-unload save: the same effect as SaveDiary, silently. */
    method AutoSave()
      modifies this`store
      ensures store == SavedStore(old(store), date, text)
    {
      var content := Trim(text);
      if content != "" {
        var storageKey := StorageKey(date);
        store := store[storageKey := content];
      }
    }

    /** Clears the entry of the selected date when the user confirms. */
    method ClearDiary(confirmed: bool)
      modifies this`store, this`text
      ensures confirmed ==> text == "" && store == old(store) - {StorageKey(date)}
      ensures !confirmed ==> text == old(text) && store == old(store)
    {
      if confirmed {
        text := "";
        var storageKey := StorageKey(date);
        store := store - {storageKey};
      }
    }

    /** Removes the entry of `d`; the text area is emptied only when `d` is
        the selected date. */
    method DeleteDiary(d: string)
      modifies this`store, this`text
      ensures store == old(store) - {StorageKey(d)}
      ensures text == if date == d then "" else old(text)
    {
      var storageKey := StorageKey(d);
      store := store - {storageKey};
      if date == d {
        text := "";
      }
    }

    /** Visits the keys in whatever order the storage lists them, keeps the
        dates of the diary keys, and sorts them. */
    method GetAllDiaryDates() returns (dates: seq<string>)
      ensures dates == AllDates(store)
    {
      var found: seq<string> := [];
      var unvisited := store.Keys;
      while unvisited != {}
        invariant unvisited <= store.Keys
        invariant Distinct(found)
        invariant forall d :: d in found <==> StorageKey(d) in store && StorageKey(d) !in unvisited
        decreases unvisited
      {
        var key :| key in unvisited;
        if IsDiaryKey(key) {
          KeyRoundTrip(DateOf(key), key);
          found := found + [DateOf(key)];
        }
        unvisited := unvisited - {key};
      }
      dates := Sort(found);
      SortSorted(found);
      StrictlySortedUnique(dates, AllDates(store));
    }

    method SearchDiary(keyword: string) returns (results: seq<Entry>)
      ensures results == Search(store, keyword)
    {
      var allDates := GetAllDiaryDates();
      results := [];
      var i := 0;
      while i < |allDates|
        invariant 0 <= i <= |allDates|
        invariant results == Hits(allDates[..i], store, keyword)
      {
        var d := allDates[i];
        var storageKey := StorageKey(d);
        if storageKey in store {
          var content := store[storageKey];
          if content != "" && Contains(Lower(content), Lower(keyword)) {
            results := results + [Entry(d, content)];
          }
        }
        assert allDates[..i + 1][..i] == allDates[..i];
        i := i + 1;
      }
      assert allDates[..|allDates|] == allDates;
    }
  }
}
