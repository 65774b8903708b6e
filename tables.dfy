/**
 * The deserialized contents of one language file and the key/value table
 * built from it (`LocalizationData.ToDictionary`).
 */
module Tables {
  import opened Wrappers

  /** One `{ "key": ..., "value": ... }` record; a null string reads as "". */
  datatype LocalizationEntry = LocalizationEntry(key: string, value: string)

  /** The decoded file: its `entries` array may be missing (null). */
  datatype LocalizationData = LocalizationData(entries: Nullable<seq<LocalizationEntry>>)

  /**
   * The table after writing `dict[e.key] = e.value` for every entry in order,
   * skipping empty keys: a left fold, so a later entry overwrites an earlier one.
   */
  function Table(entries: seq<LocalizationEntry>): map<string, string>
  {
    if entries == [] then map[]
    else
      var e := entries[|entries| - 1];
      var prior := Table(entries[..|entries| - 1]);
      if e.key == "" then prior else prior[e.key := e.value]
  }

  /** The position of the last entry whose key is `key`, or -1 when there is none. */
  function LastIndex(entries: seq<LocalizationEntry>, key: string): (i: int)
    ensures -1 <= i < |entries|
    ensures 0 <= i ==> entries[i].key == key
    ensures forall j :: i < j < |entries| ==> entries[j].key != key
  {
    if entries == [] then -1
    else if entries[|entries| - 1].key == key then |entries| - 1
    else LastIndex(entries[..|entries| - 1], key)
  }

  /**
   * A key is in the table exactly when it is non-empty and some entry carries
   * it, and then its value is the value of the LAST such entry.
   */
  lemma {:induction false} TableLookup(entries: seq<LocalizationEntry>, key: string)
    ensures key in Table(entries) <==> key != "" && LastIndex(entries, key) >= 0
    ensures key in Table(entries) ==> Table(entries)[key] == entries[LastIndex(entries, key)].value
  {
    if entries != [] {
      var init := entries[..|entries| - 1];
      TableLookup(init, key);
      if entries[|entries| - 1].key != key {
        assert LastIndex(entries, key) == LastIndex(init, key);
        if LastIndex(init, key) >= 0 {
          assert entries[LastIndex(init, key)] == init[LastIndex(init, key)];
        }
      }
    }
  }

  /** The key set of the table is exactly the set of non-empty keys among the entries. */
  lemma {:induction false} TableKeys(entries: seq<LocalizationEntry>)
    ensures Table(entries).Keys == set e | e in entries && e.key != "" :: e.key
  {
    if entries != [] {
      var init := entries[..|entries| - 1];
      var last := entries[|entries| - 1];
      TableKeys(init);
      assert entries == init + [last];
      assert (set e | e in entries && e.key != "" :: e.key)
          == (set e | e in init && e.key != "" :: e.key) + (if last.key != "" then {last.key} else {});
    }
  }

  /** `LocalizationData.ToDictionary`: an empty table for null entries, else the fold above. */
  method ToDictionary(data: LocalizationData) returns (dict: map<string, string>)
    ensures data.entries.Null? ==> dict == map[]
    ensures data.entries.NonNull? ==> dict == Table(data.entries.value)
  {
    dict := map[];
    if data.entries.Null? {
      return;
    }
    var entries := data.entries.value;
    var i := 0;
    while i < |entries|
      invariant 0 <= i <= |entries|
      invariant dict == Table(entries[..i])
    {
      var e := entries[i];
      assert entries[..i + 1][..i] == entries[..i];
      if e.key != "" {
        dict := dict[e.key := e.value];
      }
      i := i + 1;
    }
    assert entries[..i] == entries;
  }
}
