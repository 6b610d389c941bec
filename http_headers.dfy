/**
 * HttpHeaders: a std::map from header name to the list of its values.
 * The map is modelled as an association list kept in ascending name
 * order, the order std::map iterates in, so that the serialisation in
 * OutgoingMessage can follow it.
 */
module HttpHeaders {
  import opened Wrappers
  import opened Ascii

  // ---------------------------------------------------------------------
  // The order of std::string keys

  /** std::string's operator<: lexicographic on character codes; a proper prefix comes first. */
  predicate Less(a: string, b: string)
    decreases |a|
  {
    |b| > 0 && (|a| == 0 || a[0] < b[0] || (a[0] == b[0] && Less(a[1..], b[1..])))
  }

  lemma {:induction false} LessIrreflexive(a: string)
    ensures !Less(a, a)
    decreases |a|
  {
    if |a| > 0 {
      LessIrreflexive(a[1..]);
    }
  }

  lemma {:induction false} LessTransitive(a: string, b: string, c: string)
    requires Less(a, b) && Less(b, c)
    ensures Less(a, c)
    decreases |a|
  {
    if |a| > 0 && a[0] == b[0] && b[0] == c[0] {
      LessTransitive(a[1..], b[1..], c[1..]);
    }
  }

  /** Any two different names are ordered one way or the other. */
  lemma {:induction false} LessTotal(a: string, b: string)
    ensures a == b || Less(a, b) || Less(b, a)
    decreases |a|
  {
    if |a| > 0 && |b| > 0 && a[0] == b[0] {
      LessTotal(a[1..], b[1..]);
      if a[1..] == b[1..] {
        assert a == [a[0]] + a[1..] && b == [b[0]] + b[1..];
      }
    }
  }

  // ---------------------------------------------------------------------
  // The map

  datatype Entry = Entry(name: string, values: seq<string>)

  /** Strictly ascending names: the keys of a std::map. */
  predicate Sorted(entries: seq<Entry>) {
    forall i :: 0 <= i < |entries| - 1 ==> Less(entries[i].name, entries[i + 1].name)
  }

  /** std::map::find: an exact, case-sensitive lookup. */
  function Find(entries: seq<Entry>, name: string): (r: Option<seq<string>>)
    ensures r.Some? <==> exists i :: 0 <= i < |entries| && entries[i].name == name
    ensures r.Some? ==> exists i :: 0 <= i < |entries| && entries[i] == Entry(name, r.value)
  {
    if |entries| == 0 then None
    else if entries[0].name == name then Some(entries[0].values)
    else
      var r := Find(entries[1..], name);
      assert forall i :: 0 <= i < |entries| - 1 ==> entries[1..][i] == entries[i + 1];
      r
  }

  /** it->second.push_back(value) on the entry std::map::find gave for `name`. */
  function PushBack(entries: seq<Entry>, name: string, value: string): seq<Entry>
  {
    if |entries| == 0 then []
    else if entries[0].name == name then [Entry(name, entries[0].values + [value])] + entries[1..]
    else [entries[0]] + PushBack(entries[1..], name, value)
  }

  /** std::map::insert: the entry goes in at its place in the order; an existing name is left as it is. */
  function Insert(entries: seq<Entry>, entry: Entry): seq<Entry>
  {
    if |entries| == 0 || Less(entry.name, entries[0].name) then [entry] + entries
    else if entries[0].name == entry.name then entries
    else [entries[0]] + Insert(entries[1..], entry)
  }

  // ---------------------------------------------------------------------
  // Properties of the map operations

  /** In a std::map each name has one entry, so find gives the values stored with it. */
  lemma {:induction false} SortedFind(entries: seq<Entry>, i: nat)
    requires Sorted(entries) && i < |entries|
    ensures Find(entries, entries[i].name) == Some(entries[i].values)
    decreases i
  {
    if i > 0 {
      if entries[0].name == entries[i].name {
        SortedBelow(entries, 0, i);
        LessIrreflexive(entries[0].name);
      }
      assert entries[1..][i - 1] == entries[i];
      SortedFind(entries[1..], i - 1);
    }
  }

  lemma {:induction false} SortedBelow(entries: seq<Entry>, i: nat, j: nat)
    requires Sorted(entries) && i < j < |entries|
    ensures Less(entries[i].name, entries[j].name)
    decreases j - i
  {
    if i + 1 < j {
      SortedBelow(entries, i + 1, j);
      LessTransitive(entries[i].name, entries[i + 1].name, entries[j].name);
    }
  }

  /** Appending a value keeps the names, and so the order. */
  lemma {:induction false} PushBackSorted(entries: seq<Entry>, name: string, value: string)
    requires Sorted(entries)
    ensures Sorted(PushBack(entries, name, value))
    ensures |PushBack(entries, name, value)| == |entries|
    ensures forall i :: 0 <= i < |entries| ==> PushBack(entries, name, value)[i].name == entries[i].name
    decreases |entries|
  {
    if |entries| > 0 && entries[0].name != name {
      PushBackSorted(entries[1..], name, value);
    }
  }

  /** push_back puts the new value last in the list of `name`. */
  lemma {:induction false} PushBackFind(entries: seq<Entry>, name: string, value: string)
    requires Find(entries, name).Some?
    ensures Find(PushBack(entries, name, value), name) == Some(Find(entries, name).value + [value])
    decreases |entries|
  {
    if entries[0].name != name {
      PushBackFind(entries[1..], name, value);
    }
  }

  /** push_back leaves every other name's values alone. */
  lemma {:induction false} PushBackOther(entries: seq<Entry>, name: string, value: string, other: string)
    requires other != name
    ensures Find(PushBack(entries, name, value), other) == Find(entries, other)
    decreases |entries|
  {
    if |entries| > 0 && entries[0].name != name {
      PushBackOther(entries[1..], name, value, other);
    }
  }

  /** insert keeps the names ascending. */
  lemma {:induction false} InsertSorted(entries: seq<Entry>, entry: Entry)
    requires Sorted(entries)
    ensures Sorted(Insert(entries, entry))
    ensures |Insert(entries, entry)| > 0
    ensures Insert(entries, entry)[0].name == entry.name
            || (|entries| > 0 && Insert(entries, entry)[0] == entries[0])
    decreases |entries|
  {
    if |entries| > 0 && !Less(entry.name, entries[0].name) && entries[0].name != entry.name {
      var rest := Insert(entries[1..], entry);
      InsertSorted(entries[1..], entry);
      LessTotal(entry.name, entries[0].name);
      var r := [entries[0]] + rest;
      forall i | 0 <= i < |r| - 1 ensures Less(r[i].name, r[i + 1].name) {
        if i > 0 {
          assert r[i] == rest[i - 1] && r[i + 1] == rest[i];
        }
      }
    }
  }

  /** A name that was not there gets the inserted list of values. */
  lemma {:induction false} InsertFind(entries: seq<Entry>, entry: Entry)
    requires Find(entries, entry.name).None?
    ensures Find(Insert(entries, entry), entry.name) == Some(entry.values)
    decreases |entries|
  {
    if |entries| > 0 && !Less(entry.name, entries[0].name) {
      InsertFind(entries[1..], entry);
    }
  }

  /** insert leaves every other name's values alone. */
  lemma {:induction false} InsertOther(entries: seq<Entry>, entry: Entry, other: string)
    requires other != entry.name
    ensures Find(Insert(entries, entry), other) == Find(entries, other)
    decreases |entries|
  {
    if |entries| > 0 && !Less(entry.name, entries[0].name) && entries[0].name != entry.name {
      InsertOther(entries[1..], entry, other);
    }
  }

  /** An entry as add makes it: a lowercase name with at least one value. */
  predicate WellFormed(e: Entry) {
    IsLowerCase(e.name) && |e.values| > 0
  }

  predicate AllWellFormed(entries: seq<Entry>) {
    forall i :: 0 <= i < |entries| ==> WellFormed(entries[i])
  }

  /** Every list the map holds has a value in it. */
  lemma {:induction false} FindWellFormed(entries: seq<Entry>, name: string)
    requires AllWellFormed(entries)
    ensures Find(entries, name).Some? ==> |Find(entries, name).value| > 0
  {
    var r := Find(entries, name);
    if r.Some? {
      var i :| 0 <= i < |entries| && entries[i] == Entry(name, r.value);
      assert WellFormed(entries[i]);
    }
  }

  lemma {:induction false} PushBackWellFormed(entries: seq<Entry>, name: string, value: string)
    requires AllWellFormed(entries)
    ensures AllWellFormed(PushBack(entries, name, value))
    decreases |entries|
  {
    if |entries| > 0 && entries[0].name != name {
      PushBackWellFormed(entries[1..], name, value);
      var r := PushBack(entries, name, value);
      assert forall i :: 1 <= i < |r| ==> r[i] == PushBack(entries[1..], name, value)[i - 1];
    }
  }

  lemma {:induction false} InsertWellFormed(entries: seq<Entry>, entry: Entry)
    requires AllWellFormed(entries) && WellFormed(entry)
    ensures AllWellFormed(Insert(entries, entry))
    decreases |entries|
  {
    if |entries| > 0 && !Less(entry.name, entries[0].name) && entries[0].name != entry.name {
      InsertWellFormed(entries[1..], entry);
      var r := Insert(entries, entry);
      assert forall i :: 1 <= i < |r| ==> r[i] == Insert(entries[1..], entry)[i - 1];
    }
  }

  /** A name with an upper-case letter is never found in a map add has built. */
  lemma {:induction false} NotLowerNotFound(entries: seq<Entry>, name: string)
    requires AllWellFormed(entries) && !IsLowerCase(name)
    ensures Find(entries, name).None?
  {
  }

  /** What add does to the map, in terms of the lookups before and after it. */
  function AddedValues(before: Option<seq<string>>, value: string): seq<string>
  {
    if before.Some? then before.value + [value] else [value]
  }

  /**
   * `after` is `before` with `value` added under the lowercased `name`:
   * last in that name's list, which is created when missing; every other
   * name's list as it was.
   */
  ghost predicate AddedTo(before: seq<Entry>, after: seq<Entry>, name: string, value: string)
  {
    Find(after, Lower(name)) == Some(AddedValues(Find(before, Lower(name)), value))
    && forall other :: other != Lower(name) ==> Find(after, other) == Find(before, other)
  }

  /** The map after add: push_back under the lowercased name when it is there, otherwise insert a one-value list. */
  function AddEntry(entries: seq<Entry>, name: string, value: string): seq<Entry>
  {
    var key := Lower(name);
    if Find(entries, key).Some? then PushBack(entries, key, value) else Insert(entries, Entry(key, [value]))
  }

  /** add keeps the map sorted and well formed, and adds exactly the one value. */
  lemma {:induction false} AddEntryAdds(entries: seq<Entry>, name: string, value: string)
    requires Sorted(entries) && AllWellFormed(entries)
    ensures var after := AddEntry(entries, name, value);
      Sorted(after) && AllWellFormed(after) && AddedTo(entries, after, name, value)
  {
    var key := Lower(name);
    if Find(entries, key).Some? {
      PushBackSorted(entries, key, value);
      PushBackWellFormed(entries, key, value);
      PushBackFind(entries, key, value);
      forall other | other != key ensures Find(PushBack(entries, key, value), other) == Find(entries, other) {
        PushBackOther(entries, key, value, other);
      }
    } else {
      var entry := Entry(key, [value]);
      InsertSorted(entries, entry);
      LowerIsLowerCase(name);
      InsertWellFormed(entries, entry);
      InsertFind(entries, entry);
      forall other | other != key ensures Find(Insert(entries, entry), other) == Find(entries, other) {
        InsertOther(entries, entry, other);
      }
    }
  }

  // ---------------------------------------------------------------------
  // The object

  class HttpHeaders {
    var entries: seq<Entry>

    ghost predicate Valid()
      reads this
    {
      Sorted(entries) && AllWellFormed(entries)
    }

    constructor()
      ensures Valid() && entries == []
    {
      entries := [];
    }

    /**
     * HttpHeaders::add, both overloads (they differ only in copying or
     * moving the strings): the value goes last in the list stored under
     * the ASCII-lowercased name, which is created when missing; no other
     * name changes.
     */
    method Add(name: string, value: string)
      requires Valid()
      modifies this
      ensures Valid() && entries == AddEntry(old(entries), name, value)
      ensures AddedTo(old(entries), entries, name, value)
    {
      AddEntryAdds(entries, name, value);
      var key := Lower(name);
      if Find(entries, key).Some? {
        entries := PushBack(entries, key, value);
        return;
      }
      entries := Insert(entries, Entry(key, [value]));
    }

    /** HttpHeaders::get: the stored list for exactly `name`, which is not lowercased, or none. */
    function Get(name: string): (r: Option<seq<string>>)
      reads this
      ensures r.Some? <==> exists i :: 0 <= i < |entries| && entries[i].name == name
      ensures r.Some? ==> exists i :: 0 <= i < |entries| && entries[i] == Entry(name, r.value)
    {
      Find(entries, name)
    }
  }

  /** After add, get finds the value under the lowercased name only: get does not fold case. */
  lemma {:induction false} GetIsCaseSensitive(value: string)
    ensures Find(Insert([], Entry(Lower("Content-Length"), [value])), "Content-Length").None?
    ensures Find(Insert([], Entry(Lower("Content-Length"), [value])), "content-length") == Some([value])
  {
    assert Lower("Content-Length") == "content-length";
  }
}
