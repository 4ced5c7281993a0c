/** What an edit of a package does as a whole: entry by entry, position by position, and name by name. */
module PackageLaw {
  import opened Bytes
  import opened Package
  import opened PackageEdit

  // Updating, entry by entry --------------------------------------------------------------------

  /** An entry takes, in order, the items filed under the name it has by then; the rest is passed on. */
  function Turn(e: Entry, items: seq<Item>): (r: (Entry, seq<Item>))
    ensures |r.1| <= |items|
    decreases |items|
  {
    if items == [] then (e, [])
    else if Key(items[0].path) == e.name then Turn(Made(items[0], Basename(items[0].path)), items[1..])
    else
      var later := Turn(e, items[1..]);
      (later.0, [items[0]] + later.1)
  }

  /** Every entry keeps its place and takes its items; what no entry takes is appended, and may take from the
      items behind it. */
  function Updated(entries: seq<Entry>, items: seq<Item>): seq<Entry>
    decreases |items|, |entries|
  {
    if entries != [] then
      var turn := Turn(entries[0], items);
      [turn.0] + Updated(entries[1..], turn.1)
    else if items == [] then []
    else Updated([Made(items[0], items[0].path)], items[1..])
  }

  lemma {:induction false} UpdateAllFront(entries: seq<Entry>, items: seq<Item>)
    requires items != []
    ensures UpdateAll(entries, items) == UpdateAll(UpdateOne(entries, items[0]), items[1..])
    decreases |items|
  {
    hide UpdateOne;
    var n := |items| - 1;
    if n > 0 {
      UpdateAllFront(entries, items[..n]);
      assert items[1..][..n - 1] == items[..n][1..];
    }
  }

  lemma UpdateOneStep(entries: seq<Entry>, item: Item)
    requires entries != []
    ensures UpdateOne(entries, item) ==
      if entries[0].name == Key(item.path) then [Made(item, Basename(item.path))] + entries[1..]
      else [entries[0]] + UpdateOne(entries[1..], item)
  {
    hide Key, Basename;
  }

  lemma {:induction false} UpdatedTakes(entries: seq<Entry>, items: seq<Item>)
    requires items != []
    ensures Updated(entries, items) == Updated(UpdateOne(entries, items[0]), items[1..])
    decreases |entries|
  {
    hide UpdateOne, Key, Basename;
    if entries == [] {
      assert UpdateOne(entries, items[0]) == [Made(items[0], items[0].path)] by {
        EmptyUpdate(items[0]);
      }
    } else {
      UpdateOneStep(entries, items[0]);
      if entries[0].name != Key(items[0].path) {
        var turn := Turn(entries[0], items);
        assert turn.1[0] == items[0] && turn.1[1..] == Turn(entries[0], items[1..]).1;
        UpdatedTakes(entries[1..], turn.1);
        FirstAndRest(entries[0], UpdateOne(entries[1..], items[0]));
      } else {
        FirstAndRest(Made(items[0], Basename(items[0].path)), entries[1..]);
      }
    }
  }

  lemma EmptyUpdate(item: Item)
    ensures UpdateOne([], item) == [Made(item, item.path)]
  {
  }

  lemma FirstAndRest<T>(x: T, rest: seq<T>)
    ensures ([x] + rest)[0] == x && ([x] + rest)[1..] == rest
  {
  }

  /** The item-by-item loop of the tool is the update entry by entry, for all entries and items. */
  lemma {:induction false} UpdateExactly(entries: seq<Entry>, items: seq<Item>)
    ensures UpdateAll(entries, items) == Updated(entries, items)
    decreases |items|
  {
    hide UpdateOne;
    if items == [] {
      UpdatedByNone(entries);
    } else {
      UpdateAllFront(entries, items);
      UpdateExactly(UpdateOne(entries, items[0]), items[1..]);
      UpdatedTakes(entries, items);
    }
  }

  lemma {:induction false} UpdatedByNone(entries: seq<Entry>)
    ensures Updated(entries, []) == entries
    decreases |entries|
  {
    if entries != [] {
      UpdatedByNone(entries[1..]);
    }
  }

  // Updating, position by position --------------------------------------------------------------

  /** The item whose name first occurs at position `j`, or the number of items. */
  function ItemFor(entries: seq<Entry>, items: seq<Item>, j: nat): (i: nat)
    ensures i <= |items|
    ensures i < |items| ==> FindName(entries, Key(items[i].path)) == j
    ensures forall h :: 0 <= h < i ==> FindName(entries, Key(items[h].path)) != j
    decreases |items|
  {
    if items == [] || FindName(entries, Key(items[0].path)) == j then 0 else 1 + ItemFor(entries, items[1..], j)
  }

  /** The new entries, in the order of the items: one for each item that names none of the entries. */
  function Appended(entries: seq<Entry>, items: seq<Item>): seq<Entry>
    decreases |items|
  {
    if items == [] then []
    else
      var last := items[|items| - 1];
      Appended(entries, items[..|items| - 1])
      + if FindName(entries, Key(last.path)) == |entries| then [Made(last, last.path)] else []
  }

  /** Entry `j` stays unless it is the first with the name of some item; then it is made from that item. */
  function Place(entries: seq<Entry>, items: seq<Item>, j: nat): Entry
    requires j < |entries|
  {
    var i := ItemFor(entries, items, j);
    if i < |items| then Made(items[i], Basename(items[i].path)) else entries[j]
  }

  lemma {:induction false} AppendedNames(entries: seq<Entry>, items: seq<Item>, key: Name)
    requires Key(key) == key && forall i :: 0 <= i < |items| ==> Key(items[i].path) != key
    ensures forall j :: 0 <= j < |Appended(entries, items)| ==> Appended(entries, items)[j].name != key
    decreases |items|
  {
    hide Key, FindName;
    if items != [] {
      AppendedNames(entries, items[..|items| - 1], key);
      PathOfKey(items[|items| - 1].path, key);
    }
  }

  /** Where no two items share a name: every entry keeps its place, the first with the name of an item is
      replaced, every other one stays as it is, and the new entries follow in the order of the items. */
  lemma {:induction false} UpdatePositions(entries: seq<Entry>, items: seq<Item>)
    requires DistinctItems(items)
    ensures var updated := UpdateAll(entries, items);
      && |updated| >= |entries|
      && updated[|entries|..] == Appended(entries, items)
      && forall j :: 0 <= j < |entries| ==> updated[j] == Place(entries, items, j)
    decreases |items|
  {
    hide Key, Basename, FindName, DistinctItems, Place;
    if items == [] {
      NoneTaken(entries);
    } else {
      var n := |items| - 1;
      var front, last := items[..n], items[n];
      FrontDistinct(items);
      UpdatePositions(entries, front);
      var before, k := UpdateAll(entries, front), FindName(entries, Key(last.path));
      KeyOfKey(last.path);
      forall i | 0 <= i < n
        ensures Key(front[i].path) != Key(last.path)
      {
        KeysDiffer(items, i, n);
      }
      AppendedNames(entries, front, Key(last.path));
      forall j | 0 <= j < |entries|
        ensures before[j].name == Key(last.path) ==> k <= j
        ensures Place(entries, items, j) == if j == k then Made(last, Basename(last.path)) else before[j]
        ensures j == k ==> before[j] == entries[j]
      {
        PlaceOne(entries, items, j);
      }
      LastPosition(entries, before, last, Appended(entries, front));
    }
  }

  lemma NoneTaken(entries: seq<Entry>)
    ensures forall j :: 0 <= j < |entries| ==> Place(entries, [], j) == entries[j]
  {
    hide Key, Basename, FindName;
  }

  lemma FrontDistinct(items: seq<Item>)
    requires items != [] && DistinctItems(items)
    ensures DistinctItems(items[..|items| - 1])
  {
    hide Key;
    var front := items[..|items| - 1];
    assert forall i :: 0 <= i < |front| ==> front[i] == items[i];
  }

  /** One more item finds the name where the original entries have it, or not at all. */
  lemma LastPosition(entries: seq<Entry>, before: seq<Entry>, last: Item, tail: seq<Entry>)
    requires |entries| <= |before| && before[|entries|..] == tail
    requires forall j :: 0 <= j < |tail| ==> tail[j].name != Key(last.path)
    requires var k := FindName(entries, Key(last.path));
      && (forall j :: 0 <= j < |entries| ==> before[j].name == Key(last.path) ==> k <= j)
      && (k < |entries| ==> before[k] == entries[k])
    ensures var k, after := FindName(entries, Key(last.path)), UpdateOne(before, last);
      && |after| >= |entries|
      && after[|entries|..] == tail + (if k == |entries| then [Made(last, last.path)] else [])
      && (forall j :: 0 <= j < |entries| ==>
        after[j] == if j == k then Made(last, Basename(last.path)) else before[j])
  {
    hide Key, Basename;
    var key, n := Key(last.path), |entries|;
    var k := FindName(entries, key);
    forall j | n <= j < |before|
      ensures before[j].name != key
    {
      assert before[j] == tail[j - n];
    }
    FindNameAs(before, key, if k < n then k else |before|);
    hide FindName;
    if k < n {
      TailKept(before, n, k, Made(last, Basename(last.path)));
    } else {
      TailGrows(before, n, Made(last, last.path));
    }
  }

  lemma TailKept<T>(s: seq<T>, n: nat, k: nat, x: T)
    requires k < n <= |s|
    ensures s[k := x][n..] == s[n..] && s[n..] + [] == s[n..]
  {
  }

  lemma TailGrows<T>(s: seq<T>, n: nat, x: T)
    requires n <= |s|
    ensures (s + [x])[n..] == s[n..] + [x]
  {
  }

  lemma PlaceOne(entries: seq<Entry>, items: seq<Item>, j: nat)
    requires items != [] && DistinctItems(items) && j < |entries|
    ensures var n, last := |items| - 1, items[|items| - 1];
      var k := FindName(entries, Key(last.path));
      && (Place(entries, items[..n], j).name == Key(last.path) ==> k <= j)
      && Place(entries, items, j) == (if j == k then Made(last, Basename(last.path)) else Place(entries, items[..n], j))
      && (j == k ==> Place(entries, items[..n], j) == entries[j])
  {
    hide Key, Basename, FindName, DistinctItems;
    var n := |items| - 1;
    var front, key := items[..n], Key(items[n].path);
    var i := ItemFor(entries, front, j);
    ItemForGrows(entries, items, j);
    KeyOfKey(items[n].path);
    if i < n {
      KeysDiffer(items, i, n);
      PathOfKey(items[i].path, key);
    }
  }

  lemma KeysDiffer(items: seq<Item>, i: nat, j: nat)
    requires DistinctItems(items) && i < j < |items|
    ensures Key(items[i].path) != Key(items[j].path)
  {
    hide Key;
  }

  lemma ItemForGrows(entries: seq<Entry>, items: seq<Item>, j: nat)
    requires items != []
    ensures var n := |items| - 1;
      var i := ItemFor(entries, items[..n], j);
      ItemFor(entries, items, j) ==
      if i < n || FindName(entries, Key(items[n].path)) == j then i else |items|
  {
    hide Key, FindName;
    var n := |items| - 1;
    var front := items[..n];
    var i, all := ItemFor(entries, front, j), ItemFor(entries, items, j);
    assert forall h :: 0 <= h < n ==> front[h] == items[h];
    assert i < n ==> FindName(entries, Key(items[i].path)) == j;
    assert all < n ==> FindName(entries, Key(front[all].path)) == j;
  }

  lemma FindNameAs(entries: seq<Entry>, name: Name, k: nat)
    requires k <= |entries| && (k < |entries| ==> entries[k].name == name)
    requires forall j :: 0 <= j < k ==> entries[j].name != name
    ensures FindName(entries, name) == k
  {
  }

  // Updating, name by name ----------------------------------------------------------------------

  /** The first entry filed under `key`. */
  function FirstUnder(entries: seq<Entry>, key: Name): Option<Entry> {
    var k := FindKey(entries, key);
    if k < |entries| then Some(entries[k]) else None
  }

  /** What an item makes of the first entry under `key`: it replaces it only if the entry is called exactly so,
      and not if it goes by a longer path or an uncut name. */
  function Settle(first: Option<Entry>, item: Item, key: Name): Option<Entry> {
    if Key(item.path) != key then first
    else if first == None then Some(Made(item, item.path))
    else if first.value.name == key then Some(Made(item, Basename(item.path)))
    else first
  }

  function Settled(first: Option<Entry>, items: seq<Item>, key: Name): Option<Entry>
    decreases |items|
  {
    if items == [] then first
    else Settle(Settled(first, items[..|items| - 1], key), items[|items| - 1], key)
  }

  lemma SettleOne(entries: seq<Entry>, item: Item, key: Name)
    ensures FirstUnder(UpdateOne(entries, item), key) == Settle(FirstUnder(entries, key), item, key)
  {
    hide Key, Basename;
    var updated, k, f := UpdateOne(entries, item), FindName(entries, Key(item.path)), FindKey(entries, key);
    KeyOfKey(item.path);
    assert |updated| == if k < |entries| then |entries| else |entries| + 1;
    assert k < |entries| ==> Key(entries[k].name) == Key(item.path);
    forall j | 0 <= j < |updated|
      ensures Key(updated[j].name) == key <==>
        if j < |entries| then Key(entries[j].name) == key else Key(item.path) == key
    {
    }
    FindKeyAs(updated, key, if f == |entries| == k && Key(item.path) != key then |updated| else f);
  }

  lemma FindKeyAs(entries: seq<Entry>, key: Name, k: nat)
    requires k <= |entries| && (k < |entries| ==> Key(entries[k].name) == key)
    requires forall j :: 0 <= j < k ==> Key(entries[j].name) != key
    ensures FindKey(entries, key) == k
  {
  }

  /** What a name finds after an update, for all entries and items, however often an item names it. */
  lemma {:induction false} UpdateFinds(entries: seq<Entry>, items: seq<Item>, key: Name)
    ensures FirstUnder(UpdateAll(entries, items), key) == Settled(FirstUnder(entries, key), items, key)
    decreases |items|
  {
    hide UpdateOne, FirstUnder, Settle;
    if items != [] {
      UpdateFinds(entries, items[..|items| - 1], key);
      SettleOne(UpdateAll(entries, items[..|items| - 1]), items[|items| - 1], key);
    }
  }

  // Deleting ------------------------------------------------------------------------------------

  /** The entries without the first ones of each name, as many as `named` asks for, in order. */
  function Drop(entries: seq<Entry>, named: multiset<Name>): seq<Entry>
    decreases |entries|
  {
    if entries == [] then []
    else if entries[0].name in named then Drop(entries[1..], named - multiset{entries[0].name})
    else [entries[0]] + Drop(entries[1..], named)
  }

  function PathNames(paths: seq<Name>): multiset<Name>
    decreases |paths|
  {
    if paths == [] then multiset{} else PathNames(paths[..|paths| - 1]) + multiset{Key(paths[|paths| - 1])}
  }

  lemma DeleteOneStep(entries: seq<Entry>, path: Name)
    requires entries != []
    ensures DeleteOne(entries, path) ==
      if entries[0].name == Key(path) then entries[1..] else [entries[0]] + DeleteOne(entries[1..], path)
  {
    hide Key;
    var k := FindName(entries[1..], Key(path));
    if entries[0].name != Key(path) {
      assert FindName(entries, Key(path)) == k + 1;
      hide FindName;
      if k < |entries| - 1 {
        RemoveStep(entries, k);
      } else {
        FirstOff(entries);
      }
    }
  }

  lemma RemoveStep<T>(s: seq<T>, k: nat)
    requires k + 1 < |s|
    ensures s[..k + 1] + s[k + 2..] == [s[0]] + (s[1..][..k] + s[1..][k + 1..])
  {
  }

  lemma FirstOff<T>(s: seq<T>)
    requires s != []
    ensures s == [s[0]] + s[1..]
  {
  }

  lemma {:induction false} DropOneMore(entries: seq<Entry>, named: multiset<Name>, path: Name)
    ensures DeleteOne(Drop(entries, named), path) == Drop(entries, named + multiset{Key(path)})
    decreases |entries|
  {
    hide Key, DeleteOne;
    if entries == [] {
      assert DeleteOne(entries, path) == entries by {
        EmptyDelete(path);
      }
    } else {
      var name, rest := entries[0].name, entries[1..];
      if name in named {
        DropOneMore(rest, named - multiset{name}, path);
        assert named + multiset{Key(path)} - multiset{name} == named - multiset{name} + multiset{Key(path)};
      } else {
        DeleteOneStep([entries[0]] + Drop(rest, named), path);
        FirstAndRest(entries[0], Drop(rest, named));
        if name == Key(path) {
          assert named + multiset{name} - multiset{name} == named;
        } else {
          DropOneMore(rest, named, path);
        }
      }
    }
  }

  lemma EmptyDelete(path: Name)
    ensures DeleteOne([], path) == []
  {
  }

  /** Deleting takes away the first entries of each name, one for each time a path names it, and nothing else. */
  lemma {:induction false} DeleteDrops(entries: seq<Entry>, paths: seq<Name>)
    ensures DeleteAll(entries, paths) == Drop(entries, PathNames(paths))
    decreases |paths|
  {
    hide DeleteOne, Key;
    if paths == [] {
      DropNothing(entries);
    } else {
      DeleteDrops(entries, paths[..|paths| - 1]);
      DropOneMore(entries, PathNames(paths[..|paths| - 1]), paths[|paths| - 1]);
    }
  }

  lemma {:induction false} DropNothing(entries: seq<Entry>)
    ensures Drop(entries, multiset{}) == entries
    decreases |entries|
  {
    if entries != [] {
      DropNothing(entries[1..]);
    }
  }

  function Named(entries: seq<Entry>, name: Name): seq<Entry>
    decreases |entries|
  {
    if entries == [] then []
    else if entries[0].name == name then [entries[0]] + Named(entries[1..], name)
    else Named(entries[1..], name)
  }

  /** Of the entries of a name the first ones go, as many as are named or as there are, and the others stay. */
  lemma {:induction false} DropNamed(entries: seq<Entry>, named: multiset<Name>, name: Name)
    ensures var present, gone := Named(entries, name), named[name];
      Named(Drop(entries, named), name) == if gone <= |present| then present[gone..] else []
    decreases |entries|
  {
    if entries != [] {
      var e, rest := entries[0], entries[1..];
      if e.name in named {
        DropNamed(rest, named - multiset{e.name}, name);
      } else {
        DropNamed(rest, named, name);
        FirstAndRest(e, Drop(rest, named));
      }
    }
  }

  // Through the file and back -------------------------------------------------------------------

  /** No name holds a zero octet, which would be lost on the way back. */
  predicate NoZeros(entries: seq<Entry>) {
    forall i :: 0 <= i < |entries| ==> 0 !in Key(entries[i].name)
  }

  lemma FiledName(e: Entry)
    requires 0 !in Key(e.name)
    ensures Filed(e) == e.(name := Key(e.name)) && Key(Filed(e).name) == Key(e.name)
  {
    hide Key;
    StripPlain(Key(e.name));
    KeyOfKey(e.name);
  }

  lemma FiledIsPlain(entries: seq<Entry>)
    requires NoZeros(entries)
    ensures Plain(FiledAll(entries)) && NoZeros(FiledAll(entries)) && FiledAll(FiledAll(entries)) == FiledAll(entries)
    ensures Consistent(entries) ==> Consistent(FiledAll(entries))
  {
    hide Key, Filed;
    var filed := FiledAll(entries);
    forall i | 0 <= i < |entries|
      ensures Key(filed[i].name) == filed[i].name == Key(entries[i].name) && Filed(filed[i]) == filed[i]
      ensures filed[i].size == entries[i].size && filed[i].image == entries[i].image
    {
      FiledName(entries[i]);
      KeyOfKey(entries[i].name);
      FiledName(filed[i]);
    }
  }

  lemma {:induction false} OthersFiled(entries: seq<Entry>, keys: set<Name>)
    requires NoZeros(entries)
    ensures Others(FiledAll(entries), keys) == FiledAll(Others(entries, keys))
    decreases |entries|
  {
    hide Key, Filed;
    if entries != [] {
      FiledName(entries[0]);
      OthersFiled(entries[1..], keys);
      var rest := Others(entries[1..], keys);
      assert ([entries[0]] + rest)[1..] == rest;
    }
  }

  lemma {:induction false} UpdateAllKeeps(entries: seq<Entry>, items: seq<Item>)
    requires NoZeros(entries) && Consistent(entries) && forall i :: 0 <= i < |items| ==> 0 !in Key(items[i].path)
    ensures NoZeros(UpdateAll(entries, items)) && Consistent(UpdateAll(entries, items))
    decreases |items|
  {
    hide Key;
    if items != [] {
      UpdateAllKeeps(entries, items[..|items| - 1]);
      KeyOfKey(items[|items| - 1].path);
    }
  }

  lemma {:induction false} DeleteAllKeeps(entries: seq<Entry>, paths: seq<Name>)
    requires NoZeros(entries) && Consistent(entries)
    ensures NoZeros(DeleteAll(entries, paths)) && Consistent(DeleteAll(entries, paths))
    decreases |paths|
  {
    hide DeleteOne, NoZeros, Consistent;
    if paths != [] {
      DeleteAllKeeps(entries, paths[..|paths| - 1]);
      DeleteOneKeeps(DeleteAll(entries, paths[..|paths| - 1]), paths[|paths| - 1]);
    }
  }

  lemma DeleteOneKeeps(entries: seq<Entry>, path: Name)
    requires NoZeros(entries) && Consistent(entries)
    ensures NoZeros(DeleteOne(entries, path)) && Consistent(DeleteOne(entries, path))
  {
    hide Key;
    var k, left := FindName(entries, Key(path)), DeleteOne(entries, path);
    forall i | 0 <= i < |left|
      ensures 0 !in Key(left[i].name) && left[i].size == |left[i].image|
    {
      assert left[i] == entries[if i < k then i else i + 1];
    }
  }

  lemma FindKeyFiled(entries: seq<Entry>, key: Name)
    requires NoZeros(entries)
    ensures FindKey(FiledAll(entries), key) == FindKey(entries, key)
  {
    hide Key, Filed;
    var filed, k := FiledAll(entries), FindKey(entries, key);
    forall i | 0 <= i < |entries|
      ensures Key(filed[i].name) == Key(entries[i].name)
    {
      FiledName(entries[i]);
    }
    if k < |entries| {
      FindKeyIs(filed, key, k);
    } else {
      NoSuchKey(filed, key);
    }
  }

  lemma ShowsFiled(entries: seq<Entry>, item: Item)
    requires NoZeros(entries) && Shows(entries, item)
    ensures Shows(FiledAll(entries), item)
  {
    hide Key, FindKey;
    FindKeyFiled(entries, Key(item.path));
    FiledName(entries[FindKey(entries, Key(item.path))]);
  }

  /** Updating a package written by the tool and parsing the result gives the updated entries, each under the
      name it is filed under; entries with other names keep fields, images and order. */
  lemma UpdateLaw(packed: seq<Entry>, items: seq<Item>)
    requires Packable(packed) && Consistent(packed) && NoZeros(packed)
    requires forall i :: 0 <= i < |items| ==> 0 !in Key(items[i].path)
    requires Packable(UpdateAll(FiledAll(packed), items))
    ensures Parse(Packed(packed)) == Some(FiledAll(packed))
    ensures var updated := Parse(Packed(UpdateAll(FiledAll(packed), items)));
      && updated == Some(FiledAll(Updated(FiledAll(packed), items)))
      && Others(updated.value, ItemKeys(items)) == Others(FiledAll(packed), ItemKeys(items))
      && (DistinctItems(items) ==> forall i :: 0 <= i < |items| ==> Shows(updated.value, items[i]))
  {
    hide Parse, Packed, Packable, Key, Others, UpdateAll, Updated, Shows, DistinctItems;
    var entries, keys := FiledAll(packed), ItemKeys(items);
    var updated := UpdateAll(entries, items);
    PackageRoundTrip(packed);
    FiledIsPlain(packed);
    UpdateAllKeeps(entries, items);
    PackageRoundTrip(updated);
    UpdateExactly(entries, items);
    UpdateKeepsOthers(entries, items, keys);
    OthersFiled(updated, keys);
    OthersFiled(entries, keys);
    forall i | 0 <= i < |items| && DistinctItems(items)
      ensures Shows(FiledAll(updated), items[i])
    {
      UpdateShows(entries, items, i);
      ShowsFiled(updated, items[i]);
    }
  }

  /** Deleting from a package written by the tool and parsing the result: of every name as many first entries
      are gone as paths name it, and what is left is as it was, in order. */
  lemma DeleteLaw(packed: seq<Entry>, paths: seq<Name>)
    requires Packable(packed) && Consistent(packed) && NoZeros(packed)
    requires Packable(DeleteAll(FiledAll(packed), paths))
    ensures var left := Parse(Packed(DeleteAll(FiledAll(packed), paths)));
      && left == Some(Drop(FiledAll(packed), PathNames(paths)))
      && Others(left.value, PathKeys(paths)) == Others(FiledAll(packed), PathKeys(paths))
      && (Distinct(FiledAll(packed)) ==> left.value == Others(FiledAll(packed), PathKeys(paths)))
  {
    hide Parse, Packed, Packable, Key, Others, DeleteAll, Drop, Distinct;
    var entries, keys := FiledAll(packed), PathKeys(paths);
    var left := DeleteAll(entries, paths);
    FiledIsPlain(packed);
    DeleteAllKeeps(entries, paths);
    PackageRoundTrip(left);
    DeleteDrops(entries, paths);
    DropFiled(packed, PathNames(paths));
    DeleteKeepsOthers(entries, paths, keys);
    if Distinct(entries) {
      DeleteExactly(entries, paths);
    }
  }

  lemma {:induction false} DropFiled(entries: seq<Entry>, named: multiset<Name>)
    requires NoZeros(entries)
    ensures FiledAll(Drop(FiledAll(entries), named)) == Drop(FiledAll(entries), named)
    decreases |entries|
  {
    hide Key, Filed;
    if entries != [] {
      FiledIsPlain(entries[..1]);
      FiledTwice(entries[0]);
      assert FiledAll(entries)[1..] == FiledAll(entries[1..]);
      if Filed(entries[0]).name in named {
        DropFiled(entries[1..], named - multiset{Filed(entries[0]).name});
      } else {
        DropFiled(entries[1..], named);
      }
    }
  }

  lemma FiledTwice(e: Entry)
    requires 0 !in Key(e.name)
    ensures Filed(Filed(e)) == Filed(e)
  {
    hide Key;
    FiledName(e);
    FiledName(Filed(e));
  }
}
