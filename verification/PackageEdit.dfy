/** Updating and deleting images of a package. */
module PackageEdit {
  import opened Bytes
  import opened Package

  /** A new image: its path, its fields, and the contents of the file at that path. */
  datatype Item = Item(path: Name, burnAddr: nat, burnSize: nat, kind: nat, image: seq<Byte>)

  /** The first entry with this very name, or the number of entries. */
  function FindName(entries: seq<Entry>, name: Name): (k: nat)
    ensures k <= |entries|
    ensures k < |entries| ==> entries[k].name == name
    ensures forall j :: 0 <= j < k ==> entries[j].name != name
  {
    if entries == [] || entries[0].name == name then 0 else 1 + FindName(entries[1..], name)
  }

  function Made(item: Item, name: Name): Entry {
    Entry(name, item.burnAddr, item.burnSize, |item.image|, item.kind, item.image)
  }

  /** One item of an update: replace the first entry with its name, or append. */
  function UpdateOne(entries: seq<Entry>, item: Item): seq<Entry> {
    var k := FindName(entries, Key(item.path));
    if k < |entries| then entries[k := Made(item, Basename(item.path))] else entries + [Made(item, item.path)]
  }

  function DeleteOne(entries: seq<Entry>, path: Name): seq<Entry> {
    var k := FindName(entries, Key(path));
    if k < |entries| then entries[..k] + entries[k + 1..] else entries
  }

  function UpdateAll(entries: seq<Entry>, items: seq<Item>): seq<Entry>
    decreases |items|
  {
    if items == [] then entries else UpdateOne(UpdateAll(entries, items[..|items| - 1]), items[|items| - 1])
  }

  function DeleteAll(entries: seq<Entry>, paths: seq<Name>): seq<Entry>
    decreases |paths|
  {
    if paths == [] then entries else DeleteOne(DeleteAll(entries, paths[..|paths| - 1]), paths[|paths| - 1])
  }

  // What an edit leaves alone -------------------------------------------------------------------

  /** The entries that are filed under none of the names `keys`, in order. */
  function Others(entries: seq<Entry>, keys: set<Name>): seq<Entry>
    decreases |entries|
  {
    if entries == [] then []
    else if Key(entries[0].name) in keys then Others(entries[1..], keys)
    else [entries[0]] + Others(entries[1..], keys)
  }

  lemma {:induction false} OthersConcat(a: seq<Entry>, b: seq<Entry>, keys: set<Name>)
    ensures Others(a + b, keys) == Others(a, keys) + Others(b, keys)
    decreases |a|
  {
    if a == [] {
      assert a + b == b;
    } else {
      assert (a + b)[1..] == a[1..] + b;
      OthersConcat(a[1..], b, keys);
    }
  }

  lemma OthersOne(e: Entry, keys: set<Name>)
    ensures Others([e], keys) == if Key(e.name) in keys then [] else [e]
  {
    assert [e][1..] == [];
  }

  /** Cutting a short name, or taking the base name of one, changes nothing. */
  lemma {:induction false} PlainName(name: Name)
    requires 0x2F !in name
    ensures Basename(name) == name
    decreases |name|
  {
    if name != [] {
      var n := |name| - 1;
      PrefixWithout(name, n);
      PlainName(name[..n]);
      LastPlain(name);
    }
  }

  lemma PrefixWithout(name: Name, n: nat)
    requires 0x2F !in name && n <= |name|
    ensures 0x2F !in name[..n]
  {
    var front := name[..n];
    forall i | 0 <= i < n
      ensures front[i] in name
    {
      assert front[i] == name[i];
    }
  }

  lemma LastPlain(name: Name)
    requires name != [] && 0x2F !in name && Basename(name[..|name| - 1]) == name[..|name| - 1]
    ensures Basename(name) == name
  {
    hide Basename;
    LastDiffers(name, 0x2F);
    BasenameStep(name);
    FrontAndLast(name);
  }

  lemma LastDiffers<T>(s: seq<T>, b: T)
    requires s != [] && b !in s
    ensures s[|s| - 1] != b
  {
  }

  lemma FrontAndLast<T>(s: seq<T>)
    requires s != []
    ensures s[..|s| - 1] + [s[|s| - 1]] == s
  {
  }

  lemma BasenameStep(path: Name)
    requires path != [] && path[|path| - 1] != 0x2F
    ensures Basename(path) == Basename(path[..|path| - 1]) + [path[|path| - 1]]
  {
  }

  lemma KeyOfKey(path: Name)
    ensures Key(Key(path)) == Key(path) && Key(Basename(path)) == Key(path)
  {
    PlainName(Basename(path));
    PrefixWithout(Basename(path), |Key(path)|);
    PlainName(Key(path));
  }

  lemma SplitAt(entries: seq<Entry>, k: nat)
    requires k < |entries|
    ensures entries == entries[..k] + ([entries[k]] + entries[k + 1..])
  {
  }

  /** Replacing or appending under a name touches no entry with another name. */
  lemma UpdateOneKeepsOthers(entries: seq<Entry>, item: Item, keys: set<Name>)
    requires Key(item.path) in keys
    ensures Others(UpdateOne(entries, item), keys) == Others(entries, keys)
  {
    var k := FindName(entries, Key(item.path));
    KeyOfKey(item.path);
    if k < |entries| {
      var made := Made(item, Basename(item.path));
      var updated := entries[k := made];
      SplitAt(entries, k);
      SplitAt(updated, k);
      assert updated[..k] == entries[..k] && updated[k + 1..] == entries[k + 1..];
      OthersTriple(entries[..k], entries[k], entries[k + 1..], keys);
      OthersTriple(entries[..k], made, entries[k + 1..], keys);
    } else {
      OthersConcat(entries, [Made(item, item.path)], keys);
      OthersOne(Made(item, item.path), keys);
    }
  }

  lemma OthersTriple(a: seq<Entry>, e: Entry, b: seq<Entry>, keys: set<Name>)
    requires Key(e.name) in keys
    ensures Others(a + ([e] + b), keys) == Others(a, keys) + Others(b, keys)
  {
    OthersConcat(a, [e] + b, keys);
    OthersConcat([e], b, keys);
    OthersOne(e, keys);
    assert [] + Others(b, keys) == Others(b, keys);
  }

  lemma DeleteOneKeepsOthers(entries: seq<Entry>, path: Name, keys: set<Name>)
    requires Key(path) in keys
    ensures Others(DeleteOne(entries, path), keys) == Others(entries, keys)
  {
    var k := FindName(entries, Key(path));
    KeyOfKey(path);
    if k < |entries| {
      SplitAt(entries, k);
      OthersTriple(entries[..k], entries[k], entries[k + 1..], keys);
      OthersConcat(entries[..k], entries[k + 1..], keys);
    }
  }

  function ItemKeys(items: seq<Item>): set<Name> {
    set i | 0 <= i < |items| :: Key(items[i].path)
  }

  function PathKeys(paths: seq<Name>): set<Name> {
    set i | 0 <= i < |paths| :: Key(paths[i])
  }

  /** An update leaves every entry whose name it does not mention as it was, in the same order. */
  lemma {:induction false} UpdateKeepsOthers(entries: seq<Entry>, items: seq<Item>, keys: set<Name>)
    requires ItemKeys(items) <= keys
    ensures Others(UpdateAll(entries, items), keys) == Others(entries, keys)
    decreases |items|
  {
    if items != [] {
      var front, last := items[..|items| - 1], items[|items| - 1];
      assert forall i :: 0 <= i < |front| ==> Key(front[i].path) == Key(items[i].path);
      assert Key(last.path) in ItemKeys(items);
      UpdateKeepsOthers(entries, front, keys);
      UpdateOneKeepsOthers(UpdateAll(entries, front), last, keys);
    }
  }

  lemma {:induction false} DeleteKeepsOthers(entries: seq<Entry>, paths: seq<Name>, keys: set<Name>)
    requires PathKeys(paths) <= keys
    ensures Others(DeleteAll(entries, paths), keys) == Others(entries, keys)
    decreases |paths|
  {
    if paths != [] {
      var front, last := paths[..|paths| - 1], paths[|paths| - 1];
      assert forall i :: 0 <= i < |front| ==> Key(front[i]) == Key(paths[i]);
      assert Key(last) in PathKeys(paths);
      DeleteKeepsOthers(entries, front, keys);
      DeleteOneKeepsOthers(DeleteAll(entries, front), last, keys);
    }
  }

  // What an edit changes ------------------------------------------------------------------------

  /** Entries as a parsed package has them: each under the name it is filed under. */
  predicate Plain(entries: seq<Entry>) {
    forall i :: 0 <= i < |entries| ==> Key(entries[i].name) == entries[i].name
  }

  predicate Distinct(entries: seq<Entry>) {
    forall i, j :: 0 <= i < j < |entries| ==> entries[i].name != entries[j].name
  }

  lemma DeleteOneShape(entries: seq<Entry>, path: Name)
    requires Plain(entries) && Distinct(entries)
    ensures var left := DeleteOne(entries, path);
      Plain(left) && Distinct(left) && forall i :: 0 <= i < |left| ==> left[i].name != Key(path) && left[i] in entries
  {
    hide Key;
    var k, left := FindName(entries, Key(path)), DeleteOne(entries, path);
    forall i | 0 <= i < |left|
      ensures left[i] == entries[if i < k then i else i + 1]
    {
    }
  }

  lemma {:induction false} DeleteAllShape(entries: seq<Entry>, paths: seq<Name>)
    requires Plain(entries) && Distinct(entries)
    ensures var left := DeleteAll(entries, paths);
      && Plain(left) && Distinct(left)
      && forall i :: 0 <= i < |left| ==> left[i].name !in PathKeys(paths)
    decreases |paths|
  {
    hide Key, DeleteOne, Distinct, Plain;
    if paths != [] {
      var front, last := paths[..|paths| - 1], paths[|paths| - 1];
      DeleteAllShape(entries, front);
      DeleteOneShape(DeleteAll(entries, front), last);
      forall name | name in PathKeys(paths)
        ensures name in PathKeys(front) || name == Key(last)
      {
        var i :| 0 <= i < |paths| && Key(paths[i]) == name;
        assert i < |front| ==> front[i] == paths[i];
      }
    }
  }

  lemma {:induction false} OthersAll(entries: seq<Entry>, keys: set<Name>)
    requires forall i :: 0 <= i < |entries| ==> Key(entries[i].name) !in keys
    ensures Others(entries, keys) == entries
    decreases |entries|
  {
    if entries != [] {
      OthersAll(entries[1..], keys);
    }
  }

  /** Where no two entries have the same name, deleting removes exactly the entries named. */
  lemma DeleteExactly(entries: seq<Entry>, paths: seq<Name>)
    requires Plain(entries) && Distinct(entries)
    ensures DeleteAll(entries, paths) == Others(entries, PathKeys(paths))
  {
    DeleteAllShape(entries, paths);
    DeleteKeepsOthers(entries, paths, PathKeys(paths));
    OthersAll(DeleteAll(entries, paths), PathKeys(paths));
  }

  /** The first entry filed under `key`. */
  function FindKey(entries: seq<Entry>, key: Name): (k: nat)
    ensures k <= |entries|
    ensures k < |entries| ==> Key(entries[k].name) == key
    ensures forall j :: 0 <= j < k ==> Key(entries[j].name) != key
  {
    if entries == [] || Key(entries[0].name) == key then 0 else 1 + FindKey(entries[1..], key)
  }

  /** The first entry under the item's name carries the item's fields and image. */
  predicate Shows(entries: seq<Entry>, item: Item) {
    var k := FindKey(entries, Key(item.path));
    && k < |entries|
    && entries[k].burnAddr == item.burnAddr && entries[k].burnSize == item.burnSize && entries[k].kind == item.kind
    && entries[k].size == |item.image| && entries[k].image == item.image
  }

  predicate DistinctItems(items: seq<Item>) {
    forall i, j :: 0 <= i < j < |items| ==> Key(items[i].path) != Key(items[j].path)
  }

  lemma FindKeyIs(entries: seq<Entry>, key: Name, k: nat)
    requires k < |entries| && Key(entries[k].name) == key && forall j :: 0 <= j < k ==> Key(entries[j].name) != key
    ensures FindKey(entries, key) == k
  {
  }

  lemma NoSuchKey(entries: seq<Entry>, key: Name)
    requires forall j :: 0 <= j < |entries| ==> Key(entries[j].name) != key
    ensures FindKey(entries, key) == |entries|
  {
  }

  /** Entries filed under `key` still carry that very name. */
  predicate Findable(entries: seq<Entry>, key: Name) {
    forall j :: 0 <= j < |entries| ==> (Key(entries[j].name) == key <==> entries[j].name == key)
  }

  lemma UpdateOneShows(entries: seq<Entry>, item: Item)
    requires Findable(entries, Key(item.path))
    ensures Shows(UpdateOne(entries, item), item)
  {
    hide Key;
    var key, updated := Key(item.path), UpdateOne(entries, item);
    var k := FindName(entries, key);
    KeyOfKey(item.path);
    FindKeyIs(updated, key, k);
  }

  lemma UpdateOneElsewhere(entries: seq<Entry>, item: Item, other: Item)
    requires Key(item.path) != Key(other.path)
    ensures Shows(entries, other) ==> Shows(UpdateOne(entries, item), other)
    ensures Findable(entries, Key(other.path)) ==> Findable(UpdateOne(entries, item), Key(other.path))
  {
    hide Key;
    var updated, key := UpdateOne(entries, item), Key(other.path);
    KeyOfKey(item.path);
    KeyOfKey(other.path);
    PathOfKey(item.path, key);
    if Shows(entries, other) {
      var k := FindKey(entries, key);
      FindKeyIs(updated, key, k);
    }
  }

  /** A path that is itself a file name is filed under it. */
  lemma PathOfKey(path: Name, key: Name)
    requires Key(path) != key && Key(key) == key
    ensures path != key && Basename(path) != key
  {
    KeyOfKey(path);
  }

  lemma {:induction false} FindableAll(entries: seq<Entry>, items: seq<Item>, key: Name)
    requires Findable(entries, key) && Key(key) == key && forall i :: 0 <= i < |items| ==> Key(items[i].path) != key
    ensures Findable(UpdateAll(entries, items), key)
    decreases |items|
  {
    hide Key, UpdateOne;
    if items != [] {
      FindableAll(entries, items[..|items| - 1], key);
      var other := Item(key, 0, 0, 0, []);
      UpdateOneElsewhere(UpdateAll(entries, items[..|items| - 1]), items[|items| - 1], other);
    }
  }

  /** After an update of a parsed package with differently named items, every item is what its name finds. */
  lemma {:induction false} UpdateShows(entries: seq<Entry>, items: seq<Item>, i: nat)
    requires Plain(entries) && DistinctItems(items) && i < |items|
    ensures Shows(UpdateAll(entries, items), items[i])
    decreases |items|
  {
    hide Key, UpdateOne, Shows;
    var n := |items| - 1;
    var front, last := items[..n], items[n];
    KeyOfKey(last.path);
    if i == n {
      FindableAll(entries, front, Key(last.path));
      UpdateOneShows(UpdateAll(entries, front), last);
    } else {
      UpdateShows(entries, front, i);
      UpdateOneElsewhere(UpdateAll(entries, front), last, items[i]);
    }
  }

  /** A new image given twice, with a directory in its path, is appended twice. */
  lemma {:induction false} AppendedTwice(entries: seq<Entry>, item: Item)
    requires FindName(entries, Key(item.path)) == |entries| && item.path != Key(item.path)
    ensures UpdateAll(entries, [item, item]) == entries + [Made(item, item.path), Made(item, item.path)]
  {
    hide Key;
    var once := entries + [Made(item, item.path)];
    assert [item, item][..1] == [item] && [item][..0] == [];
    assert UpdateAll(entries, [item]) == once;
    NoSuchName(once, Key(item.path));
  }

  lemma NoSuchName(entries: seq<Entry>, name: Name)
    requires forall j :: 0 <= j < |entries| ==> entries[j].name != name
    ensures FindName(entries, name) == |entries|
  {
  }

  /** An item given twice counts once if and only if its base name is not cut short and either its path is the
      name it is filed under or that name was there before. */
  lemma UpdateTwice(entries: seq<Entry>, item: Item)
    ensures var once := UpdateOne(entries, item);
      UpdateOne(once, item) == once <==>
      && |Basename(item.path)| <= 32
      && (item.path == Key(item.path) || FindName(entries, Key(item.path)) < |entries|)
  {
    hide Basename;
    var key, k := Key(item.path), FindName(entries, Key(item.path));
    var once := UpdateOne(entries, item);
    KeyIsShort(item.path);
    FindNameIs(once, key, k);
    var again := FindName(once, key);
    if again == |once| {
      assert |UpdateOne(once, item)| == |once| + 1;
    } else if again != k {
      assert once[again].name == key && UpdateOne(once, item)[again].name == Basename(item.path);
    }
  }

  lemma KeyIsShort(path: Name)
    ensures |Basename(path)| <= 32 <==> Key(path) == Basename(path)
    ensures path == Key(path) ==> |Basename(path)| <= 32
  {
    KeyOfKey(path);
  }

  lemma FindNameIs(entries: seq<Entry>, name: Name, k: nat)
    requires k < |entries| && forall j :: 0 <= j < k ==> entries[j].name != name
    ensures FindName(entries, name) == k <==> entries[k].name == name
  {
  }
}
