/** The packing tool as it runs: parallel lists edited in place, and a file written and read by position. */
module PacketTool {
  import opened Bytes
  import opened Crc16
  import opened PythonCrc
  import opened Package
  import opened PackageEdit

  class File {
    var bytes: seq<Byte>
    var pos: nat

    constructor (contents: seq<Byte>)
      ensures bytes == contents && pos == 0
    {
      bytes, pos := contents, 0;
    }

    /** Write over what is there, and on beyond the end. */
    method Write(s: seq<Byte>)
      requires pos <= |bytes|
      modifies this
      ensures pos == old(pos) + |s|
      ensures bytes == old(bytes)[..old(pos)] + s + Extent(old(bytes), pos, |old(bytes)|)
    {
      bytes := bytes[..pos] + s + (if pos + |s| < |bytes| then bytes[pos + |s|..] else []);
      pos := pos + |s|;
    }

    /** At most `n` octets, fewer at the end of the file. */
    method Read(n: nat) returns (s: seq<Byte>)
      modifies this`pos
      ensures s == Extent(bytes, old(pos), n) && pos == old(pos) + |s|
    {
      s := Extent(bytes, pos, n);
      pos := pos + |s|;
    }
  }

  lemma ExtentWhole(file: seq<Byte>, at: nat, n: nat)
    ensures |Extent(file, at, n)| <= n
    ensures |Extent(file, at, n)| == n > 0 ==> at + n <= |file|
    ensures at + n <= |file| ==> Extent(file, at, n) == file[at..at + n]
  {
  }

  /** The directory, up to record `k`. */
  function Records(entries: seq<Entry>, k: nat): (s: seq<Byte>)
    requires k <= |entries|
  {
    if k == 0 then [] else Records(entries, k - 1) + Record(entries[k - 1], Start(entries, k - 1))
  }

  lemma {:induction false} RecordsAreDirectory(entries: seq<Entry>, k: nat)
    requires k <= |entries|
    ensures Directory(entries, HeadLength(|entries|)) ==
      Records(entries, k) + Directory(entries[k..], Start(entries, k))
    decreases k
  {
    hide Record, Directory, Start;
    if k == 0 {
      FirstStart(entries);
    } else {
      RecordsAreDirectory(entries, k - 1);
      DirectoryStep(entries, k - 1, Start(entries, k - 1));
      NextStart(entries, k - 1);
    }
  }

  lemma FirstStart(entries: seq<Entry>)
    ensures Start(entries, 0) == HeadLength(|entries|) && entries[0..] == entries
  {
  }

  lemma DirectoryStep(entries: seq<Entry>, k: nat, start: nat)
    requires k < |entries|
    ensures Directory(entries[k..], start)
            == Record(entries[k], start) + Directory(entries[k + 1..], start + entries[k].size + GAP)
  {
    hide Record;
    assert entries[k..][1..] == entries[k + 1..];
  }

  lemma NextStart(entries: seq<Entry>, k: nat)
    requires k < |entries|
    ensures Start(entries, k + 1) == Start(entries, k) + entries[k].size + GAP
  {
    SizesSplit(entries[..k + 1], k);
    assert entries[..k + 1][..k] == entries[..k] && entries[..k + 1][k..] == [entries[k]];
  }

  lemma ImagesStep(entries: seq<Entry>, k: nat)
    requires k < |entries|
    ensures Images(entries[..k + 1]) == Images(entries[..k]) + entries[k].image + Zeros(GAP)
  {
    ImagesSplit(entries[..k + 1], k);
    assert entries[..k + 1][..k] == entries[..k] && entries[..k + 1][k..] == [entries[k]];
    assert [entries[k]][1..] == [];
    assert Images([entries[k]]) == entries[k].image + Zeros(GAP);
  }

  lemma WholeDirectory(entries: seq<Entry>)
    ensures Records(entries, |entries|) == Directory(entries, HeadLength(|entries|))
  {
    RecordsAreDirectory(entries, |entries|);
    assert entries[|entries|..] == [];
  }

  /** What parsing comes to once `seen` has been read. */
  function Continued(seen: seq<Entry>, rest: Option<seq<Entry>>): Option<seq<Entry>> {
    match rest
    case None => None
    case Some(r) => Some(seen + r)
  }

  lemma ParseTurn(file: seq<Byte>, at: nat, n: nat, seen: seq<Entry>)
    requires n > 0 && at + RECORD <= |file| && Ascii(file[at..at + 32])
    ensures Continued(seen, ParseFrom(file, at, n))
            == Continued(seen + [ParseRecord(file, at)], ParseFrom(file, at + RECORD, n - 1))
  {
    hide ParseRecord, Ascii;
    match ParseFrom(file, at + RECORD, n - 1)
    case None =>
    case Some(rest) => assert seen + ([ParseRecord(file, at)] + rest) == (seen + [ParseRecord(file, at)]) + rest;
  }

  method StripZeroOctets(s: Name) returns (stripped: Name)
    ensures stripped == Strip(s)
  {
    stripped := [];
    for i := 0 to |s|
      invariant Strip(s) == stripped + Strip(s[i..])
    {
      assert s[i..][1..] == s[i + 1..];
      if s[i] != 0 {
        stripped := stripped + [s[i]];
      }
    }
  }

  class Lists {
    var names: seq<Name>
    var burnAddrs: seq<nat>
    var burnSizes: seq<nat>
    var sizes: seq<nat>
    var kinds: seq<nat>
    var starts: seq<nat>
    var images: seq<seq<Byte>>

    ghost predicate Aligned()
      reads this
    {
      |names| == |burnAddrs| == |burnSizes| == |sizes| == |kinds| == |images|
    }

    ghost function Abs(): (entries: seq<Entry>)
      requires Aligned()
      reads this
      ensures |entries| == |names|
    {
      seq(|names|, i requires 0 <= i < |names| && Aligned() reads this =>
        Entry(names[i], burnAddrs[i], burnSizes[i], sizes[i], kinds[i], images[i]))
    }

    constructor ()
      ensures Aligned() && Abs() == [] && names == [] && images == []
      ensures burnAddrs == burnSizes == sizes == kinds == starts == []
    {
      names, burnAddrs, burnSizes, sizes, kinds, starts, images := [], [], [], [], [], [], [];
    }

    method Replace(k: nat, item: Item)
      requires Aligned() && k < |names|
      modifies this
      ensures Aligned() && Abs() == old(Abs())[k := Made(item, Basename(item.path))]
    {
      images := images[k := item.image];
      names := names[k := Basename(item.path)];
      burnAddrs := burnAddrs[k := item.burnAddr];
      burnSizes := burnSizes[k := item.burnSize];
      sizes := sizes[k := |item.image|];
      kinds := kinds[k := item.kind];
    }

    method Append(item: Item)
      requires Aligned()
      modifies this
      ensures Aligned() && Abs() == old(Abs()) + [Made(item, item.path)]
    {
      names := names + [item.path];
      burnAddrs := burnAddrs + [item.burnAddr];
      burnSizes := burnSizes + [item.burnSize];
      sizes := sizes + [|item.image|];
      kinds := kinds + [item.kind];
      images := images + [item.image];
    }

    method Remove(k: nat)
      requires Aligned() && k < |names|
      modifies this
      ensures Aligned() && Abs() == old(Abs())[..k] + old(Abs())[k + 1..]
    {
      images := images[..k] + images[k + 1..];
      names := names[..k] + names[k + 1..];
      burnAddrs := burnAddrs[..k] + burnAddrs[k + 1..];
      burnSizes := burnSizes[..k] + burnSizes[k + 1..];
      sizes := sizes[..k] + sizes[k + 1..];
      kinds := kinds[..k] + kinds[k + 1..];
    }

    /** Look for a name from the front. */
    method Find(name: Name) returns (k: nat)
      requires Aligned()
      ensures k == FindName(Abs(), name)
    {
      k := 0;
      while k < |names| && names[k] != name
        invariant k <= |names| && forall j :: 0 <= j < k ==> names[j] != name
      {
        k := k + 1;
      }
      ghost var entries := Abs();
      if k < |names| {
        FindNameIs(entries, name, k);
      }
    }

    /** The edits of `update_bin`. */
    method Update(items: seq<Item>)
      requires Aligned()
      modifies this
      ensures Aligned() && Abs() == UpdateAll(old(Abs()), items)
    {
      hide UpdateOne;
      for i := 0 to |items|
        invariant Aligned() && Abs() == UpdateAll(old(Abs()), items[..i])
      {
        assert items[..i + 1][..i] == items[..i];
        UpdateWith(items[i]);
      }
      assert items[..|items|] == items;
    }

    method UpdateWith(item: Item)
      requires Aligned()
      modifies this
      ensures Aligned() && Abs() == UpdateOne(old(Abs()), item)
    {
      hide Basename;
      var name := Basename(item.path);
      if |name| > 32 {
        name := name[..32];
      }
      var k := Find(name);
      if k < |names| {
        Replace(k, item);
      } else {
        Append(item);
      }
    }

    /** The edits of `delete_bin`. */
    method Delete(paths: seq<Name>)
      requires Aligned()
      modifies this
      ensures Aligned() && Abs() == DeleteAll(old(Abs()), paths)
    {
      hide DeleteOne;
      for i := 0 to |paths|
        invariant Aligned() && Abs() == DeleteAll(old(Abs()), paths[..i])
      {
        assert paths[..i + 1][..i] == paths[..i];
        DeleteWith(paths[i]);
      }
      assert paths[..|paths|] == paths;
    }

    method DeleteWith(path: Name)
      requires Aligned()
      modifies this
      ensures Aligned() && Abs() == DeleteOne(old(Abs()), path)
    {
      hide Basename;
      var name := Basename(path);
      if |name| > 32 {
        name := name[..32];
      }
      var k := Find(name);
      if k < |names| {
        Remove(k);
      }
    }

    // `parse_allinone`

    /** The lists hold the fields of `seen`; images are yet to be read. */
    ghost predicate HoldFields(file: seq<Byte>, seen: seq<Entry>)
      reads this
    {
      && |names| == |burnAddrs| == |burnSizes| == |sizes| == |kinds| == |starts| == |seen|
      && forall k :: 0 <= k < |seen| ==>
           seen[k] == Entry(names[k], burnAddrs[k], burnSizes[k], sizes[k], kinds[k], Extent(file, starts[k], sizes[k]))
    }

    /** Read a package into empty lists. False is where unpacking or decoding raises an exception. */
    method ParseAllinone(f: File) returns (ok: bool)
      requires names == [] && images == [] && burnAddrs == burnSizes == sizes == kinds == starts == [] && f.pos == 0
      modifies this, f`pos
      ensures ok <==> Parse(f.bytes).Some?
      ensures ok ==> Aligned() && Abs() == Parse(f.bytes).value
    {
      hide ParseFrom, FromLe16;
      var info := f.Read(HEADER);
      if |info| < HEADER {
        return false;
      }
      assert info[6..8] == f.bytes[6..8];
      ghost var seen;
      ok, seen := ReadDirectory(f, FromLe16(info[6..8]));
      if ok {
        ReadImages(f, seen);
      }
    }

    method ReadDirectory(f: File, n: nat) returns (ok: bool, ghost seen: seq<Entry>)
      requires names == [] && images == [] && burnAddrs == burnSizes == sizes == kinds == starts == []
      requires f.pos == HEADER <= |f.bytes|
      modifies this, f`pos
      ensures images == []
      ensures ParseFrom(f.bytes, HEADER, n) == if ok then Some(seen) else None
      ensures ok ==> HoldFields(f.bytes, seen)
    {
      hide ParseFrom, ParseRecord, Ascii, HoldFields, Continued;
      seen := [];
      NothingHeld(f.bytes);
      NothingContinued(ParseFrom(f.bytes, HEADER, n));
      for i := 0 to n
        invariant f.pos == HEADER + RECORD * i <= |f.bytes|
        invariant HoldFields(f.bytes, seen) && images == []
        invariant ParseFrom(f.bytes, HEADER, n) == Continued(seen, ParseFrom(f.bytes, f.pos, n - i))
      {
        ghost var at := f.pos;
        var read := ParseOne(f, seen);
        if !read {
          NoRecord(f.bytes, at, n - i, seen);
          return false, seen;
        }
        ParseTurn(f.bytes, at, n - i, seen);
        seen := seen + [ParseRecord(f.bytes, at)];
      }
      NoMoreRecords(f.bytes, f.pos, seen);
      return true, seen;
    }

    lemma NothingHeld(file: seq<Byte>)
      requires names == [] && images == [] && burnAddrs == burnSizes == sizes == kinds == starts == []
      ensures HoldFields(file, [])
    {
    }

    method ReadImages(f: File, ghost seen: seq<Entry>)
      requires HoldFields(f.bytes, seen) && images == []
      modifies this`images, f`pos
      ensures Aligned() && Abs() == seen
    {
      hide Extent;
      for i := 0 to |names|
        invariant HoldFields(f.bytes, seen) && |images| == i
        invariant forall k :: 0 <= k < i ==> images[k] == Extent(f.bytes, starts[k], sizes[k])
      {
        f.pos := starts[i];
        var image := f.Read(sizes[i]);
        images := images + [image];
      }
    }

    /** One directory record. */
    method ParseOne(f: File, ghost seen: seq<Entry>) returns (ok: bool)
      requires HoldFields(f.bytes, seen)
      modifies this`names, this`burnAddrs, this`burnSizes, this`sizes, this`kinds, this`starts, f`pos
      ensures ok <==> old(f.pos) + RECORD <= |f.bytes| && Ascii(f.bytes[old(f.pos)..old(f.pos) + 32])
      ensures ok ==> f.pos == old(f.pos) + RECORD && HoldFields(f.bytes, seen + [ParseRecord(f.bytes, old(f.pos))])
    {
      hide Ascii, Strip, FromLe32;
      ghost var at := f.pos;
      var info := f.Read(RECORD);
      ExtentWhole(f.bytes, at, RECORD);
      if |info| < RECORD || !Ascii(info[0..32]) {
        assert at + RECORD <= |f.bytes| ==> info[0..32] == f.bytes[at..at + 32];
        return false;
      }
      FieldsOf(f.bytes, at, info);
      var name := StripZeroOctets(info[0..32]);
      names := names + [name];
      starts := starts + [FromLe32(info[32..36])];
      sizes := sizes + [FromLe32(info[36..40])];
      burnAddrs := burnAddrs + [FromLe32(info[40..44])];
      burnSizes := burnSizes + [FromLe32(info[44..48])];
      kinds := kinds + [FromLe32(info[48..52])];
      return true;
    }

    // `create_allinone`

    /** Write a package; nothing is returned when a number does not fit its field or a name cannot be encoded. */
    method CreateAllinone() returns (file: Option<seq<Byte>>)
      requires Aligned()
      ensures file.Some? <==> Packable(Abs())
      ensures file.Some? ==> file.value == Packed(Abs())
    {
      hide Packed, Packable, Images, Directory, Covered, Le32, Le16, CrcBytes, EntryFits, Sizes;
      ghost var entries := Abs();
      PackableParts(entries);
      PackedIs(entries);
      var n := |names|;
      var headLen := n * RECORD + HEADER;
      var total := SumSizes();
      total := total + headLen + GAP * n;
      if n >= 0x1_0000 || total >= U32 {
        return None;
      }
      var f := new File([]);
      f.Write(Le32(FLAG) + [0, 0] + Le16(n) + Le32(total));
      ghost var head := f.bytes;
      var ok := WriteDirectory(f, headLen);
      if !ok {
        return None;
      }
      WriteImages(f);
      Plan(Le32(FLAG), Le16(n), Le32(total), Directory(entries, headLen), Images(entries));
      PutChecksum(f, headLen, Le32(FLAG), Covered(entries), Images(entries));
      return Some(f.bytes);
    }

    /** The checksum of what follows it, up to the end of the directory, goes into octets 4 and 5. */
    method PutChecksum(f: File, headLen: nat, ghost flag: seq<Byte>, ghost covered: seq<Byte>, ghost images: seq<Byte>)
      requires |flag| == 4 && |covered| == headLen - 6 > 0 && f.bytes == flag + [0, 0] + covered + images
      modifies f
      ensures f.bytes == flag + CrcBytes(covered) + covered + images
    {
      f.pos := 6;
      var data := f.Read(headLen - 6);
      assert data == covered;
      var t := new Crc16Tool();
      var crc := t.Crcb(data);
      f.pos := 4;
      f.Write([LowByte(Low16(crc)), HighByte(Low16(crc))]);
    }

    method SumSizes() returns (sum: nat)
      requires Aligned()
      ensures sum == Sizes(Abs())
    {
      ghost var entries := Abs();
      sum := 0;
      for i := 0 to |sizes|
        invariant sum == Sizes(entries[..i])
      {
        SizesSplit(entries[..i + 1], i);
        assert entries[..i + 1][..i] == entries[..i] && entries[..i + 1][i..] == [entries[i]];
        sum := sum + sizes[i];
      }
      assert entries[..|sizes|] == entries;
    }

    method WriteDirectory(f: File, headLen: nat) returns (ok: bool)
      requires Aligned() && f.pos == |f.bytes| && headLen == HeadLength(|names|) && Total(Abs()) < U32
      modifies f
      ensures ok <==> forall i :: 0 <= i < |names| ==> EntryFits(Abs()[i])
      ensures ok ==> f.bytes == old(f.bytes) + Directory(Abs(), headLen) && f.pos == |f.bytes|
    {
      hide Record, Directory, EntryFits, Start, Total;
      ghost var entries, before := Abs(), f.bytes;
      var startIndex := headLen;
      FirstStart(entries);
      assert before + [] == before;
      for i := 0 to |names|
        invariant startIndex == Start(entries, i) && f.pos == |f.bytes|
        invariant forall j :: 0 <= j < i ==> EntryFits(entries[j])
        invariant f.bytes == before + Records(entries, i)
      {
        StartFits(entries, i);
        NextStart(entries, i);
        var written := WriteRecord(f, i, startIndex);
        if !written {
          return false;
        }
        Joined(before, Records(entries, i), Record(entries[i], startIndex));
        startIndex := startIndex + sizes[i] + GAP;
      }
      WholeDirectory(entries);
      return true;
    }

    method WriteRecord(f: File, i: nat, startIndex: nat) returns (ok: bool)
      requires Aligned() && f.pos == |f.bytes| && i < |names| && startIndex < U32
      modifies f
      ensures ok <==> EntryFits(Abs()[i])
      ensures ok ==> f.bytes == old(f.bytes) + Record(Abs()[i], startIndex) && f.pos == |f.bytes|
    {
      hide Le32, NameField, Basename;
      var pathName := Basename(names[i]);
      if !Ascii(pathName) || sizes[i] >= U32 || burnAddrs[i] >= U32 || burnSizes[i] >= U32 || kinds[i] >= U32 {
        return false;
      }
      f.Write(NameField(pathName) + Le32(startIndex) + Le32(sizes[i]) + Le32(burnAddrs[i]) + Le32(burnSizes[i])
              + Le32(kinds[i]));
      return true;
    }

    method WriteImages(f: File)
      requires Aligned() && f.pos == |f.bytes|
      modifies f
      ensures f.bytes == old(f.bytes) + Images(Abs()) && f.pos == |f.bytes|
    {
      hide Images;
      ghost var entries, before := Abs(), f.bytes;
      NoImages(entries);
      assert before + [] == before;
      for i := 0 to |images|
        invariant f.pos == |f.bytes| && f.bytes == before + Images(entries[..i])
      {
        ImagesStep(entries, i);
        ghost var middle := f.bytes;
        f.Write(images[i]);
        f.Write(Zeros(GAP));
        Joined(before, Images(entries[..i]), images[i] + Zeros(GAP));
      }
      assert entries[..|images|] == entries;
    }
  }

  lemma FieldsOf(file: seq<Byte>, at: nat, info: seq<Byte>)
    requires at + RECORD <= |file| && info == file[at..at + RECORD]
    ensures info[0..32] == file[at..at + 32]
    ensures FromLe32(info[32..36]) == Field(file, at + 32) && FromLe32(info[36..40]) == Field(file, at + 36)
    ensures FromLe32(info[40..44]) == Field(file, at + 40) && FromLe32(info[44..48]) == Field(file, at + 44)
    ensures FromLe32(info[48..52]) == Field(file, at + 48)
  {
    hide FromLe32;
    assert info[32..36] == file[at + 32..at + 36] && info[36..40] == file[at + 36..at + 40];
    assert info[40..44] == file[at + 40..at + 44] && info[44..48] == file[at + 44..at + 48];
    assert info[48..52] == file[at + 48..at + 52];
  }

  lemma NoRecord(file: seq<Byte>, at: nat, n: nat, seen: seq<Entry>)
    requires n > 0 && (at + RECORD > |file| || !Ascii(file[at..at + 32]))
    ensures Continued(seen, ParseFrom(file, at, n)) == None
  {
  }

  lemma NoMoreRecords(file: seq<Byte>, at: nat, seen: seq<Entry>)
    ensures Continued(seen, ParseFrom(file, at, 0)) == Some(seen)
  {
    assert seen + [] == seen;
  }

  lemma NothingContinued(rest: Option<seq<Entry>>)
    ensures Continued([], rest) == rest
  {
    assert rest.Some? ==> [] + rest.value == rest.value;
  }

  lemma NoImages(entries: seq<Entry>)
    ensures Images(entries[..0]) == []
  {
  }

  lemma Joined(a: seq<Byte>, b: seq<Byte>, c: seq<Byte>)
    ensures a + b + c == a + (b + c)
  {
  }

  lemma StartFits(entries: seq<Entry>, k: nat)
    requires k < |entries|
    ensures Start(entries, k) <= Total(entries)
  {
    SizesSplit(entries, k);
  }

  lemma PackableParts(entries: seq<Entry>)
    ensures Packable(entries) <==>
      && |entries| < 0x1_0000
      && Sizes(entries) + (|entries| * RECORD + HEADER) + GAP * |entries| < U32
      && forall i :: 0 <= i < |entries| ==> EntryFits(entries[i])
  {
  }

  /** The file before the checksum goes in. */
  lemma Plan(flag: seq<Byte>, count: seq<Byte>, total: seq<Byte>, directory: seq<Byte>, images: seq<Byte>)
    ensures flag + [0, 0] + count + total + directory + images == flag + [0, 0] + (count + total + directory) + images
  {
  }

  lemma PackedIs(entries: seq<Entry>)
    ensures Packed(entries) == Le32(FLAG) + CrcBytes(Covered(entries)) + Covered(entries) + Images(entries)
    ensures Covered(entries) == Le16(|entries|) + Le32(Total(entries)) + Directory(entries, HeadLength(|entries|))
  {
  }

  /** `update_bin`: nothing is written when the package cannot be parsed or packed. */
  method UpdateBin(package: seq<Byte>, items: seq<Item>) returns (out: Option<seq<Byte>>)
    ensures out == match Parse(package)
                   case None => None
                   case Some(entries) =>
                     var updated := UpdateAll(entries, items);
                     if Packable(updated) then Some(Packed(updated)) else None
  {
    hide Parse, Packed, Packable, UpdateAll;
    var f := new File(package);
    var lists := new Lists();
    var ok := lists.ParseAllinone(f);
    if !ok {
      return None;
    }
    lists.Update(items);
    out := lists.CreateAllinone();
  }

  /** `delete_bin`. */
  method DeleteBin(package: seq<Byte>, paths: seq<Name>) returns (out: Option<seq<Byte>>)
    ensures out == match Parse(package)
                   case None => None
                   case Some(entries) =>
                     var left := DeleteAll(entries, paths);
                     if Packable(left) then Some(Packed(left)) else None
  {
    hide Parse, Packed, Packable, DeleteAll;
    var f := new File(package);
    var lists := new Lists();
    var ok := lists.ParseAllinone(f);
    if !ok {
      return None;
    }
    lists.Delete(paths);
    out := lists.CreateAllinone();
  }
}
