/** The package file, octet by octet: what stands where, for the writer and for the reader. */
module PackageFormat {
  import opened Bytes
  import opened Crc16
  import opened Package
  import opened PackageEdit

  /** The number of two or four octets at `at`, low octet first. */
  function Short(file: seq<Byte>, at: nat): nat
    requires at + 2 <= |file|
  {
    Nat(file[at]) + 0x100 * Nat(file[at + 1])
  }

  function Long(file: seq<Byte>, at: nat): nat
    requires at + 4 <= |file|
  {
    Nat(file[at]) + 0x100 * Nat(file[at + 1]) + 0x1_0000 * Nat(file[at + 2]) + 0x100_0000 * Nat(file[at + 3])
  }

  lemma ShortIs(file: seq<Byte>, at: nat)
    requires at + 2 <= |file|
    ensures FromLe16(file[at..at + 2]) == Short(file, at)
  {
    var part := file[at..at + 2];
    assert part[0] == file[at] && part[1] == file[at + 1];
  }

  lemma LongIs(file: seq<Byte>, at: nat)
    requires at + 4 <= |file|
    ensures FromLe32(file[at..at + 4]) == Long(file, at)
  {
    hide Nat;
    var part := file[at..at + 4];
    assert part[0] == file[at] && part[1] == file[at + 1] && part[2] == file[at + 2] && part[3] == file[at + 3];
  }

  lemma OctetIs(n: nat, b: Byte)
    requires n % 0x100 == Nat(b)
    ensures Low8(n) == b
  {
    Low8IsMod256(n);
    NatInjective(Low8(n), b);
  }

  lemma FlagOctets()
    ensures Le32(FLAG) == [0xDF, 0xAD, 0xBE, 0xEF]
  {
    hide Low8, Nat;
    NatAsInt(0xDF);
    NatAsInt(0xAD);
    NatAsInt(0xBE);
    NatAsInt(0xEF);
    OctetIs(FLAG, 0xDF);
    OctetIs(FLAG / 0x100, 0xAD);
    OctetIs(FLAG / 0x1_0000, 0xBE);
    OctetIs(FLAG / 0x100_0000, 0xEF);
  }

  /** Where image `k` begins: behind the head, the directory, and the images before it with sixteen zero octets each. */
  function ImageAt(entries: seq<Entry>, k: nat): nat
    requires k <= |entries|
  {
    if k == 0 then 12 + 52 * |entries| else ImageAt(entries, k - 1) + |entries[k - 1].image| + 16
  }

  lemma {:induction false} ImageAtIsStart(entries: seq<Entry>, k: nat)
    requires Consistent(entries) && k <= |entries|
    ensures ImageAt(entries, k) == Start(entries, k)
    decreases k
  {
    if k > 0 {
      ImageAtIsStart(entries, k - 1);
      SizesSplit(entries[..k], k - 1);
      assert entries[..k][..k - 1] == entries[..k - 1];
      assert entries[..k][k - 1..] == [entries[k - 1]];
    }
  }

  /** The head of a package: its mark, the checksum of everything behind the checksum up to the first image, low octet
      first, the number of images, and the length of the file, which ends behind the last image. */
  lemma HeadExactly(entries: seq<Entry>)
    requires Packable(entries) && Consistent(entries)
    ensures var file, head := Packed(entries), 12 + 52 * |entries|;
      && head <= |file| == ImageAt(entries, |entries|)
      && file[..4] == [0xDF, 0xAD, 0xBE, 0xEF]
      && MakeWord(file[4], file[5]) == Ccitt(0, file[6..head])
      && Short(file, 6) == |entries| && Long(file, 8) == |file|
  {
    hide Packed, Directory, Images, FromLe16, FromLe32, Le32, EntryFits, MakeWord, Ccitt, Covered, LowByte, HighByte,
      Nat;
    PackedParts(entries);
    ImagesLength(entries);
    Le32RoundTrip(Total(entries));
    ImageAtIsStart(entries, |entries|);
    assert entries[..|entries|] == entries;
    var file, covered := Packed(entries), Covered(entries);
    ShortIs(file, 6);
    LongIs(file, 8);
    FlagOctets();
    MarkStands(entries);
    HalvesMakeWord(Ccitt(0, covered));
    var crc := file[4..6];
    assert crc[0] == file[4] && crc[1] == file[5];
    assert crc == [LowByte(Ccitt(0, covered)), HighByte(Ccitt(0, covered))];
  }

  lemma MarkStands(entries: seq<Entry>)
    requires |entries| < 0x1_0000
    ensures |Packed(entries)| >= 4 && Packed(entries)[..4] == Le32(FLAG)
  {
    hide Le32, CrcBytes, Covered, Images;
  }

  lemma {:induction false} DirectoryAt(entries: seq<Entry>, start: nat, k: nat)
    requires k < |entries| && Consistent(entries)
    ensures At(Directory(entries, start), 52 * k, Record(entries[k], start + Sizes(entries[..k]) + GAP * k))
    decreases k
  {
    hide Record;
    var first, rest := Record(entries[0], start), Directory(entries[1..], start + entries[0].size + GAP);
    assert first + rest == Directory(entries, start);
    if k == 0 {
      AtParts(first + rest, 0, first, rest);
    } else {
      DirectoryAt(entries[1..], start + entries[0].size + GAP, k - 1);
      assert entries[1..][..k - 1] == entries[..k][1..];
      assert (first + rest)[52..] == rest;
      Shifted(first, rest, 52 * (k - 1), Record(entries[k], start + Sizes(entries[..k]) + GAP * k));
    }
  }

  lemma Shifted(a: seq<Byte>, b: seq<Byte>, at: nat, part: seq<Byte>)
    requires At(b, at, part)
    ensures At(a + b, |a| + at, part)
  {
    assert (a + b)[|a| + at..|a| + at + |part|] == b[at..at + |part|];
  }

  lemma PartOfPart(file: seq<Byte>, at: nat, whole: seq<Byte>, i: nat, part: seq<Byte>)
    requires At(file, at, whole) && At(whole, i, part)
    ensures At(file, at + i, part)
  {
    var w, inner := file[at..at + |whole|], whole[i..i + |part|];
    forall j | 0 <= j < |part|
      ensures file[at + i..at + i + |part|][j] == part[j]
    {
      assert w[i + j] == file[at + i + j] && inner[j] == whole[i + j];
    }
  }

  /** The directory record of image `k`, and the image: the name filled up with zero octets, then where the image
      begins, its size, burn address, burn size and kind, low octet first; the image itself, and sixteen zero octets. */
  lemma RecordExactly(entries: seq<Entry>, k: nat)
    requires Packable(entries) && Consistent(entries) && k < |entries|
    ensures var file, e, at, image := Packed(entries), entries[k], 12 + 52 * k, ImageAt(entries, k);
      var name := Key(e.name);
      && at + 52 <= |file| && image + |e.image| + 16 <= |file|
      && file[at..at + |name|] == name && (forall i :: at + |name| <= i < at + 32 ==> file[i] == 0)
      && Long(file, at + 32) == image && Long(file, at + 36) == |e.image|
      && Long(file, at + 40) == e.burnAddr && Long(file, at + 44) == e.burnSize && Long(file, at + 48) == e.kind
      && file[image..image + |e.image|] == e.image
      && (forall i :: image + |e.image| <= i < image + |e.image| + 16 ==> file[i] == 0)
  {
    hide Packed, Packable, Key, Start, Long, At, Record, ImageAt;
    RecordStands(entries, k);
    ImageAtIsStart(entries, k);
    RecordName(Packed(entries), 12 + 52 * k, entries[k], Start(entries, k));
    RecordNumbers(Packed(entries), 12 + 52 * k, entries[k], Start(entries, k));
    ImageWithin(entries, k);
    assert entries[k].size == |entries[k].image|;
  }

  lemma RecordStands(entries: seq<Entry>, k: nat)
    requires Packable(entries) && Consistent(entries) && k < |entries|
    ensures At(Packed(entries), 12 + 52 * k, Record(entries[k], Start(entries, k)))
    ensures Start(entries, k) < U32 && EntryFits(entries[k])
  {
    hide Packed, Directory, Images, FromLe16, Covered, CrcBytes, Record, At, EntryFits, Le32;
    var head := HeadLength(|entries|);
    PackedParts(entries);
    DirectoryAt(entries, head, k);
    PartOfPart(Packed(entries), HEADER, Directory(entries, head), 52 * k, Record(entries[k], Start(entries, k)));
    StartWithin(entries, k);
  }

  lemma RecordNumbers(file: seq<Byte>, at: nat, e: Entry, start: nat)
    requires At(file, at, Record(e, start)) && EntryFits(e) && start < U32
    ensures at + 52 <= |file|
    ensures Long(file, at + 32) == start && Long(file, at + 36) == e.size
    ensures Long(file, at + 40) == e.burnAddr && Long(file, at + 44) == e.burnSize && Long(file, at + 48) == e.kind
  {
    hide Record, EntryFits, Long, FromLe32, Strip, Key, Ascii;
    RecordReadBack(file, at, e, start);
    LongIs(file, at + 32);
    LongIs(file, at + 36);
    LongIs(file, at + 40);
    LongIs(file, at + 44);
    LongIs(file, at + 48);
  }

  lemma ImageWithin(entries: seq<Entry>, k: nat)
    requires Packable(entries) && Consistent(entries) && k < |entries|
    ensures var file, image, start := Packed(entries), entries[k].image, Start(entries, k);
      && start + |image| + 16 <= |file| && file[start..start + |image|] == image
      && forall i :: start + |image| <= i < start + |image| + 16 ==> file[i] == 0
  {
    hide Packed, Start;
    ImageStands(entries, k);
    ZerosStand(Packed(entries), Start(entries, k) + entries[k].size);
  }

  lemma StartWithin(entries: seq<Entry>, k: nat)
    requires Packable(entries) && Consistent(entries) && k < |entries|
    ensures Start(entries, k) == HeadLength(|entries|) + Sizes(entries[..k]) + GAP * k < U32
  {
    SizesSplit(entries, k);
  }

  lemma RecordName(file: seq<Byte>, at: nat, e: Entry, start: nat)
    requires At(file, at, Record(e, start))
    ensures var name := Key(e.name);
      |name| <= 32 && file[at..at + |name|] == name && forall i :: at + |name| <= i < at + 32 ==> file[i] == 0
  {
    hide Record, Basename, Le32;
    RecordParts(e, start);
    var r, name := Record(e, start), Key(e.name);
    var field := name + Zeros(32 - |name|);
    forall i | 0 <= i < 32
      ensures file[at + i] == field[i]
    {
      assert file[at..at + |r|][i] == r[i] == r[0..32][i];
    }
    forall i | 0 <= i < |name|
      ensures file[at..at + |name|][i] == name[i]
    {
      assert file[at + i] == field[i];
    }
    forall i | at + |name| <= i < at + 32
      ensures file[i] == 0
    {
      assert file[at + (i - at)] == field[i - at];
    }
  }

  lemma ZerosStand(file: seq<Byte>, at: nat)
    requires At(file, at, Zeros(GAP))
    ensures forall i :: at <= i < at + 16 ==> file[i] == 0
  {
    var part := file[at..at + 16];
    assert forall j :: 0 <= j < 16 ==> part[j] == file[at + j];
    forall i | at <= i < at + 16
      ensures file[i] == 0
    {
      assert part[i - at] == file[i];
    }
  }

  // Names -----------------------------------------------------------------------------------------

  /** What a path is filed under: the first 32 octets of what follows its last slash. */
  lemma {:induction false} NameExactly(path: Name) returns (folder: Name, base: Name)
    ensures path == folder + base && 0x2F !in base && (folder == [] || folder[|folder| - 1] == 0x2F)
    ensures Key(path) == base[..if |base| <= 32 then |base| else 32]
    ensures base == Basename(path)
    decreases |path|
  {
    base := Basename(path);
    if path == [] {
      folder := [];
    } else if path[|path| - 1] == 0x2F {
      folder := path;
    } else {
      var front;
      folder, front := NameExactly(path[..|path| - 1]);
      assert path == path[..|path| - 1] + [path[|path| - 1]];
    }
    assert base[..|base|] == base;
  }

  /** Zero octets are dropped from a name wherever they stand, and nothing else is. */
  lemma {:induction false} StripExactly(a: Name, b: Name)
    ensures Strip(a + b) == Strip(a) + Strip(b) && Strip([]) == []
    ensures forall c: Byte :: Strip([c]) == if c == 0 then [] else [c]
    decreases |a|
  {
    forall c: Byte
      ensures Strip([c]) == if c == 0 then [] else [c]
    {
      assert [c][1..] == [];
    }
    if a == [] {
      assert a + b == b;
    } else {
      assert (a + b)[1..] == a[1..] + b;
      StripExactly(a[1..], b);
    }
  }

  // Reading ---------------------------------------------------------------------------------------

  predicate NameReads(file: seq<Byte>, at: nat) {
    at + 52 <= |file| && forall i :: at <= i < at + 32 ==> file[i] < 0x80
  }

  /** An entry is what its directory record says; of its image, as much as the file has. */
  ghost predicate ReadFrom(file: seq<Byte>, at: nat, e: Entry)
    requires at + 52 <= |file|
  {
    var from, size := Long(file, at + 32), Long(file, at + 36);
    && e.name == Strip(file[at..at + 32]) && e.size == size
    && e.burnAddr == Long(file, at + 40) && e.burnSize == Long(file, at + 44) && e.kind == Long(file, at + 48)
    && e.image == if from >= |file| then [] else file[from..if from + size <= |file| then from + size else |file|]
  }

  lemma RecordIsRead(file: seq<Byte>, at: nat)
    requires at + 52 <= |file|
    ensures ReadFrom(file, at, ParseRecord(file, at))
  {
    hide FromLe32, Long, Strip;
    LongIs(file, at + 32);
    LongIs(file, at + 36);
    LongIs(file, at + 40);
    LongIs(file, at + 44);
    LongIs(file, at + 48);
  }

  lemma AsciiName(file: seq<Byte>, at: nat)
    requires at + 52 <= |file|
    ensures Ascii(file[at..at + 32]) <==> NameReads(file, at)
  {
    var name := file[at..at + 32];
    assert forall i :: 0 <= i < 32 ==> name[i] == file[at + i];
    if Ascii(name) {
      forall i | at <= i < at + 32
        ensures file[i] < 0x80
      {
        assert name[i - at] == file[i];
      }
    }
  }

  lemma {:induction false} DirectoryIsWhole(file: seq<Byte>, at: nat, n: nat)
    ensures ParseFrom(file, at, n).Some? <==> forall k :: 0 <= k < n ==> NameReads(file, at + 52 * k)
    ensures ParseFrom(file, at, n).Some? ==> |ParseFrom(file, at, n).value| == n
    decreases n
  {
    hide ParseRecord, Ascii, NameReads;
    if n > 0 {
      FirstAndRest(file, at, n);
      if at + 52 > |file| {
        TooShort(file, at);
      } else {
        AsciiName(file, at);
        DirectoryIsWhole(file, at + 52, n - 1);
      }
    }
  }

  lemma {:induction false} RecordOf(file: seq<Byte>, at: nat, n: nat, k: nat)
    requires ParseFrom(file, at, n).Some? && k < n
    ensures |ParseFrom(file, at, n).value| == n && at + 52 * k + 52 <= |file|
    ensures ParseFrom(file, at, n).value[k] == ParseRecord(file, at + 52 * k)
    decreases n
  {
    hide ParseRecord, Ascii;
    DirectoryIsWhole(file, at, n);
    if k > 0 {
      RecordOf(file, at + 52, n - 1, k - 1);
      assert at + 52 + 52 * (k - 1) == at + 52 * k;
    }
  }

  lemma FirstAndRest(file: seq<Byte>, at: nat, n: nat)
    requires n > 0
    ensures (forall k :: 0 <= k < n ==> NameReads(file, at + 52 * k)) <==>
      NameReads(file, at) && forall k :: 0 <= k < n - 1 ==> NameReads(file, at + 52 + 52 * k)
  {
    hide NameReads;
    if forall k :: 0 <= k < n ==> NameReads(file, at + 52 * k) {
      assert NameReads(file, at + 52 * 0);
      forall k | 0 <= k < n - 1
        ensures NameReads(file, at + 52 + 52 * k)
      {
        assert NameReads(file, at + 52 * (k + 1));
      }
    }
    if NameReads(file, at) && forall k :: 0 <= k < n - 1 ==> NameReads(file, at + 52 + 52 * k) {
      forall k | 0 <= k < n
        ensures NameReads(file, at + 52 * k)
      {
        if k > 0 {
          assert NameReads(file, at + 52 + 52 * (k - 1));
        }
      }
    }
  }

  lemma TooShort(file: seq<Byte>, at: nat)
    requires at + 52 > |file|
    ensures !NameReads(file, at)
  {
  }

  /** For every file: it is read if and only if it has twelve octets, and a whole record with a readable name for each
      image it announces; and the entries are what the records say. */
  lemma ReadExactly(file: seq<Byte>)
    ensures Parse(file).Some? <==>
      |file| >= 12 && forall k :: 0 <= k < Short(file, 6) ==> NameReads(file, 12 + 52 * k)
    ensures Parse(file).Some? ==>
      && |Parse(file).value| == Short(file, 6)
      && forall k :: 0 <= k < Short(file, 6) ==>
           12 + 52 * k + 52 <= |file| && ReadFrom(file, 12 + 52 * k, Parse(file).value[k])
  {
    hide ParseFrom, FromLe16, NameReads, ReadFrom, Short, ParseRecord;
    if |file| >= 12 {
      var n := Short(file, 6);
      ShortIs(file, 6);
      DirectoryIsWhole(file, 12, n);
      if Parse(file).Some? {
        forall k | 0 <= k < n
          ensures 12 + 52 * k + 52 <= |file| && ReadFrom(file, 12 + 52 * k, Parse(file).value[k])
        {
          RecordOf(file, 12, n, k);
          RecordIsRead(file, 12 + 52 * k);
        }
      }
    }
  }

  /** Fields of 32 bits, and a file name in ASCII. */
  predicate FieldsFit(e: Entry) {
    && e.burnAddr < 0x1_0000_0000 && e.burnSize < 0x1_0000_0000 && e.kind < 0x1_0000_0000
    && forall b :: b in Basename(e.name) ==> b < 0x80
  }

  /** What fits: fewer than 2^16 images in less than 2^32 octets, and fields that fit. */
  lemma PackableExactly(entries: seq<Entry>)
    requires Consistent(entries)
    ensures Packable(entries) <==>
      && |entries| < 0x1_0000 && ImageAt(entries, |entries|) < 0x1_0000_0000
      && forall i :: 0 <= i < |entries| ==> FieldsFit(entries[i])
  {
    hide EntryFits, FieldsFit, Sizes, ImageAt;
    ImageAtIsStart(entries, |entries|);
    assert entries[..|entries|] == entries;
    if Total(entries) < U32 {
      forall i | 0 <= i < |entries|
        ensures EntryFits(entries[i]) <==> FieldsFit(entries[i])
      {
        SizesSplit(entries, i);
        OwnSize(entries, i);
        AsciiOctets(Basename(entries[i].name));
        FitsExactly(entries[i]);
      }
    }
  }

  lemma FitsExactly(e: Entry)
    requires e.size < U32 && (Ascii(Basename(e.name)) <==> forall b :: b in Basename(e.name) ==> b < 0x80)
    ensures EntryFits(e) <==> FieldsFit(e)
  {
    hide Ascii, Basename;
  }

  lemma OwnSize(entries: seq<Entry>, i: nat)
    requires i < |entries|
    ensures Sizes(entries[i..]) >= entries[i].size
  {
    assert entries[i..][0] == entries[i];
  }

  lemma AsciiOctets(name: Name)
    ensures Ascii(name) <==> forall b :: b in name ==> b < 0x80
  {
    if forall b :: b in name ==> b < 0x80 {
      forall i | 0 <= i < |name|
        ensures name[i] < 0x80
      {
        assert name[i] in name;
      }
    }
  }
}
