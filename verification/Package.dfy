/** Firmware packages: a header with a checksum, one directory record for each image, and the images,
    each followed by sixteen zero octets. */
module Package {
  import opened Bytes
  import opened Crc16

  type Name = seq<Byte>

  /** One image: `size` is what the directory says, `image` what was read. */
  datatype Entry = Entry(name: Name, burnAddr: nat, burnSize: nat, size: nat, kind: nat, image: seq<Byte>)

  const U32 := 0x1_0000_0000
  const FLAG := 0xefbe_addf
  const RECORD := 52
  const HEADER := 12
  const GAP := 16

  function Zeros(n: nat): (z: seq<Byte>)
    ensures |z| == n && forall i :: 0 <= i < n ==> z[i] == 0
  {
    seq(n, _ => 0)
  }

  // Names ---------------------------------------------------------------------------------------

  /** What follows the last slash. */
  function Basename(path: Name): (name: Name)
    ensures |name| <= |path| && 0x2F !in name
    decreases |path|
  {
    if path == [] then []
    else if path[|path| - 1] == 0x2F then []
    else Basename(path[..|path| - 1]) + [path[|path| - 1]]
  }

  function Clip(name: Name): (short: Name)
    ensures |short| <= 32
  {
    if |name| > 32 then name[..32] else name
  }

  /** The name under which a path is filed. */
  function Key(path: Name): Name {
    Clip(Basename(path))
  }

  predicate Ascii(s: Name) {
    forall i :: 0 <= i < |s| ==> s[i] < 0x80
  }

  function Strip(s: Name): Name
    decreases |s|
  {
    if s == [] then []
    else if s[0] == 0 then Strip(s[1..])
    else [s[0]] + Strip(s[1..])
  }

  // Writing -------------------------------------------------------------------------------------

  function NameField(name: Name): (s: seq<Byte>)
    ensures |s| == 32
  {
    Clip(name) + Zeros(32 - |Clip(name)|)
  }

  function Record(e: Entry, start: nat): (s: seq<Byte>)
    ensures |s| == RECORD
  {
    NameField(Basename(e.name)) + Le32(start) + Le32(e.size) + Le32(e.burnAddr) + Le32(e.burnSize) + Le32(e.kind)
  }

  function Directory(entries: seq<Entry>, start: nat): (s: seq<Byte>)
    ensures |s| == RECORD * |entries|
  {
    if entries == [] then []
    else Record(entries[0], start) + Directory(entries[1..], start + entries[0].size + GAP)
  }

  function Images(entries: seq<Entry>): seq<Byte> {
    if entries == [] then [] else entries[0].image + Zeros(GAP) + Images(entries[1..])
  }

  function Sizes(entries: seq<Entry>): nat {
    if entries == [] then 0 else entries[0].size + Sizes(entries[1..])
  }

  function HeadLength(n: nat): nat {
    n * RECORD + HEADER
  }

  function Total(entries: seq<Entry>): nat {
    Sizes(entries) + HeadLength(|entries|) + GAP * |entries|
  }

  function CrcBytes(s: seq<Byte>): (c: seq<Byte>)
    ensures |c| == 2
  {
    [LowByte(Ccitt(0, s)), HighByte(Ccitt(0, s))]
  }

  /** The part of the file that the checksum covers: from the image count to the end of the directory. */
  function Covered(entries: seq<Entry>): (s: seq<Byte>)
    ensures |s| == HeadLength(|entries|) - 6
  {
    Le16(|entries|) + Le32(Total(entries)) + Directory(entries, HeadLength(|entries|))
  }

  function Packed(entries: seq<Entry>): seq<Byte> {
    Le32(FLAG) + CrcBytes(Covered(entries)) + Covered(entries) + Images(entries)
  }

  predicate EntryFits(e: Entry) {
    Ascii(Basename(e.name)) && e.burnAddr < U32 && e.burnSize < U32 && e.size < U32 && e.kind < U32
  }

  /** Every number fits its field and every name can be encoded. */
  predicate Packable(entries: seq<Entry>) {
    && |entries| < 0x1_0000 && Total(entries) < U32
    && forall i :: 0 <= i < |entries| ==> EntryFits(entries[i])
  }

  /** Sizes and images agree. */
  predicate Consistent(entries: seq<Entry>) {
    forall i :: 0 <= i < |entries| ==> entries[i].size == |entries[i].image|
  }

  // Reading -------------------------------------------------------------------------------------

  /** What a read of `size` octets at `start` gives; it stops at the end of the file. */
  function Extent(file: seq<Byte>, start: nat, size: nat): seq<Byte> {
    if start >= |file| then []
    else if start + size <= |file| then file[start..start + size]
    else file[start..]
  }

  function Field(file: seq<Byte>, at: nat): nat
    requires at + 4 <= |file|
  {
    FromLe32(file[at..at + 4])
  }

  function ParseFrom(file: seq<Byte>, at: nat, n: nat): Option<seq<Entry>>
    decreases n
  {
    if n == 0 then Some([])
    else if at + RECORD > |file| || !Ascii(file[at..at + 32]) then None
    else
      match ParseFrom(file, at + RECORD, n - 1)
      case None => None
      case Some(rest) => Some([ParseRecord(file, at)] + rest)
  }

  function ParseRecord(file: seq<Byte>, at: nat): Entry
    requires at + RECORD <= |file|
  {
    var start, size := Field(file, at + 32), Field(file, at + 36);
    Entry(Strip(file[at..at + 32]), Field(file, at + 40), Field(file, at + 44), size, Field(file, at + 48),
          Extent(file, start, size))
  }

  function Parse(file: seq<Byte>): Option<seq<Entry>> {
    if |file| < HEADER then None else ParseFrom(file, HEADER, FromLe16(file[6..8]))
  }

  // Round trip ----------------------------------------------------------------------------------

  /** An entry as it comes back: under its short name, without octets of value zero. */
  function Filed(e: Entry): Entry {
    e.(name := Strip(Key(e.name)))
  }

  function FiledAll(entries: seq<Entry>): (filed: seq<Entry>)
    ensures |filed| == |entries| && forall i :: 0 <= i < |entries| ==> filed[i] == Filed(entries[i])
  {
    if entries == [] then [] else [Filed(entries[0])] + FiledAll(entries[1..])
  }

  lemma {:induction false} StripZeros(n: nat)
    ensures Strip(Zeros(n)) == []
  {
    if n > 0 {
      assert Zeros(n)[1..] == Zeros(n - 1);
      StripZeros(n - 1);
    }
  }

  lemma {:induction false} StripAppend(s: Name, n: nat)
    ensures Strip(s + Zeros(n)) == Strip(s)
    decreases |s|
  {
    if s == [] {
      assert s + Zeros(n) == Zeros(n);
      StripZeros(n);
    } else {
      assert (s + Zeros(n))[1..] == s[1..] + Zeros(n);
      StripAppend(s[1..], n);
    }
  }

  /** A name without zero octets survives unchanged. */
  lemma {:induction false} StripPlain(s: Name)
    requires 0 !in s
    ensures Strip(s) == s
    decreases |s|
  {
    if s != [] {
      assert forall b :: b in s[1..] ==> b in s;
      StripPlain(s[1..]);
      assert [s[0]] + s[1..] == s;
    }
  }

  lemma PartOfRecord(file: seq<Byte>, at: nat, r: seq<Byte>, i: nat, j: nat)
    requires at + |r| <= |file| && file[at..at + |r|] == r && i <= j <= |r|
    ensures file[at + i..at + j] == r[i..j]
  {
    var whole := file[at..at + |r|];
    assert forall k :: i <= k < j ==> whole[k] == file[at + k];
  }

  /** The record of an entry, wherever it stands in a file. */
  lemma RecordReadBack(file: seq<Byte>, at: nat, e: Entry, start: nat)
    requires at + RECORD <= |file| && file[at..at + RECORD] == Record(e, start)
    requires EntryFits(e) && start < U32
    ensures Ascii(file[at..at + 32]) && Strip(file[at..at + 32]) == Strip(Key(e.name))
    ensures Field(file, at + 32) == start && Field(file, at + 36) == e.size
    ensures Field(file, at + 40) == e.burnAddr && Field(file, at + 44) == e.burnSize && Field(file, at + 48) == e.kind
  {
    hide FromLe32, Le32, Record;
    var r := Record(e, start);
    RecordParts(e, start);
    PartOfRecord(file, at, r, 0, 32);
    PartOfRecord(file, at, r, 32, 36);
    PartOfRecord(file, at, r, 36, 40);
    PartOfRecord(file, at, r, 40, 44);
    PartOfRecord(file, at, r, 44, 48);
    PartOfRecord(file, at, r, 48, 52);
    Le32RoundTrip(start);
    Le32RoundTrip(e.size);
    Le32RoundTrip(e.burnAddr);
    Le32RoundTrip(e.burnSize);
    Le32RoundTrip(e.kind);
    StripAppend(Key(e.name), 32 - |Key(e.name)|);
  }

  lemma RecordParts(e: Entry, start: nat)
    ensures var r := Record(e, start);
      && r[0..32] == NameField(Basename(e.name)) && r[32..36] == Le32(start) && r[36..40] == Le32(e.size)
      && r[40..44] == Le32(e.burnAddr) && r[44..48] == Le32(e.burnSize) && r[48..52] == Le32(e.kind)
  {
    hide Le32, NameField, Basename;
  }

  predicate At(file: seq<Byte>, at: nat, part: seq<Byte>) {
    at + |part| <= |file| && file[at..at + |part|] == part
  }

  lemma AtParts(file: seq<Byte>, at: nat, a: seq<Byte>, b: seq<Byte>)
    requires At(file, at, a + b)
    ensures At(file, at, a) && At(file, at + |a|, b)
  {
    var whole := file[at..at + |a| + |b|];
    assert whole[..|a|] == a && whole[|a|..] == b;
    assert file[at..at + |a|] == whole[..|a|];
    assert file[at + |a|..at + |a| + |b|] == whole[|a|..];
  }

  /** Directory and images, wherever they stand in a file, are read back. */
  lemma {:induction false} DirectoryReadBack(file: seq<Byte>, at: nat, entries: seq<Entry>, start: nat)
    requires At(file, at, Directory(entries, start)) && At(file, start, Images(entries))
    requires Consistent(entries) && start + |Images(entries)| < U32
    requires forall i :: 0 <= i < |entries| ==> EntryFits(entries[i])
    ensures ParseFrom(file, at, |entries|) == Some(FiledAll(entries))
    decreases |entries|
  {
    hide Record, EntryFits, Field;
    if entries == [] {
      return;
    }
    var e, rest := entries[0], entries[1..];
    AtParts(file, at, Record(e, start), Directory(rest, start + e.size + GAP));
    AtParts(file, start, e.image + Zeros(GAP), Images(rest));
    AtParts(file, start, e.image, Zeros(GAP));
    RecordReadBack(file, at, e, start);
    DirectoryReadBack(file, at + RECORD, rest, start + e.size + GAP);
    ImageReadBack(file, start, e);
  }

  lemma ImageReadBack(file: seq<Byte>, start: nat, e: Entry)
    requires At(file, start, e.image) && e.size == |e.image|
    ensures Extent(file, start, e.size) == e.image
  {
  }

  lemma {:induction false} ImagesLength(entries: seq<Entry>)
    requires Consistent(entries)
    ensures |Images(entries)| == Sizes(entries) + GAP * |entries|
    decreases |entries|
  {
    if entries != [] {
      ImagesLength(entries[1..]);
    }
  }

  /** The parts of a package, and where they stand. */
  lemma PackedParts(entries: seq<Entry>)
    requires |entries| < 0x1_0000
    ensures var file := Packed(entries);
      && At(file, 6, Covered(entries)) && At(file, 4, CrcBytes(Covered(entries)))
      && At(file, HEADER, Directory(entries, HeadLength(|entries|)))
      && At(file, HeadLength(|entries|), Images(entries))
      && |file| == HeadLength(|entries|) + |Images(entries)| && FromLe16(file[6..8]) == |entries|
      && file[8..12] == Le32(Total(entries))
  {
    hide Le16, Le32, CrcBytes, Directory, Images, FromLe16, Total;
    var n, file, covered := |entries|, Packed(entries), Covered(entries);
    FileParts(file, Le32(FLAG), CrcBytes(covered), covered, Images(entries));
    CoveredParts(file, covered, Le16(n), Le32(Total(entries)), Directory(entries, HeadLength(n)));
    Le16RoundTrip(n);
  }

  lemma FileParts(file: seq<Byte>, flag: seq<Byte>, crc: seq<Byte>, covered: seq<Byte>, images: seq<Byte>)
    requires file == flag + crc + covered + images && |flag| == 4 && |crc| == 2
    ensures At(file, 4, crc) && At(file, 6, covered) && At(file, 6 + |covered|, images)
  {
    assert file == flag + (crc + (covered + images));
    assert At(file, 0, flag + (crc + (covered + images)));
    AtParts(file, 0, flag, crc + (covered + images));
    AtParts(file, 4, crc, covered + images);
    AtParts(file, 6, covered, images);
  }

  lemma CoveredParts(file: seq<Byte>, covered: seq<Byte>, count: seq<Byte>, length: seq<Byte>, directory: seq<Byte>)
    requires At(file, 6, covered) && covered == count + length + directory && |count| == 2 && |length| == 4
    ensures file[6..8] == count && file[8..12] == length && At(file, HEADER, directory)
  {
    assert covered == count + (length + directory);
    AtParts(file, 6, count, length + directory);
    AtParts(file, 8, length, directory);
  }

  /** Parsing what was packed gives back names, addresses, sizes, kinds and images, for any number of
      images. */
  lemma PackageRoundTrip(entries: seq<Entry>)
    requires Packable(entries) && Consistent(entries)
    ensures Parse(Packed(entries)) == Some(FiledAll(entries))
  {
    hide Packed, ParseFrom, Covered, CrcBytes, FromLe16, Directory, Images;
    PackedParts(entries);
    ImagesLength(entries);
    DirectoryReadBack(Packed(entries), HEADER, entries, HeadLength(|entries|));
  }

  /** Where image `k` begins. */
  function Start(entries: seq<Entry>, k: nat): nat
    requires k <= |entries|
  {
    HeadLength(|entries|) + Sizes(entries[..k]) + GAP * k
  }

  lemma {:induction false} SizesSplit(entries: seq<Entry>, k: nat)
    requires k <= |entries|
    ensures Sizes(entries) == Sizes(entries[..k]) + Sizes(entries[k..])
    decreases k
  {
    if k > 0 {
      SizesSplit(entries[1..], k - 1);
      assert entries[..k][1..] == entries[1..][..k - 1];
    }
  }

  lemma {:induction false} ImagesSplit(entries: seq<Entry>, k: nat)
    requires k <= |entries|
    ensures Images(entries) == Images(entries[..k]) + Images(entries[k..])
    decreases k
  {
    if k == 0 {
      assert entries[0..] == entries;
    } else {
      ImagesSplit(entries[1..], k - 1);
      assert entries[..k][1..] == entries[1..][..k - 1];
      assert entries[1..][k - 1..] == entries[k..];
    }
  }

  /** Image `k` stands at its start offset, followed by sixteen zero octets ... */
  lemma ImageStands(entries: seq<Entry>, k: nat)
    requires |entries| < 0x1_0000 && Consistent(entries) && k < |entries|
    ensures At(Packed(entries), Start(entries, k), entries[k].image)
    ensures At(Packed(entries), Start(entries, k) + entries[k].size, Zeros(GAP))
  {
    hide Packed, CrcBytes, Directory, Images, FromLe16, FromLe32, Le32, Sizes, At, Covered;
    PackedParts(entries);
    ImagesLength(entries[..k]);
    ImagesSplit(entries, k);
    var file, head := Packed(entries), HeadLength(|entries|);
    AtParts(file, head, Images(entries[..k]), Images(entries[k..]));
    assert head + |Images(entries[..k])| == Start(entries, k);
    FirstStands(file, Start(entries, k), entries[k..]);
  }

  lemma FirstStands(file: seq<Byte>, at: nat, entries: seq<Entry>)
    requires entries != [] && At(file, at, Images(entries))
    ensures At(file, at, entries[0].image) && At(file, at + |entries[0].image|, Zeros(GAP))
  {
    hide Images;
    FirstImage(entries);
    AtParts(file, at, entries[0].image + Zeros(GAP), Images(entries[1..]));
    AtParts(file, at, entries[0].image, Zeros(GAP));
  }

  lemma FirstImage(entries: seq<Entry>)
    requires entries != []
    ensures Images(entries) == entries[0].image + Zeros(GAP) + Images(entries[1..])
  {
  }

  /** No two images overlap, gaps included, and none reaches into the directory. */
  lemma ExtentsDisjoint(entries: seq<Entry>, j: nat, k: nat)
    requires j < k < |entries|
    ensures HeadLength(|entries|) <= Start(entries, j)
    ensures Start(entries, j) + entries[j].size + GAP <= Start(entries, k)
    ensures Start(entries, k) + entries[k].size + GAP <= Total(entries)
  {
    SizesSplit(entries[..k], j);
    assert entries[..k][..j] == entries[..j];
    assert entries[..k][j..][0] == entries[j];
    SizesSplit(entries, k);
    assert entries[k..][0] == entries[k];
  }
}
