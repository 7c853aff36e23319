/** write_ssd: packs files from sector 2 and writes the catalogue that lists them. */
module SsdWriter {
  import opened Bytes
  import opened StableSort
  import opened DfsCatalogue

  /** A manifest entry with its addresses parsed and its content read. Text is code points. */
  datatype FileSpec = FileSpec(name: seq<nat>, directory: nat, locked: bool, load: int, exec: int, body: seq<byte>)

  datatype Placed = Placed(file: FileSpec, start: nat)

  /** The four exits with a message, and the three Python exceptions. */
  datatype SsdError =
    | TooManyFiles
    | BadDiscSize
    | TitleNotAscii
    | NameNotAscii
    | BadName
    | DiscFull(needed: nat)
    | DirectoryNotAByte

  // ------------------------------------------------------------ allocation

  function Sectors(length: nat): nat {
    (length + 255) / 256
  }

  function Size(f: FileSpec): nat {
    Sectors(|f.body|)
  }

  /** The first sector after `files` packed from `sector`. */
  function EndOf(files: seq<FileSpec>, sector: nat): nat {
    if files == [] then sector else EndOf(files[1..], sector + Size(files[0]))
  }

  function Place(files: seq<FileSpec>, sector: nat): (placed: seq<Placed>)
    ensures |placed| == |files|
  {
    if files == [] then []
    else [Placed(files[0], sector)] + Place(files[1..], sector + Size(files[0]))
  }

  /** body.ljust(n, b"\0") for the next multiple of 256 */
  function PadBody(body: seq<byte>): seq<byte> {
    body + Zeros(Sectors(|body|) * 256 - |body|)
  }

  function DataArea(files: seq<FileSpec>): seq<byte> {
    if files == [] then [] else PadBody(files[0].body) + DataArea(files[1..])
  }

  lemma {:induction false} AppendFile(files: seq<FileSpec>, f: FileSpec, sector: nat)
    ensures Place(files + [f], sector) == Place(files, sector) + [Placed(f, EndOf(files, sector))]
    ensures EndOf(files + [f], sector) == EndOf(files, sector) + Size(f)
    ensures DataArea(files + [f]) == DataArea(files) + PadBody(f.body)
  {
    var more := files + [f];
    if files == [] {
      assert more[1..] == [];
    } else {
      var next := sector + Size(files[0]);
      AppendFile(files[1..], f, next);
      assert more[0] == files[0] && more[1..] == files[1..] + [f];
      assert Place(more, sector) == [Placed(files[0], sector)] + Place(more[1..], next);
      assert DataArea(more) == PadBody(files[0].body) + DataArea(more[1..]);
    }
  }

  // --------------------------------------------------------- catalogue slots

  /** key=lambda p: (-start, -length) */
  predicate PlacedLe(a: Placed, b: Placed) {
    a.start > b.start || (a.start == b.start && |a.file.body| >= |b.file.body|)
  }

  function Catalogued(files: seq<FileSpec>): seq<Placed> {
    Sort(Place(files, 2), PlacedLe)
  }

  predicate IsAscii(text: seq<nat>) {
    forall i :: 0 <= i < |text| ==> text[i] < 128
  }

  function AsciiBytes(text: seq<nat>): (r: seq<byte>)
    requires IsAscii(text)
    ensures |r| == |text|
  {
    seq(|text|, i requires 0 <= i < |text| => text[i])
  }

  predicate GoodName(f: FileSpec) {
    IsAscii(f.name) && 1 <= |f.name| <= 7
  }

  predicate Storable(f: FileSpec) {
    GoodName(f) && f.directory < 256
  }

  /** (value & 0xFFFF).to_bytes(2, "little") */
  function LowWord(value: int): (r: seq<byte>)
    ensures |r| == 2
  {
    var w := value % 0x1_0000;
    [w % 256, w / 256]
  }

  function WriterSlot(p: Placed): Slot
    requires Storable(p.file)
  {
    var f, length := p.file, |p.file.body|;
    Slot(PadName(AsciiBytes(f.name)) + [DirByte(f.directory, f.locked)],
         LowWord(f.load) + LowWord(f.exec) + LowWord(length) +
         [(f.exec / 0x1_0000 % 4) * 64 + (length / 0x1_0000 % 4) * 16 + (f.load / 0x1_0000 % 4) * 4
          + p.start / 256 % 4,
          p.start % 256])
  }

  function AsEntry(p: Placed): Entry
    requires Storable(p.file)
  {
    var f := p.file;
    Entry(AsciiBytes(f.name), f.directory, f.locked, f.load, f.exec, |f.body|, p.start)
  }

  lemma LowWordBytes(v: int)
    ensures LowWord(v) == [Low(v), High(v)]
  {
    assert v % 0x1_0000 % 256 == v % 256;
    assert v % 0x1_0000 / 256 == v / 256 % 256;
  }

  /** The writer's slot format is the repairer's. */
  lemma WriterMatchesRepairer(p: Placed)
    requires Storable(p.file)
    ensures WriterSlot(p) == Encode(AsEntry(p))
  {
    LowWordBytes(p.file.load);
    LowWordBytes(p.file.exec);
    LowWordBytes(|p.file.body|);
    var a, b := WriterSlot(p).meta, Encode(AsEntry(p)).meta;
    assert a == b;
  }

  function SlotsOf(placed: seq<Placed>): (slots: seq<Slot>)
    requires forall p :: p in placed ==> Storable(p.file)
    ensures |slots| == |placed|
  {
    seq(|placed|, i requires 0 <= i < |placed| => WriterSlot(placed[i]))
  }

  // ------------------------------------------------------- the whole image

  /** disc_title.encode("ascii")[:12].ljust(12, b"\0") */
  function TitleBytes(title: seq<nat>): (r: seq<byte>)
    requires IsAscii(title)
    ensures |r| == 12
  {
    var t := if |title| > 12 then title[..12] else title;
    AsciiBytes(t) + Zeros(12 - |t|)
  }

  function Head0(title: seq<nat>): Field
    requires IsAscii(title)
  {
    TitleBytes(title)[..8]
  }

  /** Title, cycle number 0, eight bytes per file, boot option none and the disc size. */
  function Head1(title: seq<nat>, count: nat, discSectors: nat): Field
    requires IsAscii(title) && count <= MAX_FILES
  {
    TitleBytes(title)[8..] + [0, count * 8, discSectors / 256 % 4, discSectors % 256]
  }

  lemma CataloguedFiles(files: seq<FileSpec>)
    ensures |Catalogued(files)| == |files|
    ensures multiset(Catalogued(files)) == multiset(Place(files, 2))
    ensures forall p :: p in Catalogued(files) ==> p.file in files
    ensures forall f :: f in files ==> exists p :: p in Catalogued(files) && p.file == f
  {
    PlacedLeIsOrder();
    SortSorts(Place(files, 2), PlacedLe);
    PlacedFiles(files, 2);
    forall p | p in Catalogued(files)
      ensures p.file in files
    {
      assert p in multiset(Catalogued(files));
    }
    forall f | f in files
      ensures exists p :: p in Catalogued(files) && p.file == f
    {
      var p :| p in Place(files, 2) && p.file == f;
      assert p in multiset(Catalogued(files));
    }
  }

  lemma PlacedLeIsOrder()
    ensures IsOrder(PlacedLe)
  {}

  lemma {:induction false} PlacedFiles(files: seq<FileSpec>, sector: nat)
    ensures forall p :: p in Place(files, sector) ==> p.file in files
    ensures forall f :: f in files ==> exists p :: p in Place(files, sector) && p.file == f
  {
    if files == [] {
    } else {
      PlacedFiles(files[1..], sector + Size(files[0]));
      var head := Placed(files[0], sector);
      assert Place(files, sector)[0] == head;
      forall f | f in files
        ensures exists p :: p in Place(files, sector) && p.file == f
      {
        if f != files[0] {
          assert f in files[1..];
          var p :| p in Place(files[1..], sector + Size(files[0])) && p.file == f;
          assert p in Place(files, sector);
        } else {
          assert head in Place(files, sector) && head.file == f;
        }
      }
    }
  }

  function CatalogueOf(files: seq<FileSpec>, title: seq<nat>, discSectors: nat): (cat: seq<byte>)
    requires |files| <= MAX_FILES && IsAscii(title)
    requires forall f :: f in files ==> Storable(f)
    ensures |cat| == CATALOGUE_SIZE
  {
    CataloguedFiles(files);
    Layout(Head0(title), Head1(title, |files|, discSectors), SlotsOf(Catalogued(files)))
  }

  function FirstNameError(files: seq<FileSpec>): Option<SsdError> {
    if files == [] then None
    else if !IsAscii(files[0].name) then Some(NameNotAscii)
    else if !GoodName(files[0]) then Some(BadName)
    else FirstNameError(files[1..])
  }

  lemma {:induction false} NoNameError(files: seq<FileSpec>)
    ensures FirstNameError(files).None? <==> forall f :: f in files ==> GoodName(f)
  {
    if files == [] {
    } else {
      NoNameError(files[1..]);
      assert files[0] in files;
      assert forall f :: f in files <==> f == files[0] || f in files[1..];
    }
  }

  /** What write_ssd leaves on disc, or why it stops; errors in the order the code meets them. */
  function SsdImage(files: seq<FileSpec>, title: seq<nat>, discSectors: int): Result<seq<byte>, SsdError> {
    if |files| > 31 then Err(TooManyFiles)
    else if !(2 <= discSectors <= 1023) then Err(BadDiscSize)
    else if !IsAscii(title) then Err(TitleNotAscii)
    else if FirstNameError(files).Some? then Err(FirstNameError(files).value)
    else if EndOf(files, 2) > discSectors then Err(DiscFull(EndOf(files, 2)))
    else if exists f :: f in files && f.directory >= 256 then Err(DirectoryNotAByte)
    else
      NoNameError(files);
      Ok(CatalogueOf(files, title, discSectors) + DataArea(files))
  }

  // ------------------------------------------------- catalogue order, extents

  /** Every file ends where the one listed above it starts; the last one starts at `first`. */
  ghost predicate ZeroGap(q: seq<Placed>, first: nat) {
    && (forall i :: 0 <= i < |q| - 1 ==> q[i + 1].start + Size(q[i + 1].file) == q[i].start)
    && (q != [] ==> q[|q| - 1].start == first)
  }

  lemma ConsZeroGap(x: Placed, t: seq<Placed>, first: nat)
    requires t != [] && ZeroGap(t, first) && t[0].start + Size(t[0].file) == x.start
    ensures ZeroGap([x] + t, first)
  {
    var r := [x] + t;
    forall i | 0 <= i < |r| - 1
      ensures r[i + 1].start + Size(r[i + 1].file) == r[i].start
    {
      if i > 0 { assert r[i + 1] == t[i] && r[i] == t[i - 1]; }
    }
  }

  lemma TailZeroGap(q: seq<Placed>, first: nat)
    requires q != [] && ZeroGap(q, first)
    ensures ZeroGap(q[1..], first)
    ensures |q| > 1 ==> q[1].start + Size(q[1].file) == q[0].start
  {
    forall i | 0 <= i < |q| - 2
      ensures q[1..][i + 1].start + Size(q[1..][i + 1].file) == q[1..][i].start
    {
      assert q[1..][i + 1] == q[(i + 1) + 1] && q[1..][i] == q[i + 1];
    }
  }

  lemma {:induction false} InsertKeepsZeroGap(p: Placed, q: seq<Placed>)
    requires ZeroGap(q, p.start + Size(p.file))
    requires forall x :: x in q ==> x.start >= p.start + Size(p.file)
    ensures ZeroGap(Insert(p, q, PlacedLe), p.start)
    ensures var head := Insert(p, q, PlacedLe)[0]; head == p || (q != [] && head == q[0])
  {
    if q == [] {
    } else if PlacedLe(p, q[0]) {
      assert q[0].start == p.start && |q[0].file.body| == 0;
      EmptyAtFirst(q, p.start);
      assert ZeroGap(q, p.start);
      ConsZeroGap(p, q, p.start);
    } else {
      TailZeroGap(q, p.start + Size(p.file));
      InsertKeepsZeroGap(p, q[1..]);
      ConsZeroGap(q[0], Insert(p, q[1..], PlacedLe), p.start);
    }
  }

  /** In a gap-free list ending at `first`, nothing below an entry starts lower than `first`. */
  lemma EmptyAtFirst(q: seq<Placed>, first: nat)
    requires q != [] && ZeroGap(q, first) && q[0].start == first
    ensures forall i :: 0 <= i < |q| ==> q[i].start == first
  {
    forall i | 0 <= i < |q|
      ensures q[i].start == first
    {
      Descending(q, first, 0, i);
      Descending(q, first, i, |q| - 1);
    }
  }

  lemma {:induction false} Descending(q: seq<Placed>, first: nat, i: nat, j: nat)
    requires ZeroGap(q, first) && i <= j < |q|
    ensures i < j ==> q[j].start + Size(q[j].file) <= q[i].start
    ensures q[j].start <= q[i].start
    decreases j - i
  {
    if i < j { Descending(q, first, i + 1, j); }
  }

  lemma {:induction false} PlaceStarts(files: seq<FileSpec>, sector: nat)
    ensures forall p :: p in Place(files, sector) ==>
      sector <= p.start && p.start + Size(p.file) <= EndOf(files, sector)
    ensures sector <= EndOf(files, sector)
  {
    if files == [] {
    } else {
      PlaceStarts(files[1..], sector + Size(files[0]));
    }
  }

  lemma {:induction false} SortedPlacementHasZeroGap(files: seq<FileSpec>, sector: nat)
    ensures ZeroGap(Sort(Place(files, sector), PlacedLe), sector)
    decreases |files|
  {
    if files == [] {
    } else {
      var next := sector + Size(files[0]);
      var rest := Sort(Place(files[1..], next), PlacedLe);
      SortedPlacementHasZeroGap(files[1..], next);
      PlaceStarts(files[1..], next);
      PlacedLeIsOrder();
      SortSorts(Place(files[1..], next), PlacedLe);
      forall x | x in rest
        ensures x.start >= next
      {
        assert x in multiset(rest);
      }
      InsertKeepsZeroGap(Placed(files[0], sector), rest);
      assert Place(files, sector)[1..] == Place(files[1..], next);
    }
  }

  /** The order the writer chooses leaves no gap and no overlap, whatever mix of empty files
      shares a start sector: DFS sees each file end exactly where the next one up begins. */
  lemma ZeroGapOrder(files: seq<FileSpec>)
    ensures var q := Catalogued(files);
      && |q| == |files|
      && (forall i :: 0 <= i < |q| - 1 ==> q[i + 1].start + Size(q[i + 1].file) == q[i].start)
      && (q != [] ==> q[|q| - 1].start == 2)
      && (forall i, j :: 0 <= i < j < |q| ==> q[j].start + Size(q[j].file) <= q[i].start)
      && (forall i :: 0 <= i < |q| ==> 2 <= q[i].start && q[i].start + Size(q[i].file) <= EndOf(files, 2))
  {
    var q := Catalogued(files);
    SortedPlacementHasZeroGap(files, 2);
    CataloguedFiles(files);
    PlaceStarts(files, 2);
    forall i, j | 0 <= i < j < |q|
      ensures q[j].start + Size(q[j].file) <= q[i].start
    {
      Descending(q, 2, i, j);
    }
    forall i | 0 <= i < |q|
      ensures 2 <= q[i].start && q[i].start + Size(q[i].file) <= EndOf(files, 2)
    {
      assert q[i] in multiset(q);
    }
  }

  // ------------------------------------------------------------- read back

  /** What survives a slot: a byte-sized directory that is neither NUL nor over 127, a name that
      does not end in a space or NUL, and 18-bit addresses. */
  predicate Readable(f: FileSpec)
    requires GoodName(f)
  {
    && f.name[|f.name| - 1] != 32 && f.name[|f.name| - 1] != 0
    && 1 <= f.directory < 128
    && 0 <= f.load < 0x4_0000 && 0 <= f.exec < 0x4_0000
  }

  /** Body of each file at its start sector. */
  lemma {:induction false} BodiesInPlace(files: seq<FileSpec>, sector: nat, p: Placed)
    requires p in Place(files, sector)
    ensures sector <= p.start
    ensures (p.start - sector) * 256 + |p.file.body| <= |DataArea(files)|
    ensures DataArea(files)[(p.start - sector) * 256..(p.start - sector) * 256 + |p.file.body|] == p.file.body
  {
    var first, rest := PadBody(files[0].body), DataArea(files[1..]);
    assert |first| == Size(files[0]) * 256;
    if p != Placed(files[0], sector) {
      var next := sector + Size(files[0]);
      BodiesInPlace(files[1..], next, p);
      SliceRight(first, rest, (p.start - next) * 256, |p.file.body|);
    } else {
      assert (first + rest)[..|p.file.body|] == p.file.body;
    }
  }

  lemma SliceRight(a: seq<byte>, b: seq<byte>, offset: nat, n: nat)
    requires offset + n <= |b|
    ensures (a + b)[|a| + offset..|a| + offset + n] == b[offset..offset + n]
  {}

  function EntriesOf(placed: seq<Placed>): (es: seq<Entry>)
    requires forall p :: p in placed ==> Storable(p.file)
    ensures |es| == |placed|
  {
    seq(|placed|, i requires 0 <= i < |placed| => AsEntry(placed[i]))
  }

  /** Start sectors and lengths always fit: a disc has at most 1023 sectors. */
  lemma SlotReadsBack(p: Placed)
    requires Storable(p.file) && p.start + Size(p.file) <= 1023
    ensures Decode(WriterSlot(p)) == Some(AsEntry(p)) <==> Readable(p.file)
  {
    WriterMatchesRepairer(p);
    EncodeDecode(AsEntry(p));
    assert |p.file.body| <= 1023 * 256;
  }

  lemma StorableFiles(files: seq<FileSpec>, title: seq<nat>, discSectors: int)
    requires SsdImage(files, title, discSectors).Ok?
    ensures forall f :: f in files ==> Storable(f)
    ensures forall p :: p in Catalogued(files) ==> Storable(p.file)
  {
    NoNameError(files);
    CataloguedFiles(files);
  }

  lemma CatalogueSlots(files: seq<FileSpec>, title: seq<nat>, discSectors: nat)
    requires |files| <= MAX_FILES && IsAscii(title)
    requires forall f :: f in files ==> Storable(f)
    requires forall p :: p in Catalogued(files) ==> Storable(p.file)
    ensures var cat, q := CatalogueOf(files, title, discSectors), Catalogued(files);
      && |q| == |files| && FileCount(cat) == |files|
      && Decoded(cat, |q|) == DecodedSlots(q)
  {
    var cat, q := CatalogueOf(files, title, discSectors), Catalogued(files);
    var head1 := Head1(title, |files|, discSectors);
    CataloguedFiles(files);
    LayoutHeads(Head0(title), head1, SlotsOf(q));
    assert cat[256..264] == head1 && cat[256 + 5] == cat[256..264][5] == |files| * 8;
    forall i: nat | i < |q|
      ensures Decoded(cat, |q|)[i] == DecodedSlots(q)[i]
    {
      LayoutAt(Head0(title), head1, SlotsOf(q), i);
    }
  }

  function DecodedSlots(placed: seq<Placed>): (ds: seq<Option<Entry>>)
    requires forall p :: p in placed ==> Storable(p.file)
    ensures |ds| == |placed|
  {
    seq(|placed|, i requires 0 <= i < |placed| => Decode(WriterSlot(placed[i])))
  }

  lemma {:induction false} AllPresent(ds: seq<Option<Entry>>)
    requires |Present(ds)| == |ds|
    ensures forall i :: 0 <= i < |ds| ==> ds[i] == Some(Present(ds)[i])
  {
    if ds == [] {
    } else {
      assert |Present(ds[..|ds| - 1])| == |ds| - 1;
      AllPresent(ds[..|ds| - 1]);
    }
  }

  lemma PresentIff(ds: seq<Option<Entry>>, es: seq<Entry>, kept: seq<bool>)
    requires |ds| == |es| == |kept|
    requires forall i :: 0 <= i < |ds| ==> (ds[i] == Some(es[i]) <==> kept[i])
    ensures Present(ds) == es <==> forall i :: 0 <= i < |ds| ==> kept[i]
  {
    if forall i :: 0 <= i < |ds| ==> kept[i] { PresentPrefix(ds, es); }
    if Present(ds) == es { AllPresent(ds); }
  }

  predicate AllReadable(files: seq<FileSpec>)
    requires forall f :: f in files ==> GoodName(f)
  {
    forall f :: f in files ==> Readable(f)
  }

  lemma {:induction false} SlotsReadBack(files: seq<FileSpec>, title: seq<nat>, discSectors: nat)
    requires |files| <= MAX_FILES && IsAscii(title) && EndOf(files, 2) <= 1023
    requires forall f :: f in files ==> Storable(f)
    requires forall p :: p in Catalogued(files) ==> Storable(p.file)
    ensures Parse(CatalogueOf(files, title, discSectors)) == EntriesOf(Catalogued(files)) <==> AllReadable(files)
  {
    hide Decode, WriterSlot, AsEntry, Catalogued, Layout;
    var q := Catalogued(files);
    CatalogueSlots(files, title, discSectors);
    CataloguedFiles(files);
    ZeroGapOrder(files);
    var kept := seq(|q|, i requires 0 <= i < |q| => Readable(q[i].file));
    SlotsKept(q, kept);
    PresentIff(DecodedSlots(q), EntriesOf(q), kept);
    ReadableByIndex(files, q, kept);
  }

  lemma SlotsKept(q: seq<Placed>, kept: seq<bool>)
    requires forall p :: p in q ==> Storable(p.file)
    requires |kept| == |q|
    requires forall i :: 0 <= i < |q| ==> q[i].start + Size(q[i].file) <= 1023
    requires forall i :: 0 <= i < |q| ==> Storable(q[i].file) && kept[i] == Readable(q[i].file)
    ensures forall i :: 0 <= i < |q| ==> (DecodedSlots(q)[i] == Some(EntriesOf(q)[i]) <==> kept[i])
  {
    forall i: nat | i < |q|
      ensures DecodedSlots(q)[i] == Some(EntriesOf(q)[i]) <==> kept[i]
    {
      SlotReadsBack(q[i]);
    }
  }

  lemma ReadableByIndex(files: seq<FileSpec>, q: seq<Placed>, kept: seq<bool>)
    requires forall f :: f in files ==> GoodName(f)
    requires forall p :: p in q ==> p.file in files
    requires forall f :: f in files ==> exists p :: p in q && p.file == f
    requires |kept| == |q|
    requires forall i :: 0 <= i < |q| ==> GoodName(q[i].file) && kept[i] == Readable(q[i].file)
    ensures AllReadable(files) <==> forall i :: 0 <= i < |q| ==> kept[i]
  {
    if forall i :: 0 <= i < |q| ==> kept[i] {
      forall f | f in files
        ensures Readable(f)
      {
        var p :| p in q && p.file == f;
        var i :| 0 <= i < |q| && q[i] == p;
        assert kept[i];
      }
    }
  }

  lemma {:induction false} WrittenParts(files: seq<FileSpec>, title: seq<nat>, discSectors: int)
    requires SsdImage(files, title, discSectors).Ok?
    ensures |files| <= MAX_FILES && IsAscii(title) && EndOf(files, 2) <= discSectors <= 1023 && discSectors >= 2
    ensures forall f :: f in files ==> Storable(f)
    ensures forall p :: p in Catalogued(files) ==> Storable(p.file)
    ensures SsdImage(files, title, discSectors).value == CatalogueOf(files, title, discSectors) + DataArea(files)
    ensures SsdImage(files, title, discSectors).value[..CATALOGUE_SIZE] == CatalogueOf(files, title, discSectors)
  {
    StorableFiles(files, title, discSectors);
    var cat := CatalogueOf(files, title, discSectors);
    assert (cat + DataArea(files))[..CATALOGUE_SIZE] == cat;
  }

  /** Parsing a written catalogue gives back every file's name, directory, lock, addresses, length
      and start, in catalogue order, exactly when each file's metadata can survive a slot. */
  lemma CatalogueReadsBack(files: seq<FileSpec>, title: seq<nat>, discSectors: int)
    requires SsdImage(files, title, discSectors).Ok?
    ensures forall p :: p in Catalogued(files) ==> Storable(p.file)
    ensures forall f :: f in files ==> GoodName(f)
    ensures |SsdImage(files, title, discSectors).value| >= CATALOGUE_SIZE
    ensures Parse(SsdImage(files, title, discSectors).value[..CATALOGUE_SIZE]) == EntriesOf(Catalogued(files))
       <==> AllReadable(files)
  {
    WrittenParts(files, title, discSectors);
    SlotsReadBack(files, title, discSectors);
  }

  /** A directory over 127 and a name that ends in a space: each is written without complaint and does not
      read back. */
  lemma UnreadableFiles()
    ensures NotReadBack(FileSpec([65], 200, false, 0x1900, 0x1900, []))
    ensures NotReadBack(FileSpec([65, 32], 36, false, 0x1900, 0x1900, []))
  {
    UnreadableIsLost(FileSpec([65], 200, false, 0x1900, 0x1900, []));
    UnreadableIsLost(FileSpec([65, 32], 36, false, 0x1900, 0x1900, []));
  }

  ghost predicate NotReadBack(f: FileSpec) {
    var image := SsdImage([f], [], 800);
    && image.Ok? && |image.value| >= CATALOGUE_SIZE
    && (forall p :: p in Catalogued([f]) ==> Storable(p.file))
    && Parse(image.value[..CATALOGUE_SIZE]) != EntriesOf(Catalogued([f]))
  }

  lemma UnreadableIsLost(f: FileSpec)
    requires Storable(f) && f.body == [] && !Readable(f)
    ensures NotReadBack(f)
  {
    hide Parse, EntriesOf, CatalogueOf, Catalogued, Readable;
    assert [f][1..] == [] && FirstNameError([f]) == None && EndOf([f], 2) == 2;
    assert f in [f];
    CatalogueReadsBack([f], [], 800);
  }

  /** The two headers read back: the title, cycle number 0, the file count, boot option none and the
      disc size, which needs the two bits above its byte. */
  lemma HeaderReadsBack(files: seq<FileSpec>, title: seq<nat>, discSectors: int)
    requires SsdImage(files, title, discSectors).Ok?
    ensures IsAscii(title) && |SsdImage(files, title, discSectors).value| >= CATALOGUE_SIZE
    ensures var image := SsdImage(files, title, discSectors).value;
      && image[..8] + image[256..260] == TitleBytes(title)
      && image[260] == 0 && FileCount(image[..CATALOGUE_SIZE]) == |files|
      && image[262] / 4 == 0 && image[263] + 256 * (image[262] as int) == discSectors
  {
    WrittenParts(files, title, discSectors);
    var cat, head1 := CatalogueOf(files, title, discSectors), Head1(title, |files|, discSectors);
    CataloguedFiles(files);
    LayoutHeads(Head0(title), head1, SlotsOf(Catalogued(files)));
    HeadFields(title, |files|, discSectors);
    hide Layout, Head1, TitleBytes, CatalogueOf;
    var image := SsdImage(files, title, discSectors).value;
    hide SsdImage;
    assert image[..8] == cat[..8] && cat[256..264] == head1;
    forall k | 0 <= k < 8
      ensures image[256 + k] == cat[256 + k] == head1[k]
    {
      assert image[256 + k] == image[..CATALOGUE_SIZE][256 + k] && cat[256 + k] == cat[256..264][k];
    }
    assert image[256..260] == head1[..4];
    assert cat[256 + 5] == head1[5] && image[260] == head1[4] && image[262] == head1[6] && image[263] == head1[7];
  }

  lemma HeadFields(title: seq<nat>, count: nat, discSectors: nat)
    requires IsAscii(title) && count <= MAX_FILES && discSectors < 1024
    ensures var h := Head1(title, count, discSectors);
      && Head0(title) + h[..4] == TitleBytes(title) && h[4] == 0 && h[5] / 8 == count && h[5] <= 248
      && h[6] / 4 == 0 && h[7] + 256 * (h[6] as int) == discSectors
  {
    assert Head1(title, count, discSectors)[..4] == TitleBytes(title)[8..];
  }

  /** Each catalogued file's bytes are in the image at its start sector. */
  lemma BodiesReadBack(files: seq<FileSpec>, title: seq<nat>, discSectors: int, i: nat)
    requires SsdImage(files, title, discSectors).Ok? && i < |Catalogued(files)|
    ensures var image, p := SsdImage(files, title, discSectors).value, Catalogued(files)[i];
      && p.start * 256 + |p.file.body| <= |image|
      && image[p.start * 256..p.start * 256 + |p.file.body|] == p.file.body
  {
    WrittenParts(files, title, discSectors);
    var p, cat := Catalogued(files)[i], CatalogueOf(files, title, discSectors);
    CataloguedFiles(files);
    assert p in multiset(Catalogued(files));
    BodiesInPlace(files, 2, p);
    SliceRight(cat, DataArea(files), (p.start - 2) * 256, |p.file.body|);
  }

  // ---------------------------------------------------------------- method

  /** Slice-assigns one slot into the 512-byte catalogue. */
  method PutSlot(cat: array<byte>, i: nat, slot: Slot)
    requires cat.Length == CATALOGUE_SIZE && i < MAX_FILES
    modifies cat
    ensures cat[..256] == old(cat[..8 + 8 * i]) + slot.name + old(cat[16 + 8 * i..256])
    ensures cat[256..] == old(cat[256..264 + 8 * i]) + slot.meta + old(cat[272 + 8 * i..])
  {
    forall j | 0 <= j < 8 { cat[8 + 8 * i + j] := slot.name[j]; }
    forall j | 0 <= j < 8 { cat[264 + 8 * i + j] := slot.meta[j]; }
  }

  lemma PutSlotStep(was: seq<byte>, now: seq<byte>, head0: Field, head1: Field, slots: seq<Slot>, n: nat)
    requires n < |slots| <= MAX_FILES && |was| == |now| == CATALOGUE_SIZE
    requires was == Layout(head0, head1, slots[..n])
    requires now[..256] == was[..8 + 8 * n] + slots[n].name + was[16 + 8 * n..256]
    requires now[256..] == was[256..264 + 8 * n] + slots[n].meta + was[272 + 8 * n..]
    ensures now == Layout(head0, head1, slots[..n + 1])
  {
    var old0, old1 := was[..256], was[256..];
    assert old0 + old1 == was && now[..256] + now[256..] == now;
    assert was[..8 + 8 * n] == old0[..8 + 8 * n] && was[16 + 8 * n..256] == old0[16 + 8 * n..];
    assert was[256..264 + 8 * n] == old1[..8 + 8 * n] && was[272 + 8 * n..] == old1[16 + 8 * n..];
    LayoutStep(old0, old1, now[..256], now[256..], head0, head1, slots, n);
  }

  lemma NextSlot(was: seq<byte>, now: seq<byte>, head0: Field, head1: Field, slots: seq<Slot>, slot: Slot)
    requires |slots| < MAX_FILES && |was| == |now| == CATALOGUE_SIZE && was == Layout(head0, head1, slots)
    requires now[..256] == was[..8 + 8 * |slots|] + slot.name + was[16 + 8 * |slots|..256]
    requires now[256..] == was[256..264 + 8 * |slots|] + slot.meta + was[272 + 8 * |slots|..]
    ensures now == Layout(head0, head1, slots + [slot])
  {
    var more := slots + [slot];
    assert more[..|slots|] == slots && more[..|slots| + 1] == more;
    PutSlotStep(was, now, head0, head1, more, |slots|);
  }

  /** Header bytes can be written before or after the slots. */
  lemma LayoutNewHead(head0: Field, before: Field, after: Field, slots: seq<Slot>, cat: seq<byte>)
    requires |slots| <= MAX_FILES && |cat| == CATALOGUE_SIZE
    requires cat[256..264] == after
    requires forall k :: 0 <= k < 256 || 264 <= k < CATALOGUE_SIZE ==> cat[k] == Layout(head0, before, slots)[k]
    ensures cat == Layout(head0, after, slots)
  {
    LayoutHeads(head0, after, slots);
    forall k | 256 <= k < 264
      ensures cat[k] == after[k - 256]
    {
      assert cat[k] == cat[256..264][k - 256];
    }
  }

  lemma {:induction false} FirstErrorFound(files: seq<FileSpec>, i: nat)
    requires i < |files| && !GoodName(files[i])
    requires forall k :: 0 <= k < i ==> GoodName(files[k])
    ensures FirstNameError(files) == Some(if !IsAscii(files[i].name) then NameNotAscii else BadName)
  {
    if i == 0 {
    } else {
      FirstErrorFound(files[1..], i - 1);
    }
  }

  /** The first loop of write_ssd: checks names, allocates sectors, gathers the data area. */
  method Allocate(files: seq<FileSpec>)
    returns (error: Option<SsdError>, data: seq<byte>, placed: seq<Placed>, sector: nat)
    ensures error == FirstNameError(files)
    ensures error.None? ==> placed == Place(files, 2) && sector == EndOf(files, 2) && data == DataArea(files)
  {
    error, data, placed, sector := None, [], [], 2;
    var n := 0;
    while n < |files|
      invariant n <= |files|
      invariant forall k :: 0 <= k < n ==> GoodName(files[k])
      invariant placed == Place(files[..n], 2) && sector == EndOf(files[..n], 2) && data == DataArea(files[..n])
    {
      var e := files[n];
      if !IsAscii(e.name) { FirstErrorFound(files, n); error := Some(NameNotAscii); return; }
      if !(1 <= |e.name| <= 7) { FirstErrorFound(files, n); error := Some(BadName); return; }
      AppendFile(files[..n], e, 2);
      assert files[..n + 1] == files[..n] + [e];
      placed := placed + [Placed(e, sector)];
      data := data + PadBody(e.body);
      sector := sector + Sectors(|e.body|);
      n := n + 1;
    }
    assert files[..n] == files;
    NoNameError(files);
  }

  /** The second loop: one slot per file in catalogue order; fails on a directory over 255. */
  method FillSlots(cat: array<byte>, sorted: seq<Placed>, ghost head0: Field, ghost head1: Field) returns (ok: bool)
    requires cat.Length == CATALOGUE_SIZE && cat[..] == Layout(head0, head1, [])
    requires |sorted| <= MAX_FILES && forall p :: p in sorted ==> GoodName(p.file)
    modifies cat
    ensures ok <==> forall p :: p in sorted ==> Storable(p.file)
    ensures ok ==> cat[..] == Layout(head0, head1, SlotsOf(sorted))
  {
    ghost var slots: seq<Slot> := [];
    var i := 0;
    while i < |sorted|
      invariant i <= |sorted| && |slots| == i
      invariant forall k :: 0 <= k < i ==> Storable(sorted[k].file) && slots[k] == WriterSlot(sorted[k])
      invariant cat[..] == Layout(head0, head1, slots)
    {
      var p := sorted[i];
      if p.file.directory >= 256 {
        assert p in sorted;
        return false;
      }
      ghost var was, more := cat[..], slots + [WriterSlot(p)];
      PutSlot(cat, i, WriterSlot(p));
      NextSlot(was, cat[..], head0, head1, slots, WriterSlot(p));
      slots := more;
      i := i + 1;
    }
    assert slots == SlotsOf(sorted);
    ok := true;
  }

  /** The four bytes after the title in sector 1. */
  method FillHeader(cat: array<byte>, count: nat, discSectors: nat, title: seq<nat>, ghost slots: seq<Slot>)
    requires cat.Length == CATALOGUE_SIZE && count <= MAX_FILES && IsAscii(title) && |slots| <= MAX_FILES
    requires cat[..] == Layout(Head0(title), TitleBytes(title)[8..] + [0, 0, 0, 0], slots)
    modifies cat
    ensures cat[..] == Layout(Head0(title), Head1(title, count, discSectors), slots)
  {
    ghost var before, after: Field := TitleBytes(title)[8..] + [0, 0, 0, 0], Head1(title, count, discSectors);
    LayoutHeads(Head0(title), before, slots);
    cat[256 + 4] := 0;
    cat[256 + 5] := count * 8;
    cat[256 + 6] := discSectors / 256 % 4;
    cat[256 + 7] := discSectors % 256;
    LayoutNewHead(Head0(title), before, after, slots, cat[..]);
  }

  /** write_ssd; `Ok` carries the bytes written to the output file. */
  method WriteSsd(files: seq<FileSpec>, title: seq<nat>, discSectors: int) returns (r: Result<seq<byte>, SsdError>)
    ensures r == SsdImage(files, title, discSectors)
  {
    if |files| > 31 { return Err(TooManyFiles); }
    if !(2 <= discSectors <= 1023) { return Err(BadDiscSize); }
    if !IsAscii(title) { return Err(TitleNotAscii); }
    var cat, titleBytes := new byte[CATALOGUE_SIZE], TitleBytes(title);
    forall k | 0 <= k < CATALOGUE_SIZE {
      cat[k] := if k < 8 then titleBytes[k] else if 256 <= k < 260 then titleBytes[k - 248] else 0;
    }
    ghost var head1: Field := titleBytes[8..] + [0, 0, 0, 0];
    assert cat[..] == Layout(Head0(title), head1, []);
    var error, data, placed, sector := Allocate(files);
    if error.Some? { return Err(error.value); }
    if sector > discSectors { return Err(DiscFull(sector)); }
    NoNameError(files);
    CataloguedFiles(files);
    var sorted := Sort(placed, PlacedLe);
    var ok := FillSlots(cat, sorted, Head0(title), head1);
    if !ok {
      var p :| p in sorted && !Storable(p.file);
      assert p.file in files && p.file.directory >= 256;
      return Err(DirectoryNotAByte);
    }
    assert forall f :: f in files ==> Storable(f);
    FillHeader(cat, |placed|, discSectors, title, SlotsOf(sorted));
    r := Ok(cat[..] + data);
  }
}
