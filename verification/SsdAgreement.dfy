/** The catalogue writer and the catalogue repairer, proved against each other. */
module SsdAgreement {
  import opened Bytes
  import opened StableSort
  import opened DfsCatalogue
  import opened SsdWriter

  // ----------------------------------------------- one slot, rewritten by the repairer

  /** The slot the repairer would write for what it reads from this one. */
  function Rewritten(slot: Slot): Option<Slot> {
    match Decode(slot)
    case None => None
    case Some(e) => Some(Encode(e))
  }

  /** A directory other than NUL, and a name with a visible character and no NUL after the last one. */
  predicate Stable(f: FileSpec)
    requires Storable(f)
  {
    var name := AsciiBytes(f.name);
    && f.directory != 0 && f.directory != 128
    && RStrip(name) != []
    && forall k :: |RStrip(name)| <= k < |name| ==> name[k] == SPACE
  }

  lemma PaddedStrip(name: seq<byte>)
    requires |name| <= 7
    ensures RStrip(PadName(name)) == RStrip(name)
    ensures PadName(RStrip(name)) == PadName(name) <==>
            forall k :: |RStrip(name)| <= k < |name| ==> name[k] == SPACE
  {
    var r, p := RStrip(name), PadName(name);
    RStripUnique(p, |r|);
    if PadName(r) == p {
      forall k | |r| <= k < |name|
        ensures name[k] == SPACE
      {
        assert p[k] == PadName(r)[k];
      }
    }
  }

  lemma MaskedBytes(v: int)
    ensures Low(v % 0x4_0000) == Low(v) && High(v % 0x4_0000) == High(v)
    ensures v % 0x4_0000 / 65536 % 4 == v / 65536 % 4
  {
    var w := v % 0x4_0000;
    assert v == 0x4_0000 * (v / 0x4_0000) + w;
    assert v / 256 == 1024 * (v / 0x4_0000) + w / 256;
    assert v / 65536 == 4 * (v / 0x4_0000) + w / 65536;
  }

  lemma SameBytes(a: Numbers, b: Numbers)
    requires Low(a.load) == Low(b.load) && High(a.load) == High(b.load)
    requires Low(a.exec) == Low(b.exec) && High(a.exec) == High(b.exec)
    requires Low(a.length) == Low(b.length) && High(a.length) == High(b.length)
    requires a.load / 65536 % 4 == b.load / 65536 % 4 && a.exec / 65536 % 4 == b.exec / 65536 % 4
    requires a.length / 65536 % 4 == b.length / 65536 % 4 && a.start == b.start
    ensures EncodeNumbers(a) == EncodeNumbers(b)
  {}

  lemma MaskedBy(n: Numbers, d: Numbers)
    requires d == Numbers(n.load % 0x4_0000, n.exec % 0x4_0000, n.length % 0x4_0000, n.start)
    ensures EncodeNumbers(d) == EncodeNumbers(n)
  {
    MaskedBytes(n.load);
    MaskedBytes(n.exec);
    MaskedBytes(n.length);
    SameBytes(d, n);
  }

  lemma MaskedNumbers(n: Numbers)
    requires 0 <= n.start < 1024
    ensures EncodeNumbers(DecodeNumbers(EncodeNumbers(n))) == EncodeNumbers(n)
  {
    hide DecodeNumbers, EncodeNumbers;
    NumbersRoundTrip(n);
    MaskedBy(n, DecodeNumbers(EncodeNumbers(n)));
  }

  lemma DirectoryRewritten(x: byte)
    ensures DirByte(DecodeDirectory(x), x >= 128) == x <==> x != 0 && x != 128
  {}

  /** The repairer rewrites a written slot to itself exactly for stable files. */
  lemma SlotRewritten(p: Placed)
    requires Storable(p.file) && p.start <= 1023
    ensures Rewritten(WriterSlot(p)) == Some(WriterSlot(p)) <==> Stable(p.file)
  {
    var f, e := p.file, AsEntry(p);
    var name, d := AsciiBytes(f.name), DirByte(f.directory, f.locked);
    WriterMatchesRepairer(p);
    var slot := WriterSlot(p);
    var n := Numbers(e.load, e.exec, e.length, e.start);
    assert slot.name[..7] == PadName(name) && slot.name[7] == d && slot.meta == EncodeNumbers(n);
    PaddedStrip(name);
    MaskedNumbers(n);
    DirectoryRewritten(d);
    if RStrip(name) != [] {
      SlotsDiffer(slot, RStrip(name), DecodeDirectory(d), d >= 128, DecodeNumbers(slot.meta));
    }
  }

  lemma SlotsDiffer(slot: Slot, name: seq<byte>, directory: byte, locked: bool, n: Numbers)
    requires |name| <= 7
    ensures Encode(Entry(name, directory, locked, n.load, n.exec, n.length, n.start)) == slot <==>
            PadName(name) == slot.name[..7] && DirByte(directory, locked) == slot.name[7]
            && EncodeNumbers(n) == slot.meta
  {
    var r := Encode(Entry(name, directory, locked, n.load, n.exec, n.length, n.start));
    assert r.name[..7] == PadName(name) && r.name[7] == DirByte(directory, locked);
    assert slot.name == slot.name[..7] + [slot.name[7]];
  }

  lemma WrittenStart(p: Placed)
    requires Storable(p.file) && p.start <= 1023
    ensures DecodeNumbers(WriterSlot(p).meta).start == p.start
  {
    WriterMatchesRepairer(p);
    EncodedStart(AsEntry(p));
  }

  lemma EncodedStart(e: Entry)
    requires 0 <= e.start <= 1023
    ensures DecodeNumbers(Encode(e).meta).start == e.start
  {
    hide DecodeNumbers, EncodeNumbers;
    NumbersRoundTrip(Numbers(e.load, e.exec, e.length, e.start));
  }

  lemma ZeroStart()
    ensures DecodeNumbers(ZERO_SLOT.meta).start == 0
  {}

  lemma WrittenSlotIsNotZero(p: Placed)
    requires Storable(p.file) && 2 <= p.start <= 1023
    ensures WriterSlot(p) != ZERO_SLOT
  {
    WrittenStart(p);
    ZeroStart();
  }

  // --------------------------------------------------------------- whole catalogue

  ghost predicate AllFixed(slots: seq<Slot>) {
    forall i :: 0 <= i < |slots| ==> Rewritten(slots[i]) == Some(slots[i])
  }

  /** Slots, each rewriting to itself, whose entries are already in repair order. */
  ghost predicate Settled(slots: seq<Slot>) {
    AllFixed(slots) && Sorted(DecodedEntries(slots), EntryLe)
  }

  /** What `parse_catalogue` shows for a slot, with a placeholder where it shows nothing. */
  function DecodedEntry(slot: Slot): Entry {
    match Decode(slot)
    case Some(e) => e
    case None => Entry([], 0, false, 0, 0, 0, 0)
  }

  function DecodedEntries(slots: seq<Slot>): (es: seq<Entry>)
    ensures |es| == |slots|
  {
    seq(|slots|, i requires 0 <= i < |slots| => DecodedEntry(slots[i]))
  }

  lemma LayoutDecoded(head0: Field, head1: Field, slots: seq<Slot>)
    requires |slots| <= MAX_FILES
    ensures forall i: nat :: i < |slots| ==> Decoded(Layout(head0, head1, slots), |slots|)[i] == Decode(slots[i])
  {
    forall i: nat | i < |slots|
      ensures Decoded(Layout(head0, head1, slots), |slots|)[i] == Decode(slots[i])
    {
      LayoutAt(head0, head1, slots, i);
    }
  }

  lemma SettledIsFixed(head0: Field, head1: Field, slots: seq<Slot>)
    requires |slots| <= MAX_FILES && head1[5] / 8 == |slots|
    requires Settled(slots)
    ensures Fix(Layout(head0, head1, slots)) == Layout(head0, head1, slots)
  {
    var cat, es := Layout(head0, head1, slots), DecodedEntries(slots);
    LayoutHeads(head0, head1, slots);
    assert cat[256 + 5] == cat[256..264][5];
    LayoutDecoded(head0, head1, slots);
    forall i: nat | i < |slots|
      ensures Decode(slots[i]) == Some(es[i]) && Encode(es[i]) == slots[i]
    {
      assert Rewritten(slots[i]) == Some(slots[i]);
    }
    PresentPrefix(Decoded(cat, |slots|), es);
    SortFixesSorted(es, EntryLe);
    assert EncodeAll(es) == slots;
  }

  lemma FixedIsSettled(head0: Field, head1: Field, slots: seq<Slot>)
    requires |slots| <= MAX_FILES && head1[5] / 8 == |slots|
    requires forall i :: 0 <= i < |slots| ==> slots[i] != ZERO_SLOT
    requires Fix(Layout(head0, head1, slots)) == Layout(head0, head1, slots)
    ensures Settled(slots)
  {
    hide Decode, Encode, DecodeNumbers, EncodeNumbers;
    var cat := Layout(head0, head1, slots);
    var found, sorted := Parse(cat), Sort(Parse(cat), EntryLe);
    LayoutHeads(head0, head1, slots);
    assert cat[256 + 5] == cat[256..264][5];
    FixFacts(cat);
    RepairIsProjection(cat);
    assert Fix(cat) == Layout(cat[..8], cat[256..264], EncodeAll(sorted));
    hide Layout, Fix, Sort, Parse;
    forall i: nat | i < |slots|
      ensures slots[i] == SlotOrZero(EncodeAll(sorted), i)
    {
      LayoutAt(head0, head1, slots, i);
      LayoutAt(cat[..8], cat[256..264], EncodeAll(sorted), i);
    }
    assert |found| < |slots| ==> slots[|slots| - 1] == ZERO_SLOT;
    LayoutDecoded(head0, head1, slots);
    ParsedAll(cat, slots, found);
    forall i: nat | i < |slots|
      ensures Decode(slots[i]) == Some(sorted[i]) && Encode(sorted[i]) == slots[i]
    {}
    assert DecodedEntries(slots) == sorted;
  }

  lemma ParsedAll(cat: seq<byte>, slots: seq<Slot>, found: seq<Entry>)
    requires |cat| == CATALOGUE_SIZE && |slots| <= MAX_FILES && FileCount(cat) == |slots| == |found|
    requires found == Parse(cat)
    ensures Decoded(cat, |slots|) == seq(|slots|, i requires 0 <= i < |slots| => Some(found[i]))
  {
    hide Decode;
    AllPresent(Decoded(cat, |slots|));
  }

  /** The repair order of two files on one start sector: by directory without the lock bit, then by name. */
  predicate RepairKeyLe(f: FileSpec, g: FileSpec)
    requires Storable(f) && Storable(g)
  {
    var df, dg := f.directory % 128, g.directory % 128;
    df < dg || (df == dg && TextLe(RStrip(AsciiBytes(f.name)), RStrip(AsciiBytes(g.name))))
  }

  /** Files i and j share a start sector when every file from i up to j is empty. */
  predicate OnlyEmpty(files: seq<FileSpec>, i: nat, j: nat)
    requires j <= |files|
  {
    forall k :: i <= k < j ==> files[k].body == []
  }

  /** Files that share a start sector were given in the order the repairer lists them: empty ones in
      ascending order, and one that is not empty, which always comes last, before all of them. */
  predicate TiesInRepairOrder(files: seq<FileSpec>)
    requires forall f :: f in files ==> Storable(f)
  {
    forall i, j :: 0 <= i < j < |files| && OnlyEmpty(files, i, j) ==>
      if files[j].body == [] then RepairKeyLe(files[i], files[j]) else RepairKeyLe(files[j], files[i])
  }

  // ------------------------------------------------------- ties, as the writer lists them

  /** Two placed files in repair order, if they share a start sector. */
  predicate TieLe(a: Placed, b: Placed) {
    a.start == b.start && Storable(a.file) && Storable(b.file) ==> RepairKeyLe(a.file, b.file)
  }

  lemma {:induction false} PlaceStep(files: seq<FileSpec>, sector: nat, k: nat)
    requires k < |files|
    ensures Place(files, sector)[k].file == files[k]
    ensures k + 1 < |files| ==> Place(files, sector)[k + 1].start == Place(files, sector)[k].start + Size(files[k])
  {
    if k == 0 {
    } else {
      PlaceStep(files[1..], sector + Size(files[0]), k - 1);
    }
  }

  lemma {:induction false} PlaceTies(files: seq<FileSpec>, sector: nat, i: nat, j: nat)
    requires i <= j < |files|
    ensures var p := Place(files, sector);
      && p[i].file == files[i] && p[j].file == files[j] && p[i].start <= p[j].start
      && (p[i].start == p[j].start <==> OnlyEmpty(files, i, j))
  {
    PlaceStep(files, sector, i);
    PlaceStep(files, sector, j);
    if i < j {
      PlaceTies(files, sector, i, j - 1);
      PlaceStep(files, sector, j - 1);
      assert Size(files[j - 1]) == 0 <==> files[j - 1].body == [];
    }
  }

  /** The writer's stable sort puts ties in repair order exactly when the files came that way. */
  lemma TiesAsListed(files: seq<FileSpec>)
    requires forall f :: f in files ==> Storable(f)
    ensures Sorted(Catalogued(files), TieLe) <==> TiesInRepairOrder(files)
  {
    hide RepairKeyLe, OnlyEmpty, Sorted, Sort, Place;
    var p := Place(files, 2);
    PlacedLeIsOrder();
    SortListsPairs(p, PlacedLe, TieLe);
    forall i: nat, j: nat | i < j < |files|
      ensures ListedAs(p[i], p[j], PlacedLe, TieLe) <==>
        (OnlyEmpty(files, i, j) ==>
         if files[j].body == [] then RepairKeyLe(files[i], files[j]) else RepairKeyLe(files[j], files[i]))
    {
      PlaceTies(files, 2, i, j);
      if OnlyEmpty(files, i, j) { EmptyAt(files, i, j); }
    }
  }

  lemma EmptyAt(files: seq<FileSpec>, i: nat, j: nat)
    requires i < j <= |files| && OnlyEmpty(files, i, j)
    ensures files[i].body == []
  {}

  // --------------------------------------------------------------- writer and repairer

  /** The repairer leaves a freshly written catalogue byte for byte alone exactly when every file is
      stable and files sharing a start sector were given in the order the repairer lists them. */
  lemma RepairLeavesWrittenCatalogue(files: seq<FileSpec>, title: seq<nat>, discSectors: int)
    requires SsdImage(files, title, discSectors).Ok?
    ensures forall f :: f in files ==> Storable(f)
    ensures |SsdImage(files, title, discSectors).value| >= CATALOGUE_SIZE
    ensures var cat := SsdImage(files, title, discSectors).value[..CATALOGUE_SIZE];
            Fix(cat) == cat <==> (forall f :: f in files ==> Stable(f)) && TiesInRepairOrder(files)
  {
    WrittenParts(files, title, discSectors);
    var q := Catalogued(files);
    var slots := SlotsOf(q);
    CataloguedFiles(files);
    ZeroGapOrder(files);
    var head0, head1 := Head0(title), Head1(title, |files|, discSectors);
    forall i: nat | i < |q|
      ensures slots[i] != ZERO_SLOT
    {
      WrittenSlotIsNotZero(q[i]);
    }
    SettledSlots(q);
    StableFiles(files, q);
    TiesAsListed(files);
    if Settled(slots) { SettledIsFixed(head0, head1, slots); }
    if Fix(Layout(head0, head1, slots)) == Layout(head0, head1, slots) { FixedIsSettled(head0, head1, slots); }
  }

  lemma StableFiles(files: seq<FileSpec>, q: seq<Placed>)
    requires forall f :: f in files ==> Storable(f)
    requires forall p :: p in q ==> p.file in files
    requires forall f :: f in files ==> exists p :: p in q && p.file == f
    ensures (forall f :: f in files ==> Stable(f)) <==> (forall p :: p in q ==> Stable(p.file))
  {
    if forall p :: p in q ==> Stable(p.file) {
      forall f | f in files
        ensures Stable(f)
      {
        var p :| p in q && p.file == f;
      }
    }
  }

  lemma SettledSlots(q: seq<Placed>)
    requires forall p :: p in q ==> Storable(p.file)
    requires forall i :: 0 <= i < |q| ==> 2 <= q[i].start <= 1023
    requires forall i, j :: 0 <= i < j < |q| ==> q[j].start <= q[i].start
    ensures Settled(SlotsOf(q)) <==> (forall p :: p in q ==> Stable(p.file)) && Sorted(q, TieLe)
  {
    var slots := SlotsOf(q);
    forall i: nat | i < |q|
      ensures Rewritten(slots[i]) == Some(slots[i]) <==> Stable(q[i].file)
      ensures Stable(q[i].file) ==> ShownKey(q[i].file, q[i].start, DecodedEntries(slots)[i])
    {
      SlotRewritten(q[i]);
      ShownEntry(q[i]);
    }
    FixedIffStable(q, slots);
    if forall p :: p in q ==> Stable(p.file) { TiesDecideOrder(q, DecodedEntries(slots)); }
  }

  /** The repairer's sort key of an entry is the file's. */
  predicate ShownKey(f: FileSpec, start: nat, e: Entry)
    requires Storable(f)
  {
    e.start == start && e.directory == f.directory % 128 && e.name == RStrip(AsciiBytes(f.name))
  }

  lemma ShownEntry(p: Placed)
    requires Storable(p.file) && p.start <= 1023
    ensures Stable(p.file) ==> ShownKey(p.file, p.start, DecodedEntry(WriterSlot(p)))
  {
    hide DecodeNumbers, EncodeNumbers, LowWord, RStrip;
    var f := p.file;
    WriterMatchesRepairer(p);
    DecodeEncoded(AsEntry(p));
    PaddedStrip(AsciiBytes(f.name));
    if Stable(f) { ShownDirectory(f.directory, f.locked); }
  }

  lemma ShownDirectory(directory: nat, locked: bool)
    requires directory < 256 && directory != 0 && directory != 128
    ensures DecodeDirectory(DirByte(directory, locked)) == directory % 128
  {}

  lemma FixedIffStable(q: seq<Placed>, slots: seq<Slot>)
    requires |slots| == |q| && forall p :: p in q ==> Storable(p.file)
    requires forall i :: 0 <= i < |q| ==>
      Storable(q[i].file) && (Rewritten(slots[i]) == Some(slots[i]) <==> Stable(q[i].file))
    ensures AllFixed(slots) <==> forall p :: p in q ==> Stable(p.file)
  {
    if AllFixed(slots) {
      forall p | p in q
        ensures Stable(p.file)
      {
        var i :| 0 <= i < |q| && q[i] == p;
        assert Rewritten(slots[i]) == Some(slots[i]);
      }
    } else {
      var i :| 0 <= i < |slots| && Rewritten(slots[i]) != Some(slots[i]);
      assert q[i] in q && !Stable(q[i].file);
    }
  }

  lemma TiesDecideOrder(q: seq<Placed>, es: seq<Entry>)
    requires |es| == |q| && forall i :: 0 <= i < |q| ==> Storable(q[i].file) && ShownKey(q[i].file, q[i].start, es[i])
    requires forall i, j :: 0 <= i < j < |q| ==> q[j].start <= q[i].start
    ensures Sorted(es, EntryLe) <==> Sorted(q, TieLe)
  {
    hide TextLe, RStrip, Storable;
    forall i, j | 0 <= i < j < |q|
      ensures EntryLe(es[i], es[j]) <==> TieLe(q[i], q[j])
    {
      assert ShownKey(q[i].file, q[i].start, es[i]) && ShownKey(q[j].file, q[j].start, es[j]);
    }
  }

  /** When no file but the last is empty, nothing but the names and directories can matter. */
  lemma DistinctStartsAgree(files: seq<FileSpec>, title: seq<nat>, discSectors: int)
    requires SsdImage(files, title, discSectors).Ok?
    requires forall i :: 0 <= i < |files| - 1 ==> files[i].body != []
    ensures forall f :: f in files ==> Storable(f)
    ensures |SsdImage(files, title, discSectors).value| >= CATALOGUE_SIZE
    ensures var cat := SsdImage(files, title, discSectors).value[..CATALOGUE_SIZE];
            Fix(cat) == cat <==> forall f :: f in files ==> Stable(f)
  {
    RepairLeavesWrittenCatalogue(files, title, discSectors);
  }

  /** An empty file in directory $ with a one-letter name. */
  function EmptyFile(letter: nat): FileSpec {
    FileSpec([letter], 36, false, 0x1900, 0x1900, [])
  }

  lemma EmptyFilesWritten()
    ensures var files := [EmptyFile(66), EmptyFile(65)];
            SsdImage(files, [], 800).Ok? && !TiesInRepairOrder(files)
  {
    var files := [EmptyFile(66), EmptyFile(65)];
    assert files[1..] == [EmptyFile(65)] && files[1..][1..] == [];
    assert FirstNameError([EmptyFile(65)]) == None && FirstNameError(files) == None;
    assert EndOf([EmptyFile(65)], 2) == 2 && EndOf(files, 2) == 2;
    LettersOutOfOrder(files);
  }

  lemma LettersOutOfOrder(files: seq<FileSpec>)
    requires files == [EmptyFile(66), EmptyFile(65)]
    ensures forall f :: f in files ==> Storable(f)
    ensures !TiesInRepairOrder(files)
  {
    assert AsciiBytes([66]) == [66] && AsciiBytes([65]) == [65];
    assert !TextLe([66], [65]);
    assert OnlyEmpty(files, 0, 1) && !RepairKeyLe(files[0], files[1]);
  }

  /** Two empty files, B before A: the writer keeps their order and the repairer swaps them. */
  lemma EmptyFilesDisagree()
    ensures var image := SsdImage([EmptyFile(66), EmptyFile(65)], [], 800);
            && image.Ok? && |image.value| >= CATALOGUE_SIZE
            && Fix(image.value[..CATALOGUE_SIZE]) != image.value[..CATALOGUE_SIZE]
  {
    EmptyFilesWritten();
    hide *;
    RepairLeavesWrittenCatalogue([EmptyFile(66), EmptyFile(65)], [], 800);
  }
}
