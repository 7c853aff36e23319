/** The two-sector Acorn DFS catalogue: its layout, its reader, and the repairer that re-orders it. */
module DfsCatalogue {
  import opened Bytes
  import opened StableSort

  const SECTOR_SIZE := 256
  const CATALOGUE_SIZE := 512
  const MAX_FILES := 31
  const SPACE: byte := 32
  const DOLLAR: byte := 36

  type Field = s: seq<byte> | |s| == 8 witness [0, 0, 0, 0, 0, 0, 0, 0]

  /** The eight bytes a file has in sector 0 (name and directory) and in sector 1 (addresses). */
  datatype Slot = Slot(name: Field, meta: Field)

  /** file_name, directory and the four numbers as `parse_catalogue` reports them; text is Latin-1. */
  datatype Entry = Entry(name: seq<byte>, directory: byte, locked: bool,
                         load: int, exec: int, length: int, start: int)

  // ---------------------------------------------------------------- layout

  const ZERO_SLOT := Slot([0, 0, 0, 0, 0, 0, 0, 0], [0, 0, 0, 0, 0, 0, 0, 0])

  function SlotOrZero(slots: seq<Slot>, i: nat): Slot {
    if i < |slots| then slots[i] else ZERO_SLOT
  }

  /** Sector 0 then sector 1: eight header bytes each, then slot i at 8 + 8i, unused slots zero. */
  function Layout(head0: Field, head1: Field, slots: seq<Slot>): (cat: seq<byte>)
    requires |slots| <= MAX_FILES
    ensures |cat| == CATALOGUE_SIZE
  {
    seq(CATALOGUE_SIZE, k requires 0 <= k < CATALOGUE_SIZE =>
      if k < 8 then head0[k]
      else if k < 256 then SlotOrZero(slots, (k - 8) / 8).name[(k - 8) % 8]
      else if k < 264 then head1[k - 256]
      else SlotOrZero(slots, (k - 264) / 8).meta[(k - 264) % 8])
  }

  function SlotAt(cat: seq<byte>, i: nat): Slot
    requires |cat| == CATALOGUE_SIZE && i < MAX_FILES
  {
    Slot(cat[8 + 8 * i..16 + 8 * i], cat[264 + 8 * i..272 + 8 * i])
  }

  lemma LayoutAt(head0: Field, head1: Field, slots: seq<Slot>, i: nat)
    requires |slots| <= MAX_FILES && i < MAX_FILES
    ensures SlotAt(Layout(head0, head1, slots), i) == SlotOrZero(slots, i)
  {
    var cat := Layout(head0, head1, slots);
    var want := SlotOrZero(slots, i);
    forall j | 0 <= j < 8
      ensures cat[8 + 8 * i + j] == want.name[j] && cat[264 + 8 * i + j] == want.meta[j]
    {
      assert (8 * i + j) / 8 == i && (8 * i + j) % 8 == j;
    }
    assert cat[8 + 8 * i..16 + 8 * i] == want.name;
    assert cat[264 + 8 * i..272 + 8 * i] == want.meta;
  }

  lemma LayoutHeads(head0: Field, head1: Field, slots: seq<Slot>)
    requires |slots| <= MAX_FILES
    ensures Layout(head0, head1, slots)[..8] == head0
    ensures Layout(head0, head1, slots)[256..264] == head1
  {}

  /** A catalogue is determined by its two headers and its 31 slots. */
  lemma SameCatalogue(a: seq<byte>, b: seq<byte>)
    requires |a| == |b| == CATALOGUE_SIZE
    requires a[..8] == b[..8] && a[256..264] == b[256..264]
    requires forall i :: 0 <= i < MAX_FILES ==> SlotAt(a, i) == SlotAt(b, i)
    ensures a == b
  {
    forall k | 0 <= k < CATALOGUE_SIZE
      ensures a[k] == b[k]
    {
      if k < 8 {
        assert a[k] == a[..8][k] && b[k] == b[..8][k];
      } else if k < 256 {
        var i, j := (k - 8) / 8, (k - 8) % 8;
        assert a[k] == SlotAt(a, i).name[j] && b[k] == SlotAt(b, i).name[j];
      } else if k < 264 {
        assert a[k] == a[256..264][k - 256] && b[k] == b[256..264][k - 256];
      } else {
        var i, j := (k - 264) / 8, (k - 264) % 8;
        assert a[k] == SlotAt(a, i).meta[j] && b[k] == SlotAt(b, i).meta[j];
      }
    }
  }

  // ------------------------------------------------------- one entry, read

  predicate IsBlank(b: byte) {
    b == SPACE || b == 0
  }

  /** rstrip(" \x00") */
  function RStrip(s: seq<byte>): (r: seq<byte>)
    ensures |r| <= |s| && r == s[..|r|]
    ensures r == [] || !IsBlank(r[|r| - 1])
    ensures forall k :: |r| <= k < |s| ==> IsBlank(s[k])
  {
    if s != [] && IsBlank(s[|s| - 1]) then RStrip(s[..|s| - 1]) else s
  }

  lemma {:induction false} RStripUnique(s: seq<byte>, n: nat)
    requires n <= |s|
    requires n == 0 || !IsBlank(s[n - 1])
    requires forall k :: n <= k < |s| ==> IsBlank(s[k])
    ensures RStrip(s) == s[..n]
  {
    if n < |s| {
      RStripUnique(s[..|s| - 1], n);
      assert s[..|s| - 1][..n] == s[..n];
    }
  }

  /** An 18-bit number from a little-endian pair and two extra bits. */
  function Join18(lo: byte, hi: byte, extra: nat): nat {
    lo + 256 * hi + 65536 * extra
  }

  datatype Numbers = Numbers(load: int, exec: int, length: int, start: int)

  /** load_addr, exec_addr, length and start_sector out of a sector 1 field. */
  function DecodeNumbers(m: Field): Numbers {
    var x: int := m[6];
    Numbers(Join18(m[0], m[1], x / 4 % 4), Join18(m[2], m[3], x / 64 % 4), Join18(m[4], m[5], x / 16 % 4),
            m[7] + 256 * (x % 4))
  }

  /** `chr(dir_attr & 0x7F)`, with NUL shown as "$". */
  function DecodeDirectory(dirAttr: byte): byte {
    if dirAttr == 0 || dirAttr == 128 then DOLLAR else if dirAttr < 128 then dirAttr else dirAttr - 128
  }

  function Decode(slot: Slot): Option<Entry> {
    var name := RStrip(slot.name[..7]);
    var n := DecodeNumbers(slot.meta);
    if name == [] then None
    else Some(Entry(name, DecodeDirectory(slot.name[7]), slot.name[7] >= 128, n.load, n.exec, n.length, n.start))
  }

  // ---------------------------------------------------- one entry, written

  function PadName(name: seq<byte>): (r: seq<byte>)
    ensures |r| == 7
  {
    var t := if |name| > 7 then name[..7] else name;
    t + seq(7 - |t|, _ => SPACE)
  }

  /** `(0x80 if locked else 0) | ord(directory)` */
  function DirByte(directory: byte, locked: bool): byte {
    if locked && directory < 128 then directory + 128 else directory
  }

  /** make_extra_bits: the four two-bit fields occupy disjoint bits, so `|` is a sum (ExtraBitsIsOr). */
  function ExtraBits(load: int, exec: int, length: int, start: int): (x: byte) {
    (load / 65536 % 4) * 4 + (exec / 65536 % 4) * 64 + (length / 65536 % 4) * 16 + start / 256 % 4
  }

  /** For two-bit fields, ExtraBits's sum is the bitwise OR of the shifted fields. */
  lemma ExtraBitsIsOr(load: bv8, exec: bv8, length: bv8, start: bv8)
    requires load < 4 && exec < 4 && length < 4 && start < 4
    ensures ((load << 2) | (exec << 6) | (length << 4) | start) as int
         == (load as int) * 4 + (exec as int) * 64 + (length as int) * 16 + start as int
  {}

  /** And the attribute byte is the OR of the lock bit and the directory. */
  lemma DirByteIsOr(directory: bv8, locked: bool)
    ensures DirByte(directory as int, locked) == ((if locked then 0x80 else 0) | directory) as int
  {}

  function Low(v: int): byte {
    v % 256
  }

  function High(v: int): byte {
    v / 256 % 256
  }

  function EncodeNumbers(n: Numbers): Field {
    [Low(n.load), High(n.load), Low(n.exec), High(n.exec), Low(n.length), High(n.length),
     ExtraBits(n.load, n.exec, n.length, n.start), Low(n.start)]
  }

  function Encode(e: Entry): Slot {
    Slot(PadName(e.name) + [DirByte(e.directory, e.locked)],
         EncodeNumbers(Numbers(e.load, e.exec, e.length, e.start)))
  }

  /** What a catalogue slot can hold without loss. */
  predicate Canonical(e: Entry) {
    && 1 <= |e.name| <= 7 && !IsBlank(e.name[|e.name| - 1])
    && 1 <= e.directory < 128
    && 0 <= e.load < 0x4_0000 && 0 <= e.exec < 0x4_0000 && 0 <= e.length < 0x4_0000
    && 0 <= e.start < 1024
  }

  lemma Fields(a: int, b: int, c: int, d: int)
    requires 0 <= a < 4 && 0 <= b < 4 && 0 <= c < 4 && 0 <= d < 4
    ensures var x := a * 4 + b * 64 + c * 16 + d;
            x / 4 % 4 == a && x / 64 % 4 == b && x / 16 % 4 == c && x % 4 == d
  {
    assert (b * 64 + c * 16 + a * 4 + d) / 64 == b;
    assert (b * 64 + c * 16 + a * 4 + d) / 16 == b * 4 + c;
    assert (b * 64 + c * 16 + a * 4 + d) / 4 == b * 16 + c * 4 + a;
  }

  lemma Split18(v: int)
    ensures 0 <= v / 65536 % 4 < 4
    ensures Join18(v % 256, v / 256 % 256, v / 65536 % 4) == v % 0x4_0000
  {
    assert v / 65536 == v / 256 / 256;
    assert v / 65536 / 4 == v / 0x4_0000;
  }

  lemma Split10(v: int)
    ensures v % 256 + 256 * (v / 256 % 4) == v % 1024
  {
    assert v / 256 / 4 == v / 1024;
  }

  /** The packed numbers come back modulo 2^18, and the start sector modulo 2^10. */
  lemma NumbersRoundTrip(n: Numbers)
    ensures DecodeNumbers(EncodeNumbers(n)) ==
            Numbers(n.load % 0x4_0000, n.exec % 0x4_0000, n.length % 0x4_0000, n.start % 1024)
  {
    var m := EncodeNumbers(n);
    var a, b, c, d := n.load / 65536 % 4, n.exec / 65536 % 4, n.length / 65536 % 4, n.start / 256 % 4;
    assert m[6] == a * 4 + b * 64 + c * 16 + d;
    Fields(a, b, c, d);
    Split18(n.load);
    Split18(n.exec);
    Split18(n.length);
    Split10(n.start);
  }

  lemma NumbersRange(m: Field)
    ensures var n := DecodeNumbers(m);
            && 0 <= n.load < 0x4_0000 && 0 <= n.exec < 0x4_0000
            && 0 <= n.length < 0x4_0000 && 0 <= n.start < 1024
  {}

  lemma PadNameStrips(name: seq<byte>)
    requires 1 <= |name| <= 7 && !IsBlank(name[|name| - 1])
    ensures RStrip(PadName(name)) == name
  {
    RStripUnique(PadName(name), |name|);
  }

  /** The general case: what is cut, padded or masked on the way through a slot. */
  function Reread(e: Entry): Option<Entry> {
    var name := RStrip(PadName(e.name));
    var d := DirByte(e.directory, e.locked);
    if name == [] then None
    else Some(Entry(name, DecodeDirectory(d), d >= 128, e.load % 0x4_0000, e.exec % 0x4_0000,
                    e.length % 0x4_0000, e.start % 1024))
  }

  lemma DecodeEncoded(e: Entry)
    ensures Decode(Encode(e)) == Reread(e)
  {
    var s := Encode(e);
    assert s.name[..7] == PadName(e.name) && s.name[7] == DirByte(e.directory, e.locked);
    NumbersRoundTrip(Numbers(e.load, e.exec, e.length, e.start));
  }

  lemma UnchangedIffCanonical(e: Entry, reread: Option<Entry>)
    requires reread == Reread(e)
    ensures reread == Some(e) <==> Canonical(e)
  {
    if Canonical(e) { PadNameStrips(e.name); }
  }

  /** A slot reads back as the entry written to it exactly when nothing had to be cut or masked. */
  lemma EncodeDecode(e: Entry)
    ensures Decode(Encode(e)) == Some(e) <==> Canonical(e)
  {
    DecodeEncoded(e);
    UnchangedIffCanonical(e, Decode(Encode(e)));
  }

  /** Whatever bytes a slot holds, an entry read from it can be written without loss. */
  lemma DecodedIsCanonical(slot: Slot)
    requires Decode(slot).Some?
    ensures Canonical(Decode(slot).value)
  {
    NumbersRange(slot.meta);
  }

  lemma ZeroSlotIsBlank()
    ensures Decode(ZERO_SLOT) == None
  {
    RStripUnique(ZERO_SLOT.name[..7], 0);
  }

  // ------------------------------------------------------- whole catalogue

  function FileCount(cat: seq<byte>): nat
    requires |cat| == CATALOGUE_SIZE
  {
    Min(cat[256 + 5] / 8, MAX_FILES)
  }

  function ToSeq(e: Option<Entry>): seq<Entry> {
    match e case None => [] case Some(v) => [v]
  }

  /** The entries that are present, in slot order. */
  function Present(ds: seq<Option<Entry>>): (es: seq<Entry>)
    ensures |es| <= |ds|
  {
    if ds == [] then [] else Present(ds[..|ds| - 1]) + ToSeq(ds[|ds| - 1])
  }

  function Decoded(cat: seq<byte>, n: nat): (ds: seq<Option<Entry>>)
    requires |cat| == CATALOGUE_SIZE && n <= MAX_FILES
    ensures |ds| == n
  {
    seq(n, i requires 0 <= i < n => Decode(SlotAt(cat, i)))
  }

  function Parse(cat: seq<byte>): seq<Entry>
    requires |cat| == CATALOGUE_SIZE
  {
    Present(Decoded(cat, FileCount(cat)))
  }

  function EncodeAll(entries: seq<Entry>): (slots: seq<Slot>)
    ensures |slots| == |entries|
  {
    seq(|entries|, i requires 0 <= i < |entries| => Encode(entries[i]))
  }

  function Build(head0: Field, head1: Field, entries: seq<Entry>): (cat: seq<byte>)
    ensures |cat| == CATALOGUE_SIZE
  {
    Layout(head0, head1, EncodeAll(if |entries| > MAX_FILES then entries[..MAX_FILES] else entries))
  }

  /** Code-point order on Latin-1 text. */
  predicate TextLe(a: seq<byte>, b: seq<byte>) {
    a == [] || (b != [] && (a[0] < b[0] || (a[0] == b[0] && TextLe(a[1..], b[1..]))))
  }

  /** entry_sort_key: descending start sector, then directory, then name. */
  predicate EntryLe(a: Entry, b: Entry) {
    a.start > b.start ||
    (a.start == b.start &&
     (a.directory < b.directory || (a.directory == b.directory && TextLe(a.name, b.name))))
  }

  function Fix(cat: seq<byte>): (fixed: seq<byte>)
    requires |cat| == CATALOGUE_SIZE
    ensures |fixed| == CATALOGUE_SIZE
  {
    Build(cat[..8], cat[256..264], Sort(Parse(cat), EntryLe))
  }

  lemma {:induction false} TextLeTotal(a: seq<byte>, b: seq<byte>)
    ensures TextLe(a, b) || TextLe(b, a)
  {
    if a != [] && b != [] { TextLeTotal(a[1..], b[1..]); }
  }

  lemma {:induction false} TextLeTransitive(a: seq<byte>, b: seq<byte>, c: seq<byte>)
    requires TextLe(a, b) && TextLe(b, c)
    ensures TextLe(a, c)
  {
    if a != [] && a[0] == b[0] == c[0] { TextLeTransitive(a[1..], b[1..], c[1..]); }
  }

  lemma EntryLeIsOrder()
    ensures IsOrder(EntryLe)
  {
    forall a, b
      ensures EntryLe(a, b) || EntryLe(b, a)
    {
      TextLeTotal(a.name, b.name);
    }
    forall a, b, c | EntryLe(a, b) && EntryLe(b, c)
      ensures EntryLe(a, c)
    {
      if TextLe(a.name, b.name) && TextLe(b.name, c.name) {
        TextLeTransitive(a.name, b.name, c.name);
      }
    }
  }

  lemma {:induction false} PresentFrom(ds: seq<Option<Entry>>)
    ensures forall e :: e in Present(ds) ==> Some(e) in ds
  {
    if ds == [] {
    } else {
      PresentFrom(ds[..|ds| - 1]);
    }
  }

  /** A run of present entries followed by blanks only. */
  lemma {:induction false} PresentPrefix(ds: seq<Option<Entry>>, entries: seq<Entry>)
    requires |entries| <= |ds|
    requires forall i :: 0 <= i < |ds| ==> ds[i] == if i < |entries| then Some(entries[i]) else None
    ensures Present(ds) == entries
  {
    if ds == [] {
    } else {
      var last := |ds| - 1;
      if |entries| == |ds| {
        PresentPrefix(ds[..last], entries[..last]);
        assert entries == entries[..last] + [entries[last]];
      } else {
        PresentPrefix(ds[..last], entries);
      }
    }
  }

  lemma ParsedAreCanonical(cat: seq<byte>)
    requires |cat| == CATALOGUE_SIZE
    ensures forall e :: e in Parse(cat) ==> Canonical(e)
  {
    var ds := Decoded(cat, FileCount(cat));
    PresentFrom(ds);
    forall e | e in Parse(cat)
      ensures Canonical(e)
    {
      var i :| 0 <= i < |ds| && ds[i] == Some(e);
      DecodedIsCanonical(SlotAt(cat, i));
    }
  }

  /** The first slots of `cat` hold `entries` and the others are blank. */
  ghost predicate Holds(cat: seq<byte>, entries: seq<Entry>) {
    && |cat| == CATALOGUE_SIZE && |entries| <= MAX_FILES
    && forall i: nat :: i < MAX_FILES ==>
      Decoded(cat, MAX_FILES)[i] == if i < |entries| then Some(entries[i]) else None
  }

  /** Parsing finds exactly those entries, even with a count byte that is too large. */
  lemma ParseHeld(cat: seq<byte>, entries: seq<Entry>)
    requires Holds(cat, entries) && |entries| <= FileCount(cat)
    ensures Parse(cat) == entries
  {
    var n := FileCount(cat);
    assert Decoded(cat, n) == Decoded(cat, MAX_FILES)[..n];
    PresentPrefix(Decoded(cat, n), entries);
  }

  lemma BuildHolds(head0: Field, head1: Field, entries: seq<Entry>)
    requires |entries| <= MAX_FILES
    requires forall e :: e in entries ==> Canonical(e)
    ensures Holds(Build(head0, head1, entries), entries)
  {
    var cat := Build(head0, head1, entries);
    forall i: nat | i < MAX_FILES
      ensures Decoded(cat, MAX_FILES)[i] == if i < |entries| then Some(entries[i]) else None
    {
      LayoutAt(head0, head1, EncodeAll(entries), i);
      if i < |entries| { EncodeDecode(entries[i]); } else { ZeroSlotIsBlank(); }
    }
  }

  /** Of more than 31 entries the first 31 are written. */
  lemma FirstEntriesOnly(head0: Field, head1: Field, entries: seq<Entry>)
    requires |entries| > 31
    ensures Build(head0, head1, entries) == Build(head0, head1, entries[..31])
  {}

  lemma FixFacts(cat: seq<byte>)
    requires |cat| == CATALOGUE_SIZE
    ensures var sorted := Sort(Parse(cat), EntryLe);
            && |sorted| <= FileCount(cat)
            && (forall e :: e in sorted ==> Canonical(e))
            && Sorted(sorted, EntryLe) && multiset(sorted) == multiset(Parse(cat))
            && Fix(cat)[..8] == cat[..8] && Fix(cat)[256..264] == cat[256..264]
            && FileCount(Fix(cat)) == FileCount(cat)
  {
    var sorted := Sort(Parse(cat), EntryLe);
    EntryLeIsOrder();
    SortSorts(Parse(cat), EntryLe);
    ParsedAreCanonical(cat);
    forall e | e in sorted
      ensures Canonical(e)
    {
      assert e in multiset(sorted);
    }
    LayoutHeads(cat[..8], cat[256..264], EncodeAll(sorted));
    assert cat[256 + 5] == cat[256..264][5] && Fix(cat)[256 + 5] == Fix(cat)[256..264][5];
  }

  /** Repair is a projection onto ordered catalogues, for every 512 bytes: same entries, in order,
      same headers, and nothing left to do a second time. */
  lemma RepairIsProjection(cat: seq<byte>)
    requires |cat| == CATALOGUE_SIZE
    ensures Parse(Fix(cat)) == Sort(Parse(cat), EntryLe)
    ensures Sorted(Parse(Fix(cat)), EntryLe)
    ensures multiset(Parse(Fix(cat))) == multiset(Parse(cat))
    ensures Fix(cat)[..8] == cat[..8] && Fix(cat)[256..264] == cat[256..264]
    ensures Fix(Fix(cat)) == Fix(cat)
  {
    hide Decode, Encode, EntryLe, Layout;
    var sorted := Sort(Parse(cat), EntryLe);
    FixFacts(cat);
    BuildHolds(cat[..8], cat[256..264], sorted);
    ParseHeld(Fix(cat), sorted);
    SortFixesSorted(sorted, EntryLe);
  }

  // --------------------------------------------------------------- methods

  lemma PresentAppend(ds: seq<Option<Entry>>, d: Option<Entry>)
    ensures Present(ds + [d]) == Present(ds) + ToSeq(d)
  {
    assert (ds + [d])[..|ds|] == ds;
  }

  /** The slot at `offset` of two separate sectors. */
  function ReadSlot(sector0: seq<byte>, sector1: seq<byte>, offset: nat): Option<Entry>
    requires |sector0| == |sector1| == SECTOR_SIZE && offset + 8 <= SECTOR_SIZE
  {
    Decode(Slot(sector0[offset..offset + 8], sector1[offset..offset + 8]))
  }

  lemma ReadSlotAppends(cat: seq<byte>, i: nat, d: Option<Entry>)
    requires |cat| == CATALOGUE_SIZE && i < MAX_FILES
    requires d == ReadSlot(cat[..256], cat[256..], 8 + i * 8)
    ensures Present(Decoded(cat, i + 1)) == Present(Decoded(cat, i)) + ToSeq(d)
  {
    var slot := SlotAt(cat, i);
    forall j | 0 <= j < 8
      ensures cat[..256][8 + i * 8..8 + i * 8 + 8][j] == slot.name[j]
      ensures cat[256..][8 + i * 8..8 + i * 8 + 8][j] == slot.meta[j]
    {
      assert cat[..256][8 + i * 8 + j] == cat[8 + 8 * i + j];
      assert cat[256..][8 + i * 8 + j] == cat[264 + 8 * i + j];
    }
    assert cat[..256][8 + i * 8..8 + i * 8 + 8] == slot.name;
    assert cat[256..][8 + i * 8..8 + i * 8 + 8] == slot.meta;
    DecodedAppend(cat, i, d);
  }

  lemma DecodedAppend(cat: seq<byte>, i: nat, d: Option<Entry>)
    requires |cat| == CATALOGUE_SIZE && i < MAX_FILES
    requires d == Decode(SlotAt(cat, i))
    ensures Present(Decoded(cat, i + 1)) == Present(Decoded(cat, i)) + ToSeq(d)
  {
    var more := Decoded(cat, i + 1);
    assert more[i] == d && more[..i] == Decoded(cat, i);
    assert more == Decoded(cat, i) + [d];
    PresentAppend(Decoded(cat, i), d);
  }

  /** parse_catalogue: a wrong size is the ValueError. */
  method ParseCatalogue(catalogue: seq<byte>)
    returns (ok: bool, sector0: seq<byte>, sector1: seq<byte>, fileCount: nat, entries: seq<Entry>)
    ensures ok <==> |catalogue| == CATALOGUE_SIZE
    ensures ok ==> sector0 == catalogue[..SECTOR_SIZE] && sector1 == catalogue[SECTOR_SIZE..]
    ensures ok ==> fileCount == FileCount(catalogue) && entries == Parse(catalogue)
  {
    hide Decode, ReadSlot;
    ok, sector0, sector1, fileCount, entries := false, [], [], 0, [];
    if |catalogue| != CATALOGUE_SIZE { return; }
    ok, sector0, sector1 := true, catalogue[..SECTOR_SIZE], catalogue[SECTOR_SIZE..];
    fileCount := Min(sector1[5] / 8, MAX_FILES);
    var index := 0;
    while index < fileCount
      invariant index <= fileCount <= MAX_FILES
      invariant entries == Present(Decoded(catalogue, index))
    {
      var entry := ReadSlot(sector0, sector1, 8 + index * 8);
      ReadSlotAppends(catalogue, index, entry);
      if entry.Some? { entries := entries + [entry.value]; }
      index := index + 1;
    }
  }

  /** `buffer[offset : offset + 8] = f` for the slot's offset; every other byte stays. */
  method PutField(buffer: array<byte>, index: nat, f: Field)
    requires buffer.Length == SECTOR_SIZE && index < MAX_FILES
    modifies buffer
    ensures buffer[..] == old(buffer[..8 + 8 * index]) + f + old(buffer[16 + 8 * index..])
  {
    forall j | 0 <= j < 8 { buffer[8 + 8 * index + j] := f[j]; }
  }

  /** Writing the two fields of the next slot turns a layout of n slots into one of n + 1. */
  lemma LayoutStep(old0: seq<byte>, old1: seq<byte>, new0: seq<byte>, new1: seq<byte>,
                   head0: Field, head1: Field, slots: seq<Slot>, n: nat)
    requires n < |slots| <= MAX_FILES
    requires |old0| == |old1| == SECTOR_SIZE && old0 + old1 == Layout(head0, head1, slots[..n])
    requires new0 == old0[..8 + 8 * n] + slots[n].name + old0[16 + 8 * n..]
    requires new1 == old1[..8 + 8 * n] + slots[n].meta + old1[16 + 8 * n..]
    ensures new0 + new1 == Layout(head0, head1, slots[..n + 1])
  {
    var before, after, want := old0 + old1, new0 + new1, Layout(head0, head1, slots[..n + 1]);
    LayoutHeads(head0, head1, slots[..n]);
    LayoutHeads(head0, head1, slots[..n + 1]);
    assert after[..8] == before[..8] && after[256..264] == before[256..264];
    forall i: nat | i < MAX_FILES
      ensures SlotAt(after, i) == SlotAt(want, i)
    {
      LayoutAt(head0, head1, slots[..n], i);
      LayoutAt(head0, head1, slots[..n + 1], i);
      SpliceSlot(old0, old1, slots[n], n, i);
      assert i != n ==> SlotOrZero(slots[..n + 1], i) == SlotOrZero(slots[..n], i);
    }
    SameCatalogue(after, want);
  }

  lemma SpliceSlot(old0: seq<byte>, old1: seq<byte>, slot: Slot, n: nat, i: nat)
    requires |old0| == |old1| == SECTOR_SIZE && n < MAX_FILES && i < MAX_FILES
    ensures var new0 := old0[..8 + 8 * n] + slot.name + old0[16 + 8 * n..];
            var new1 := old1[..8 + 8 * n] + slot.meta + old1[16 + 8 * n..];
            SlotAt(new0 + new1, i) == if i == n then slot else SlotAt(old0 + old1, i)
  {
    var new0 := old0[..8 + 8 * n] + slot.name + old0[16 + 8 * n..];
    var new1 := old1[..8 + 8 * n] + slot.meta + old1[16 + 8 * n..];
    var got, was := SlotAt(new0 + new1, i), SlotAt(old0 + old1, i);
    if i == n {
      assert got.name == slot.name && got.meta == slot.meta;
    } else {
      assert got.name == was.name;
      assert got.meta == was.meta;
    }
  }

  /** A sector with everything after its header cleared. */
  method ClearedSector(sector: seq<byte>) returns (buffer: array<byte>)
    requires |sector| == SECTOR_SIZE
    ensures fresh(buffer) && buffer.Length == SECTOR_SIZE
    ensures buffer[..] == sector[..8] + Zeros(SECTOR_SIZE - 8)
  {
    buffer := new byte[SECTOR_SIZE];
    forall k | 0 <= k < SECTOR_SIZE { buffer[k] := if k < 8 then sector[k] else 0; }
  }

  lemma EmptyLayout(head0: Field, head1: Field)
    ensures head0 + Zeros(SECTOR_SIZE - 8) + (head1 + Zeros(SECTOR_SIZE - 8)) == Layout(head0, head1, [])
  {}

  /** build_catalogue, filling two sector buffers in place. */
  method BuildCatalogue(sector0: seq<byte>, sector1: seq<byte>, entries: seq<Entry>) returns (cat: seq<byte>)
    requires |sector0| == |sector1| == SECTOR_SIZE
    ensures cat == Build(sector0[..8], sector1[..8], entries)
  {
    var new0 := ClearedSector(sector0);
    var new1 := ClearedSector(sector1);
    var kept := if |entries| > MAX_FILES then entries[..MAX_FILES] else entries;
    ghost var head0: Field, head1: Field, slots := sector0[..8], sector1[..8], EncodeAll(kept);
    EmptyLayout(head0, head1);
    assert slots[..0] == [];
    var index := 0;
    while index < |kept|
      invariant index <= |kept|
      invariant new0[..] + new1[..] == Layout(head0, head1, slots[..index])
    {
      ghost var old0, old1 := new0[..], new1[..];
      var slot := Encode(kept[index]);
      assert slot == slots[index];
      PutField(new0, index, slot.name);
      PutField(new1, index, slot.meta);
      LayoutStep(old0, old1, new0[..], new1[..], head0, head1, slots, index);
      index := index + 1;
    }
    assert slots[..index] == slots;
    cat := new0[..] + new1[..];
  }

  /** fix_catalogue_bytes */
  method FixCatalogueBytes(catalogue: seq<byte>)
    returns (ok: bool, fixed: seq<byte>, entries: seq<Entry>, sortedEntries: seq<Entry>)
    ensures ok <==> |catalogue| == CATALOGUE_SIZE
    ensures ok ==> fixed == Fix(catalogue) && entries == Parse(catalogue) && sortedEntries == Parse(fixed)
  {
    fixed, sortedEntries := [], [];
    var sector0, sector1, fileCount;
    ok, sector0, sector1, fileCount, entries := ParseCatalogue(catalogue);
    if !ok { return; }
    sortedEntries := Sort(entries, EntryLe);
    assert sector0[..8] == catalogue[..8] && sector1[..8] == catalogue[256..264];
    fixed := BuildCatalogue(sector0, sector1, sortedEntries);
    RepairIsProjection(catalogue);
  }
}
