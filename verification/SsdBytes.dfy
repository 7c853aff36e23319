/** Which disc images are written and which are refused, and every byte of one, by its offset. */
module SsdBytes {
  import opened Bytes
  import opened StableSort
  import opened DfsCatalogue
  import opened SsdWriter

  // --------------------------------------------------------- accepted and refused

  /** The sectors the files take, each rounded up. */
  function Total(files: seq<FileSpec>): nat {
    if files == [] then 0 else Total(files[..|files| - 1]) + (|files[|files| - 1].body| + 255) / 256
  }

  predicate AsciiText(text: seq<nat>) {
    forall k :: 0 <= k < |text| ==> text[k] < 128
  }

  predicate NameFits(f: FileSpec) {
    AsciiText(f.name) && 1 <= |f.name| <= 7
  }

  lemma {:induction false} EndIsTotal(files: seq<FileSpec>)
    ensures EndOf(files, 2) == 2 + Total(files)
  {
    if files == [] {
    } else {
      var n := |files| - 1;
      EndIsTotal(files[..n]);
      AppendFile(files[..n], files[n], 2);
      assert files == files[..n] + [files[n]];
    }
  }

  lemma NamesFit(files: seq<FileSpec>)
    ensures FirstNameError(files).None? <==> forall f :: f in files ==> NameFits(f)
  {
    NoNameError(files);
    assert forall f :: GoodName(f) <==> NameFits(f);
  }

  lemma {:induction false} NameErrorIs(files: seq<FileSpec>, i: nat)
    requires i < |files| && !NameFits(files[i]) && forall k :: 0 <= k < i ==> NameFits(files[k])
    ensures FirstNameError(files) == Some(if AsciiText(files[i].name) then BadName else NameNotAscii)
  {
    if i == 0 {
    } else {
      assert NameFits(files[0]);
      forall k | 0 <= k < i - 1
        ensures NameFits(files[1..][k])
      {
        assert files[1..][k] == files[k + 1];
      }
      NameErrorIs(files[1..], i - 1);
    }
  }

  /** An image is written if and only if there are at most 31 files on a disc of 2 to 1023 sectors that they
      fit, the title and the names are ASCII, the names have 1 to 7 characters and the directories fit a byte. */
  lemma WrittenIf(files: seq<FileSpec>, title: seq<nat>, discSectors: int)
    ensures SsdImage(files, title, discSectors).Ok? <==>
      && |files| <= 31 && 2 <= discSectors <= 1023 && AsciiText(title) && (forall f :: f in files ==> NameFits(f))
      && 2 + Total(files) <= discSectors && forall f :: f in files ==> f.directory < 256
  {
    NamesFit(files);
    EndIsTotal(files);
    assert IsAscii(title) <==> AsciiText(title);
  }

  /** Otherwise the first thing wrong, in this order, is the error: the count, the disc size, the title, the first
      name that does not fit, the space, a directory. */
  lemma RefusedBecause(files: seq<FileSpec>, title: seq<nat>, discSectors: int)
    ensures var r := SsdImage(files, title, discSectors);
      if |files| > 31 then r == Err(TooManyFiles)
      else if discSectors < 2 || discSectors > 1023 then r == Err(BadDiscSize)
      else if !AsciiText(title) then r == Err(TitleNotAscii)
      else if exists f :: f in files && !NameFits(f) then r == Err(BadName) || r == Err(NameNotAscii)
      else if 2 + Total(files) > discSectors then r == Err(DiscFull(2 + Total(files)))
      else if exists f :: f in files && f.directory >= 256 then r == Err(DirectoryNotAByte)
      else r.Ok?
    ensures forall i :: |files| <= 31 && 2 <= discSectors <= 1023 && AsciiText(title) && FirstBadName(files, i) ==>
      SsdImage(files, title, discSectors) == Err(if AsciiText(files[i].name) then BadName else NameNotAscii)
  {
    NamesFit(files);
    EndIsTotal(files);
    assert IsAscii(title) <==> AsciiText(title);
    forall i | FirstBadName(files, i)
      ensures FirstNameError(files) == Some(if AsciiText(files[i].name) then BadName else NameNotAscii)
    {
      NameErrorIs(files, i);
    }
    if exists f :: f in files && !NameFits(f) {
      var i := SomeFirstBadName(files);
      NameErrorIs(files, i);
    }
  }

  predicate FirstBadName(files: seq<FileSpec>, i: int) {
    0 <= i < |files| && !NameFits(files[i]) && forall k :: 0 <= k < i ==> NameFits(files[k])
  }

  lemma SomeFirstBadName(files: seq<FileSpec>) returns (i: nat)
    requires exists f :: f in files && !NameFits(f)
    ensures FirstBadName(files, i)
  {
    i := 0;
    while NameFits(files[i])
      invariant i < |files| && forall k :: 0 <= k < i ==> NameFits(files[k])
      decreases |files| - i
    {
      i := i + 1;
      assert i < |files| by {
        var f :| f in files && !NameFits(f);
        var k :| 0 <= k < |files| && files[k] == f;
      }
    }
  }

  // ------------------------------------------------------------------ every byte

  /** The files follow one another from sector 2 in the order given. */
  lemma FileStarts(files: seq<FileSpec>, k: nat)
    requires k < |files|
    ensures Place(files, 2)[k] == Placed(files[k], 2 + Total(files[..k]))
    ensures Placed(files[k], 2 + Total(files[..k])) in Catalogued(files)
  {
    PlaceAt(files, k);
    CataloguedFiles(files);
    assert Place(files, 2)[k] in multiset(Catalogued(files));
  }

  lemma {:induction false} PlaceAt(files: seq<FileSpec>, k: nat)
    requires k < |files|
    ensures Place(files, 2)[k] == Placed(files[k], 2 + Total(files[..k]))
  {
    var n := |files| - 1;
    AppendFile(files[..n], files[n], 2);
    assert files == files[..n] + [files[n]];
    if k == n {
      EndIsTotal(files[..n]);
    } else {
      PlaceAt(files[..n], k);
      assert files[..n][..k] == files[..k];
    }
  }

  /** The text, then as many fillers as the field has left; what does not fit is dropped. */
  predicate Padded(field: seq<byte>, text: seq<nat>, filler: byte) {
    forall k :: 0 <= k < |field| ==> field[k] == if k < |text| then text[k] else filler
  }

  /** The sixteen bytes of the i-th file of the catalogue: name padded with spaces, directory and lock bit, load,
      exec, length, the packed high bits, start. */
  ghost predicate SlotBytes(image: seq<byte>, i: nat, p: Placed)
    requires |image| >= 512 && i < 31
  {
    var f, length := p.file, |p.file.body|;
    && Padded(image[8 + 8 * i..15 + 8 * i], f.name, 32)
    && image[15 + 8 * i] == (if f.locked && f.directory < 128 then f.directory + 128 else f.directory)
    && image[264 + 8 * i] == f.load % 256 && image[265 + 8 * i] == f.load / 256 % 256
    && image[266 + 8 * i] == f.exec % 256 && image[267 + 8 * i] == f.exec / 256 % 256
    && image[268 + 8 * i] == length % 256 && image[269 + 8 * i] == length / 256 % 256
    && image[270 + 8 * i] == 64 * (f.exec / 65536 % 4) + 16 * (length / 65536 % 4) + 4 * (f.load / 65536 % 4)
                             + p.start / 256 % 4
    && image[271 + 8 * i] == p.start % 256
  }

  lemma WriterSlotBytes(p: Placed, k: nat)
    requires Storable(p.file) && k < 8
    ensures var f, s, length := p.file, WriterSlot(p), |p.file.body|;
      && (k < 7 ==> s.name[k] == if k < |f.name| then f.name[k] else 32)
      && s.name[7] == (if f.locked && f.directory < 128 then f.directory + 128 else f.directory)
      && s.meta[0] == f.load % 256 && s.meta[1] == f.load / 256 % 256
      && s.meta[2] == f.exec % 256 && s.meta[3] == f.exec / 256 % 256
      && s.meta[4] == length % 256 && s.meta[5] == length / 256 % 256
      && s.meta[6] == 64 * (f.exec / 65536 % 4) + 16 * (length / 65536 % 4) + 4 * (f.load / 65536 % 4)
                      + p.start / 256 % 4
      && s.meta[7] == p.start % 256
  {
    LowWordBytes(p.file.load);
    LowWordBytes(p.file.exec);
    LowWordBytes(|p.file.body|);
  }

  /** The catalogue: one slot a file, in catalogue order, and zeros after them. */
  lemma CatalogueBytes(files: seq<FileSpec>, title: seq<nat>, discSectors: int, i: nat)
    requires SsdImage(files, title, discSectors).Ok? && i < 31
    ensures |SsdImage(files, title, discSectors).value| >= 512 && |Catalogued(files)| == |files|
    ensures var image := SsdImage(files, title, discSectors).value;
      if i < |files| then SlotBytes(image, i, Catalogued(files)[i])
      else
        && image[8 + 8 * i..16 + 8 * i] == [0, 0, 0, 0, 0, 0, 0, 0]
        && image[264 + 8 * i..272 + 8 * i] == [0, 0, 0, 0, 0, 0, 0, 0]
  {
    WrittenParts(files, title, discSectors);
    CataloguedFiles(files);
    var q, cat := Catalogued(files), CatalogueOf(files, title, discSectors);
    LayoutAt(Head0(title), Head1(title, |files|, discSectors), SlotsOf(q), i);
    var slot := SlotOrZero(SlotsOf(q), i);
    var image := SsdImage(files, title, discSectors).value;
    hide SsdImage, CatalogueOf, Catalogued, Layout, WriterSlot;
    assert SlotAt(cat, i) == slot && image[..512] == cat;
    SlotInImage(image, cat, i);
    if i < |files| { SlotBytesFrom(image, i, q[i]); }
  }

  lemma SlotInImage(image: seq<byte>, cat: seq<byte>, i: nat)
    requires |image| >= 512 == |cat| && image[..512] == cat && i < 31
    ensures image[8 + 8 * i..16 + 8 * i] == SlotAt(cat, i).name
    ensures image[264 + 8 * i..272 + 8 * i] == SlotAt(cat, i).meta
  {
    assert image[..512][8 + 8 * i..16 + 8 * i] == image[8 + 8 * i..16 + 8 * i];
    assert image[..512][264 + 8 * i..272 + 8 * i] == image[264 + 8 * i..272 + 8 * i];
  }

  lemma SlotBytesFrom(image: seq<byte>, i: nat, p: Placed)
    requires |image| >= 512 && i < 31 && Storable(p.file)
    requires image[8 + 8 * i..16 + 8 * i] == WriterSlot(p).name && image[264 + 8 * i..272 + 8 * i] == WriterSlot(p).meta
    ensures SlotBytes(image, i, p)
  {
    WriterSlotBytes(p, 0);
    var name, m := WriterSlot(p).name, WriterSlot(p).meta;
    forall k | 0 <= k < 7
      ensures name[..7][k] == if k < |p.file.name| then p.file.name[k] else 32
    {
      WriterSlotBytes(p, k);
    }
    hide WriterSlot;
    assert image[8 + 8 * i..15 + 8 * i] == image[8 + 8 * i..16 + 8 * i][..7] == name[..7];
    assert image[15 + 8 * i] == name[7];
    assert image[264 + 8 * i] == m[0] && image[265 + 8 * i] == m[1] && image[266 + 8 * i] == m[2];
    assert image[267 + 8 * i] == m[3] && image[268 + 8 * i] == m[4] && image[269 + 8 * i] == m[5];
    assert image[270 + 8 * i] == m[6] && image[271 + 8 * i] == m[7];
  }

  /** The sixteen header bytes: twelve of the title, zeros where it is shorter; cycle 0, eight times the file
      count, boot option none and the disc size. */
  lemma HeaderBytes(files: seq<FileSpec>, title: seq<nat>, discSectors: int)
    requires SsdImage(files, title, discSectors).Ok?
    ensures |SsdImage(files, title, discSectors).value| >= 512
    ensures var image := SsdImage(files, title, discSectors).value;
      && Padded(image[..8] + image[256..260], title, 0)
      && image[260] == 0 && image[261] == 8 * |files|
      && image[262] == discSectors / 256 && image[263] == discSectors % 256
  {
    WrittenParts(files, title, discSectors);
    CataloguedFiles(files);
    var cat, head1 := CatalogueOf(files, title, discSectors), Head1(title, |files|, discSectors);
    LayoutHeads(Head0(title), head1, SlotsOf(Catalogued(files)));
    HeadsInImage(SsdImage(files, title, discSectors).value, cat, Head0(title), head1);
    HeadFieldBytes(title, |files|, discSectors);
  }

  lemma HeadsInImage(image: seq<byte>, cat: seq<byte>, head0: Field, head1: Field)
    requires |image| >= 512 == |cat| && image[..512] == cat && cat[..8] == head0 && cat[256..264] == head1
    ensures image[..8] == head0 && image[256..260] == head1[..4]
    ensures image[260] == head1[4] && image[261] == head1[5] && image[262] == head1[6] && image[263] == head1[7]
  {
    assert image[..8] == image[..512][..8] && image[256..264] == image[..512][256..264];
    assert image[256..260] == image[256..264][..4];
    assert image[260] == image[256..264][4] && image[261] == image[256..264][5];
    assert image[262] == image[256..264][6] && image[263] == image[256..264][7];
  }

  lemma HeadFieldBytes(title: seq<nat>, count: nat, discSectors: nat)
    requires IsAscii(title) && count <= 31 && discSectors < 1024
    ensures var h := Head1(title, count, discSectors);
      && Padded(Head0(title) + h[..4], title, 0)
      && h[4] == 0 && h[5] == 8 * count && h[6] == discSectors / 256 && h[7] == discSectors % 256
  {
    var h := Head1(title, count, discSectors);
    assert h[..4] == TitleBytes(title)[8..];
    assert Head0(title) + h[..4] == TitleBytes(title);
  }

  /** The size, and in every file's sectors its bytes and then zeros. */
  lemma DataBytes(files: seq<FileSpec>, title: seq<nat>, discSectors: int, k: nat, j: nat)
    requires SsdImage(files, title, discSectors).Ok? && k < |files| && j < (|files[k].body| + 255) / 256 * 256
    ensures |SsdImage(files, title, discSectors).value| == 256 * (2 + Total(files))
    ensures (2 + Total(files[..k])) * 256 + j < 256 * (2 + Total(files))
    ensures SsdImage(files, title, discSectors).value[(2 + Total(files[..k])) * 256 + j] ==
      if j < |files[k].body| then files[k].body[j] else 0
  {
    WrittenParts(files, title, discSectors);
    var cat := CatalogueOf(files, title, discSectors);
    DataSize(files);
    DataAt(files, k, j);
    assert (cat + DataArea(files))[512 + (Total(files[..k]) * 256 + j)] == DataArea(files)[Total(files[..k]) * 256 + j];
  }

  lemma {:induction false} DataSize(files: seq<FileSpec>)
    ensures |DataArea(files)| == 256 * Total(files)
  {
    if files == [] {
    } else {
      var n := |files| - 1;
      DataSize(files[..n]);
      AppendFile(files[..n], files[n], 2);
      assert files == files[..n] + [files[n]];
    }
  }

  lemma {:induction false} DataAt(files: seq<FileSpec>, k: nat, j: nat)
    requires k < |files| && j < (|files[k].body| + 255) / 256 * 256
    ensures Total(files[..k]) * 256 + j < |DataArea(files)|
    ensures DataArea(files)[Total(files[..k]) * 256 + j] == if j < |files[k].body| then files[k].body[j] else 0
  {
    hide DataArea, Total, PadBody;
    var n := |files| - 1;
    var last := PadBody(files[n].body);
    DataSize(files[..n]);
    AppendFile(files[..n], files[n], 2);
    assert files == files[..n] + [files[n]];
    if k < n {
      DataAt(files[..n], k, j);
      assert files[..n][..k] == files[..k];
    } else {
      PadByte(files[n].body, j);
      assert (DataArea(files[..n]) + last)[|DataArea(files[..n])| + j] == last[j];
    }
  }

  lemma PadByte(body: seq<byte>, j: nat)
    requires j < (|body| + 255) / 256 * 256
    ensures j < |PadBody(body)| && PadBody(body)[j] == if j < |body| then body[j] else 0
  {}

  // ----------------------------------------------------------- a catalogue, read

  /** The name in slot i has n bytes: the last is neither space nor NUL, and only those follow it. */
  predicate NameEnds(cat: seq<byte>, i: nat, n: nat)
    requires |cat| == 512 && i < 31
  {
    var name := cat[8 + 8 * i..15 + 8 * i];
    && n <= 7 && (n > 0 ==> name[n - 1] != 32 && name[n - 1] != 0)
    && forall k :: n <= k < 7 ==> name[k] == 32 || name[k] == 0
  }

  /** What slot i says, byte by byte. */
  function EntryIn(cat: seq<byte>, i: nat, n: nat): Entry
    requires |cat| == 512 && i < 31 && n <= 7
  {
    var d, x: int := cat[15 + 8 * i], cat[270 + 8 * i];
    Entry(cat[8 + 8 * i..8 + 8 * i + n], if d % 128 == 0 then 36 else d % 128, d >= 128,
          cat[264 + 8 * i] + 256 * (cat[265 + 8 * i] as int) + 65536 * (x / 4 % 4),
          cat[266 + 8 * i] + 256 * (cat[267 + 8 * i] as int) + 65536 * (x / 64),
          cat[268 + 8 * i] + 256 * (cat[269 + 8 * i] as int) + 65536 * (x / 16 % 4),
          cat[271 + 8 * i] + 256 * (x % 4))
  }

  lemma SlotSays(cat: seq<byte>, i: nat, n: nat)
    requires |cat| == 512 && i < 31 && NameEnds(cat, i, n)
    ensures Decode(SlotAt(cat, i)) == if n == 0 then None else Some(EntryIn(cat, i, n))
  {
    var slot, name := SlotAt(cat, i), cat[8 + 8 * i..15 + 8 * i];
    assert slot.name[..7] == name && name[..n] == cat[8 + 8 * i..8 + 8 * i + n];
    RStripUnique(name, n);
    NumbersSay(cat, i);
    hide RStrip, DecodeNumbers, NameEnds;
    assert slot.name[7] == cat[15 + 8 * i];
  }

  lemma NumbersSay(cat: seq<byte>, i: nat)
    requires |cat| == 512 && i < 31
    ensures var d, e := DecodeNumbers(SlotAt(cat, i).meta), EntryIn(cat, i, 0);
      d.load == e.load && d.exec == e.exec && d.length == e.length && d.start == e.start
  {
    var m := SlotAt(cat, i).meta;
    MetaBytes(cat, i);
    NumbersFrom(m);
    hide DecodeNumbers, SlotAt;
  }

  lemma MetaBytes(cat: seq<byte>, i: nat)
    requires |cat| == 512 && i < 31
    ensures var m := SlotAt(cat, i).meta;
      && m[0] == cat[264 + 8 * i] && m[1] == cat[265 + 8 * i] && m[2] == cat[266 + 8 * i] && m[3] == cat[267 + 8 * i]
      && m[4] == cat[268 + 8 * i] && m[5] == cat[269 + 8 * i] && m[6] == cat[270 + 8 * i] && m[7] == cat[271 + 8 * i]
  {}

  lemma NumbersFrom(m: Field)
    ensures var d, x: int := DecodeNumbers(m), m[6];
      && d.load == m[0] + 256 * (m[1] as int) + 65536 * (x / 4 % 4)
      && d.exec == m[2] + 256 * (m[3] as int) + 65536 * (x / 64)
      && d.length == m[4] + 256 * (m[5] as int) + 65536 * (x / 16 % 4)
      && d.start == m[7] + 256 * (x % 4)
  {}

  lemma SomeNameEnd(cat: seq<byte>, i: nat) returns (n: nat)
    requires |cat| == 512 && i < 31
    ensures NameEnds(cat, i, n)
  {
    n := 7;
    var name := cat[8 + 8 * i..15 + 8 * i];
    while n > 0 && (name[n - 1] == 32 || name[n - 1] == 0)
      invariant n <= 7 && forall k :: n <= k < 7 ==> name[k] == 32 || name[k] == 0
    {
      n := n - 1;
    }
  }

  /** Parsing reports, in order, just those of the first min(count byte / 8, 31) slots whose name is not blank. */
  lemma ParseSays(cat: seq<byte>) returns (at: seq<nat>, ends: seq<nat>)
    requires |cat| == 512
    ensures Names(cat, Min(cat[261] / 8, 31), at, ends, Parse(cat))
  {
    at, ends := ParseTo(cat, FileCount(cat));
  }

  /** Of the first m slots, `at` are the named ones and `es` what they say. */
  ghost predicate Names(cat: seq<byte>, m: nat, at: seq<nat>, ends: seq<nat>, es: seq<Entry>)
    requires |cat| == 512 && m <= 31
  {
    && |at| == |ends| == |es|
    && (forall j, k :: 0 <= j < k < |at| ==> at[j] < at[k])
    && (forall k :: 0 <= k < |at| ==>
          at[k] < m && 0 < ends[k] && NameEnds(cat, at[k], ends[k]) && es[k] == EntryIn(cat, at[k], ends[k]))
    && (forall i: nat :: i < m && i !in at ==> NameEnds(cat, i, 0))
  }

  lemma {:induction false} ParseTo(cat: seq<byte>, m: nat) returns (at: seq<nat>, ends: seq<nat>)
    requires |cat| == 512 && m <= 31
    ensures Names(cat, m, at, ends, Present(Decoded(cat, m)))
  {
    hide NameEnds, EntryIn, Decode, Names;
    if m == 0 {
      at, ends := [], [];
      NoNames(cat);
      assert Present(Decoded(cat, 0)) == [];
    } else {
      at, ends := ParseTo(cat, m - 1);
      var n := SomeNameEnd(cat, m - 1);
      SlotSays(cat, m - 1, n);
      DecodedAppend(cat, m - 1, Decode(SlotAt(cat, m - 1)));
      var es := Present(Decoded(cat, m - 1));
      NamesNext(cat, m, at, ends, es, n);
      assert Present(Decoded(cat, m)) == if n == 0 then es else es + [EntryIn(cat, m - 1, n)];
      if n > 0 { at, ends := at + [m - 1], ends + [n]; }
    }
  }

  lemma NoNames(cat: seq<byte>)
    requires |cat| == 512
    ensures Names(cat, 0, [], [], [])
  {}

  lemma NamesNext(cat: seq<byte>, m: nat, at: seq<nat>, ends: seq<nat>, es: seq<Entry>, n: nat)
    requires |cat| == 512 && 0 < m <= 31 && Names(cat, m - 1, at, ends, es) && NameEnds(cat, m - 1, n)
    ensures n == 0 ==> Names(cat, m, at, ends, es)
    ensures n > 0 ==> Names(cat, m, at + [m - 1], ends + [n], es + [EntryIn(cat, m - 1, n)])
  {
    hide NameEnds, EntryIn;
    forall i: nat | i < m && i !in at && (n == 0 || i != m - 1)
      ensures NameEnds(cat, i, 0)
    {}
    var more := at + [m - 1];
    assert forall i :: i in more <==> i in at || i == m - 1;
  }

  // -------------------------------------------------------------- repaired order

  /** a comes before b in a dictionary, or is b: they first differ at k, where a ends or has the lower byte. */
  ghost predicate DictionaryLe(a: seq<byte>, b: seq<byte>) {
    exists k: nat :: k <= |a| && k <= |b| && a[..k] == b[..k] && (k == |a| || (k < |b| && a[k] < b[k]))
  }

  lemma {:induction false} TextLeIsDictionary(a: seq<byte>, b: seq<byte>)
    ensures TextLe(a, b) <==> DictionaryLe(a, b)
  {
    if a == [] {
      assert a[..0] == b[..0];
    } else if b == [] || a[0] != b[0] {
      assert a[..0] == b[..0];
      forall k: nat | 0 < k <= |a| && k <= |b|
        ensures a[..k] != b[..k]
      {
        assert a[..k][0] != b[..k][0];
      }
    } else {
      TextLeIsDictionary(a[1..], b[1..]);
      if k: nat :| k <= |a| && k <= |b| && a[..k] == b[..k] && (k == |a| || (k < |b| && a[k] < b[k])) {
        assert k > 0 && a[1..][..k - 1] == a[..k][1..] && b[1..][..k - 1] == b[..k][1..];
      }
      if k: nat :| k <= |a[1..]| && k <= |b[1..]| && a[1..][..k] == b[1..][..k]
                   && (k == |a[1..]| || (k < |b[1..]| && a[1..][k] < b[1..][k])) {
        assert a[..k + 1] == [a[0]] + a[1..][..k] && b[..k + 1] == [b[0]] + b[1..][..k];
      }
    }
  }

  /** A repaired catalogue lists start sectors downwards, and on one sector directories and then names upwards. */
  lemma RepairedOrder(cat: seq<byte>, i: nat, j: nat)
    requires |cat| == 512 && i < j < |Parse(Fix(cat))|
    ensures var a, b := Parse(Fix(cat))[i], Parse(Fix(cat))[j];
      a.start > b.start || (a.start == b.start &&
        (a.directory < b.directory || (a.directory == b.directory && DictionaryLe(a.name, b.name))))
  {
    RepairIsProjection(cat);
    TextLeIsDictionary(Parse(Fix(cat))[i].name, Parse(Fix(cat))[j].name);
  }
}
