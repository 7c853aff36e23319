/** disk_image_responder: mounted slots that alias shared, growable disc images. */
module DiskServer {
  import opened Bytes

  type Uri = seq<byte>

  datatype MountInfo = MountInfo(readOnly: bool, uri: Uri)

  /** The disk commands with their payloads parsed. */
  datatype Request =
    | Create(uri: Uri, sectors: nat)
    | Mount(slot: byte, flags: byte, uri: Uri)
    | Unmount(slot: byte)
    | Reinitialize(slot: byte, sectorSize: nat, sectors: nat)
    | Info(slot: byte)
    | ReadSector(slot: byte, lba: nat, maxBytes: nat)
    | WriteSector(slot: byte, lba: nat, data: seq<byte>)

  datatype Reply =
    | Status(status: byte, sectors: nat)
    | Geometry(mounted: bool, sectors: nat)
    | Data(data: seq<byte>)
    | Written(length: nat)

  // ------------------------------------------------------------------ images

  /** _write_sector */
  function WriteAt(image: seq<byte>, lba: nat, data: seq<byte>): seq<byte> {
    Overlay(image, lba * 256, data)
  }

  /** image[start:start + min(maxb or 256, 256)], padded to a sector. */
  function ReadAt(image: seq<byte>, lba: nat, maxBytes: nat): (r: seq<byte>)
    ensures |r| == 256
  {
    var start, n := lba * 256, if maxBytes == 0 then 256 else Min(maxBytes, 256);
    var lo, hi := Min(start, |image|), Min(start + n, |image|);
    image[lo..hi] + Zeros(256 - (hi - lo))
  }

  const BLANK: seq<byte> := [66, 76, 65, 78, 75]

  /** A blank disc: zeros, the title BLANK, and the sector count in bytes 0x106 and 0x107. */
  function BlankByte(sectors: nat, i: nat): byte {
    if i < 5 then BLANK[i]
    else if i == 0x106 then sectors / 256 % 4
    else if i == 0x107 then sectors % 256
    else 0
  }

  function BlankImage(sectors: nat): (r: seq<byte>)
    ensures |r| == sectors * 256
  {
    seq(sectors * 256, i requires 0 <= i => BlankByte(sectors, i))
  }

  lemma WriteThenByte(image: seq<byte>, lba: nat, data: seq<byte>, i: nat)
    ensures ByteAt(WriteAt(image, lba, data), i) ==
      if lba * 256 <= i < lba * 256 + |data| then data[i - lba * 256] else ByteAt(image, i)
  {
    OverlayByte(image, lba * 256, data, i);
  }

  lemma ReadIsBytes(image: seq<byte>, lba: nat, maxBytes: nat, k: nat)
    requires k < 256
    ensures ReadAt(image, lba, maxBytes)[k] ==
      if maxBytes == 0 || k < maxBytes then ByteAt(image, lba * 256 + k) else 0
  {}

  // ------------------------------------------------------------------- state

  /** What the responder holds. Images have identities, of any type, because slots and URIs share them. */
  datatype Disk<I> = Disk(content: map<I, seq<byte>>, base: I, uri: Uri, available: map<Uri, I>,
                          mounted: map<byte, I>, runtime: map<nat, MountInfo>)

  ghost predicate WellFormed<I>(d: Disk<I>) {
    && d.base in d.content
    && (forall u :: u in d.available ==> d.available[u] in d.content)
    && (forall s :: s in d.mounted ==> d.mounted[s] in d.content)
  }

  /** max(0, slot - 1) */
  function DriveOf(slot: byte): nat {
    Max(0, slot - 1)
  }

  /** uri.rsplit("/", 1)[0] + "/" */
  function Folder(uri: Uri): Uri {
    if uri == [] then [47]
    else if uri[|uri| - 1] == 47 then uri
    else if 47 in uri then Folder(uri[..|uri| - 1])
    else uri + [47]
  }

  /** The spellings under which a created image becomes available. */
  function Spellings(base: Uri, uri: Uri): set<Uri> {
    if 58 in uri then {uri} else {uri, Folder(base) + uri}
  }

  predicate CanReinitialize(sectorSize: nat, sectors: nat) {
    sectorSize == 256 && (sectors == 400 || sectors == 800)
  }

  /** One request; `newId` is the identity of the image a CREATE allocates. */
  ghost function Step<I>(d: Disk<I>, q: Request, newId: I): Disk<I>
    requires WellFormed(d)
  {
    match q
    case Create(uri, sectors) =>
      d.(content := d.content[newId := Zeros(Max(1, sectors) * 256)],
         available := d.available + map u | u in Spellings(d.uri, uri) :: newId)
    case Mount(slot, flags, uri) =>
      if uri !in d.available then d
      else d.(runtime := d.runtime[DriveOf(slot) := MountInfo(flags % 2 == 1, uri)],
              mounted := d.mounted[slot := d.available[uri]])
    case Unmount(slot) =>
      d.(runtime := d.runtime - {DriveOf(slot)}, mounted := d.mounted - {slot})
    case Reinitialize(slot, sectorSize, sectors) =>
      if slot in d.mounted && CanReinitialize(sectorSize, sectors)
      then d.(content := d.content[d.mounted[slot] := BlankImage(sectors)]) else d
    case Info(_) => d
    case ReadSector(_, _, _) => d
    case WriteSector(_, lba, data) =>
      d.(content := d.content[d.base := WriteAt(d.content[d.base], lba, data)])
  }

  ghost function ImageOf<I>(d: Disk<I>, slot: byte): seq<byte>
    requires WellFormed(d)
  {
    if slot in d.mounted then d.content[d.mounted[slot]] else []
  }

  ghost function Answer<I>(d: Disk<I>, q: Request): Reply
    requires WellFormed(d)
  {
    match q
    case Create(_, _) => Status(0, 0)
    case Mount(slot, _, uri) =>
      if uri !in d.available then Status(5, 0) else Status(0, Max(1, |d.content[d.available[uri]]| / 256))
    case Unmount(_) => Status(0, 0)
    case Reinitialize(slot, sectorSize, sectors) =>
      Status(if slot in d.mounted && CanReinitialize(sectorSize, sectors) then 0 else 5, sectors)
    case Info(slot) => Geometry(slot in d.mounted, Max(1, |ImageOf(d, slot)| / 256))
    case ReadSector(slot, lba, maxBytes) => Data(ReadAt(ImageOf(d, slot), lba, maxBytes))
    case WriteSector(_, _, data) => Written(|data|)
  }

  lemma StepWellFormed<I>(d: Disk<I>, q: Request, newId: I)
    requires WellFormed(d)
    ensures WellFormed(Step(d, q, newId))
    ensures Step(d, q, newId).base == d.base && Step(d, q, newId).uri == d.uri
  {}

  // -------------------------------------------------------------------- runs

  /** Requests with the identity each one would allocate. */
  ghost function Run<I>(d: Disk<I>, run: seq<(Request, I)>): (r: Disk<I>)
    requires WellFormed(d)
    ensures WellFormed(r) && r.base == d.base && r.uri == d.uri
  {
    if run == [] then d
    else
      var before, last := Run(d, run[..|run| - 1]), run[|run| - 1];
      StepWellFormed(before, last.0, last.1);
      Step(before, last.0, last.1)
  }

  /** Every CREATE allocates an image that is not in use yet. */
  ghost predicate Allocates<I>(d: Disk<I>, run: seq<(Request, I)>)
    requires WellFormed(d)
  {
    forall k :: 0 <= k < |run| && run[k].0.Create? ==> run[k].1 !in Run(d, run[..k]).content
  }

  /** What a request leaves in byte i of image `id`, or None if it does not touch it. */
  ghost function Effect<I>(before: Disk<I>, q: Request, newId: I, id: I, i: nat): Option<byte> {
    match q
    case Create(_, _) => if id == newId then Some(0) else None
    case Reinitialize(slot, sectorSize, sectors) =>
      if slot in before.mounted && before.mounted[slot] == id && CanReinitialize(sectorSize, sectors)
      then Some(if i < sectors * 256 then BlankByte(sectors, i) else 0) else None
    case WriteSector(_, lba, data) =>
      if id == before.base && lba * 256 <= i < lba * 256 + |data| then Some(data[i - lba * 256]) else None
    case _ => None
  }

  /** A byte by replaying the run backwards to the last request that set it; zero if none did. */
  ghost function Replay<I>(d: Disk<I>, run: seq<(Request, I)>, id: I, i: nat): byte
    requires WellFormed(d)
  {
    if run == [] then (if id in d.content then ByteAt(d.content[id], i) else 0)
    else
      var front, last := run[..|run| - 1], run[|run| - 1];
      match Effect(Run(d, front), last.0, last.1, id, i)
      case Some(b) => b
      case None => Replay(d, front, id, i)
  }

  lemma StepByte<I>(d: Disk<I>, q: Request, newId: I, id: I, i: nat)
    requires WellFormed(d) && id in Step(d, q, newId).content
    ensures ByteAt(Step(d, q, newId).content[id], i) ==
      match Effect(d, q, newId, id, i)
      case Some(b) => b
      case None => if id in d.content then ByteAt(d.content[id], i) else 0
  {
    if q.WriteSector? && id == d.base { WriteThenByte(d.content[id], q.lba, q.data, i); }
  }

  lemma AbsentUntouched<I>(d: Disk<I>, q: Request, newId: I, id: I, i: nat)
    requires WellFormed(d) && id !in Step(d, q, newId).content
    ensures id !in d.content && Effect(d, q, newId, id, i) == None
  {}

  /** Every image is, byte for byte, the replay of the run. */
  lemma {:induction false} ImagesReplay<I>(d: Disk<I>, run: seq<(Request, I)>, id: I, i: nat)
    requires WellFormed(d)
    ensures id in Run(d, run).content ==> ByteAt(Run(d, run).content[id], i) == Replay(d, run, id, i)
    ensures id !in Run(d, run).content ==> Replay(d, run, id, i) == 0
  {
    hide Effect, ByteAt, Step;
    if run == [] {
    } else {
      var front, last := run[..|run| - 1], run[|run| - 1];
      ImagesReplay(d, front, id, i);
      if id in Run(d, run).content {
        StepByte(Run(d, front), last.0, last.1, id, i);
      } else {
        AbsentUntouched(Run(d, front), last.0, last.1, id, i);
      }
    }
  }

  ghost predicate HoldsBase<I>(d: Disk<I>, slot: byte) {
    slot in d.mounted && d.mounted[slot] == d.base
  }

  /** A full-sector READ through any slot that holds the base image gives the replay of every write in
      the run, whatever slot each write named, since the base image was last reinitialised. */
  lemma BaseReadsReplay<I>(d: Disk<I>, run: seq<(Request, I)>, slot: byte, lba: nat, maxBytes: nat, k: nat)
    requires WellFormed(d) && HoldsBase(Run(d, run), slot)
    requires (maxBytes == 0 || maxBytes >= 256) && k < 256
    ensures Answer(Run(d, run), ReadSector(slot, lba, maxBytes)).Data?
    ensures Answer(Run(d, run), ReadSector(slot, lba, maxBytes)).data[k] == Replay(d, run, d.base, lba * 256 + k)
  {
    hide Replay, Run, ByteAt, ReadAt;
    ImagesReplay(d, run, d.base, lba * 256 + k);
    ReadIsBytes(ImageOf(Run(d, run), slot), lba, maxBytes, k);
  }

  /** After a full-sector write, a read through a slot returns the data exactly when the slot holds the
      base image or already showed that data: the slot named by the write plays no part. */
  lemma ReadAfterWrite<I>(d: Disk<I>, newId: I, slot: byte, other: byte, lba: nat, data: seq<byte>)
    requires WellFormed(d) && |data| == 256
    ensures WellFormed(Step(d, WriteSector(slot, lba, data), newId))
    ensures Answer(Step(d, WriteSector(slot, lba, data), newId), ReadSector(other, lba, 0)) == Data(data) <==>
      HoldsBase(d, other) || Answer(d, ReadSector(other, lba, 0)) == Data(data)
  {
    var after := Step(d, WriteSector(slot, lba, data), newId);
    if HoldsBase(d, other) {
      forall k | 0 <= k < 256
        ensures ReadAt(after.content[d.base], lba, 0)[k] == data[k]
      {
        ReadIsBytes(after.content[d.base], lba, 0, k);
        WriteThenByte(d.content[d.base], lba, data, lba * 256 + k);
      }
      assert ReadAt(after.content[d.base], lba, 0) == data;
    } else {
      assert ImageOf(after, other) == ImageOf(d, other);
    }
  }

  /** A disc image under "a" and a copy of it under "b", the copy mounted in slot 2: a sector written to
      slot 2 does not read back from it. */
  lemma WriteToCopyIsLost()
    ensures var start := Disk(map[0 := Zeros(256), 1 := Zeros(256)], 0, [97], map[[97] := 0, [98] := 1], map[], map[]);
      && WellFormed(start)
      && var data, mounted := seq(256, _ => 255), Step(start, Mount(2, 0, [98]), 2);
      && WellFormed(mounted) && WellFormed(Step(mounted, WriteSector(2, 0, data), 3))
      && Answer(Step(mounted, WriteSector(2, 0, data), 3), ReadSector(2, 0, 0)) != Data(data)
  {
    var start := Disk(map[0 := Zeros(256), 1 := Zeros(256)], 0, [97], map[[97] := 0, [98] := 1], map[], map[]);
    var data: seq<byte>, mounted := seq(256, _ => 255), Step(start, Mount(2, 0, [98]), 2);
    assert 2 in mounted.mounted && mounted.mounted[2] == 1;
    ReadIsBytes(Zeros(256), 0, 0, 0);
    ReadAfterWrite(mounted, 3, 2, 2, 0, data);
    assert Answer(mounted, ReadSector(2, 0, 0)).data[0] == 0 != data[0];
  }

  // ------------------------------------------------------------ drives and slots

  ghost function DrivesOf<I>(d: Disk<I>): set<nat> {
    set s | s in d.mounted :: DriveOf(s)
  }

  /** The drives listed by LIST_MOUNTS are the drives of the mounted slots. */
  ghost predicate DrivesMatch<I>(d: Disk<I>) {
    d.runtime.Keys == DrivesOf(d)
  }

  /** Slots 0 and 1 share drive 0, so unmounting one while the other is mounted breaks the match; no
      other request can. */
  lemma DrivesStayMatched<I>(d: Disk<I>, q: Request, newId: I)
    requires WellFormed(d) && DrivesMatch(d)
    ensures DrivesMatch(Step(d, q, newId)) <==>
      !(q.Unmount? && ((q.slot == 0 && 1 in d.mounted) || (q.slot == 1 && 0 in d.mounted)))
  {
    var after := Step(d, q, newId);
    match q {
      case Unmount(slot) =>
        assert after.runtime.Keys == DrivesOf(d) - {DriveOf(slot)};
        if slot == 0 && 1 in d.mounted {
          assert 1 in after.mounted && DriveOf(1) in DrivesOf(after);
        } else if slot == 1 && 0 in d.mounted {
          assert 0 in after.mounted && DriveOf(0) in DrivesOf(after);
        } else {
          assert forall s :: s in d.mounted && s != slot ==> DriveOf(s) != DriveOf(slot);
          assert after.runtime.Keys == DrivesOf(after);
        }
      case Mount(slot, flags, uri) =>
        if uri in d.available {
          assert after.runtime.Keys == DrivesOf(d) + {DriveOf(slot)};
          assert forall s :: s in d.mounted ==> s in after.mounted;
          assert slot in after.mounted && DriveOf(slot) in DrivesOf(after);
          assert after.runtime.Keys == DrivesOf(after);
        }
      case _ =>
    }
  }

  predicate UsesSlotZero(q: Request) {
    (q.Mount? || q.Unmount?) && q.slot == 0
  }

  predicate Names(base: Uri, q: Request, u: Uri) {
    q.Create? && u in Spellings(base, q.uri)
  }

  /** The URI can be mounted after these requests: it could at first, or a CREATE among them named it. */
  ghost predicate Mountable<I>(d: Disk<I>, run: seq<(Request, I)>, u: Uri) {
    u in d.available || exists k :: 0 <= k < |run| && Names(d.uri, run[k].0, u)
  }

  lemma {:induction false} MountableIsAvailable<I>(d: Disk<I>, run: seq<(Request, I)>, u: Uri)
    requires WellFormed(d)
    ensures Mountable(d, run, u) <==> u in Run(d, run).available
  {
    hide Step, WellFormed, Names;
    if run == [] {
    } else {
      var n := |run| - 1;
      var front := run[..n];
      MountableIsAvailable(d, front, u);
      StepNames(Run(d, front), run[n].0, run[n].1, u);
      if Mountable(d, run, u) && u !in d.available {
        var k :| 0 <= k < |run| && Names(d.uri, run[k].0, u);
        assert k < n ==> front[k] == run[k];
      }
      if k :| 0 <= k < n && Names(d.uri, front[k].0, u) { assert Names(d.uri, run[k].0, u); }
    }
  }

  lemma StepNames<I>(d: Disk<I>, q: Request, newId: I, u: Uri)
    requires WellFormed(d)
    ensures u in Step(d, q, newId).available <==> u in d.available || Names(d.uri, q, u)
  {}

  /** Whether the last MOUNT or UNMOUNT of one of these slots that took effect was a MOUNT; before any,
      whether one of them is mounted. */
  ghost predicate LastMounts<I(!new)>(d: Disk<I>, run: seq<(Request, I)>, slots: byte -> bool) {
    if run == [] then exists s :: slots(s) && s in d.mounted
    else
      var front, last := run[..|run| - 1], run[|run| - 1].0;
      if last.Unmount? && slots(last.slot) then false
      else if last.Mount? && slots(last.slot) && Mountable(d, front, last.uri) then true
      else LastMounts(d, front, slots)
  }

  const ON_DRIVE_0: byte -> bool := s => s == 0 || s == 1
  const ON_SLOT_1: byte -> bool := s => s == 1

  ghost predicate LessOne<I>(d: Disk<I>) {
    forall drive: nat :: drive in d.runtime <==> drive + 1 < 256 && (drive + 1) as byte in d.mounted
  }

  /** Over every run, mapped drives are exactly the mounted slots less one if and only if the last effective
      MOUNT or UNMOUNT of slot 0 or 1 and the last one of slot 1 are of a kind. They always are while slot 0
      is not used. */
  lemma DrivesAreSlotsLessOne<I(!new)>(d: Disk<I>, run: seq<(Request, I)>)
    requires WellFormed(d) && DrivesMatch(d)
    ensures LessOne(Run(d, run)) <==> (LastMounts(d, run, ON_DRIVE_0) <==> LastMounts(d, run, ON_SLOT_1))
    ensures 0 !in d.mounted && (forall k :: 0 <= k < |run| ==> !UsesSlotZero(run[k].0)) ==>
      LessOne(Run(d, run)) && DrivesMatch(Run(d, run)) && 0 !in Run(d, run).mounted
  {
    hide Run, LastMounts;
    LowSlots(d, run);
    HigherDrives(d, run);
    LessOneByDrive(Run(d, run));
    if 0 !in d.mounted && forall k :: 0 <= k < |run| ==> !UsesSlotZero(run[k].0) {
      WithoutSlotZero(d, run);
      MatchedWithoutZero(Run(d, run));
    }
  }

  /** An empty image, number 0, under the one URI "a", and nothing mounted. */
  ghost function SmallDisk(): Disk<nat> {
    Disk(map[0 := []], 0, [97], map[[97] := 0], map[], map[])
  }

  /** Slot 1 mounted, slot 0 mounted and unmounted: slot 1 is still mounted, but drive 0 is not mapped. */
  lemma SharedDriveIsLost()
    ensures var start := SmallDisk();
      var run: seq<(Request, nat)> := [(Mount(1, 0, [97]), 1), (Mount(0, 0, [97]), 1), (Unmount(0), 1)];
      && WellFormed(start) && DrivesMatch(start)
      && 1 in Run(start, run).mounted && Run(start, run).runtime == map[]
  {
    var start := SmallDisk();
    var run: seq<(Request, nat)> := [(Mount(1, 0, [97]), 1), (Mount(0, 0, [97]), 1), (Unmount(0), 1)];
    assert run[..2][..1][..0] == [] && run[..2][..1] == [run[0]] && run[..2] == [run[0], run[1]];
    assert Run(start, run[..2][..1][..0]) == start;
    var one := Step(start, run[0].0, 1);
    assert Run(start, run[..2][..1]) == one;
    var two := Step(one, run[1].0, 1);
    assert Run(start, run[..2]) == two && Run(start, run) == Step(two, run[2].0, 1);
  }

  lemma LessOneByDrive<I>(r: Disk<I>)
    requires HigherDrivesMatch(r)
    ensures LessOne(r) <==> (0 in r.runtime <==> 1 in r.mounted)
  {
    var zero: nat := 0;
    assert (zero + 1) as byte == 1;
    if zero in r.runtime <==> 1 in r.mounted {
      forall drive: nat
        ensures drive in r.runtime <==> drive + 1 < 256 && (drive + 1) as byte in r.mounted
      {
        if drive == 0 { assert (drive + 1) as byte == 1; }
      }
    } else {
      assert !(zero in r.runtime <==> zero + 1 < 256 && (zero + 1) as byte in r.mounted);
    }
  }

  lemma {:induction false} LowSlots<I(!new)>(d: Disk<I>, run: seq<(Request, I)>)
    requires WellFormed(d) && DrivesMatch(d)
    ensures 0 in Run(d, run).runtime <==> LastMounts(d, run, ON_DRIVE_0)
    ensures 1 in Run(d, run).mounted <==> LastMounts(d, run, ON_SLOT_1)
  {
    hide Step;
    if run == [] {
      assert 0 in d.runtime <==> 0 in DrivesOf(d);
    } else {
      LowSlots(d, run[..|run| - 1]);
      if run[|run| - 1].0.Mount? { MountableIsAvailable(d, run[..|run| - 1], run[|run| - 1].0.uri); }
      StepLow(Run(d, run[..|run| - 1]), run[|run| - 1].0, run[|run| - 1].1);
    }
  }

  lemma StepLow<I>(d: Disk<I>, q: Request, newId: I)
    requires WellFormed(d)
    ensures var after := Step(d, q, newId);
      && (0 in after.runtime <==>
          if q.Unmount? && q.slot <= 1 then false
          else if q.Mount? && q.slot <= 1 && q.uri in d.available then true else 0 in d.runtime)
      && (1 in after.mounted <==>
          if q.Unmount? && q.slot == 1 then false
          else if q.Mount? && q.slot == 1 && q.uri in d.available then true else 1 in d.mounted)
  {}

  /** Drives other than 0, which belong to one slot each. */
  ghost predicate HigherDrivesMatch<I>(d: Disk<I>) {
    forall drive: nat :: drive > 0 ==> (drive in d.runtime <==> drive + 1 < 256 && (drive + 1) as byte in d.mounted)
  }

  lemma {:induction false} HigherDrives<I>(d: Disk<I>, run: seq<(Request, I)>)
    requires WellFormed(d) && DrivesMatch(d)
    ensures HigherDrivesMatch(Run(d, run))
  {
    if run == [] {
      forall drive: nat | drive > 0
        ensures drive in d.runtime <==> drive + 1 < 256 && (drive + 1) as byte in d.mounted
      {
        assert drive in d.runtime <==> drive in DrivesOf(d);
        if drive + 1 < 256 && (drive + 1) as byte in d.mounted { assert DriveOf((drive + 1) as byte) == drive; }
      }
    } else {
      HigherDrives(d, run[..|run| - 1]);
      StepHigher(Run(d, run[..|run| - 1]), run[|run| - 1].0, run[|run| - 1].1);
    }
  }

  lemma StepHigher<I>(d: Disk<I>, q: Request, newId: I)
    requires WellFormed(d) && HigherDrivesMatch(d)
    ensures HigherDrivesMatch(Step(d, q, newId))
  {
    var after := Step(d, q, newId);
    forall drive: nat | drive > 0
      ensures drive in after.runtime <==> drive + 1 < 256 && (drive + 1) as byte in after.mounted
    {
      assert drive in d.runtime <==> drive + 1 < 256 && (drive + 1) as byte in d.mounted;
    }
  }

  lemma {:induction false} WithoutSlotZero<I>(d: Disk<I>, run: seq<(Request, I)>)
    requires WellFormed(d) && DrivesMatch(d) && 0 !in d.mounted
    requires forall k :: 0 <= k < |run| ==> !UsesSlotZero(run[k].0)
    ensures 0 !in Run(d, run).mounted && DrivesMatch(Run(d, run))
  {
    hide Step;
    if run == [] {
    } else {
      var front, last := run[..|run| - 1], run[|run| - 1];
      assert !UsesSlotZero(last.0);
      WithoutSlotZero(d, front);
      DrivesStayMatched(Run(d, front), last.0, last.1);
      NeverSlotZero(Run(d, front), last.0, last.1);
    }
  }

  lemma NeverSlotZero<I>(d: Disk<I>, q: Request, newId: I)
    requires WellFormed(d) && 0 !in d.mounted && !UsesSlotZero(q)
    ensures 0 !in Step(d, q, newId).mounted
  {}

  lemma MatchedWithoutZero<I>(r: Disk<I>)
    requires DrivesMatch(r) && 0 !in r.mounted
    ensures LessOne(r)
  {
    forall drive: nat
      ensures drive in r.runtime <==> drive + 1 < 256 && (drive + 1) as byte in r.mounted
    {
      assert drive in r.runtime <==> drive in DrivesOf(r);
      if drive + 1 < 256 && (drive + 1) as byte in r.mounted { assert DriveOf((drive + 1) as byte) == drive; }
      if drive in DrivesOf(r) {
        var s :| s in r.mounted && DriveOf(s) == drive;
        assert s != 0 && s == drive + 1;
      }
    }
  }

  predicate UsesDrive(q: Request, drive: nat) {
    (q.Mount? || q.Unmount?) && DriveOf(q.slot) == drive
  }

  /** A successful MOUNT lasts: until a request for the same drive, the slot holds the image the URI led to
      at that moment and the drive lists that URI and mode, whatever is created or reinitialised since. */
  lemma {:induction false} MountLasts<I>(d: Disk<I>, front: seq<(Request, I)>, mount: (Request, I),
                                       rest: seq<(Request, I)>)
    requires WellFormed(d) && mount.0.Mount? && mount.0.uri in Run(d, front).available
    requires forall k :: 0 <= k < |rest| ==> !UsesDrive(rest[k].0, DriveOf(mount.0.slot))
    ensures var now := Run(d, front + [mount] + rest);
      && mount.0.slot in now.mounted && now.mounted[mount.0.slot] == Run(d, front).available[mount.0.uri]
      && DriveOf(mount.0.slot) in now.runtime
      && now.runtime[DriveOf(mount.0.slot)] == MountInfo(mount.0.flags % 2 == 1, mount.0.uri)
    decreases |rest|
  {
    hide Step, WellFormed;
    var run := front + [mount] + rest;
    if rest == [] {
      assert run[..|run| - 1] == front && run[|run| - 1] == mount;
      StepMounts(Run(d, front), mount.0, mount.1);
    } else {
      var n := |rest| - 1;
      MountLasts(d, front, mount, rest[..n]);
      assert run[..|run| - 1] == front + [mount] + rest[..n] && run[|run| - 1] == rest[n];
      assert !UsesDrive(rest[n].0, DriveOf(mount.0.slot));
      StepKeepsMount(Run(d, front + [mount] + rest[..n]), rest[n].0, rest[n].1, mount.0.slot);
    }
  }

  lemma StepMounts<I>(d: Disk<I>, q: Request, newId: I)
    requires WellFormed(d) && q.Mount? && q.uri in d.available
    ensures var after := Step(d, q, newId);
      && q.slot in after.mounted && after.mounted[q.slot] == d.available[q.uri]
      && DriveOf(q.slot) in after.runtime && after.runtime[DriveOf(q.slot)] == MountInfo(q.flags % 2 == 1, q.uri)
  {}

  lemma StepKeepsMount<I>(d: Disk<I>, q: Request, newId: I, slot: byte)
    requires WellFormed(d) && slot in d.mounted && DriveOf(slot) in d.runtime && !UsesDrive(q, DriveOf(slot))
    ensures var after := Step(d, q, newId);
      && slot in after.mounted && after.mounted[slot] == d.mounted[slot]
      && DriveOf(slot) in after.runtime && after.runtime[DriveOf(slot)] == d.runtime[DriveOf(slot)]
  {}

  /** A URI leads to the base image exactly as long as no CREATE has taken that spelling. */
  lemma {:induction false} BaseUriUntilRecreated<I>(d: Disk<I>, run: seq<(Request, I)>, u: Uri)
    requires WellFormed(d) && Allocates(d, run) && u in d.available && d.available[u] == d.base
    ensures u in Run(d, run).available
    ensures Run(d, run).available[u] == d.base <==> forall k :: 0 <= k < |run| ==> !Names(d.uri, run[k].0, u)
  {
    hide Step;
    if run == [] {
    } else {
      var n := |run| - 1;
      var front, last := run[..n], run[n];
      assert forall k :: 0 <= k < n ==> front[k] == run[k] && front[..k] == run[..k];
      assert Allocates(d, front);
      BaseUriUntilRecreated(d, front, u);
      assert last.0.Create? ==> last.1 !in Run(d, run[..n]).content;
      StepAvailable(Run(d, front), last.0, last.1, u);
    }
  }

  lemma StepAvailable<I>(d: Disk<I>, q: Request, newId: I, u: Uri)
    requires WellFormed(d) && u in d.available && (q.Create? ==> newId !in d.content)
    ensures u in Step(d, q, newId).available
    ensures Names(d.uri, q, u) ==> Step(d, q, newId).available[u] == newId != d.base
    ensures !Names(d.uri, q, u) ==> Step(d, q, newId).available[u] == d.available[u]
  {}

  lemma CreateStep<I>(d: Disk<I>, u: Uri, sectors: nat, id: I)
    requires WellFormed(d)
    ensures Answer(d, Create(u, sectors)) == Status(0, 0)
    ensures Step(d, Create(u, sectors), id) ==
      d.(content := d.content[id := Zeros(Max(1, sectors) * 256)],
         available := if 58 in u then d.available[u := id] else d.available[u := id][Folder(d.uri) + u := id])
  {
    assert d.available + (map s | s in Spellings(d.uri, u) :: id) ==
      if 58 in u then d.available[u := id] else d.available[u := id][Folder(d.uri) + u := id];
  }

  // ------------------------------------------------------------------- class

  /** A bytearray. */
  class Buffer {
    var data: seq<byte>

    constructor (data: seq<byte>)
      ensures this.data == data
    {
      this.data := data;
    }
  }

  /** The base image under its own spellings; under the other URIs images that alias neither it nor one
      another. */
  ghost predicate Serves<I>(available: map<Uri, I>, base: I, own: set<Uri>, others: seq<Uri>) {
    && available.Keys == own + (set u | u in others)
    && (forall u :: u in own && u !in others ==> available[u] == base)
    && (forall u :: u in others ==> available[u] != base)
    && (forall u, v :: u in others && v in others && u != v ==> available[u] != available[v])
  }

  lemma ServesItself<I>(base: I, uri: Uri, name: Uri)
    ensures Serves(map[uri := base, name := base], base, {uri, name}, [])
  {}

  lemma ServesNext<I>(available: map<Uri, I>, base: I, own: set<Uri>, others: seq<Uri>, i: nat, copy: I)
    requires i < |others| && Serves(available, base, own, others[..i]) && copy != base && copy !in available.Values
    ensures Serves(available[others[i] := copy], base, own, others[..i + 1])
  {
    assert others[..i + 1] == others[..i] + [others[i]];
    forall v | v in others[..i]
      ensures v in available && available[v] != copy
    {
      assert available[v] in available.Values;
    }
  }

  class Responder {
    const uri: Uri
    const image: Buffer
    var available: map<Uri, Buffer>
    var mounted: map<byte, Buffer>
    var runtime: map<nat, MountInfo>
    ghost var buffers: set<Buffer>

    ghost predicate Valid()
      reads this
    {
      && image in buffers
      && (forall u :: u in available ==> available[u] in buffers)
      && (forall s :: s in mounted ==> mounted[s] in buffers)
    }

    ghost function State(): (d: Disk<Buffer>)
      requires Valid()
      reads this, buffers
      ensures WellFormed(d)
    {
      Disk(map b | b in buffers :: b.data, image, uri, available, mounted, runtime)
    }

    /** Nothing mounted; the image under its URI and its last component, a copy under each other URI. */
    constructor (bytes: seq<byte>, uri: Uri, availableUris: seq<Uri>)
      ensures Valid() && fresh(buffers) && this.uri == uri
      ensures State().base == image && State().content[image] == bytes
      ensures mounted == map[] && runtime == map[]
      ensures Serves(available, image, {uri, LastComponent(uri)}, availableUris)
      ensures forall u :: u in available ==> available[u].data == bytes
    {
      hide LastComponent, Serves;
      this.uri := uri;
      image := new Buffer(bytes);
      new;
      buffers := {image};
      mounted, runtime := map[], map[];
      available := map[uri := image, LastComponent(uri) := image];
      ServesItself(image, uri, LastComponent(uri));
      assert availableUris[..0] == [];
      var i := 0;
      while i < |availableUris|
        invariant i <= |availableUris| && Valid() && fresh(buffers)
        invariant mounted == map[] && runtime == map[]
        invariant forall b :: b in buffers ==> b.data == bytes
        invariant Serves(available, image, {uri, LastComponent(uri)}, availableUris[..i])
      {
        ghost var before := available;
        AddCopy(availableUris[i]);
        ServesNext(before, image, {uri, LastComponent(uri)}, availableUris, i, available[availableUris[i]]);
        i := i + 1;
      }
      assert availableUris[..i] == availableUris;
    }

    /** bytearray(image) under another URI */
    method AddCopy(copyUri: Uri)
      requires Valid()
      modifies this
      ensures Valid() && mounted == old(mounted) && runtime == old(runtime)
      ensures copyUri in available && available == old(available)[copyUri := available[copyUri]]
      ensures fresh(available[copyUri]) && available[copyUri].data == image.data
      ensures buffers == old(buffers) + {available[copyUri]}
    {
      var copy := new Buffer(image.data);
      buffers := buffers + {copy};
      available := available[copyUri := copy];
    }

    /** CMD_CREATE; `created` is the new image. */
    method CreateImage(createUri: Uri, sectors: nat) returns (r: Reply, created: Buffer)
      requires Valid()
      modifies this
      ensures Valid() && fresh(created)
      ensures State() == Step(old(State()), Create(createUri, sectors), created)
      ensures r == Answer(old(State()), Create(createUri, sectors))
    {
      hide Step, Answer, Folder, Spellings;
      created := new Buffer(Zeros(Max(1, sectors) * 256));
      buffers := buffers + {created};
      available := available[createUri := created];
      if 58 !in createUri {
        available := available[Folder(uri) + createUri := created];
      }
      r := Status(0, 0);
      CreateStep(old(State()), createUri, sectors, created);
      hide Folder, Step, Answer;
      assert State().content == old(State()).content[created := Zeros(Max(1, sectors) * 256)];
    }

    /** CMD_MOUNT */
    method MountImage(slot: byte, flags: byte, mountUri: Uri, ghost any: Buffer) returns (r: Reply)
      requires Valid()
      modifies this
      ensures Valid()
      ensures State() == Step(old(State()), Mount(slot, flags, mountUri), any)
      ensures r == Answer(old(State()), Mount(slot, flags, mountUri))
    {
      if mountUri !in available { return Status(5, 0); }
      runtime := runtime[DriveOf(slot) := MountInfo(flags % 2 == 1, mountUri)];
      mounted := mounted[slot := available[mountUri]];
      r := Status(0, Max(1, |available[mountUri].data| / 256));
    }

    /** CMD_UNMOUNT */
    method UnmountImage(slot: byte, ghost any: Buffer) returns (r: Reply)
      requires Valid()
      modifies this
      ensures Valid()
      ensures State() == Step(old(State()), Unmount(slot), any)
      ensures r == Answer(old(State()), Unmount(slot))
    {
      runtime := runtime - {DriveOf(slot)};
      mounted := mounted - {slot};
      r := Status(0, 0);
    }

    /** CMD_REINITIALIZE */
    method ReinitializeImage(slot: byte, sectorSize: nat, sectors: nat, ghost any: Buffer) returns (r: Reply)
      requires Valid()
      modifies buffers
      ensures Valid()
      ensures State() == Step(old(State()), Reinitialize(slot, sectorSize, sectors), any)
      ensures r == Answer(old(State()), Reinitialize(slot, sectorSize, sectors))
    {
      hide BlankImage;
      if slot !in mounted || !CanReinitialize(sectorSize, sectors) { return Status(5, sectors); }
      var mountImage := mounted[slot];
      Blank(mountImage, sectors);
      r := Status(0, sectors);
      assert State().content == old(State()).content[mountImage := BlankImage(sectors)];
    }

    /** CMD_WRITE_SECTOR, through _write_sector: always the image this responder was made with. */
    method WriteImage(slot: byte, lba: nat, data: seq<byte>, ghost any: Buffer) returns (r: Reply)
      requires Valid()
      modifies buffers
      ensures Valid()
      ensures State() == Step(old(State()), WriteSector(slot, lba, data), any)
      ensures r == Answer(old(State()), WriteSector(slot, lba, data))
    {
      var start, end := lba * 256, lba * 256 + |data|;
      if end > |image.data| {
        image.data := image.data + Zeros(end - |image.data|);
      }
      image.data := image.data[..start] + data + image.data[end..];
      r := Written(|data|);
      assert image.data == WriteAt(old(image.data), lba, data);
      hide Overlay;
      assert State().content == old(State()).content[image := image.data];
    }

    /** The disk branch of _resp. `created` is the image a CREATE allocates. */
    method Respond(q: Request) returns (r: Reply, ghost created: Buffer)
      requires Valid()
      modifies this, buffers
      ensures Valid()
      ensures q.Create? ==> fresh(created)
      ensures State() == Step(old(State()), q, created)
      ensures r == Answer(old(State()), q)
    {
      hide WriteAt, ReadAt, BlankImage;
      created := image;
      match q {
        case Create(createUri, sectors) =>
          var newImage;
          r, newImage := CreateImage(createUri, sectors);
          created := newImage;
        case Mount(slot, flags, mountUri) => r := MountImage(slot, flags, mountUri, created);
        case Unmount(slot) => r := UnmountImage(slot, created);
        case Reinitialize(slot, sectorSize, sectors) => r := ReinitializeImage(slot, sectorSize, sectors, created);
        case Info(slot) =>
          r := Geometry(slot in mounted, Max(1, |if slot in mounted then mounted[slot].data else []| / 256));
        case ReadSector(slot, lba, maxBytes) =>
          r := Data(ReadAt(if slot in mounted then mounted[slot].data else [], lba, maxBytes));
        case WriteSector(slot, lba, data) => r := WriteImage(slot, lba, data, created);
      }
    }

    /** clear, extend with zeros, stamp the title and the sector count */
    static method Blank(buffer: Buffer, sectors: nat)
      requires sectors >= 2
      modifies buffer
      ensures buffer.data == BlankImage(sectors)
    {
      var d: seq<byte> := Zeros(sectors * 256);
      d := BLANK + d[5..];
      d := d[0x106 := sectors / 256 % 4];
      d := d[0x107 := sectors % 256];
      assert d == BlankImage(sectors);
      buffer.data := d;
    }
  }

  /** uri.rsplit("/", 1)[-1] */
  function LastComponent(uri: Uri): Uri {
    if uri == [] || uri[|uri| - 1] == 47 then [] else LastComponent(uri[..|uri| - 1]) + [uri[|uri| - 1]]
  }
}
