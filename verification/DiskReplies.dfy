/** What the disk responder answers, over every run, in terms of what was asked before and the images' bytes. */
module DiskReplies {
  import opened Bytes
  import opened DiskServer

  function Only(slot: byte): byte -> bool {
    s => s == slot
  }

  /** Sectors reported for an image: at least one. */
  function SectorsOf(image: seq<byte>): nat {
    if |image| < 512 then 1 else |image| / 256
  }

  /** A slot is mounted if and only if its last MOUNT or UNMOUNT that took effect was a MOUNT. */
  lemma {:induction false} MountedIfLast<I(!new)>(d: Disk<I>, run: seq<(Request, I)>, slot: byte)
    requires WellFormed(d)
    ensures slot in Run(d, run).mounted <==> LastMounts(d, run, Only(slot))
  {
    hide Step, Mountable;
    if run == [] {
      assert Only(slot)(slot);
    } else {
      var front, last := run[..|run| - 1], run[|run| - 1];
      MountedIfLast(d, front, slot);
      if last.0.Mount? { MountableIsAvailable(d, front, last.0.uri); }
      StepMounted(Run(d, front), last.0, last.1, slot);
    }
  }

  lemma StepMounted<I>(d: Disk<I>, q: Request, newId: I, slot: byte)
    requires WellFormed(d)
    ensures slot in Step(d, q, newId).mounted <==>
      if q.Unmount? && q.slot == slot then false
      else if q.Mount? && q.slot == slot && q.uri in d.available then true else slot in d.mounted
  {}

  /** INFO says mounted exactly then, and gives the size of the slot's image. */
  lemma InfoAnswered<I(!new)>(d: Disk<I>, run: seq<(Request, I)>, slot: byte)
    requires WellFormed(d)
    ensures Answer(Run(d, run), Info(slot)) ==
      if LastMounts(d, run, Only(slot)) then Geometry(true, SectorsOf(ImageOf(Run(d, run), slot)))
      else Geometry(false, 1)
  {
    MountedIfLast(d, run, slot);
    hide Run, LastMounts;
  }

  /** MOUNT is answered 0 exactly when the URI can be mounted; then INFO on the slot right after says mounted with
      the same size, the size of the image the URI leads to. Otherwise it is answered 5 and changes nothing. */
  lemma MountAnswered<I>(d: Disk<I>, run: seq<(Request, I)>, slot: byte, flags: byte, uri: Uri, newId: I)
    requires WellFormed(d)
    ensures var r := Run(d, run);
      if Mountable(d, run, uri) then
        && uri in r.available && WellFormed(Step(r, Mount(slot, flags, uri), newId))
        && var n := SectorsOf(r.content[r.available[uri]]);
        && Answer(r, Mount(slot, flags, uri)) == Status(0, n)
        && Answer(Step(r, Mount(slot, flags, uri), newId), Info(slot)) == Geometry(true, n)
        && ImageOf(Step(r, Mount(slot, flags, uri), newId), slot) == r.content[r.available[uri]]
      else Answer(r, Mount(slot, flags, uri)) == Status(5, 0) && Step(r, Mount(slot, flags, uri), newId) == r
  {
    MountableIsAvailable(d, run, uri);
    hide Run, Mountable;
    StepWellFormed(Run(d, run), Mount(slot, flags, uri), newId);
  }

  /** UNMOUNT is answered 0, and INFO on the slot then says not mounted. */
  lemma UnmountAnswered<I>(d: Disk<I>, slot: byte, newId: I)
    requires WellFormed(d)
    ensures Answer(d, Unmount(slot)) == Status(0, 0) && WellFormed(Step(d, Unmount(slot), newId))
    ensures Answer(Step(d, Unmount(slot), newId), Info(slot)) == Geometry(false, 1)
  {}

  /** CREATE is answered 0; each spelling can then be mounted as that many zero sectors, or one for none. */
  lemma CreateAnswered<I>(d: Disk<I>, uri: Uri, sectors: nat, newId: I, spelling: Uri)
    requires WellFormed(d) && Names(d.uri, Create(uri, sectors), spelling)
    ensures Answer(d, Create(uri, sectors)) == Status(0, 0)
    ensures var after := Step(d, Create(uri, sectors), newId);
      && WellFormed(after) && spelling in after.available && after.available[spelling] == newId
      && after.content[newId] == Zeros(256 * if sectors == 0 then 1 else sectors)
  {}

  /** The blank disc: zeros but for "BLANK" at the start and the sector count in bytes 0x106 and 0x107. */
  predicate IsBlankDisc(image: seq<byte>, sectors: nat) {
    && |image| == 256 * sectors && |image| > 0x107
    && image[..5] == [66, 76, 65, 78, 75]
    && image[0x106] == sectors / 256 % 4 && image[0x107] == sectors % 256
    && forall k :: 5 <= k < |image| && k != 0x106 && k != 0x107 ==> image[k] == 0
  }

  /** REINITIALIZE is answered 0 exactly when the slot is mounted and 400 or 800 sectors of 256 bytes are asked
      for; then the slot and every other slot of the same image hold the blank disc, and INFO gives its size.
      Otherwise it is answered 5 and changes nothing. */
  lemma ReinitializeAnswered<I(!new)>(d: Disk<I>, run: seq<(Request, I)>, slot: byte, size: nat, sectors: nat, newId: I,
                                      alias: byte)
    requires WellFormed(d)
    ensures WellFormed(Step(Run(d, run), Reinitialize(slot, size, sectors), newId))
    ensures var r, q := Run(d, run), Reinitialize(slot, size, sectors);
      if LastMounts(d, run, Only(slot)) && size == 256 && (sectors == 400 || sectors == 800) then
        && Answer(r, q) == Status(0, sectors) && slot in r.mounted
        && Answer(Step(r, q, newId), Info(slot)) == Geometry(true, sectors)
        && IsBlankDisc(ImageOf(Step(r, q, newId), slot), sectors)
        && (alias in r.mounted && r.mounted[alias] == r.mounted[slot] ==>
            ImageOf(Step(r, q, newId), alias) == ImageOf(Step(r, q, newId), slot))
      else Answer(r, q) == Status(5, sectors) && Step(r, q, newId) == r
  {
    MountedIfLast(d, run, slot);
    BlankIsBlank(sectors);
    hide Run, LastMounts, BlankImage, IsBlankDisc;
    StepReinitializes(Run(d, run), slot, size, sectors, newId, alias);
    hide Step, Answer;
  }

  lemma StepReinitializes<I>(d: Disk<I>, slot: byte, size: nat, sectors: nat, newId: I, alias: byte)
    requires WellFormed(d)
    ensures WellFormed(Step(d, Reinitialize(slot, size, sectors), newId))
    ensures var q := Reinitialize(slot, size, sectors);
      if slot in d.mounted && size == 256 && (sectors == 400 || sectors == 800) then
        && Answer(d, q) == Status(0, sectors) && ImageOf(Step(d, q, newId), slot) == BlankImage(sectors)
        && Answer(Step(d, q, newId), Info(slot)) == Geometry(true, sectors)
        && (alias in d.mounted && d.mounted[alias] == d.mounted[slot] ==>
            ImageOf(Step(d, q, newId), alias) == BlankImage(sectors))
      else Answer(d, q) == Status(5, sectors) && Step(d, q, newId) == d
  {
    hide BlankImage;
  }

  lemma BlankIsBlank(sectors: nat)
    ensures |BlankImage(sectors)| == 256 * sectors
    ensures sectors == 400 || sectors == 800 ==> IsBlankDisc(BlankImage(sectors), sectors)
  {
    if sectors == 400 || sectors == 800 {
      var image := BlankImage(sectors);
      assert image[..5] == [66, 76, 65, 78, 75];
    }
  }

  /** A sector read is answered with 256 bytes: those of the slot's image as far as they go and were asked for,
      then zeros; nothing but zeros from a slot that is not mounted. */
  lemma ReadAnswered<I>(d: Disk<I>, slot: byte, lba: nat, maxBytes: nat, k: nat)
    requires WellFormed(d) && k < 256
    ensures var r := Answer(d, ReadSector(slot, lba, maxBytes));
      && r.Data? && |r.data| == 256
      && r.data[k] ==
         if slot in d.mounted && (maxBytes == 0 || k < maxBytes) && 256 * lba + k < |d.content[d.mounted[slot]]|
         then d.content[d.mounted[slot]][256 * lba + k] else 0
  {
    ReadIsBytes(ImageOf(d, slot), lba, maxBytes, k);
  }

  /** A write is answered with the number of bytes it was given, all of which are then in the base image. */
  lemma WriteAnswered<I>(d: Disk<I>, slot: byte, lba: nat, data: seq<byte>, newId: I)
    requires WellFormed(d)
    ensures Answer(d, WriteSector(slot, lba, data)) == Written(|data|)
    ensures var after := Step(d, WriteSector(slot, lba, data), newId);
      && d.base in after.content && |after.content[d.base]| >= 256 * lba + |data|
      && after.content[d.base][256 * lba..256 * lba + |data|] == data
  {
    var was, now := d.content[d.base], WriteAt(d.content[d.base], lba, data);
    OverlayByte(was, lba * 256, data, 0);
    forall k | 0 <= k < |data|
      ensures now[256 * lba..256 * lba + |data|][k] == data[k]
    {
      OverlayByte(was, lba * 256, data, lba * 256 + k);
    }
  }

  // ------------------------------------------------------------------ spellings

  /** A CREATE names the URI as given and, if it has no colon, the URI in the folder of the served image: what
      that image's URI has up to its last slash, or all of it and a slash if it has none. */
  lemma CreateNames(base: Uri, uri: Uri, sectors: nat, folder: Uri, rest: Uri, spelling: Uri)
    requires 47 !in rest
    requires (base == folder + rest && folder != [] && folder[|folder| - 1] == 47)
          || (base == rest && folder == rest + [47])
    ensures Names(base, Create(uri, sectors), spelling) <==>
      spelling == uri || (58 !in uri && spelling == folder + uri)
  {
    if base == rest && folder == rest + [47] { FlatFolder(rest); } else { FolderIs(folder, rest); }
  }

  lemma {:induction false} FolderIs(folder: Uri, rest: Uri)
    requires folder != [] && folder[|folder| - 1] == 47 && 47 !in rest
    ensures Folder(folder + rest) == folder
  {
    if rest == [] {
      assert folder + rest == folder;
    } else {
      var n := |rest| - 1;
      assert (folder + rest)[..|folder| + n] == folder + rest[..n];
      assert (folder + rest)[|folder| - 1] == 47;
      FolderIs(folder, rest[..n]);
    }
  }

  lemma FlatFolder(rest: Uri)
    requires 47 !in rest
    ensures Folder(rest) == rest + [47]
  {}

  /** The served image's second spelling is what follows the last slash of its URI. */
  lemma {:induction false} LastComponentIs(folder: Uri, rest: Uri)
    requires (folder == [] || folder[|folder| - 1] == 47) && 47 !in rest
    ensures LastComponent(folder + rest) == rest
  {
    if rest == [] {
      assert folder + rest == folder;
    } else {
      var n := |rest| - 1;
      assert (folder + rest)[..|folder| + n] == folder + rest[..n];
      LastComponentIs(folder, rest[..n]);
    }
  }
}
