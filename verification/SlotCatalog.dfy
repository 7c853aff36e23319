/** build_slot_catalog_response: one page of a sparse slot catalogue, and the paging that drains it. */
module SlotCatalog {
  import opened Bytes

  /** A populated slot: its flags and its URI as UTF-8 bytes. */
  datatype SlotEntry = SlotEntry(flags: byte, uri: seq<byte>)

  type Slots = map<int, SlotEntry>

  /** payload[1..8]: bit 0 of `flags` asks for URI tails, bit 1 for formatted text. */
  datatype Request = Request(lower: byte, upper: byte, cursor: byte, flags: byte, maxUri: byte, maxPayload: nat) {
    predicate Tail() { flags % 2 == 1 }
    predicate Formatted() { flags / 2 % 2 == 1 }
  }

  datatype Page = Page(more: bool, next: byte, count: nat, presence: seq<bv8>, data: seq<byte>)

  /** Status 2, a Python ValueError, or a page with status 0. */
  datatype Reply = BadRequest | Raises | Reply(page: Page)

  // ------------------------------------------------------------- presence bits

  function Mask(b: nat): bv8 {
    if b == 0 then 1 else if b == 1 then 2 else if b == 2 then 4 else if b == 3 then 8
    else if b == 4 then 16 else if b == 5 then 32 else if b == 6 then 64 else 128
  }

  predicate Bit(v: bv8, b: nat) {
    v & Mask(b) != 0
  }

  lemma SetBit(v: bv8, b: nat, c: nat)
    requires b < 8 && c < 8
    ensures Bit(v | Mask(b), c) <==> Bit(v, c) || b == c
  {}

  /** Bits 0..n-1 say which of slots base..base+n-1 are populated. */
  function Bits(slots: Slots, base: int, n: nat): bv8 {
    if n == 0 then 0 else Bits(slots, base, n - 1) | (if base + n - 1 in slots then Mask(n - 1) else 0)
  }

  lemma {:induction false} BitsSay(slots: Slots, base: int, n: nat, c: nat)
    requires n <= 8 && c < 8
    ensures Bit(Bits(slots, base, n), c) <==> c < n && base + c in slots
  {
    if n == 0 {
    } else {
      BitsSay(slots, base, n - 1, c);
      SetBit(Bits(slots, base, n - 1), n - 1, c);
    }
  }

  function Clamp(n: int): nat {
    Max(0, Min(8, n))
  }

  /** ((upper - lower + 1) + 7) // 8 */
  function PresenceLen(lower: byte, upper: byte): int {
    (upper - lower + 8) / 8
  }

  /** The bitmap with slots below `end` entered. */
  function PresenceTo(slots: Slots, lower: int, end: int, len: nat): (p: seq<bv8>)
    ensures |p| == len
  {
    seq(len, j => Bits(slots, lower + 8 * j, Clamp(end - lower - 8 * j)))
  }

  function PresenceOf(slots: Slots, q: Request): seq<bv8>
    requires PresenceLen(q.lower, q.upper) >= 0
  {
    PresenceTo(slots, q.lower, q.upper + 1, PresenceLen(q.lower, q.upper))
  }

  /** Bit r of the bitmap is set exactly when slot lower + r is populated. */
  lemma PresenceBit(slots: Slots, q: Request, r: nat)
    requires q.lower + r <= q.upper
    ensures PresenceLen(q.lower, q.upper) > r / 8
    ensures Bit(PresenceOf(slots, q)[r / 8], r % 8) <==> q.lower + r in slots
  {
    BitsSay(slots, q.lower + 8 * (r / 8), Clamp(q.upper + 1 - q.lower - 8 * (r / 8)), r % 8);
  }

  // ------------------------------------------------------------------ records

  function Digits(n: nat): seq<byte> {
    if n < 10 then [48 + n] else Digits(n / 10) + [48 + n % 10]
  }

  const INVALID: seq<byte> := [60, 105, 110, 118, 97, 108, 105, 100, 62]

  /** uri[-max:] or uri[:max]; uri[-0:] is the whole URI. */
  function Cut(uri: seq<byte>, max: nat, tail: bool): seq<byte> {
    if |uri| <= max then uri
    else if !tail then uri[..max]
    else if max == 0 then uri
    else uri[|uri| - max..]
  }

  /** `flags |= 0x04` when the URI had to be cut. */
  function ShownFlags(e: SlotEntry, max: nat): byte {
    if |e.uri| > max && e.flags / 4 % 2 == 0 then e.flags + 4 else e.flags
  }

  /** One of the source's (index, flags, uri) tuples: the slot as this request shows it. */
  datatype Found = Found(index: byte, flags: byte, uri: seq<byte>)

  function FoundOf(index: byte, e: SlotEntry, q: Request): Found {
    Found(index, ShownFlags(e, q.maxUri), Cut(e.uri, q.maxUri, q.Tail()))
  }

  /** A tuple as a record; None where `bytes([..., len(uri)])` raises. */
  function RecordBytes(f: Found, formatted: bool): Option<seq<byte>> {
    if formatted then Some(Digits(f.index) + [58, 32] + (if f.flags % 2 == 1 then f.uri else INVALID) + [10])
    else if |f.uri| > 255 then None
    else Some([f.index, f.flags, |f.uri|] + f.uri)
  }

  function Record(index: byte, e: SlotEntry, q: Request): Option<seq<byte>> {
    RecordBytes(FoundOf(index, e, q), q.Formatted())
  }

  datatype Rec = Rec(index: byte, bytes: Option<seq<byte>>)

  /** The records of the populated slots from `from` to upper, in order. */
  function Records(slots: Slots, q: Request, from: nat): (rs: seq<Rec>)
    decreases 256 - from
  {
    if from > q.upper then []
    else (if from in slots then [Rec(from, Record(from, slots[from], q))] else []) + Records(slots, q, from + 1)
  }

  /** The first slot a page looks at for records. */
  function Start(q: Request): byte {
    Max(q.lower, q.cursor)
  }

  // ------------------------------------------------------------------- a page

  /** How many records go on a page with this much room, and whether building one of them raises. */
  function Fill(rs: seq<Rec>, room: int): Option<nat> {
    if rs == [] then Some(0)
    else match rs[0].bytes
      case None => None
      case Some(b) =>
        if |b| > room then Some(0)
        else match Fill(rs[1..], room - |b|) case None => None case Some(n) => Some(n + 1)
  }

  function Concat(rs: seq<Rec>): seq<byte> {
    if rs == [] then [] else rs[0].bytes.GetOr([]) + Concat(rs[1..])
  }

  lemma {:induction false} FillBounded(rs: seq<Rec>, room: int)
    requires Fill(rs, room).Some?
    ensures Fill(rs, room).value <= |rs|
  {
    if rs != [] && rs[0].bytes.Some? && |rs[0].bytes.value| <= room {
      FillBounded(rs[1..], room - |rs[0].bytes.value|);
    }
  }

  function PageOf(slots: Slots, q: Request, rs: seq<Rec>): Reply
    requires PresenceLen(q.lower, q.upper) >= 0
  {
    var presence := PresenceOf(slots, q);
    match Fill(rs, q.maxPayload - |presence|)
    case None => Raises
    case Some(k) =>
      FillBounded(rs, q.maxPayload - |presence|);
      if k > 255 then Raises
      else Reply(Page(k < |rs|, if k < |rs| then rs[k].index else 0, k, presence, Concat(rs[..k])))
  }

  function Respond(slots: Slots, q: Request): Reply {
    if PresenceLen(q.lower, q.upper) < 0 then Raises else PageOf(slots, q, Records(slots, q, Start(q)))
  }

  // ------------------------------------------------------------------- paging

  lemma {:induction false} RecordsBounded(slots: Slots, q: Request, from: nat)
    ensures from <= 256 ==> |Records(slots, q, from)| <= 256 - from
    decreases 256 - from
  {
    hide Record;
    if from > q.upper {
    } else {
      RecordsBounded(slots, q, from + 1);
    }
  }

  /** Populated slots only, ascending. */
  lemma {:induction false} RecordsOrdered(slots: Slots, q: Request, from: nat)
    ensures forall k :: 0 <= k < |Records(slots, q, from)| ==> var r := Records(slots, q, from)[k];
      from <= r.index <= q.upper && r.index as int in slots && r.bytes == Record(r.index, slots[r.index as int], q)
    ensures forall j, k :: 0 <= j < k < |Records(slots, q, from)| ==>
      Records(slots, q, from)[j].index < Records(slots, q, from)[k].index
    decreases 256 - from
  {
    hide Record;
    if from > q.upper {
    } else {
      RecordsOrdered(slots, q, from + 1);
    }
  }

  /** None left out. */
  lemma {:induction false} RecordsComplete(slots: Slots, q: Request, from: nat, i: int)
    requires from <= i <= q.upper && i in slots
    ensures exists k :: 0 <= k < |Records(slots, q, from)| && Records(slots, q, from)[k].index == i
    decreases 256 - from
  {
    hide Record;
    var rs, rest := Records(slots, q, from), Records(slots, q, from + 1);
    if i == from {
      assert rs[0].index == i;
    } else {
      RecordsComplete(slots, q, from + 1, i);
      var k :| 0 <= k < |rest| && rest[k].index == i;
      assert rs[if from in slots then k + 1 else k].index == i;
    }
  }

  /** Starting again at a later record's slot gives the remaining records. */
  lemma {:induction false} RecordsFrom(slots: Slots, q: Request, from: nat, k: nat)
    requires k < |Records(slots, q, from)|
    ensures Records(slots, q, Records(slots, q, from)[k].index) == Records(slots, q, from)[k..]
    decreases 256 - from
  {
    if from in slots {
      if k > 0 {
        RecordsFrom(slots, q, from + 1, k - 1);
        assert Records(slots, q, from)[k..] == Records(slots, q, from + 1)[k - 1..];
      }
    } else {
      RecordsFrom(slots, q, from + 1, k);
    }
  }

  lemma {:induction false} SameRecords(slots: Slots, q: Request, cursor: byte, from: nat)
    ensures Records(slots, q.(cursor := cursor), from) == Records(slots, q, from)
    decreases 256 - from
  {
    if from > q.upper {
    } else {
      SameRecords(slots, q, cursor, from + 1);
    }
  }

  /** A page that holds something and says there is more leads to a strictly later slot, where the
      remaining records start. */
  lemma NextAdvances(slots: Slots, q: Request)
    requires Respond(slots, q).Reply? && Respond(slots, q).page.more && Respond(slots, q).page.count > 0
    ensures var p := Respond(slots, q).page;
      && Start(q) < p.next == Start(q.(cursor := p.next))
      && p.count < |Records(slots, q, Start(q))|
      && Records(slots, q.(cursor := p.next), p.next) == Records(slots, q, Start(q))[p.count..]
  {
    var p, rs := Respond(slots, q).page, Records(slots, q, Start(q));
    FillBounded(rs, q.maxPayload - PresenceLen(q.lower, q.upper));
    RecordsOrdered(slots, q, Start(q));
    assert rs[0].index < rs[p.count].index;
    RecordsFrom(slots, q, Start(q), p.count);
    SameRecords(slots, q, p.next, p.next);
  }

  /** Repeats the request at `next` while the page says there is more. None: an error, or a page that
      holds nothing, says there is more, and would be sent again for ever. */
  function Drain(slots: Slots, q: Request): Option<seq<byte>>
    decreases 256 - Start(q)
  {
    match Respond(slots, q)
    case BadRequest => None
    case Raises => None
    case Reply(p) =>
      if !p.more then Some(p.data)
      else if p.count == 0 then None
      else
        NextAdvances(slots, q);
        match Drain(slots, q.(cursor := p.next)) case None => None case Some(d) => Some(p.data + d)
  }

  /** Every record can be built and fits on a page of its own. */
  predicate AllFit(rs: seq<Rec>, room: int) {
    forall k :: 0 <= k < |rs| ==> rs[k].bytes.Some? && |rs[k].bytes.value| <= room
  }

  lemma ConsFits(r: Rec, rs: seq<Rec>, room: int)
    requires r.bytes.Some? && |r.bytes.value| <= room && AllFit(rs, room - |r.bytes.value|)
    ensures AllFit([r] + rs, room)
  {
    var all := [r] + rs;
    forall j | 0 <= j < |all|
      ensures all[j].bytes.Some? && |all[j].bytes.value| <= room
    {
      if j > 0 { assert all[j] == rs[j - 1]; }
    }
  }

  lemma {:induction false} FillFacts(rs: seq<Rec>, room: int)
    ensures Fill(rs, room).None? ==> exists k :: 0 <= k < |rs| && rs[k].bytes.None?
    ensures Fill(rs, room).Some? ==> var k := Fill(rs, room).value;
      && k <= |rs| && AllFit(rs[..k], room)
      && (k == 0 && rs != [] ==> rs[0].bytes.Some? && |rs[0].bytes.value| > room)
      && (rs != [] && 0 <= room ==> |Concat(rs[..k])| <= room)
      && (k < |rs| ==> rs[k].bytes.Some? && |Concat(rs[..k])| + |rs[k].bytes.value| > room)
  {
    if rs != [] && rs[0].bytes.Some? && |rs[0].bytes.value| <= room {
      var left := room - |rs[0].bytes.value|;
      FillFacts(rs[1..], left);
      if Fill(rs[1..], left).None? {
        var k :| 0 <= k < |rs[1..]| && rs[1..][k].bytes.None?;
        assert rs[k + 1].bytes.None?;
      } else {
        var n := Fill(rs[1..], left).value;
        assert rs[..n + 1] == [rs[0]] + rs[1..][..n];
        ConsFits(rs[0], rs[1..][..n], room);
      }
    }
  }

  lemma {:induction false} ConcatSplit(rs: seq<Rec>, k: nat)
    requires k <= |rs|
    ensures Concat(rs) == Concat(rs[..k]) + Concat(rs[k..])
  {
    if k == 0 {
      assert rs[..0] == [] && rs[0..] == rs;
    } else {
      ConcatSplit(rs[1..], k - 1);
      assert rs[..k] == [rs[0]] + rs[1..][..k - 1] && rs[1..][k - 1..] == rs[k..];
    }
  }

  /** A single page of 256 records is the one count the reply's count byte cannot hold. */
  predicate CountOverflows(rs: seq<Rec>, room: int) {
    |rs| == 256 && |Concat(rs)| <= room
  }

  /** Paging is lossless: draining from any cursor gives exactly the records of every populated slot
      from there to upper, concatenated in order; and it succeeds exactly when every record fits alone
      and the whole does not come to one page of 256. */
  lemma {:induction false} DrainIsLossless(slots: Slots, q: Request)
    requires PresenceLen(q.lower, q.upper) >= 0
    ensures var rs, room := Records(slots, q, Start(q)), q.maxPayload - PresenceLen(q.lower, q.upper);
      && (Drain(slots, q).Some? <==> AllFit(rs, room) && !CountOverflows(rs, room))
      && (Drain(slots, q).Some? ==> Drain(slots, q).value == Concat(rs))
    decreases 256 - Start(q)
  {
    var rs, room := Records(slots, q, Start(q)), q.maxPayload - PresenceLen(q.lower, q.upper);
    RecordsBounded(slots, q, Start(q));
    DrainByFill(slots, q, rs, room);
    hide Respond, Records, Fill, PresenceLen, Drain, Concat, Record, AllFit, CountOverflows;
    var rest := None;
    if Fill(rs, room).Some? && 0 < Fill(rs, room).value < |rs| {
      var next := q.(cursor := rs[Fill(rs, room).value].index);
      DrainIsLossless(slots, next);
      rest := Drain(slots, next);
    }
    OnePageMore(rs, room, Drain(slots, q), rest);
  }

  /** A page that stops short is followed by what the rest of the drain gives; the others end it. */
  lemma OnePageMore(rs: seq<Rec>, room: int, drained: Option<seq<byte>>, rest: Option<seq<byte>>)
    requires |rs| <= 256
    requires Fill(rs, room).None? ==> drained == None
    requires Fill(rs, room).Some? ==> var k := Fill(rs, room).value;
      && k <= |rs|
      && (k == |rs| ==> drained == if k > 255 then None else Some(Concat(rs)))
      && (k == 0 && k < |rs| ==> drained == None)
      && (0 < k < |rs| ==>
        && (rest.Some? <==> AllFit(rs[k..], room) && !CountOverflows(rs[k..], room))
        && (rest.Some? ==> rest.value == Concat(rs[k..]))
        && drained == if rest.Some? then Some(Concat(rs[..k]) + rest.value) else None)
    ensures drained.Some? <==> AllFit(rs, room) && !CountOverflows(rs, room)
    ensures drained.Some? ==> drained.value == Concat(rs)
  {
    FillVersusFit(rs, room);
    hide Fill, Concat;
    if Fill(rs, room).Some? {
      var k := Fill(rs, room).value;
      if k == |rs| {
        assert rs[..k] == rs;
      } else if k > 0 {
        DrainRest(rs, room, k, rest);
      }
    }
  }

  /** One page of the drain, by how many records went on it. */
  lemma DrainByFill(slots: Slots, q: Request, rs: seq<Rec>, room: int)
    requires PresenceLen(q.lower, q.upper) >= 0 && rs == Records(slots, q, Start(q)) && |rs| <= 256
    requires room == q.maxPayload - PresenceLen(q.lower, q.upper)
    ensures Fill(rs, room).None? ==> Drain(slots, q) == None
    ensures Fill(rs, room).Some? ==> var k := Fill(rs, room).value;
      && k <= |rs|
      && (k == |rs| ==> Drain(slots, q) == if k > 255 then None else Some(Concat(rs)))
      && (k == 0 && k < |rs| ==> Drain(slots, q) == None)
      && (0 < k < |rs| ==>
        var next := q.(cursor := rs[k].index);
        && Start(q) < Start(next) && Records(slots, next, Start(next)) == rs[k..]
        && Drain(slots, q) == match Drain(slots, next)
           case None => None
           case Some(d) => Some(Concat(rs[..k]) + d))
  {
    RespondIs(slots, q, rs, room);
    DrainUnfolds(slots, q);
    hide Respond, Records, Fill, PresenceLen, Drain, Concat, Start, Record, PresenceOf;
    if Fill(rs, room).Some? {
      var k := Fill(rs, room).value;
      if k == |rs| {
        assert rs[..k] == rs;
      } else if k > 0 {
        NextAdvances(slots, q);
      }
    }
  }

  /** Slot 0 with a one-byte URI and room for two bytes: the page is empty, asks for more, and names the very
      cursor it answered. */
  lemma OversizedRecordRepeats()
    ensures var slots, q := map[0 := SlotEntry(1, [65])], Request(0, 0, 0, 0, 255, 3);
      && Respond(slots, q).Reply? && Respond(slots, q).page.more && Respond(slots, q).page.count == 0
      && Respond(slots, q).page.next == q.cursor && Drain(slots, q) == None
  {
    var slots, q := map[0 := SlotEntry(1, [65])], Request(0, 0, 0, 0, 255, 3);
    assert Records(slots, q, 1) == [];
    assert FoundOf(0, slots[0], q) == Found(0, 1, [65]) && !q.Formatted();
    var rs := Records(slots, q, Start(q));
    assert rs == [Rec(0, Record(0, slots[0], q))];
    assert rs[0].bytes.Some? && |rs[0].bytes.value| == 4;
    assert Fill(rs, 2) == Some(0);
  }

  function Bare(index: int): SlotEntry {
    SlotEntry(1, [])
  }

  ghost function AllSlots(): Slots {
    map i: int | 0 <= i < 256 :: Bare(i)
  }

  /** All 256 slots, each with an empty URI: every record fits, all on one page, and its count fits no byte. */
  lemma FullPageRaises()
    ensures var q := Request(0, 255, 0, 0, 0, 800);
      AllFit(Records(AllSlots(), q, 0), 768) && Respond(AllSlots(), q) == Raises && Drain(AllSlots(), q) == None
  {
    var q := Request(0, 255, 0, 0, 0, 800);
    ThreeByteRecords(AllSlots(), q, 0);
    ThreeBytesOverflow(Records(AllSlots(), q, 0));
    hide Respond, Records, Fill, Drain, AllSlots;
    RespondIs(AllSlots(), q, Records(AllSlots(), q, 0), 768);
    DrainUnfolds(AllSlots(), q);
  }

  lemma ThreeBytesOverflow(rs: seq<Rec>)
    requires |rs| == 256 && forall k :: 0 <= k < |rs| ==> rs[k].bytes.Some? && |rs[k].bytes.value| == 3
    ensures AllFit(rs, 768) && Fill(rs, 768) == Some(256)
  {
    hide Fill, Concat;
    FillVersusFit(rs, 768);
    if Fill(rs, 768).Some? { ThreeBytesEach(rs[..Fill(rs, 768).value]); }
  }

  lemma {:induction false} ThreeBytesEach(rs: seq<Rec>)
    requires forall k :: 0 <= k < |rs| ==> rs[k].bytes.Some? && |rs[k].bytes.value| == 3
    ensures |Concat(rs)| == 3 * |rs|
  {
    if rs == [] {
    } else {
      ThreeBytesEach(rs[1..]);
    }
  }

  lemma {:induction false} ThreeByteRecords(slots: Slots, q: Request, from: nat)
    requires from <= 256 && q.upper == 255 && !q.Formatted() && q.maxUri == 0
    requires forall i :: 0 <= i < 256 ==> i in slots && slots[i].uri == []
    ensures |Records(slots, q, from)| == 256 - from
    ensures forall k :: 0 <= k < 256 - from ==>
      Records(slots, q, from)[k].bytes.Some? && |Records(slots, q, from)[k].bytes.value| == 3
    decreases 256 - from
  {
    if from > q.upper {
    } else {
      ThreeByteRecords(slots, q, from + 1);
      assert |Record(from, slots[from], q).value| == 3;
    }
  }

  lemma FillVersusFit(rs: seq<Rec>, room: int)
    ensures Fill(rs, room).None? ==> !AllFit(rs, room)
    ensures Fill(rs, room).Some? ==> var k := Fill(rs, room).value;
      && k <= |rs| && AllFit(rs[..k], room)
      && (k == 0 && rs != [] ==> !AllFit(rs, room))
      && (rs != [] && 0 <= room ==> |Concat(rs[..k])| <= room)
      && (k < |rs| ==> rs[k].bytes.Some? && |Concat(rs[..k])| + |rs[k].bytes.value| > room)
      && (|rs| == 256 && k == 256 ==> |Concat(rs)| <= room)
  {
    FillFacts(rs, room);
    if Fill(rs, room).Some? && Fill(rs, room).value == |rs| {
      assert rs[..|rs|] == rs;
    }
  }

  lemma DrainRest(rs: seq<Rec>, room: int, k: nat, d: Option<seq<byte>>)
    requires 0 < k < |rs| <= 256 && AllFit(rs[..k], room)
    requires rs[k].bytes.Some? && |Concat(rs[..k])| + |rs[k].bytes.value| > room
    requires d.Some? <==> AllFit(rs[k..], room) && !CountOverflows(rs[k..], room)
    requires d.Some? ==> d.value == Concat(rs[k..])
    ensures d.Some? <==> AllFit(rs, room) && !CountOverflows(rs, room)
    ensures d.Some? ==> Concat(rs[..k]) + d.value == Concat(rs)
  {
    ConcatSplit(rs, k);
    SplitFit(rs, k, room);
    assert |Concat(rs[k..])| >= |rs[k].bytes.value|;
  }

  lemma DrainUnfolds(slots: Slots, q: Request)
    ensures var r := Respond(slots, q);
      && (!r.Reply? ==> Drain(slots, q) == None)
      && (r.Reply? && !r.page.more ==> Drain(slots, q) == Some(r.page.data))
      && (r.Reply? && r.page.more && r.page.count == 0 ==> Drain(slots, q) == None)
      && (r.Reply? && r.page.more && r.page.count > 0 ==>
        var d := Drain(slots, q.(cursor := r.page.next));
        Drain(slots, q) == if d.Some? then Some(r.page.data + d.value) else None)
  {}

  lemma RespondIs(slots: Slots, q: Request, rs: seq<Rec>, room: int)
    requires PresenceLen(q.lower, q.upper) >= 0 && rs == Records(slots, q, Start(q))
    requires room == q.maxPayload - PresenceLen(q.lower, q.upper)
    ensures Fill(rs, room).None? ==> Respond(slots, q) == Raises
    ensures Fill(rs, room).Some? ==> Fill(rs, room).value <= |rs|
    ensures Fill(rs, room).Some? && Fill(rs, room).value > 255 ==> Respond(slots, q) == Raises
    ensures Fill(rs, room).Some? && Fill(rs, room).value <= 255 ==>
      var k := Fill(rs, room).value;
      Respond(slots, q) ==
        Reply(Page(k < |rs|, if k < |rs| then rs[k].index else 0, k, PresenceOf(slots, q), Concat(rs[..k])))
  {
    if Fill(rs, room).Some? { FillBounded(rs, room); }
  }

  lemma SplitFit(rs: seq<Rec>, k: nat, room: int)
    requires k <= |rs| && AllFit(rs[..k], room)
    ensures AllFit(rs, room) <==> AllFit(rs[k..], room)
  {
    if AllFit(rs[k..], room) {
      forall j | 0 <= j < |rs|
        ensures rs[j].bytes.Some? && |rs[j].bytes.value| <= room
      {
        if j < k { assert rs[j] == rs[..k][j]; } else { assert rs[j] == rs[k..][j - k]; }
      }
    }
  }

  /** Whatever the cursor, a page's bitmap describes the whole range. */
  lemma EveryPageHasPresence(slots: Slots, q: Request, r: nat)
    requires Respond(slots, q).Reply? && q.lower + r <= q.upper
    ensures r / 8 < |Respond(slots, q).page.presence|
    ensures Bit(Respond(slots, q).page.presence[r / 8], r % 8) <==> q.lower + r in slots
  {
    PresenceBit(slots, q, r);
  }

  // -------------------------------------------------------- reading the records

  /** A reader of unformatted records: index, flags, length, URI. */
  function ReadRecords(data: seq<byte>): Option<seq<Found>> {
    if data == [] then Some([])
    else if |data| < 3 || |data| < 3 + (data[2] as int) then None
    else match ReadRecords(data[3 + (data[2] as int)..])
      case None => None
      case Some(rest) => Some([Found(data[0], data[1], data[3..3 + (data[2] as int)])] + rest)
  }

  function ShownSlots(slots: Slots, q: Request, from: nat): seq<Found>
    decreases 256 - from
  {
    if from > q.upper then []
    else
      (if from in slots then [FoundOf(from, slots[from], q)] else []) + ShownSlots(slots, q, from + 1)
  }

  /** Unformatted records read back as the populated slots with their cut URIs and flags. */
  lemma {:induction false} RecordsReadBack(slots: Slots, q: Request, from: nat)
    requires !q.Formatted() && forall k :: 0 <= k < |Records(slots, q, from)| ==> Records(slots, q, from)[k].bytes.Some?
    ensures ReadRecords(Concat(Records(slots, q, from))) == Some(ShownSlots(slots, q, from))
    decreases 256 - from
  {
    if from > q.upper {
    } else {
      var rs, rest := Records(slots, q, from), Records(slots, q, from + 1);
      if from in slots {
        assert rs[1..] == rest;
        forall k | 0 <= k < |rest|
          ensures rest[k].bytes.Some?
        {
          assert rest[k] == rs[k + 1];
        }
        assert rs[0].bytes.Some? && Concat(rs) == rs[0].bytes.value + Concat(rest);
        RecordsReadBack(slots, q, from + 1);
        ReadFirst(from, slots[from], q, Concat(rest));
      } else {
        assert rs == rest && ShownSlots(slots, q, from) == ShownSlots(slots, q, from + 1);
        RecordsReadBack(slots, q, from + 1);
      }
    }
  }

  lemma ReadFirst(index: byte, e: SlotEntry, q: Request, rest: seq<byte>)
    requires !q.Formatted() && Record(index, e, q).Some?
    ensures ReadRecords(Record(index, e, q).value + rest) ==
      match ReadRecords(rest)
      case None => None
      case Some(tail) => Some([FoundOf(index, e, q)] + tail)
  {
    var uri, flags := Cut(e.uri, q.maxUri, q.Tail()), ShownFlags(e, q.maxUri);
    var data := [index, flags, |uri|] + uri + rest;
    assert data[3..3 + |uri|] == uri && data[3 + |uri|..] == rest;
  }

  // ------------------------------------------------------------------- method

  function RequestOf(payload: seq<byte>): Request
    requires |payload| == 8
  {
    Request(payload[1], payload[2], payload[3], payload[4], payload[5], payload[6] + 256 * (payload[7] as int))
  }

  function RecsOf(found: seq<Found>, formatted: bool): (rs: seq<Rec>)
    ensures |rs| == |found|
  {
    seq(|found|, i requires 0 <= i < |found| => Rec(found[i].index, RecordBytes(found[i], formatted)))
  }

  /** The body of the first loop: slot `index` enters the bitmap and, from the cursor on, the tuples. */
  method Enter(slots: Slots, q: Request, index: int, presence: array<bv8>, found: seq<Found>) returns (more: seq<Found>)
    requires q.lower <= index <= q.upper && PresenceLen(q.lower, q.upper) == presence.Length
    requires presence[..] == PresenceTo(slots, q.lower, index, presence.Length)
    modifies presence
    ensures presence[..] == PresenceTo(slots, q.lower, index + 1, presence.Length)
    ensures RecsOf(more, q.Formatted()) == RecsOf(found, q.Formatted()) +
      if index in slots && index >= q.cursor then [Rec(index, Record(index, slots[index], q))] else []
  {
    hide PresenceTo, Bits, Mask, RecsOf, ShownFlags, Cut, Record, PresenceLen;
    more := found;
    InBitmap(q, index);
    PresenceStep(slots, q.lower, index, presence.Length);
    if index !in slots { return; }
    var relative := index - q.lower;
    presence[relative / 8] := presence[relative / 8] | Mask(relative % 8);
    if index < q.cursor { return; }
    var e := slots[index];
    FoundAppends(found, index, q, e);
    more := found + [FoundOf(index, e, q)];
  }

  /** The first loop: the bitmap of the whole range, and the tuples from the cursor on. */
  method Collect(slots: Slots, q: Request) returns (presence: array<bv8>, found: seq<Found>)
    requires PresenceLen(q.lower, q.upper) >= 0
    ensures fresh(presence) && presence[..] == PresenceOf(slots, q)
    ensures RecsOf(found, q.Formatted()) == Records(slots, q, Start(q))
  {
    hide Records, PresenceTo, Bits, Mask, RecsOf, ShownFlags, Cut, Record;
    var len: nat := PresenceLen(q.lower, q.upper);
    hide PresenceLen;
    presence := new bv8[len](_ => 0);
    found := [];
    var index: int := q.lower;
    PresenceStart(slots, q.lower, len);
    assert RecsOf([], q.Formatted()) == [];
    while index < q.upper + 1
      invariant q.lower <= index <= Max(q.lower, q.upper + 1)
      invariant presence[..] == PresenceTo(slots, q.lower, index, len)
      invariant Records(slots, q, Start(q)) == RecsOf(found, q.Formatted()) + Records(slots, q, Max(index, q.cursor))
    {
      RecordsStep(slots, q, index);
      found := Enter(slots, q, index, presence, found);
      index := index + 1;
    }
    PresenceDone(slots, q, index);
  }

  lemma InBitmap(q: Request, index: int)
    requires q.lower <= index <= q.upper
    ensures (index - q.lower) / 8 < PresenceLen(q.lower, q.upper)
  {}

  lemma PresenceStart(slots: Slots, lower: int, len: nat)
    ensures PresenceTo(slots, lower, lower, len) == seq(len, _ => 0)
  {}

  lemma RecordsStep(slots: Slots, q: Request, index: nat)
    requires index <= q.upper
    ensures Records(slots, q, Max(index, q.cursor)) ==
      (if index in slots && index >= q.cursor then [Rec(index, Record(index, slots[index], q))] else [])
      + Records(slots, q, Max(index + 1, q.cursor))
  {}

  lemma FoundAppends(found: seq<Found>, index: byte, q: Request, e: SlotEntry)
    ensures RecsOf(found + [FoundOf(index, e, q)], q.Formatted())
         == RecsOf(found, q.Formatted()) + [Rec(index, Record(index, e, q))]
  {}

  lemma PresenceStep(slots: Slots, lower: int, index: int, len: nat)
    requires lower <= index && (index - lower) / 8 < len
    ensures var p, r := PresenceTo(slots, lower, index, len), index - lower;
      PresenceTo(slots, lower, index + 1, len) == if index in slots then p[r / 8 := p[r / 8] | Mask(r % 8)] else p
  {
    var p, p', r := PresenceTo(slots, lower, index, len), PresenceTo(slots, lower, index + 1, len), index - lower;
    forall j: nat | j < len
      ensures j != r / 8 ==> p'[j] == p[j]
      ensures j == r / 8 ==> p'[j] == p[j] | (if index in slots then Mask(r % 8) else 0)
    {
      if j == r / 8 {
        assert Clamp(index - lower - 8 * j) == r % 8 && Clamp(index + 1 - lower - 8 * j) == r % 8 + 1;
      } else {
        assert Clamp(index - lower - 8 * j) == Clamp(index + 1 - lower - 8 * j);
      }
    }
    OrZero(p[r / 8]);
  }

  lemma OrZero(v: bv8)
    ensures v | 0 == v
  {}

  lemma PresenceDone(slots: Slots, q: Request, index: int)
    requires PresenceLen(q.lower, q.upper) >= 0
    requires index == Max(q.lower, q.upper + 1)
    ensures PresenceTo(slots, q.lower, index, PresenceLen(q.lower, q.upper)) == PresenceOf(slots, q)
    ensures Records(slots, q, Max(index, q.cursor)) == []
  {
    if index > q.upper + 1 { assert PresenceLen(q.lower, q.upper) == 0; }
  }

  /** The second loop: whole records until one does not fit. None where a record cannot be built. */
  method FillPage(found: seq<Found>, formatted: bool, presenceLen: nat, maxPayload: nat)
    returns (ok: bool, data: seq<byte>, count: nat, more: bool, nextIndex: byte)
    ensures var rs := RecsOf(found, formatted);
      match Fill(rs, maxPayload - presenceLen)
      case None => !ok
      case Some(k) =>
        && ok && count == k <= |rs| && data == Concat(rs[..k]) && more == (k < |rs|)
        && nextIndex == if k < |rs| then rs[k].index else 0
  {
    ghost var rs, room := RecsOf(found, formatted), maxPayload - presenceLen;
    hide Fill, Concat, RecordBytes;
    FillStart(rs, room);
    ok, data, count, more, nextIndex := true, [], 0, false, 0;
    var n := 0;
    assert rs[0..] == rs;
    while n < |found|
      invariant n == count <= |found| && data == Concat(rs[..n]) && ok && !more && nextIndex == 0
      invariant Fill(rs, room) == Later(Fill(rs[n..], room - |data|), n)
    {
      var record := RecordBytes(found[n], formatted);
      assert rs[n] == Rec(found[n].index, record);
      FillStep(rs, n, room - |data|);
      if record.None? {
        ok := false;
        return;
      }
      if presenceLen + |data| + |record.value| > maxPayload {
        more, nextIndex := true, found[n].index;
        return;
      }
      data, count, n := data + record.value, count + 1, n + 1;
    }
    FillEnd(rs, room - |data|);
  }

  lemma FillStart(rs: seq<Rec>, room: int)
    ensures rs[0..] == rs && rs[..0] == [] && Concat([]) == []
  {}

  lemma FillStep(rs: seq<Rec>, n: nat, room: int)
    requires n < |rs|
    ensures rs[n].bytes.None? ==> Fill(rs[n..], room).None?
    ensures rs[n].bytes.Some? && |rs[n].bytes.value| > room ==> Fill(rs[n..], room) == Some(0)
    ensures rs[n].bytes.Some? && |rs[n].bytes.value| <= room ==>
      Fill(rs[n..], room) == Later(Fill(rs[n + 1..], room - |rs[n].bytes.value|), 1)
    ensures rs[n].bytes.Some? ==> Concat(rs[..n + 1]) == Concat(rs[..n]) + rs[n].bytes.value
  {
    assert rs[n..][0] == rs[n] && rs[n..][1..] == rs[n + 1..];
    ConcatSplit(rs[..n + 1], n);
    assert rs[..n + 1][..n] == rs[..n] && rs[..n + 1][n..] == [rs[n]] && [rs[n]][1..] == [];
    assert Concat([rs[n]]) == rs[n].bytes.GetOr([]) + Concat([]);
  }

  lemma FillEnd(rs: seq<Rec>, room: int)
    ensures rs[|rs|..] == [] && Fill([], room) == Some(0) && rs[..|rs|] == rs
  {}

  function Later(k: Option<nat>, n: nat): Option<nat> {
    match k case None => None case Some(m) => Some(m + n)
  }

  // --------------------------------------------------------------- reply bytes

  ghost predicate Packable(p: Page) {
    p.count <= 255 && |p.presence| <= 255 && |p.data| < 0x1_0000
  }

  function PresenceBytes(presence: seq<bv8>): (r: seq<byte>)
    ensures |r| == |presence|
  {
    seq(|presence|, j requires 0 <= j < |presence| => presence[j] as int)
  }

  /** The reply body: version, flags, next_index, presence_len, count, data length, bitmap, records. */
  function Body(p: Page, formatted: bool): seq<byte>
    requires Packable(p)
  {
    [1, (if p.more then 1 else 0) + (if formatted then 2 else 0), p.next, |p.presence|, p.count,
     |p.data| % 256, |p.data| / 256] + PresenceBytes(p.presence) + p.data
  }

  /** A reader of reply bodies. */
  function ReadBody(b: seq<byte>): Option<(Page, bool)> {
    if |b| < 7 || b[0] != 1 then None
    else
      var n, len := b[3] as int, b[5] + 256 * (b[6] as int);
      if |b| != 7 + n + len then None
      else
        var presence := seq(n, j requires 0 <= j < n => b[7 + j] as bv8);
        Some((Page(b[1] % 2 == 1, b[2], b[4], presence, b[7 + n..]), b[1] / 2 % 2 == 1))
  }

  lemma BodyReadsBack(p: Page, formatted: bool)
    requires Packable(p)
    ensures ReadBody(Body(p, formatted)) == Some((p, formatted))
  {
    var b, n := Body(p, formatted), |p.presence|;
    assert b[7..7 + n] == PresenceBytes(p.presence) && b[7 + n..] == p.data;
    forall j | 0 <= j < n
      ensures b[7 + j] as bv8 == p.presence[j]
    {
      assert b[7 + j] == b[7..7 + n][j];
      ByteBack(p.presence[j]);
    }
    assert b[5] + 256 * (b[6] as int) == |p.data|;
    var presence := seq(n, j requires 0 <= j < n => b[7 + j] as bv8);
    assert presence == p.presence;
    assert b[1] % 2 == 1 <==> p.more;
    assert b[1] / 2 % 2 == 1 <==> formatted;
    assert ReadBody(b).Some? && ReadBody(b).value.0.presence == presence;
  }

  lemma ByteBack(v: bv8)
    ensures (v as int) as bv8 == v
  {}

  lemma PagesArePackable(slots: Slots, q: Request)
    requires Respond(slots, q).Reply? && q.maxPayload < 0x1_0000
    ensures Packable(Respond(slots, q).page)
  {
    var rs, room := Records(slots, q, Start(q)), q.maxPayload - PresenceLen(q.lower, q.upper);
    RespondIs(slots, q, rs, room);
    FillFacts(rs, room);
    if room < 0 && rs != [] && rs[0].bytes.Some? { assert rs[..0] == []; }
  }

  /** build_slot_catalog_response: the reply, and the body of a page. */
  method BuildResponse(payload: seq<byte>, slots: Slots) returns (r: Reply, body: seq<byte>)
    ensures r == if |payload| != 8 || payload[0] != 1 then BadRequest else Respond(slots, RequestOf(payload))
    ensures r.Reply? ==> Packable(r.page) && body == Body(r.page, RequestOf(payload).Formatted())
    ensures !r.Reply? ==> body == []
  {
    if |payload| != 8 || payload[0] != 1 { return BadRequest, []; }
    var q := RequestOf(payload);
    if PresenceLen(q.lower, q.upper) < 0 { return Raises, []; }
    var presence, found := Collect(slots, q);
    var ok, data, count, more, nextIndex := FillPage(found, q.Formatted(), presence.Length, q.maxPayload);
    ghost var rs, room := Records(slots, q, Start(q)), q.maxPayload - PresenceLen(q.lower, q.upper);
    RespondIs(slots, q, rs, room);
    hide Respond, Records, Fill, Concat, PresenceOf, Body;
    if !ok || count > 255 { return Raises, []; }
    r := Reply(Page(more, nextIndex, count, presence[..], data));
    PagesArePackable(slots, q);
    body := Body(r.page, q.Formatted());
  }
}
