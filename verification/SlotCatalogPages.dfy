/** A slot catalogue reply byte by byte, from the bytes of the request. */
module SlotCatalogPages {
  import opened Bytes
  import opened SlotCatalog

  /** How a record shows a URI: all of it, or its first `max` bytes, or its last in tail mode, where a limit of
      0 is none. */
  predicate ShowsUri(shown: seq<byte>, uri: seq<byte>, max: nat, tail: bool) {
    && |shown| == (if |uri| <= max || (tail && max == 0) then |uri| else max)
    && |shown| <= |uri|
    && shown == if tail then uri[|uri| - |shown|..] else uri[..|shown|]
  }

  /** The slot's flags, with bit 2 also set when the URI is longer than the limit. */
  predicate ShowsFlags(shown: byte, flags: byte, long: bool) {
    && shown % 4 == flags % 4 && shown / 8 == flags / 8
    && (shown / 4 % 2 == 1 <==> flags / 4 % 2 == 1 || long)
  }

  /** Index, flags, URI length, URI. */
  predicate RawRecord(record: seq<byte>, index: int, e: SlotEntry, max: nat, tail: bool) {
    && |record| >= 3 && record[0] == index && ShowsFlags(record[1], e.flags, |e.uri| > max)
    && record[2] == |record| - 3 && ShowsUri(record[3..], e.uri, max, tail)
  }

  function Decimal(digits: seq<byte>): int {
    if digits == [] then 0 else 10 * Decimal(digits[..|digits| - 1]) + digits[|digits| - 1] - 48
  }

  predicate IsDecimal(digits: seq<byte>) {
    && digits != [] && (|digits| > 1 ==> digits[0] != 48)
    && forall k :: 0 <= k < |digits| ==> 48 <= digits[k] <= 57
  }

  /** "index: uri" or "index: <invalid>", and a newline. */
  ghost predicate TextRecord(record: seq<byte>, index: int, e: SlotEntry, max: nat, tail: bool) {
    exists digits, shown ::
      && IsDecimal(digits) && Decimal(digits) == index && ShowsUri(shown, e.uri, max, tail)
      && record == digits + [58, 32]
           + (if e.flags % 2 == 1 then shown else [60, 105, 110, 118, 97, 108, 105, 100, 62]) + [10]
  }

  /** The record a request with this payload asks for. */
  ghost predicate RecordFor(payload: seq<byte>, record: seq<byte>, index: int, e: SlotEntry)
    requires |payload| == 8
  {
    var tail, formatted := payload[4] % 2 == 1, payload[4] / 2 % 2 == 1;
    if formatted then TextRecord(record, index, e, payload[5], tail) else RawRecord(record, index, e, payload[5], tail)
  }

  /** Records for every populated slot of the range from the cursor on and before `end`, in ascending order. */
  ghost predicate Lists(payload: seq<byte>, slots: Slots, indexes: seq<int>, records: seq<seq<byte>>, end: int)
    requires |payload| == 8
  {
    && |indexes| == |records|
    && (forall i :: payload[1] <= i <= payload[2] && payload[3] <= i < end && i in slots ==> i in indexes)
    && (forall j, k :: 0 <= j < k < |indexes| ==> indexes[j] < indexes[k])
    && (forall k :: 0 <= k < |indexes| ==>
          var i := indexes[k];
          && payload[1] <= i <= payload[2] && payload[3] <= i < end && i in slots
          && RecordFor(payload, records[k], i, slots[i]))
  }

  function Joined(records: seq<seq<byte>>): seq<byte> {
    if records == [] then [] else records[0] + Joined(records[1..])
  }

  // ------------------------------------------------------------ single records

  lemma CutShows(uri: seq<byte>, max: nat, tail: bool)
    ensures ShowsUri(Cut(uri, max, tail), uri, max, tail)
  {}

  lemma FlagsShow(e: SlotEntry, max: nat)
    ensures ShowsFlags(ShownFlags(e, max), e.flags, |e.uri| > max)
  {}

  lemma {:induction false} DigitsAreDecimal(n: nat)
    ensures IsDecimal(Digits(n)) && Decimal(Digits(n)) == n && (n > 0 ==> Digits(n)[0] != 48)
  {
    if n < 10 {
      assert Digits(n)[..0] == [];
    } else {
      DigitsAreDecimal(n / 10);
      assert Digits(n)[..|Digits(n)| - 1] == Digits(n / 10);
    }
  }

  lemma RecordIsFor(payload: seq<byte>, index: byte, e: SlotEntry)
    requires |payload| == 8 && Record(index, e, RequestOf(payload)).Some?
    ensures RecordFor(payload, Record(index, e, RequestOf(payload)).value, index, e)
  {
    var q := RequestOf(payload);
    var shown := Cut(e.uri, q.maxUri, q.Tail());
    var record := Record(index, e, q).value;
    CutShows(e.uri, q.maxUri, q.Tail());
    FlagsShow(e, q.maxUri);
    hide Cut, ShownFlags, Digits, ShowsUri;
    if q.Formatted() {
      DigitsAreDecimal(index);
      assert ShownFlags(e, q.maxUri) % 2 == e.flags % 2 by { LowBit(ShownFlags(e, q.maxUri), e.flags); }
      assert IsDecimal(Digits(index)) && Decimal(Digits(index)) == index;
      assert TextRecord(record, index, e, payload[5], q.Tail());
    } else {
      assert record[3..] == shown;
    }
  }

  lemma LowBit(a: byte, b: byte)
    requires a % 4 == b % 4
    ensures a % 2 == b % 2
  {}

  /** Building a record raises only for a URI of more than 255 bytes that a limit of 0 does not cut. */
  lemma NoRecord(payload: seq<byte>, index: byte, e: SlotEntry)
    requires |payload| == 8
    ensures Record(index, e, RequestOf(payload)).None? <==>
      payload[4] % 2 == 1 && payload[4] / 2 % 2 == 0 && payload[5] == 0 && |e.uri| > 255
  {}

  // --------------------------------------------------------------------- pages

  function IndexesOf(rs: seq<Rec>): (indexes: seq<int>)
    ensures |indexes| == |rs|
  {
    seq(|rs|, k requires 0 <= k < |rs| => rs[k].index)
  }

  function BytesOf(rs: seq<Rec>): (records: seq<seq<byte>>)
    ensures |records| == |rs|
  {
    seq(|rs|, k requires 0 <= k < |rs| => rs[k].bytes.GetOr([]))
  }

  lemma {:induction false} JoinedIsConcat(rs: seq<Rec>)
    ensures Joined(BytesOf(rs)) == Concat(rs)
  {
    if rs == [] {
    } else {
      JoinedIsConcat(rs[1..]);
      assert BytesOf(rs)[1..] == BytesOf(rs[1..]);
    }
  }

  /** The first n records of the range list its slots up to the next one. */
  lemma FrontLists(payload: seq<byte>, slots: Slots, n: nat) returns (end: int)
    requires |payload| == 8 && n <= |Records(slots, RequestOf(payload), Start(RequestOf(payload)))|
    requires forall k :: 0 <= k < n ==> Records(slots, RequestOf(payload), Start(RequestOf(payload)))[k].bytes.Some?
    ensures var rs := Records(slots, RequestOf(payload), Start(RequestOf(payload)));
      && Lists(payload, slots, IndexesOf(rs[..n]), BytesOf(rs[..n]), end)
      && end == if n < |rs| then rs[n].index as int else 256
  {
    var q := RequestOf(payload);
    var rs := Records(slots, q, Start(q));
    end := if n < |rs| then rs[n].index else 256;
    NoneLeftOut(payload, slots, n, end);
    AllListed(payload, slots, n, end);
  }

  lemma NoneLeftOut(payload: seq<byte>, slots: Slots, n: nat, end: int)
    requires |payload| == 8 && n <= |Records(slots, RequestOf(payload), Start(RequestOf(payload)))|
    requires var rs := Records(slots, RequestOf(payload), Start(RequestOf(payload)));
      end == if n < |rs| then rs[n].index as int else 256
    ensures var rs := Records(slots, RequestOf(payload), Start(RequestOf(payload)));
      forall i :: payload[1] <= i <= payload[2] && payload[3] <= i < end && i in slots ==> i in IndexesOf(rs[..n])
  {
    var q := RequestOf(payload);
    var rs := Records(slots, q, Start(q));
    RecordsOrdered(slots, q, Start(q));
    hide Records, Record;
    assert forall j :: n <= j < |rs| ==> rs[n].index <= rs[j].index;
    forall i | payload[1] <= i <= payload[2] && payload[3] <= i < end && i in slots
      ensures i in IndexesOf(rs[..n])
    {
      RecordsComplete(slots, q, Start(q), i);
      var k :| 0 <= k < |rs| && rs[k].index == i;
      assert k < n && IndexesOf(rs[..n])[k] == i;
    }
  }

  lemma AllListed(payload: seq<byte>, slots: Slots, n: nat, end: int)
    requires |payload| == 8 && n <= |Records(slots, RequestOf(payload), Start(RequestOf(payload)))|
    requires forall k :: 0 <= k < n ==> Records(slots, RequestOf(payload), Start(RequestOf(payload)))[k].bytes.Some?
    requires var rs := Records(slots, RequestOf(payload), Start(RequestOf(payload)));
      end == if n < |rs| then rs[n].index as int else 256
    ensures var rs := Records(slots, RequestOf(payload), Start(RequestOf(payload)));
      && (forall j, k :: 0 <= j < k < n ==> IndexesOf(rs[..n])[j] < IndexesOf(rs[..n])[k])
      && forall k :: 0 <= k < n ==>
          var i := IndexesOf(rs[..n])[k];
          && payload[1] <= i <= payload[2] && payload[3] <= i < end && i in slots
          && RecordFor(payload, BytesOf(rs[..n])[k], i, slots[i])
  {
    var q := RequestOf(payload);
    var rs := Records(slots, q, Start(q));
    RecordsOrdered(slots, q, Start(q));
    hide Records, Record, RecordFor;
    forall k | 0 <= k < n
      ensures var i := IndexesOf(rs[..n])[k];
        && payload[1] <= i <= payload[2] && payload[3] <= i < end && i in slots
        && RecordFor(payload, BytesOf(rs[..n])[k], i, slots[i])
    {
      var r := rs[k];
      assert r.bytes == Record(r.index, slots[r.index as int], q);
      RecordIsFor(payload, r.index, slots[r.index as int]);
    }
  }

  /** What a page is made of: the first k records that are left, as many as fit. */
  lemma PageParts(slots: Slots, q: Request) returns (k: nat)
    requires Respond(slots, q).Reply? && q.maxPayload < 0x1_0000
    ensures PresenceLen(q.lower, q.upper) >= 0 && Packable(Respond(slots, q).page)
    ensures var rs, p, width := Records(slots, q, Start(q)), Respond(slots, q).page, PresenceLen(q.lower, q.upper);
      && k <= |rs| && k <= 255 && |p.presence| == width
      && p == Page(k < |rs|, if k < |rs| then rs[k].index else 0, k, p.presence, Concat(rs[..k]))
      && (forall j :: 0 <= j < k ==> rs[j].bytes.Some?)
      && (k > 0 ==> width + |Concat(rs[..k])| <= q.maxPayload)
      && (k < |rs| ==> rs[k].bytes.Some? && width + |Concat(rs[..k])| + |rs[k].bytes.value| > q.maxPayload)
  {
    var rs, room := Records(slots, q, Start(q)), q.maxPayload - PresenceLen(q.lower, q.upper);
    RespondIs(slots, q, rs, room);
    PagesArePackable(slots, q);
    FillFacts(rs, room);
    k := Fill(rs, room).value;
    if k > 0 { FirstFits(rs, room); }
    hide Records, Fill, Concat, PresenceLen;
    forall j | 0 <= j < k
      ensures rs[j].bytes.Some?
    {
      assert rs[..k][j] == rs[j];
    }
  }

  lemma FirstFits(rs: seq<Rec>, room: int)
    requires Fill(rs, room).Some? && Fill(rs, room).value > 0
    ensures room >= 0
  {}

  /** A page with status 0: which slots it lists and how, when it says there is more, and its exact bytes. */
  lemma PageSays(payload: seq<byte>, slots: Slots)
    returns (indexes: seq<int>, records: seq<seq<byte>>, refused: seq<byte>)
    requires |payload| == 8 && payload[0] == 1 && Respond(slots, RequestOf(payload)).Reply?
    ensures Packable(Respond(slots, RequestOf(payload)).page)
    ensures Listed(payload, slots, Respond(slots, RequestOf(payload)).page, indexes, records, refused)
    ensures |Joined(records)| < 0x1_0000
    ensures Body(Respond(slots, RequestOf(payload)).page, RequestOf(payload).Formatted())
         == BodyBytes(payload, Respond(slots, RequestOf(payload)).page, Joined(records), |records|)
  {
    var q := RequestOf(payload);
    var rs, page := Records(slots, q, Start(q)), Respond(slots, q).page;
    var k := PageParts(slots, q);
    var end := FrontLists(payload, slots, k);
    hide Records, Concat, Record, RecordFor, Lists, PresenceOf, Joined, IndexesOf, BytesOf, Respond, Body, BodyBytes;
    JoinedIsConcat(rs[..k]);
    indexes, records, refused := IndexesOf(rs[..k]), BytesOf(rs[..k]), [];
    BodyIs(payload, page);
    if k < |rs| { refused := NextRecord(payload, slots, k); }
    ListedIs(payload, slots, page, rs, k, end, refused);
  }

  /** The record that follows the first k. */
  lemma NextRecord(payload: seq<byte>, slots: Slots, k: nat) returns (record: seq<byte>)
    requires |payload| == 8 && k < |Records(slots, RequestOf(payload), Start(RequestOf(payload)))|
    requires Records(slots, RequestOf(payload), Start(RequestOf(payload)))[k].bytes.Some?
    ensures var r := Records(slots, RequestOf(payload), Start(RequestOf(payload)))[k];
      && r.bytes == Some(record) && payload[1] <= r.index <= payload[2] && payload[3] <= r.index
      && r.index as int in slots && RecordFor(payload, record, r.index, slots[r.index as int])
  {
    var q := RequestOf(payload);
    RecordsOrdered(slots, q, Start(q));
    var r := Records(slots, q, Start(q))[k];
    record := r.bytes.value;
    RecordIsFor(payload, r.index, slots[r.index as int]);
    hide Records, Record, RecordFor;
  }

  lemma ListedIs(payload: seq<byte>, slots: Slots, page: Page, rs: seq<Rec>, k: nat, end: int, refused: seq<byte>)
    requires |payload| == 8 && k <= |rs| && k <= 255
    requires var q := RequestOf(payload);
      var width := PresenceLen(q.lower, q.upper);
      && |page.presence| == width && page.more == (k < |rs|) && page.next == (if k < |rs| then rs[k].index else 0)
      && Lists(payload, slots, IndexesOf(rs[..k]), BytesOf(rs[..k]), end)
      && end == (if k < |rs| then rs[k].index as int else 256)
      && (k > 0 ==> width + |Joined(BytesOf(rs[..k]))| <= q.maxPayload)
      && (k < |rs| ==>
        && rs[k].bytes == Some(refused) && payload[1] <= rs[k].index <= payload[2] && payload[3] <= rs[k].index
        && rs[k].index as int in slots && RecordFor(payload, refused, rs[k].index, slots[rs[k].index as int])
        && width + |Joined(BytesOf(rs[..k]))| + |refused| > q.maxPayload)
    ensures Listed(payload, slots, page, IndexesOf(rs[..k]), BytesOf(rs[..k]), refused)
  {
    hide Lists, RecordFor, Joined, IndexesOf, BytesOf;
  }

  lemma BodyIs(payload: seq<byte>, page: Page)
    requires |payload| == 8 && Packable(page)
    ensures Body(page, RequestOf(payload).Formatted()) == BodyBytes(payload, page, page.data, page.count)
  {}

  ghost predicate Listed(payload: seq<byte>, slots: Slots, page: Page, indexes: seq<int>, records: seq<seq<byte>>,
                         refused: seq<byte>)
    requires |payload| == 8
  {
    var limit, width: int := payload[6] + 256 * (payload[7] as int), ((payload[2] as int) - payload[1] + 8) / 8;
    && |page.presence| == width && |records| <= 255
    && Lists(payload, slots, indexes, records, if page.more then page.next as int else 256)
    && (records != [] ==> width + |Joined(records)| <= limit)
    && (page.more ==>
      && payload[1] <= page.next <= payload[2] && payload[3] <= page.next && page.next as int in slots
      && RecordFor(payload, refused, page.next, slots[page.next as int])
      && width + |Joined(records)| + |refused| > limit)
    && (!page.more ==> page.next == 0)
  }

  function BodyBytes(payload: seq<byte>, page: Page, data: seq<byte>, count: nat): seq<byte>
    requires |payload| == 8 && count <= 255 && |page.presence| <= 255 && |data| < 0x1_0000
  {
    [1, (if page.more then 1 else 0) + (if payload[4] / 2 % 2 == 1 then 2 else 0), page.next, |page.presence|, count,
     |data| % 256, |data| / 256] + PresenceBytes(page.presence) + data
  }

  /** The only other outcome of a well-formed request, a ValueError: the range is turned round by more than 8, or
      the records before slot `end` fit and either there are 256 of them or that slot's cannot be built. */
  lemma RaisesBecause(payload: seq<byte>, slots: Slots)
    returns (indexes: seq<int>, records: seq<seq<byte>>, end: int)
    requires |payload| == 8 && payload[0] == 1 && Respond(slots, RequestOf(payload)) == Raises
    requires payload[1] <= (payload[2] as int) + 8
    ensures Lists(payload, slots, indexes, records, end)
    ensures |records| == 256 || (
      && payload[1] <= end <= payload[2] && payload[3] <= end && end in slots
      && payload[4] % 2 == 1 && payload[4] / 2 % 2 == 0 && payload[5] == 0 && |slots[end].uri| > 255)
    ensures records != [] ==>
      ((payload[2] as int) - payload[1] + 8) / 8 + |Joined(records)| <= payload[6] + 256 * (payload[7] as int)
  {
    var q := RequestOf(payload);
    var rs, room := Records(slots, q, Start(q)), q.maxPayload - PresenceLen(q.lower, q.upper);
    var k := Stop(rs, room);
    RespondIs(slots, q, rs, room);
    RecordsBounded(slots, q, Start(q));
    RecordsOrdered(slots, q, Start(q));
    end := FrontLists(payload, slots, k);
    JoinedIsConcat(rs[..k]);
    indexes, records := IndexesOf(rs[..k]), BytesOf(rs[..k]);
    hide Records, Concat, RecordFor, Lists, PresenceOf, Joined, IndexesOf, BytesOf, Respond, Fill, Record;
    if k < |rs| { NoRecord(payload, rs[k].index, slots[rs[k].index as int]); }
  }

  /** Where filling a page ends when it raises, or takes every record. */
  lemma {:induction false} Stop(rs: seq<Rec>, room: int) returns (k: nat)
    ensures k <= |rs| && forall j :: 0 <= j < k ==> rs[j].bytes.Some?
    ensures k > 0 ==> |Concat(rs[..k])| <= room
    ensures Fill(rs, room).None? ==> k < |rs| && rs[k].bytes.None?
    ensures Fill(rs, room).Some? ==> k == Fill(rs, room).value
  {
    if rs == [] || rs[0].bytes.None? || |rs[0].bytes.value| > room {
      k := 0;
    } else {
      k := Stop(rs[1..], room - |rs[0].bytes.value|);
      assert rs[..k + 1] == [rs[0]] + rs[1..][..k];
      assert Concat(rs[..k + 1]) == rs[0].bytes.value + Concat(rs[1..][..k]);
      forall j | 0 <= j < k + 1
        ensures rs[j].bytes.Some?
      {
        if j > 0 { assert rs[j] == rs[1..][j - 1]; }
      }
      if k == 0 { assert rs[1..][..0] == []; }
      k := k + 1;
    }
  }

  const BITS: seq<bv8> := [1, 2, 4, 8, 16, 32, 64, 128]

  /** Bit r of the bitmap, least significant bit of each byte first, is set if and only if slot lower + r is in
      the range and populated. */
  lemma BitmapSays(payload: seq<byte>, slots: Slots, r: nat)
    requires |payload| == 8 && Respond(slots, RequestOf(payload)).Reply?
    requires r < 8 * |Respond(slots, RequestOf(payload)).page.presence|
    ensures Respond(slots, RequestOf(payload)).page.presence[r / 8] & BITS[r % 8] != 0 <==>
      payload[1] + r <= payload[2] && payload[1] + r in slots
  {
    var q := RequestOf(payload);
    var v := PresenceOf(slots, q)[r / 8];
    BitsSay(slots, q.lower + 8 * (r / 8), Clamp(q.upper + 1 - q.lower - 8 * (r / 8)), r % 8);
    assert Mask(r % 8) == BITS[r % 8];
    assert 8 * (r / 8) + r % 8 == r;
  }

  /** A range turned round by more than 8 raises; no well-formed request has another outcome than these. */
  lemma TurnedRoundRaises(payload: seq<byte>, slots: Slots)
    requires |payload| == 8
    ensures payload[1] > (payload[2] as int) + 8 ==> Respond(slots, RequestOf(payload)) == Raises
    ensures !Respond(slots, RequestOf(payload)).BadRequest?
  {}
}
