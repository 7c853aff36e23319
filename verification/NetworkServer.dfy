/** legacy_openbas_network_responder: handles, sparse writes and chunked reads. */
module NetworkServer {
  import opened Bytes

  type Text = seq<byte>

  /** The fixed services: page bodies by URL without query, the two translated values, the echo URL. */
  datatype Site = Site(pages: map<Text, seq<byte>>, selectedUrl: seq<byte>, selectedHost: seq<byte>, echoUrl: Text)

  /** _NetworkHandle */
  datatype Conn = Conn(url: Text, httpMethod: byte, data: seq<byte>, translated: Option<seq<byte>>, written: seq<byte>)

  datatype Request =
    | Open(httpMethod: byte, url: Text)
    | Read(handle: nat, offset: nat, maxLen: nat)
    | InfoRead(handle: nat, offset: nat, maxLen: nat)
    | Write(handle: nat, offset: nat, data: seq<byte>)
    | Info(handle: nat)
    | Translate(handle: nat, selector: Text)
    | Close(handle: nat)

  datatype Reply =
    | Opened(handle: nat, writable: bool)
    | Chunk(data: seq<byte>, eof: bool)
    | Written(length: nat)
    | Length(length: nat)
    | Closed
    | Failed
    | Raises

  datatype Net = Net(next: nat, handles: map<nat, Conn>)

  // ----------------------------------------------------------------- pieces

  /** url.split("?", 1)[0] */
  function BeforeQuery(url: Text): Text {
    if url == [] || url[0] == 63 then [] else [url[0]] + BeforeQuery(url[1..])
  }

  function InitialData(site: Site, url: Text): seq<byte> {
    var base := BeforeQuery(url);
    if base in site.pages then site.pages[base] else []
  }

  /** "/url", "/headers/Host" and "/method" */
  const URL_SELECTOR: Text := [47, 117, 114, 108]
  const HOST_SELECTOR: Text := [47, 104, 101, 97, 100, 101, 114, 115, 47, 72, 111, 115, 116]
  const METHOD_SELECTOR: Text := [47, 109, 101, 116, 104, 111, 100]

  function Translated(site: Site, c: Conn, selector: Text): seq<byte> {
    if selector == URL_SELECTOR then site.selectedUrl
    else if selector == HOST_SELECTOR then site.selectedHost
    else if selector == METHOD_SELECTOR then
      if c.httpMethod != 1 then [80, 79, 83, 84] else [71, 69, 84]
    else []
  }

  /** What READ serves: the translated value, the echo, or the page. */
  function SourceOf(site: Site, c: Conn): seq<byte> {
    if c.translated.Some? then c.translated.value
    else if c.url == site.echoUrl then c.written
    else c.data
  }

  /** What INFO measures: for the echo URL the written bytes, even after a translation. */
  function InfoSource(site: Site, c: Conn): seq<byte> {
    if c.url == site.echoUrl then c.written else if c.translated.Some? then c.translated.value else c.data
  }

  /** _read_data: source[offset:offset + max_len] and whether that reaches the end. */
  function ReadData(source: seq<byte>, offset: nat, maxLen: nat): (r: (seq<byte>, bool))
    ensures |r.0| <= maxLen
  {
    var lo, hi := Min(offset, |source|), Min(offset + maxLen, |source|);
    (source[lo..hi], offset + (hi - lo) >= |source|)
  }

  // ------------------------------------------------------------------ steps

  function Step(site: Site, n: Net, q: Request): Net {
    match q
    case Open(httpMethod, url) =>
      Net(n.next + 1, n.handles[n.next := Conn(url, httpMethod, InitialData(site, url), None, [])])
    case Write(h, offset, data) =>
      if h !in n.handles then n
      else n.(handles := n.handles[h := n.handles[h].(written := Overlay(n.handles[h].written, offset, data))])
    case Translate(h, selector) =>
      if h !in n.handles then n
      else n.(handles := n.handles[h := n.handles[h].(translated := Some(Translated(site, n.handles[h], selector)))])
    case Close(h) => n.(handles := n.handles - {h})
    case _ => n
  }

  function Answer(site: Site, n: Net, q: Request): Reply {
    match q
    case Open(httpMethod, url) =>
      if n.next >= 0x1_0000 then Raises else Opened(n.next, httpMethod != 1 || url == site.echoUrl)
    case Read(h, offset, maxLen) =>
      if h !in n.handles then Chunk([], true)
      else var r := ReadData(SourceOf(site, n.handles[h]), offset, maxLen); Chunk(r.0, r.1)
    case InfoRead(h, offset, maxLen) =>
      if h !in n.handles then Chunk([], true)
      else var r := ReadData(SourceOf(site, n.handles[h]), offset, maxLen); Chunk(r.0, r.1)
    case Write(h, _, data) => if h !in n.handles then Failed else Written(|data|)
    case Info(h) => if h !in n.handles then Failed else Length(|InfoSource(site, n.handles[h])|)
    case Translate(h, selector) =>
      if h !in n.handles then Failed else Length(|Translated(site, n.handles[h], selector)|)
    case Close(_) => Closed
  }

  const FIRST_HANDLE := 0x1200

  function Run(site: Site, run: seq<Request>): Net {
    if run == [] then Net(FIRST_HANDLE, map[]) else Step(site, Run(site, run[..|run| - 1]), run[|run| - 1])
  }

  // ---------------------------------------------------------- handle lifetimes

  function Opens(run: seq<Request>): nat {
    if run == [] then 0 else Opens(run[..|run| - 1]) + if run[|run| - 1].Open? then 1 else 0
  }

  /** Handles are handed out in order, and only ones already handed out are ever live. */
  lemma {:induction false} HandlesInOrder(site: Site, run: seq<Request>)
    ensures Run(site, run).next == FIRST_HANDLE + Opens(run)
    ensures forall h :: h in Run(site, run).handles ==> FIRST_HANDLE <= h < Run(site, run).next
  {
    if run == [] {
    } else {
      HandlesInOrder(site, run[..|run| - 1]);
    }
  }

  /** An OPEN's handle is new at that moment, and no later OPEN gets it again. */
  lemma HandlesNeverReused(site: Site, run: seq<Request>, i: nat, j: nat)
    requires i < j < |run| && run[i].Open? && run[j].Open?
    ensures Run(site, run[..i]).next !in Run(site, run[..i]).handles
    ensures Run(site, run[..i]).next < Run(site, run[..j]).next
  {
    HandlesInOrder(site, run[..i]);
    HandlesInOrder(site, run[..i + 1]);
    assert run[..i + 1][..i] == run[..i];
    HandlesInOrder(site, run[..j]);
    OpensGrow(run[..j], i + 1);
    assert run[..j][..i + 1] == run[..i + 1];
  }

  lemma {:induction false} OpensGrow(run: seq<Request>, k: nat)
    requires k <= |run|
    ensures Opens(run[..k]) <= Opens(run)
  {
    if k < |run| {
      OpensGrow(run[..|run| - 1], k);
      assert run[..|run| - 1][..k] == run[..k];
    } else {
      assert run[..k] == run;
    }
  }

  predicate Concerns(n: Net, q: Request, h: nat) {
    match q
    case Open(_, _) => n.next == h
    case Read(k, _, _) => k == h
    case InfoRead(k, _, _) => k == h
    case Write(k, _, _) => k == h
    case Info(k) => k == h
    case Translate(k, _) => k == h
    case Close(k) => k == h
  }

  /** A request on one handle leaves every other handle exactly as it was. */
  lemma OtherHandlesUntouched(site: Site, n: Net, q: Request, h: nat)
    requires !Concerns(n, q, h)
    ensures h in Step(site, n, q).handles <==> h in n.handles
    ensures h in n.handles ==> Step(site, n, q).handles[h] == n.handles[h]
  {}

  /** Once closed, a handle stays closed. */
  lemma {:induction false} ClosedForGood(site: Site, run: seq<Request>, k: nat, h: nat)
    requires k < |run| && run[k] == Close(h) && h < Run(site, run[..k]).next
    ensures h !in Run(site, run).handles && h < Run(site, run).next
    decreases |run|
  {
    var n := |run| - 1;
    if k < n {
      assert run[..n][..k] == run[..k];
      ClosedForGood(site, run[..n], k, h);
    }
  }

  // ----------------------------------------------------------------- overlays

  datatype Span = Span(offset: nat, data: seq<byte>) {
    function End(): nat { offset + |data| }
    predicate Covers(i: nat) { offset <= i < offset + |data| }
  }

  /** The writes a handle has seen since it was opened. */
  function WritesTo(site: Site, run: seq<Request>, h: nat): seq<Span> {
    if run == [] then []
    else
      var front, last := run[..|run| - 1], run[|run| - 1];
      var before := WritesTo(site, front, h);
      match last
      case Open(_, _) => if Run(site, front).next == h then [] else before
      case Write(k, offset, data) => if k == h then before + [Span(offset, data)] else before
      case _ => before
  }

  /** The length the writes reach, and each byte by the last write that covers it, zero if none does. */
  function Reach(spans: seq<Span>): nat {
    if spans == [] then 0 else Max(Reach(spans[..|spans| - 1]), spans[|spans| - 1].End())
  }

  function LastByte(spans: seq<Span>, i: nat): byte {
    if spans == [] then 0
    else
      var last := spans[|spans| - 1];
      if last.Covers(i) then last.data[i - last.offset] else LastByte(spans[..|spans| - 1], i)
  }

  function Laid(spans: seq<Span>): (r: seq<byte>)
    ensures |r| == Reach(spans)
  {
    seq(Reach(spans), i requires 0 <= i => LastByte(spans, i))
  }

  lemma LaidNext(spans: seq<Span>, s: Span)
    ensures Overlay(Laid(spans), s.offset, s.data) == Laid(spans + [s])
  {
    var more, was := spans + [s], Laid(spans);
    assert more[..|spans|] == spans && more[|spans|] == s;
    var now := Overlay(was, s.offset, s.data);
    OverlayByte(was, s.offset, s.data, 0);
    forall i: nat | i < |now|
      ensures now[i] == LastByte(more, i)
    {
      OverlayByte(was, s.offset, s.data, i);
      if i >= |was| { BeyondReach(spans, i); }
    }
  }

  lemma {:induction false} BeyondReach(spans: seq<Span>, i: nat)
    requires Reach(spans) <= i
    ensures LastByte(spans, i) == 0
  {
    if spans == [] {
    } else {
      BeyondReach(spans[..|spans| - 1], i);
    }
  }

  /** On every run, a live handle's written bytes are the zero-filled overlay of its writes. */
  lemma {:induction false} WrittenIsOverlay(site: Site, run: seq<Request>, h: nat)
    ensures h in Run(site, run).handles ==> Run(site, run).handles[h].written == Laid(WritesTo(site, run, h))
  {
    if run == [] {
    } else {
      var front, last := run[..|run| - 1], run[|run| - 1];
      WrittenIsOverlay(site, front, h);
      var n := Run(site, front);
      if last.Write? && last.handle == h && h in n.handles {
        LaidNext(WritesTo(site, front, h), Span(last.offset, last.data));
      } else if last.Open? && n.next == h {
        assert Laid([]) == [];
      }
    }
  }

  function JoinAll(spans: seq<Span>): seq<byte> {
    if spans == [] then [] else JoinAll(spans[..|spans| - 1]) + spans[|spans| - 1].data
  }

  predicate Consecutive(spans: seq<Span>) {
    spans == [] ||
    (Consecutive(spans[..|spans| - 1]) && spans[|spans| - 1].offset == |JoinAll(spans[..|spans| - 1])|)
  }

  /** Writes that each start where the last one ended simply concatenate. */
  lemma {:induction false} ConsecutiveWritesJoin(spans: seq<Span>)
    requires Consecutive(spans)
    ensures Laid(spans) == JoinAll(spans)
  {
    if spans == [] {
      assert Laid([]) == [];
    } else {
      var front, last := spans[..|spans| - 1], spans[|spans| - 1];
      ConsecutiveWritesJoin(front);
      LaidNext(front, last);
      assert spans == front + [last];
    }
  }

  /** What an echo connection reads back: any window of the overlay of the writes to that handle. */
  lemma EchoReadsOverlay(site: Site, run: seq<Request>, h: nat, offset: nat, maxLen: nat)
    requires h in Run(site, run).handles
    requires Run(site, run).handles[h].url == site.echoUrl && Run(site, run).handles[h].translated.None?
    ensures var laid := Laid(WritesTo(site, run, h));
      Answer(site, Run(site, run), Read(h, offset, maxLen)) ==
        Chunk(ReadData(laid, offset, maxLen).0, offset + |ReadData(laid, offset, maxLen).0| >= |laid|)
  {
    WrittenIsOverlay(site, run, h);
  }

  // -------------------------------------------------------------------- class

  /** _NetworkHandle, whose written bytes and translation change in place. */
  class Handle {
    const url: Text
    const httpMethod: byte
    const data: seq<byte>
    var translated: Option<seq<byte>>
    var written: seq<byte>

    function Value(): Conn
      reads this
    {
      Conn(url, httpMethod, data, translated, written)
    }

    constructor (url: Text, httpMethod: byte, data: seq<byte>)
      ensures Value() == Conn(url, httpMethod, data, None, [])
    {
      this.url, this.httpMethod, this.data := url, httpMethod, data;
      translated, written := None, [];
    }
  }

  class Server {
    const site: Site
    var next: nat
    var handles: map<nat, Handle>

    /** No two handles share an object. */
    ghost predicate Valid()
      reads this
    {
      forall h, k :: h in handles && k in handles && h != k ==> handles[h] != handles[k]
    }

    ghost function State(): Net
      reads this, handles.Values
    {
      Net(next, map h | h in handles :: handles[h].Value())
    }

    constructor (site: Site)
      ensures Valid() && this.site == site && State() == Run(site, [])
    {
      this.site := site;
      next, handles := FIRST_HANDLE, map[];
    }

    /** The OPEN branch of _resp. */
    method OpenHandle(httpMethod: byte, url: Text) returns (r: Reply)
      requires Valid()
      modifies this
      ensures Valid() && fresh(handles.Values - old(handles.Values))
      ensures State() == Step(site, old(State()), Open(httpMethod, url))
      ensures r == Answer(site, old(State()), Open(httpMethod, url))
    {
      hide InitialData;
      var state := new Handle(url, httpMethod, InitialData(site, url));
      var handle := next;
      next := next + 1;
      handles := handles[handle := state];
      r := if handle >= 0x1_0000 then Raises else Opened(handle, httpMethod != 1 || url == site.echoUrl);
      assert State().handles == old(State()).handles[handle := state.Value()];
    }

    /** The WRITE branch. */
    method WriteHandle(handle: nat, offset: nat, data: seq<byte>) returns (r: Reply)
      requires Valid()
      modifies handles.Values
      ensures Valid()
      ensures State() == Step(site, old(State()), Write(handle, offset, data))
      ensures r == Answer(site, old(State()), Write(handle, offset, data))
    {
      if handle !in handles { return Failed; }
      var state, end := handles[handle], offset + |data|;
      ghost var was := state.written;
      if end > |state.written| {
        state.written := state.written + Zeros(end - |state.written|);
      }
      state.written := state.written[..offset] + data + state.written[end..];
      assert state.written == Overlay(was, offset, data);
      hide Overlay;
      assert State().handles == old(State()).handles[handle := state.Value()];
      r := Written(|data|);
    }

    /** The TRANSLATE_CONFIGURE branch. */
    method TranslateHandle(handle: nat, selector: Text) returns (r: Reply)
      requires Valid()
      modifies handles.Values
      ensures Valid()
      ensures State() == Step(site, old(State()), Translate(handle, selector))
      ensures r == Answer(site, old(State()), Translate(handle, selector))
    {
      hide Translated;
      if handle !in handles { return Failed; }
      var state := handles[handle];
      state.translated := Some(Translated(site, state.Value(), selector));
      assert State().handles == old(State()).handles[handle := state.Value()];
      r := Length(|state.translated.value|);
    }

    /** READ, which changes nothing. */
    method ReadHandle(handle: nat, offset: nat, maxLen: nat) returns (r: Reply)
      ensures r == Answer(site, State(), Read(handle, offset, maxLen))
    {
      if handle !in handles { return Chunk([], true); }
      var source := SourceOf(site, handles[handle].Value());
      var chunk := ReadData(source, offset, maxLen);
      r := Chunk(chunk.0, chunk.1);
    }

    /** _resp for a network packet. */
    method Respond(q: Request) returns (r: Reply)
      requires Valid()
      modifies this, handles.Values
      ensures Valid() && fresh(handles.Values - old(handles.Values))
      ensures State() == Step(site, old(State()), q)
      ensures r == Answer(site, old(State()), q)
    {
      hide Overlay, Translated, InitialData, ReadData, SourceOf;
      match q {
        case Open(httpMethod, url) => r := OpenHandle(httpMethod, url);
        case Read(handle, offset, maxLen) => r := ReadHandle(handle, offset, maxLen);
        case InfoRead(handle, offset, maxLen) => r := ReadHandle(handle, offset, maxLen);
        case Write(handle, offset, data) => r := WriteHandle(handle, offset, data);
        case Info(handle) =>
          r := if handle in handles then Length(|InfoSource(site, handles[handle].Value())|) else Failed;
        case Translate(handle, selector) => r := TranslateHandle(handle, selector);
        case Close(handle) =>
          handles := handles - {handle};
          r := Closed;
          assert State().handles == old(State()).handles - {handle};
      }
    }
  }
}
