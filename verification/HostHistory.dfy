/** host_service_responder: the current host and a most-recently-used history bounded at 32. */
module HostHistory {
  import opened Bytes

  /** A URI as its UTF-8 bytes. */
  type Uri = seq<byte>

  const LIMIT := 32
  const HOST_VERSION: byte := 1
  const GET_CURRENT: byte := 1
  const SET_CURRENT: byte := 2
  const LIST_HISTORY: byte := 3
  const SELECT_HISTORY: byte := 4
  const DELETE_HISTORY: byte := 5

  datatype Host = Host(history: seq<Uri>, current: Uri)

  datatype Packet = Packet(command: byte, payload: seq<byte>)

  /** What a request did to the history. */
  datatype Event = Promoted(uri: Uri) | Deleted(uri: Uri)

  // ----------------------------------------------------------------- steps

  /** list.remove: drops the first occurrence. */
  function RemoveFirst(h: seq<Uri>, u: Uri): (r: seq<Uri>)
    ensures |r| <= |h|
  {
    if h == [] then [] else if h[0] == u then h[1..] else [h[0]] + RemoveFirst(h[1..], u)
  }

  function Truncate(h: seq<Uri>): seq<Uri> {
    if |h| > LIMIT then h[..LIMIT] else h
  }

  function ToFront(h: seq<Uri>, u: Uri): seq<Uri> {
    [u] + RemoveFirst(h, u)
  }

  function Promote(s: Host, u: Uri): Host {
    Host(Truncate(ToFront(s.history, u)), u)
  }

  function StripSlashes(u: Uri): Uri {
    if u != [] && u[|u| - 1] == 47 then StripSlashes(u[..|u| - 1]) else u
  }

  /** resolve: a spec with a colon stands for itself, others go under the current host. */
  function Resolve(current: Uri, spec: Uri): Uri {
    if 58 in spec then spec
    else
      var base := StripSlashes(current);
      if base == [] then spec else base + [47] + spec
  }

  /** Python's payload[lo:hi] */
  function Slice(s: seq<byte>, lo: nat, hi: nat): seq<byte> {
    var h := Min(hi, |s|);
    if lo <= h then s[lo..h] else []
  }

  /** The event a request causes, if any, and its reply status. */
  function Effect(s: Host, p: Packet): (Option<Event>, byte) {
    if p.payload == [] || p.payload[0] != HOST_VERSION then (None, 2)
    else if p.command == GET_CURRENT then (None, if s.current == [] then 1 else 0)
    else if p.command == SET_CURRENT then
      if |p.payload| < 3 then (None, 2)
      else
        var n := p.payload[1] + 256 * (p.payload[2] as int);
        (Some(Promoted(Resolve(s.current, Slice(p.payload, 3, 3 + n)))), 0)
    else if p.command == LIST_HISTORY then (None, 0)
    else if p.command == SELECT_HISTORY || p.command == DELETE_HISTORY then
      if |p.payload| != 2 || p.payload[1] >= |s.history| then (None, 5)
      else
        var u := s.history[p.payload[1]];
        (Some(if p.command == SELECT_HISTORY then Promoted(u) else Deleted(u)), 0)
    else (None, 8)
  }

  /** The status of the reply. */
  function StatusOf(s: Host, p: Packet): byte {
    Effect(s, p).1
  }

  function Apply(s: Host, e: Event): Host {
    match e
    case Promoted(u) => Promote(s, u)
    case Deleted(u) => s.(history := RemoveFirst(s.history, u))
  }

  function Step(s: Host, p: Packet): Host {
    match Effect(s, p).0 case None => s case Some(e) => Apply(s, e)
  }

  // ------------------------------------------------------------------ runs

  const START := Host([], [])

  function ApplyAll(events: seq<Event>): Host {
    if events == [] then START else Apply(ApplyAll(events[..|events| - 1]), events[|events| - 1])
  }

  function Promotions(uris: seq<Uri>): (events: seq<Event>)
    ensures |events| == |uris|
  {
    seq(|uris|, i requires 0 <= i < |uris| => Promoted(uris[i]))
  }

  /** Everything that happened to the history: the initial hosts, then the requests. */
  function EventsOf(initial: seq<Uri>, packets: seq<Packet>): seq<Event> {
    if packets == [] then Promotions(initial)
    else
      var before := EventsOf(initial, packets[..|packets| - 1]);
      match Effect(ApplyAll(before), packets[|packets| - 1]).0
      case None => before
      case Some(e) => before + [e]
  }

  function RunHost(initial: seq<Uri>, packets: seq<Packet>): Host {
    if packets == [] then ApplyAll(Promotions(initial))
    else Step(RunHost(initial, packets[..|packets| - 1]), packets[|packets| - 1])
  }

  lemma {:induction false} RunAppliesEvents(initial: seq<Uri>, packets: seq<Packet>)
    ensures RunHost(initial, packets) == ApplyAll(EventsOf(initial, packets))
  {
    if packets == [] {
    } else {
      var front := packets[..|packets| - 1];
      RunAppliesEvents(initial, front);
      var before := EventsOf(initial, front);
      var effect := Effect(ApplyAll(before), packets[|packets| - 1]).0;
      if effect.Some? { assert (before + [effect.value])[..|before|] == before; }
    }
  }

  // --------------------------------------------------- the unbounded reference

  /** All URIs promoted and not deleted since, each once, the latest promotion first. */
  function Live(events: seq<Event>): seq<Uri> {
    if events == [] then []
    else
      Relist(Live(events[..|events| - 1]), events[|events| - 1])
  }

  function Relist(live: seq<Uri>, e: Event): seq<Uri> {
    if e.Promoted? then ToFront(live, e.uri) else RemoveFirst(live, e.uri)
  }

  ghost predicate Distinct(h: seq<Uri>) {
    forall i, j :: 0 <= i < j < |h| ==> h[i] != h[j]
  }

  /** u's last event is the promotion at k. */
  ghost predicate LivesFrom(events: seq<Event>, u: Uri, k: nat) {
    k < |events| && events[k] == Promoted(u) && forall j :: k < j < |events| ==> events[j].uri != u
  }

  /** Of two live URIs, the one listed first was promoted last. */
  ghost predicate OrderedByPromotion(events: seq<Event>) {
    var live := Live(events);
    forall i, j, ki: nat, kj: nat ::
      (0 <= i < j < |live| && LivesFrom(events, live[i], ki) && LivesFrom(events, live[j], kj)) ==> ki > kj
  }

  lemma {:induction false} RemoveFromDistinct(h: seq<Uri>, u: Uri)
    requires Distinct(h)
    ensures Distinct(RemoveFirst(h, u))
    ensures forall x :: x in RemoveFirst(h, u) <==> x in h && x != u
  {
    if h != [] && h[0] != u {
      RemoveFromDistinct(h[1..], u);
      var r := RemoveFirst(h[1..], u);
      var t := [h[0]] + r;
      forall i, j | 0 <= i < j < |t|
        ensures t[i] != t[j]
      {
        if i == 0 { assert r[j - 1] in r; }
      }
    }
  }

  lemma ToFrontDistinct(h: seq<Uri>, u: Uri)
    requires Distinct(h)
    ensures Distinct(ToFront(h, u))
  {
    RemoveFromDistinct(h, u);
    var r := RemoveFirst(h, u);
    forall i, j | 0 <= i < j < |r| + 1
      ensures ToFront(h, u)[i] != ToFront(h, u)[j]
    {
      assert r[j - 1] in r;
    }
  }

  /** Removing keeps the order of what is left. */
  lemma {:induction false} RemoveKeepsOrder(h: seq<Uri>, u: Uri, i: nat, j: nat) returns (i': nat, j': nat)
    requires i < j < |RemoveFirst(h, u)|
    ensures i' < j' < |h| && h[i'] == RemoveFirst(h, u)[i] && h[j'] == RemoveFirst(h, u)[j]
  {
    if h[0] == u {
      i', j' := i + 1, j + 1;
    } else if i > 0 {
      i', j' := RemoveKeepsOrder(h[1..], u, i - 1, j - 1);
      i', j' := i' + 1, j' + 1;
    } else {
      var r := RemoveFirst(h[1..], u);
      j' := Position(h[1..], u, j - 1);
      i', j' := 0, j' + 1;
    }
  }

  lemma {:induction false} Position(h: seq<Uri>, u: Uri, j: nat) returns (j': nat)
    requires j < |RemoveFirst(h, u)|
    ensures j' < |h| && h[j'] == RemoveFirst(h, u)[j]
  {
    if h[0] == u {
      j' := j + 1;
    } else if j == 0 {
      j' := 0;
    } else {
      j' := Position(h[1..], u, j - 1);
      j' := j' + 1;
    }
  }

  /** `Live` is what its comment says: distinct, complete, ordered by last promotion. */
  lemma {:induction false} LiveCharacterised(events: seq<Event>)
    ensures Distinct(Live(events))
    ensures forall u :: u in Live(events) <==> exists k: nat :: LivesFrom(events, u, k)
    ensures OrderedByPromotion(events)
  {
    if events == [] {
    } else {
      var n := |events| - 1;
      var front, last := events[..n], events[n];
      LiveCharacterised(front);
      var before, live := Live(front), Live(events);
      RemoveFromDistinct(before, last.uri);
      forall u: Uri, k: nat | u != last.uri
        ensures LivesFrom(events, u, k) <==> LivesFrom(front, u, k)
      {
        assert k < n ==> front[k] == events[k];
        if LivesFrom(front, u, k) {
          assert forall j :: k < j < n ==> events[j] == front[j];
        }
      }
      forall u
        ensures u in live <==> exists k: nat :: LivesFrom(events, u, k)
      {
        if u == last.uri {
          if last.Promoted? { assert LivesFrom(events, u, n); }
          if k: nat :| LivesFrom(events, u, k) { assert k == n; }
        } else {
          assert u in live <==> u in before;
          if u in before {
            var k: nat :| LivesFrom(front, u, k);
            assert LivesFrom(events, u, k);
          }
        }
      }
      forall i, j, ki: nat, kj: nat |
        0 <= i < j < |live| && LivesFrom(events, live[i], ki) && LivesFrom(events, live[j], kj)
        ensures ki > kj
      {
        LiveOrder(events, i, j, ki, kj);
      }
      ToFrontDistinct(before, last.uri);
    }
  }

  lemma {:induction false} LiveOrder(events: seq<Event>, i: nat, j: nat, ki: nat, kj: nat)
    requires events != []
    requires Distinct(Live(events[..|events| - 1])) && OrderedByPromotion(events[..|events| - 1])
    requires i < j < |Live(events)| && LivesFrom(events, Live(events)[i], ki) && LivesFrom(events, Live(events)[j], kj)
    ensures ki > kj
  {
    hide RemoveFirst;
    var n := |events| - 1;
    var front, last := events[..n], events[n];
    var before, rest := Live(front), RemoveFirst(Live(front), last.uri);
    RemoveFromDistinct(before, last.uri);
    var shift := if last.Promoted? then 1 else 0;
    assert Live(events)[j] == rest[j - shift];
    assert Live(events)[j] in rest && kj < n;
    if last.Promoted? && i == 0 {
      assert ki == n;
    } else {
      assert Live(events)[i] == rest[i - shift] && rest[i - shift] in rest && ki < n;
      var i', j' := RemoveKeepsOrder(before, last.uri, i - shift, j - shift);
      assert LivesFrom(front, before[i'], ki) && LivesFrom(front, before[j'], kj);
    }
  }

  // --------------------------------------------------------------- refinement

  lemma {:induction false} RemovePrefix(h: seq<Uri>, live: seq<Uri>, u: Uri)
    requires h <= live && Distinct(live)
    ensures u in h ==> RemoveFirst(h, u) <= RemoveFirst(live, u) && |RemoveFirst(h, u)| == |h| - 1
    ensures u !in h ==> h <= RemoveFirst(live, u) && RemoveFirst(h, u) == h
    ensures u in live ==> |RemoveFirst(live, u)| == |live| - 1
    ensures u !in live ==> RemoveFirst(live, u) == live
  {
    if h == [] {
      if live != [] { RemovePrefix([], live[1..], u); }
    } else if h[0] != u {
      RemovePrefix(h[1..], live[1..], u);
      assert h == [h[0]] + h[1..] && live == [h[0]] + live[1..];
    } else {
      assert u !in live[1..] by {
        forall k | 0 <= k < |live[1..]|
          ensures live[1..][k] != u
        {
          assert live[0] != live[k + 1];
        }
      }
    }
  }

  /** Truncating at every step loses nothing but the tail: the history is always the front of the
      unbounded list, and all of its first 32 entries as long as nothing was deleted. */
  lemma {:induction false} HistoryIsFrontOfLive(events: seq<Event>)
    ensures var h, live := ApplyAll(events).history, Live(events);
      && h <= live && |h| <= LIMIT && Distinct(h)
      && (AllPromoted(events) ==> h == Truncate(live))
  {
    hide ToFront, RemoveFirst, Truncate;
    if events == [] {
      NothingLive();
    } else {
      var n := |events| - 1;
      var front, last := events[..n], events[n];
      HistoryIsFrontOfLive(front);
      LiveCharacterised(front);
      FrontStep(ApplyAll(front).history, Live(front), last.uri);
      assert AllPromoted(events) ==> AllPromoted(front) && last.Promoted?;
    }
    LiveCharacterised(events);
  }

  lemma NothingLive()
    ensures ApplyAll([]).history == [] == Live([]) == Truncate([])
  {}

  predicate AllPromoted(events: seq<Event>) {
    forall i :: 0 <= i < |events| ==> events[i].Promoted?
  }

  /** The current host is the one promoted last; deleting never changes it. */
  lemma {:induction false} CurrentIsLastPromoted(events: seq<Event>, k: nat)
    requires k < |events| && events[k].Promoted? && forall j :: k < j < |events| ==> events[j].Deleted?
    ensures ApplyAll(events).current == events[k].uri
  {
    if k < |events| - 1 { CurrentIsLastPromoted(events[..|events| - 1], k); }
  }

  lemma FrontStep(h: seq<Uri>, live: seq<Uri>, u: Uri)
    requires h <= live && |h| <= LIMIT && Distinct(live)
    ensures RemoveFirst(h, u) <= RemoveFirst(live, u) && |RemoveFirst(h, u)| <= LIMIT
    ensures Truncate(ToFront(h, u)) <= ToFront(live, u) && |Truncate(ToFront(h, u))| <= LIMIT
    ensures h == Truncate(live) ==> Truncate(ToFront(h, u)) == Truncate(ToFront(live, u))
  {
    RemovePrefix(h, live, u);
    RemovePrefix(live, live, u);
    var rh, rl := RemoveFirst(h, u), RemoveFirst(live, u);
    TruncatedFronts(u, rh, rl);
    if h == Truncate(live) && |h| < |live| {
      assert |h| == LIMIT && |rl| >= LIMIT - 1 && |rh| >= LIMIT - 1;
    }
  }

  lemma TruncatedFronts(u: Uri, rh: seq<Uri>, rl: seq<Uri>)
    requires rh <= rl
    ensures Truncate([u] + rh) <= [u] + rl && |Truncate([u] + rh)| <= LIMIT
    ensures rh == rl || |rh| >= LIMIT - 1 ==> Truncate([u] + rh) == Truncate([u] + rl)
  {
    assert [u] + rh <= [u] + rl;
  }

  /** u's last event is the promotion at k, and since then u was always among the first 32 live URIs. */
  ghost predicate KeptFrom(events: seq<Event>, u: Uri, k: nat) {
    LivesFrom(events, u, k) && AmongFirst(events, u, k, |events|)
  }

  ghost predicate AmongFirst(events: seq<Event>, u: Uri, k: nat, m: nat)
    requires m <= |events|
  {
    forall t: nat :: k < t <= m ==> u in Truncate(Live(events[..t]))
  }

  /** Exactly what is in the history, deletions or not: the URIs that since their last promotion were never
      pushed past place 32 of the unbounded list. */
  lemma {:induction false} HistoryHolds(events: seq<Event>, u: Uri)
    ensures u in ApplyAll(events).history <==> exists k: nat :: KeptFrom(events, u, k)
  {
    hide Live, Truncate, RemoveFirst, ToFront;
    if events == [] {
    } else {
      var n := |events| - 1;
      var front, last := events[..n], events[n];
      HistoryHolds(front, u);
      HistoryIsFrontOfLive(front);
      LiveCharacterised(front);
      StillHeld(ApplyAll(front).history, Live(front), last, u);
      LiveNext(events);
      assert events[..n + 1] == events;
      if u == last.uri {
        if k: nat :| KeptFrom(events, u, k) { assert k == n; }
        if last.Promoted? { assert KeptFrom(events, u, n); }
      } else {
        if k: nat :| KeptFrom(front, u, k) && u in Truncate(Live(events)) { KeptNext(events, u, k); }
        if k: nat :| KeptFrom(events, u, k) { KeptNext(events, u, k); }
      }
    }
  }

  lemma LiveNext(events: seq<Event>)
    requires events != []
    ensures var n := |events| - 1;
      && Live(events) == Relist(Live(events[..n]), events[n])
      && ApplyAll(events) == Apply(ApplyAll(events[..n]), events[n])
  {}

  lemma KeptNext(events: seq<Event>, u: Uri, k: nat)
    requires events != [] && events[|events| - 1].uri != u
    ensures KeptFrom(events, u, k) <==> KeptFrom(events[..|events| - 1], u, k) && u in Truncate(Live(events))
  {
    hide Live, Truncate, AmongFirst, LivesFrom;
    LivesNext(events, u, k);
    if k < |events| - 1 {
      AmongNext(events, u, k);
      SameFronts(events, u, k);
    } else {
      NotYetLive(events, u, k);
    }
  }

  lemma NotYetLive(events: seq<Event>, u: Uri, k: nat)
    requires events != [] && events[|events| - 1].uri != u && |events| - 1 <= k
    ensures !LivesFrom(events, u, k)
  {}

  lemma LivesNext(events: seq<Event>, u: Uri, k: nat)
    requires events != [] && events[|events| - 1].uri != u
    ensures LivesFrom(events, u, k) <==> LivesFrom(events[..|events| - 1], u, k)
  {
    var front := events[..|events| - 1];
    if LivesFrom(front, u, k) {
      assert forall j :: k < j < |front| ==> events[j] == front[j];
    }
  }

  lemma AmongNext(events: seq<Event>, u: Uri, k: nat)
    requires k < |events|
    ensures AmongFirst(events, u, k, |events|) <==>
            AmongFirst(events, u, k, |events| - 1) && u in Truncate(Live(events))
  {
    hide Live, Truncate;
    assert events[..|events|] == events;
  }

  lemma SameFronts(events: seq<Event>, u: Uri, k: nat)
    requires events != []
    ensures AmongFirst(events, u, k, |events| - 1) <==>
            AmongFirst(events[..|events| - 1], u, k, |events| - 1)
  {
    hide Live, Truncate;
    var n := |events| - 1;
    forall t: nat | t <= n
      ensures events[..n][..t] == events[..t]
    {}
  }

  /** One event: its own URI enters or leaves; another one stays if it was held and is among the first 32. */
  lemma StillHeld(h: seq<Uri>, live: seq<Uri>, e: Event, u: Uri)
    requires h <= live && |h| <= LIMIT && Distinct(h) && Distinct(live)
    ensures var now := Apply(Host(h, []), e).history;
      if u == e.uri then u in now <==> e.Promoted?
      else u in now <==> u in h && u in Truncate(Relist(live, e))
    ensures e.Promoted? ==> e.uri in Truncate(ToFront(live, e.uri))
  {
    RemoveFromDistinct(h, e.uri);
    FrontStep(h, live, e.uri);
    var rest, all := RemoveFirst(h, e.uri), RemoveFirst(live, e.uri);
    HeldIsListed(rest, all, u);
    HeldIsListed([e.uri] + rest, [e.uri] + all, u);
  }

  lemma HeldIsListed(p: seq<Uri>, q: seq<Uri>, u: Uri)
    requires p <= q
    ensures u in Truncate(p) <==> u in p && u in Truncate(q)
  {
    if |p| > LIMIT {
      assert Truncate(p) == Truncate(q);
    } else {
      assert p <= Truncate(q);
    }
  }

  predicate NoDelete(packets: seq<Packet>) {
    forall i :: 0 <= i < |packets| ==> packets[i].command != DELETE_HISTORY
  }

  /** Over every run of requests from any initial hosts. */
  lemma EveryRun(initial: seq<Uri>, packets: seq<Packet>)
    ensures var s, events := RunHost(initial, packets), EventsOf(initial, packets);
      && s.history <= Live(events) && |s.history| <= LIMIT && Distinct(s.history)
      && (forall u :: u in s.history <==> exists k: nat :: KeptFrom(events, u, k))
      && (NoDelete(packets) ==> s.history == Truncate(Live(events)))
  {
    RunAppliesEvents(initial, packets);
    HistoryIsFrontOfLive(EventsOf(initial, packets));
    forall u
      ensures u in RunHost(initial, packets).history <==> exists k: nat :: KeptFrom(EventsOf(initial, packets), u, k)
    {
      HistoryHolds(EventsOf(initial, packets), u);
    }
    if NoDelete(packets) { OnlyPromotions(initial, packets); }
  }

  lemma {:induction false} OnlyPromotions(initial: seq<Uri>, packets: seq<Packet>)
    requires NoDelete(packets)
    ensures AllPromoted(EventsOf(initial, packets))
  {
    if packets == [] {
    } else {
      OnlyPromotions(initial, packets[..|packets| - 1]);
    }
  }

  lemma {:induction false} RemoveAt(h: seq<Uri>, i: nat)
    requires i < |h| && Distinct(h)
    ensures RemoveFirst(h, h[i]) == h[..i] + h[i + 1..]
  {
    if i == 0 {
    } else {
      assert h[0] != h[i];
      RemoveAt(h[1..], i - 1);
    }
  }

  // ------------------------------------------------------------------ class

  class HostService {
    var history: seq<Uri>
    var current: Uri

    ghost function State(): Host
      reads this
    {
      Host(history, current)
    }

    ghost predicate Valid()
      reads this
    {
      Distinct(history) && |history| <= LIMIT
    }

    constructor (initial: seq<Uri>)
      ensures Valid() && State() == RunHost(initial, [])
    {
      history, current := [], [];
      new;
      var i := 0;
      assert Promotions(initial)[..0] == [];
      while i < |initial|
        invariant i <= |initial| && Valid()
        invariant State() == ApplyAll(Promotions(initial)[..i])
      {
        PromoteUri(initial[i]);
        i := i + 1;
        assert Promotions(initial)[..i][..i - 1] == Promotions(initial)[..i - 1];
      }
      assert Promotions(initial)[..i] == Promotions(initial);
    }

    /** promote */
    method PromoteUri(uri: Uri)
      requires Valid()
      modifies this
      ensures Valid()
      ensures State() == Promote(old(State()), uri)
    {
      current := uri;
      ToFrontDistinct(history, uri);
      history := RemoveFirst(history, uri);
      history := [uri] + history;
      if |history| > LIMIT { history := history[..LIMIT]; }
    }

    /** _resp for a HostService packet: the reply status. */
    method Respond(p: Packet) returns (status: byte)
      requires Valid()
      modifies this
      ensures Valid()
      ensures State() == Step(old(State()), p)
      ensures status == StatusOf(old(State()), p)
    {
      var payload := p.payload;
      if payload == [] || payload[0] != HOST_VERSION { return 2; }
      if p.command == GET_CURRENT {
        return if current == [] then 1 else 0;
      }
      if p.command == SET_CURRENT {
        if |payload| < 3 { return 2; }
        var specLen := payload[1] + 256 * (payload[2] as int);
        var spec := Slice(payload, 3, 3 + specLen);
        PromoteUri(Resolve(current, spec));
        return 0;
      }
      if p.command == LIST_HISTORY { return 0; }
      if p.command == SELECT_HISTORY {
        if |payload| != 2 || payload[1] >= |history| { return 5; }
        PromoteUri(history[payload[1]]);
        return 0;
      }
      if p.command == DELETE_HISTORY {
        if |payload| != 2 || payload[1] >= |history| { return 5; }
        RemoveAt(history, payload[1]);
        RemoveFromDistinct(history, history[payload[1]]);
        history := history[..payload[1]] + history[payload[1] + 1..];
        return 0;
      }
      return 8;
    }
  }
}
