/** What each host service request does, from its bytes: the history and the current host before and after. */
module HostRequests {
  import opened Bytes
  import opened HostHistory

  /** A version 1 packet. */
  predicate Versioned(p: Packet) {
    p.payload != [] && p.payload[0] == 1
  }

  /** Every status comes exactly under its own condition, and any but 0 leaves the state alone. */
  lemma Statuses(s: Host, p: Packet)
    ensures StatusOf(s, p) == 2 <==> !Versioned(p) || (p.command == 2 && |p.payload| < 3)
    ensures StatusOf(s, p) == 8 <==> Versioned(p) && (p.command < 1 || p.command > 5)
    ensures StatusOf(s, p) == 1 <==> Versioned(p) && p.command == 1 && s.current == []
    ensures StatusOf(s, p) == 5 <==>
      Versioned(p) && (p.command == 4 || p.command == 5) && (|p.payload| != 2 || p.payload[1] >= |s.history|)
    ensures StatusOf(s, p) in {0, 1, 2, 5, 8}
    ensures StatusOf(s, p) != 0 ==> Step(s, p) == s
  {}

  /** GET and LIST only read. */
  lemma ReadsChangeNothing(s: Host, p: Packet)
    requires p.command == 1 || p.command == 3
    ensures Step(s, p) == s
  {}

  /** SELECT of place i brings that URI to the front and makes it current. */
  lemma SelectPromotes(s: Host, i: byte)
    requires Distinct(s.history) && i < |s.history| <= 32
    ensures StatusOf(s, Packet(4, [1, i])) == 0
    ensures Step(s, Packet(4, [1, i])) ==
      Host([s.history[i]] + s.history[..i] + s.history[i + 1..], s.history[i])
  {
    RemoveAt(s.history, i);
    var first, before, behind := [s.history[i]], s.history[..i], s.history[i + 1..];
    assert first + (before + behind) == first + before + behind;
  }

  /** DELETE of place i takes that URI out, even when it is the current host, which stays. */
  lemma DeleteRemoves(s: Host, i: byte)
    requires Distinct(s.history) && i < |s.history|
    ensures StatusOf(s, Packet(5, [1, i])) == 0
    ensures Step(s, Packet(5, [1, i])) == Host(s.history[..i] + s.history[i + 1..], s.current)
  {
    RemoveAt(s.history, i);
  }

  /** `spec` as a SET request names it: its length in two bytes, then as many bytes as are there. */
  predicate Names(p: Packet, spec: Uri) {
    && Versioned(p) && p.command == 2 && |p.payload| >= 3
    && spec <= p.payload[3..]
    && (|spec| == p.payload[1] + 256 * (p.payload[2] as int)
        || (|spec| == |p.payload| - 3 && |spec| < p.payload[1] + 256 * (p.payload[2] as int)))
  }

  /** A URI at the front of the history: wherever it was, it is now first, and of a full history that did
      not have it the last one goes. */
  ghost predicate Fronted(before: seq<Uri>, u: Uri, after: seq<Uri>) {
    && (forall i :: 0 <= i < |before| && before[i] == u ==> after == [u] + before[..i] + before[i + 1..])
    && (u !in before ==> after == [u] + (if |before| < 32 then before else before[..31]))
  }

  /** SET of a spec with a colon makes that the current host. */
  lemma SetWithColon(s: Host, p: Packet, spec: Uri)
    requires Distinct(s.history) && |s.history| <= 32 && Names(p, spec) && 58 in spec
    ensures StatusOf(s, p) == 0
    ensures Step(s, p).current == spec && Fronted(s.history, spec, Step(s, p).history)
  {
    SpecNamed(p, spec);
    PromoteFronts(s, spec);
  }

  /** Any other spec goes under the current host, less its final slashes: base, one slash, spec, or the spec
      alone under an empty base. */
  lemma SetUnderBase(s: Host, p: Packet, spec: Uri, base: Uri, slashes: Uri)
    requires Distinct(s.history) && |s.history| <= 32 && Names(p, spec) && 58 !in spec
    requires s.current == base + slashes && (base == [] || base[|base| - 1] != 47)
    requires forall k :: 0 <= k < |slashes| ==> slashes[k] == 47
    ensures StatusOf(s, p) == 0
    ensures var target := if base == [] then spec else base + [47] + spec;
      Step(s, p).current == target && Fronted(s.history, target, Step(s, p).history)
  {
    SpecNamed(p, spec);
    StripIsBase(base, slashes);
    PromoteFronts(s, if base == [] then spec else base + [47] + spec);
  }

  /** Every SET request names a spec, and every current host has such a base. */
  lemma SetCovered(s: Host, p: Packet) returns (spec: Uri, base: Uri, slashes: Uri)
    requires Versioned(p) && p.command == 2 && |p.payload| >= 3
    ensures Names(p, spec)
    ensures s.current == base + slashes && (base == [] || base[|base| - 1] != 47)
    ensures forall k :: 0 <= k < |slashes| ==> slashes[k] == 47
  {
    var n := p.payload[1] + 256 * (p.payload[2] as int);
    spec := if n <= |p.payload| - 3 then p.payload[3..][..n] else p.payload[3..];
    base, slashes := s.current, [];
    while base != [] && base[|base| - 1] == 47
      invariant s.current == base + slashes && forall k :: 0 <= k < |slashes| ==> slashes[k] == 47
    {
      base, slashes := base[..|base| - 1], [47] + slashes;
    }
  }

  lemma SpecNamed(p: Packet, spec: Uri)
    requires Names(p, spec)
    ensures Slice(p.payload, 3, 3 + (p.payload[1] + 256 * (p.payload[2] as int))) == spec
  {
    assert spec == p.payload[3..][..|spec|];
  }

  lemma {:induction false} StripIsBase(base: Uri, slashes: Uri)
    requires base == [] || base[|base| - 1] != 47
    requires forall k :: 0 <= k < |slashes| ==> slashes[k] == 47
    ensures StripSlashes(base + slashes) == base
  {
    if slashes == [] {
      assert base + slashes == base;
    } else {
      var u, n := base + slashes, |slashes| - 1;
      assert u[..|u| - 1] == base + slashes[..n];
      StripIsBase(base, slashes[..n]);
    }
  }

  lemma PromoteFronts(s: Host, u: Uri)
    requires Distinct(s.history) && |s.history| <= 32
    ensures Promote(s, u).current == u && Fronted(s.history, u, Promote(s, u).history)
  {
    var h := s.history;
    if u in h {
      forall i | 0 <= i < |h| && h[i] == u
        ensures Promote(s, u).history == [u] + h[..i] + h[i + 1..]
      {
        RemoveAt(h, i);
        assert [u] + (h[..i] + h[i + 1..]) == [u] + h[..i] + h[i + 1..];
      }
    } else {
      RemovePrefix(h, h, u);
      assert RemoveFirst(h, u) == h;
      if |h| == 32 { assert ([u] + h)[..32] == [u] + h[..31]; }
    }
  }
}
