/** What the reassembler delivers: the fragments of a packet, in any order and with repeats,
    among fragments of other packets, give back exactly the packet. */
module ReassemblyTheorem {
  import opened Wrappers
  import opened FragmentModel
  import opened ReassemblerModel

  /** What arrives next: the fragment of our packet at some offset, or anything not about our id
      (a fragment of another group, or bytes that do not even decode). */
  datatype Event = Own(offset: nat) | Other(bytes: Bytes)

  /** Our packet: the chunks it was split into, and the id its fragments carry. */
  datatype Packet = Packet(chunks: seq<Bytes>, id: u16) {
    ghost predicate Valid() { 1 <= |chunks| <= MAX_FRAGMENTS }

    ghost predicate Fits(e: Event) {
      match e
      case Own(k) => k < |chunks|
      case Other(b) => DecodeHeader(b).Ok? ==> DecodeHeader(b).value.fragmentId != id
    }

    function Wire(e: Event): Bytes
      requires Valid() && Fits(e)
    {
      match e
      case Own(k) => Fragments(chunks, id)[k]
      case Other(b) => b
    }

    ghost predicate Complete(got: set<nat>) {
      forall k :: 0 <= k < |chunks| ==> k in got
    }
  }

  /** The offsets of our packet that have arrived. */
  ghost function Got(events: seq<Event>): set<nat> {
    if events == [] then {}
    else Got(events[..|events| - 1]) + match events[|events| - 1] { case Own(k) => {k} case Other(_) => {} }
  }

  ghost predicate AllFit(p: Packet, events: seq<Event>) {
    forall i :: 0 <= i < |events| ==> p.Fits(events[i])
  }

  /** The reassembler state after a run of arrivals. */
  ghost function After(s: State, p: Packet, events: seq<Event>): (r: State)
    requires Inv(s) && p.Valid() && AllFit(p, events)
    ensures Inv(r) && r.limit == s.limit
  {
    if events == [] then s
    else
      var prev := After(s, p, events[..|events| - 1]);
      var bytes := p.Wire(events[|events| - 1]);
      PushKeepsInv(prev, bytes);
      Receive(prev, bytes).0
  }

  /** The group of our packet holds exactly the chunks that arrived. */
  ghost predicate Tracks(s: State, p: Packet, got: set<nat>) {
    if got == {} then p.id !in s.inFlight
    else
      && p.id in s.inFlight
      && var g := s.inFlight[p.id];
         && g.total == |g.slots| == |p.chunks|
         && forall k :: 0 <= k < |p.chunks| ==> g.slots[k] == if k in got then Some(p.chunks[k]) else None
  }

  lemma {:induction false} DrainChunks(slots: Slots, chunks: seq<Bytes>)
    requires |slots| == |chunks| && forall k :: 0 <= k < |chunks| ==> slots[k] == Some(chunks[k])
    ensures AllFilled(slots) && Drain(slots) == Concat(chunks)
  {
    if slots != [] {
      DrainChunks(slots[1..], chunks[1..]);
    }
  }

  lemma WireDecodes(p: Packet, k: nat)
    requires p.Valid() && k < |p.chunks|
    ensures var b := p.Wire(Own(k));
            && DecodeHeader(b) == Ok(FragmentHeader(p.id, k, |p.chunks|))
            && b[FRAGMENT_HEADER_LEN..] == p.chunks[k]
  {
    HeaderRoundTrip(FragmentHeader(p.id, k, |p.chunks|), p.Wire(Own(k)));
  }

  /** The state just before the body of our fragment is stored. */
  lemma EnterOwn(s: State, p: Packet, got: set<nat>)
    requires Inv(s) && p.Valid() && Tracks(s, p, got)
    ensures var t := Enter(Evict(s, p.id), p.id, |p.chunks|);
            && p.id in t.inFlight
            && var g := t.inFlight[p.id];
               && g.total == |g.slots| == |p.chunks| && g.received == Filled(g.slots)
               && forall k :: 0 <= k < |p.chunks| ==> g.slots[k] == if k in got then Some(p.chunks[k]) else None
  {
    EvictKeepsInv(s, p.id);
    EnterKeepsInv(Evict(s, p.id), p.id, |p.chunks|);
  }

  /** Storing our chunk `k`: the packet comes out exactly when it was the last one missing. */
  lemma StoreOwn(t: State, p: Packet, got: set<nat>, k: nat)
    requires p.Valid() && k < |p.chunks| && !p.Complete(got) && p.id in t.inFlight
    requires var g := t.inFlight[p.id];
             && g.total == |g.slots| == |p.chunks| && g.received == Filled(g.slots)
             && forall k :: 0 <= k < |p.chunks| ==> g.slots[k] == if k in got then Some(p.chunks[k]) else None
    ensures var (s', r) := Store(t, FragmentHeader(p.id, k, |p.chunks|), p.chunks[k]);
            if p.Complete(got + {k}) then r == Ok(Some(Concat(p.chunks)))
            else r == Ok(None) && Tracks(s', p, got + {k})
  {
    hide Filled, Drain, Without;
    var g := t.inFlight[p.id];
    var slots' := g.slots[k := Some(p.chunks[k])];
    var missing: nat :| missing < |p.chunks| && missing !in got;
    assert g.slots[missing].None?;
    if g.slots[k].None? {
      FilledUpdate(g.slots, k, p.chunks[k]);
    } else {
      assert slots' == g.slots;
    }
    if p.Complete(got + {k}) {
      DrainChunks(slots', p.chunks);
    } else {
      var other: nat :| other < |p.chunks| && other !in got + {k};
      assert slots'[other].None?;
    }
  }

  lemma OwnStep(s: State, p: Packet, got: set<nat>, k: nat)
    requires Inv(s) && p.Valid() && k < |p.chunks| && !p.Complete(got) && Tracks(s, p, got)
    ensures var (s', r) := Receive(s, p.Wire(Own(k)));
            if p.Complete(got + {k}) then r == Ok(Some(Concat(p.chunks)))
            else r == Ok(None) && Tracks(s', p, got + {k})
  {
    WireDecodes(p, k);
    EnterOwn(s, p, got);
    StoreOwn(Enter(Evict(s, p.id), p.id, |p.chunks|), p, got, k);
  }

  // ----- Arrivals of other groups

  /** The id a message opens or extends a group for, if it gets that far. */
  ghost function GroupOf(bytes: Bytes): Option<u16> {
    var d := DecodeHeader(bytes);
    if d.Ok? && d.value.total <= MAX_FRAGMENTS then Some(d.value.fragmentId) else None
  }

  /** A push touches one group; another group is left alone or, exactly when the table is full, the
      pushed id is new and the group is the oldest, dropped. */
  lemma OtherGroupStep(s: State, bytes: Bytes, x: u16)
    requires Inv(s) && GroupOf(bytes) != Some(x)
    ensures var s' := Receive(s, bytes).0;
            && (x in s'.inFlight ==> x in s.inFlight && s'.inFlight[x] == s.inFlight[x])
            && (x in s.inFlight && x !in s'.inFlight <==>
                  && s.order != [] && s.order[0] == x && |s.order| == s.limit
                  && GroupOf(bytes).Some? && GroupOf(bytes).value !in s.inFlight)
  {
    hide Filled, Store, GroupOk;
    OrderLength(s.order, s.inFlight.Keys);
    var d := DecodeHeader(bytes);
    if d.Ok? && d.value.total <= MAX_FRAGMENTS {
      var h := d.value;
      EvictKeepsInv(s, h.fragmentId);
      EnterKeepsInv(Evict(s, h.fragmentId), h.fragmentId, h.total);
      StoreLeavesOthers(Enter(Evict(s, h.fragmentId), h.fragmentId, h.total), h, bytes[FRAGMENT_HEADER_LEN..], x);
    }
  }

  lemma StoreLeavesOthers(s: State, h: FragmentHeader, body: Bytes, x: u16)
    requires Entered(s, h.fragmentId) && h.Valid() && x != h.fragmentId
    ensures var s' := Store(s, h, body).0;
            (x in s'.inFlight <==> x in s.inFlight) && (x in s.inFlight ==> s'.inFlight[x] == s.inFlight[x])
  {
    hide Filled, Drain, Without, GroupOk;
  }

  lemma OtherStep(s: State, p: Packet, got: set<nat>, bytes: Bytes)
    requires Inv(s) && p.Valid() && p.Fits(Other(bytes)) && Tracks(s, p, got)
    ensures var s' := Receive(s, bytes).0;
            (got != {} ==> p.id in s'.inFlight) ==> Tracks(s', p, got)
  {
    OtherGroupStep(s, bytes, p.id);
  }

  // ----- Whole runs

  /** Our group was never dropped: after every arrival before completion it is still there. */
  ghost predicate NeverEvicted(s: State, p: Packet, events: seq<Event>)
    requires Inv(s) && p.Valid() && AllFit(p, events)
  {
    forall i :: 0 <= i <= |events| && Got(events[..i]) != {} ==> p.id in After(s, p, events[..i]).inFlight
  }

  lemma {:induction false} GotGrows(events: seq<Event>, i: nat)
    requires i <= |events|
    ensures Got(events[..i]) <= Got(events)
  {
    if i < |events| {
      GotGrows(events[..|events| - 1], i);
      assert events[..|events| - 1][..i] == events[..i];
    } else {
      assert events[..i] == events;
    }
  }

  lemma {:induction false} RunTracks(s: State, p: Packet, events: seq<Event>)
    requires Inv(s) && p.Valid() && AllFit(p, events) && p.id !in s.inFlight
    requires !p.Complete(Got(events)) && NeverEvicted(s, p, events)
    ensures Tracks(After(s, p, events), p, Got(events))
  {
    if events != [] {
      var n := |events| - 1;
      var init, e := events[..n], events[n];
      assert forall i :: 0 <= i <= n ==> init[..i] == events[..i];
      GotGrows(events, n);
      RunTracks(s, p, init);
      assert events[..|events|] == events;
      match e
      case Own(k) => OwnStep(After(s, p, init), p, Got(init), k);
      case Other(b) => OtherStep(After(s, p, init), p, Got(init), b);
    }
  }

  /** After any arrivals that leave the packet incomplete, with its group never dropped, the next
      fragment of ours yields nothing unless it is the last one missing, and then exactly the
      payload that was split. */
  lemma ReassemblyUnlessEvicted(s: State, payload: Bytes, size: nat, p: Packet, events: seq<Event>, k: nat)
    requires Inv(s) && size > 0 && p.Valid() && p.chunks == Chunks(payload, size) && p.id !in s.inFlight
    requires AllFit(p, events) && k < |p.chunks| && !p.Complete(Got(events)) && NeverEvicted(s, p, events)
    ensures Receive(After(s, p, events), p.Wire(Own(k))).1 ==
            if p.Complete(Got(events) + {k}) then Ok(Some(payload)) else Ok(None)
  {
    RunTracks(s, p, events);
    OwnStep(After(s, p, events), p, Got(events), k);
    ConcatChunks(payload, size);
  }

  // ----- When the group cannot be dropped

  /** The ids of the other groups that messages of the run belong to. */
  ghost function OtherIds(events: seq<Event>): set<u16> {
    if events == [] then {}
    else
      var e := events[|events| - 1];
      OtherIds(events[..|events| - 1]) +
      (if e.Other? && GroupOf(e.bytes).Some? then {GroupOf(e.bytes).value} else {})
  }

  /** The groups opened after `id`. */
  ghost function Newer(order: seq<u16>, id: u16): seq<u16> {
    if order == [] then [] else if order[0] == id then order[1..] else Newer(order[1..], id)
  }

  lemma {:induction false} NewerAppend(order: seq<u16>, id: u16, x: u16)
    ensures forall y :: y in Newer(order + [x], id) ==> y in Newer(order, id) || y == x
    ensures id !in order ==> Newer(order + [x], id) == []
  {
    if order != [] {
      assert (order + [x])[1..] == order[1..] + [x];
      NewerAppend(order[1..], id, x);
    }
  }

  lemma {:induction false} NewerWithout(order: seq<u16>, id: u16, x: u16)
    requires x != id
    ensures forall y :: y in Newer(Without(order, x), id) ==> y in Newer(order, id)
  {
    if order != [] && order[0] != x {
      var w := Without(order[1..], x);
      assert Without(order, x)[1..] == w;
      if order[0] != id {
        NewerWithout(order[1..], id, x);
      } else {
        WithoutMember(order[1..], x);
      }
    }
  }

  lemma {:induction false} WithoutMember(order: seq<u16>, x: u16)
    ensures forall y :: y in Without(order, x) ==> y in order
  {
    if order != [] && order[0] != x {
      WithoutMember(order[1..], x);
    }
  }

  /** Only the pushed id can become newer than our group. */
  lemma NewerStep(s: State, bytes: Bytes, id: u16)
    requires Inv(s) && GroupOf(bytes) != Some(id)
    requires id in s.inFlight && id in Receive(s, bytes).0.inFlight
    ensures forall y :: y in Newer(Receive(s, bytes).0.order, id) ==>
      y in Newer(s.order, id) || Some(y) == GroupOf(bytes)
  {
    hide Receive, Without, Inv;
    OrderAfter(s, bytes);
    if GroupOf(bytes).Some? {
      var x := GroupOf(bytes).value;
      var order := Evict(s, x).order;
      NewerEvict(s, bytes, id, x);
      NewerAppend(order, id, x);
      NewerWithout(order, id, x);
      NewerWithout(order + [x], id, x);
    }
  }

  /** What a push can do to the order. */
  lemma OrderAfter(s: State, bytes: Bytes)
    requires Inv(s)
    ensures var order' := Receive(s, bytes).0.order;
            match GroupOf(bytes)
            case None => order' == s.order
            case Some(x) =>
              var order := Evict(s, x).order;
              order' in {s.order, order, order + [x], Without(order, x), Without(order + [x], x)}
  {
    hide Filled, Drain, Without, GroupOk, DecodeHeader;
  }

  /** Dropping the oldest group leaves the newer ones of any other. */
  lemma NewerEvict(s: State, bytes: Bytes, id: u16, x: u16)
    requires Inv(s) && GroupOf(bytes) == Some(x) && x != id
    requires id in s.inFlight && id in Receive(s, bytes).0.inFlight
    ensures Newer(Evict(s, x).order, id) == Newer(s.order, id)
  {
    hide Filled, Drain, Without, GroupOk, DecodeHeader;
  }

  /** A group is dropped only once as many newer ids as the limit have turned up. */
  lemma TooFewToEvict(s: State, bytes: Bytes, id: u16, ids: set<u16>)
    requires Inv(s) && GroupOf(bytes) != Some(id) && id in s.inFlight
    requires forall y :: y in Newer(s.order, id) ==> y in ids
    requires GroupOf(bytes).Some? ==> GroupOf(bytes).value in ids
    requires |ids| < s.limit
    ensures id in Receive(s, bytes).0.inFlight
  {
    hide GroupOk, Receive;
    OtherGroupStep(s, bytes, id);
    if id !in Receive(s, bytes).0.inFlight {
      var x := GroupOf(bytes).value;
      NoRepeatsTail(s.order);
      var newer := s.order[1..];
      NoRepeatsCons(x, newer);
      var seen := set y | y in [x] + newer;
      OrderLength([x] + newer, seen);
      SubsetSize(seen, ids);
    }
  }

  lemma SubsetSize(a: set<u16>, b: set<u16>)
    requires a <= b
    ensures |a| <= |b|
  {
    assert b == a + (b - a);
  }

  lemma {:induction false} NewerAbsent(order: seq<u16>, id: u16)
    requires id !in order
    ensures Newer(order, id) == []
  {
    if order != [] {
      NewerAbsent(order[1..], id);
    }
  }

  /** Our own fragments never make another group newer than ours. */
  lemma NewerOwnStep(s: State, p: Packet, got: set<nat>, k: nat)
    requires Inv(s) && p.Valid() && k < |p.chunks| && Tracks(s, p, got)
    requires !p.Complete(got + {k})
    ensures forall y :: y in Newer(Receive(s, p.Wire(Own(k))).0.order, p.id) ==> y in Newer(s.order, p.id)
  {
    WireDecodes(p, k);
    OwnStep(s, p, got, k);
    EvictKeepsInv(s, p.id);
    NewerAppend(Evict(s, p.id).order, p.id, p.id);
  }

  lemma {:induction false} FewOthersTracks(s: State, p: Packet, events: seq<Event>)
    requires Inv(s) && p.Valid() && AllFit(p, events) && p.id !in s.inFlight
    requires !p.Complete(Got(events)) && |OtherIds(events)| < s.limit
    ensures Tracks(After(s, p, events), p, Got(events))
    ensures forall y :: y in Newer(After(s, p, events).order, p.id) ==> y in OtherIds(events)
  {
    if events == [] {
      NewerAbsent(s.order, p.id);
    } else {
      var n := |events| - 1;
      var init, e := events[..n], events[n];
      GotGrows(events, n);
      SubsetSize(OtherIds(init), OtherIds(events));
      FewOthersTracks(s, p, init);
      var prev := After(s, p, init);
      match e
      case Own(k) =>
        OwnStep(prev, p, Got(init), k);
        NewerOwnStep(prev, p, Got(init), k);
      case Other(b) =>
        OtherStep(prev, p, Got(init), b);
        if Got(init) == {} {
          OtherGroupStep(prev, b, p.id);
          NewerAbsent(After(s, p, events).order, p.id);
        } else {
          TooFewToEvict(prev, b, p.id, OtherIds(events));
          NewerStep(prev, b, p.id);
        }
    }
  }

  /** The end-to-end theorem. Whatever arrives before (our fragments in any order with any
      repeats, among messages of fewer other groups than the table holds), the next fragment of
      ours yields nothing unless it is the last one missing, and then exactly the payload. */
  lemma Reassembly(s: State, payload: Bytes, size: nat, p: Packet, events: seq<Event>, k: nat)
    requires Inv(s) && size > 0 && p.Valid() && p.chunks == Chunks(payload, size) && p.id !in s.inFlight
    requires AllFit(p, events) && k < |p.chunks| && !p.Complete(Got(events))
    requires |OtherIds(events)| < s.limit
    ensures Receive(After(s, p, events), p.Wire(Own(k))).1 ==
            if p.Complete(Got(events) + {k}) then Ok(Some(payload)) else Ok(None)
  {
    FewOthersTracks(s, p, events);
    OwnStep(After(s, p, events), p, Got(events), k);
    ConcatChunks(payload, size);
  }
}
