/** The reassembler: several packets reassembled at once, the oldest group dropped when full. */
module ReassemblerModel {
  import opened Wrappers
  import opened FragmentModel

  type Slots = seq<Option<Bytes>>

  datatype Group = Group(total: nat, slots: Slots, received: nat)

  /** `order` lists the ids of the groups in flight, oldest first. */
  datatype State = State(inFlight: map<u16, Group>, order: seq<u16>, limit: nat)

  type Outcome = Result<Option<Bytes>, FragmentError>

  function Filled(slots: Slots): (n: nat)
    ensures n <= |slots|
    ensures n == |slots| <==> AllFilled(slots)
  {
    if slots == [] then 0 else (if slots[0].Some? then 1 else 0) + Filled(slots[1..])
  }

  ghost predicate AllFilled(slots: Slots) {
    forall i :: 0 <= i < |slots| ==> slots[i].Some?
  }

  lemma {:induction false} FilledUpdate(slots: Slots, i: nat, body: Bytes)
    requires i < |slots| && slots[i].None?
    ensures Filled(slots[i := Some(body)]) == Filled(slots) + 1
  {
    var slots' := slots[i := Some(body)];
    if i == 0 {
      assert slots'[1..] == slots[1..];
    } else {
      FilledUpdate(slots[1..], i - 1, body);
      assert slots'[1..] == slots[1..][i - 1 := Some(body)];
    }
  }

  lemma {:induction false} FilledNone(n: nat)
    ensures Filled(seq(n, _ => None)) == 0
  {
    var slots: Slots := seq(n, _ => None);
    if n > 0 {
      FilledNone(n - 1);
      assert slots[1..] == seq(n - 1, _ => None);
    }
  }

  function Drain(slots: Slots): Bytes
    requires AllFilled(slots)
  {
    if slots == [] then [] else slots[0].value + Drain(slots[1..])
  }

  // ----- The invariant of every reachable state

  ghost predicate NoRepeats(order: seq<u16>) {
    forall i, j :: 0 <= i < j < |order| ==> order[i] != order[j]
  }

  ghost predicate GroupOk(g: Group) {
    1 <= g.received < g.total <= MAX_FRAGMENTS && |g.slots| == g.total && g.received == Filled(g.slots)
  }

  ghost predicate Inv(s: State) {
    && 1 <= s.limit
    && NoRepeats(s.order)
    && (forall id :: id in s.order <==> id in s.inFlight)
    && |s.order| <= s.limit
    && (forall id :: id in s.inFlight ==> GroupOk(s.inFlight[id]))
  }

  lemma {:induction false} OrderLength(order: seq<u16>, ids: set<u16>)
    requires NoRepeats(order) && forall id :: id in order <==> id in ids
    ensures |order| == |ids|
  {
    if order == [] {
      assert ids == {};
    } else {
      assert forall id :: id in order[1..] <==> id in ids - {order[0]} by {
        assert order == [order[0]] + order[1..];
      }
      OrderLength(order[1..], ids - {order[0]});
    }
  }

  // ----- One push, as a function of the state

  /** Drop the oldest group when a fragment of a new group arrives at capacity. */
  function Evict(s: State, id: u16): State {
    if id !in s.inFlight && |s.inFlight| >= s.limit && s.order != []
    then s.(inFlight := s.inFlight - {s.order[0]}, order := s.order[1..])
    else s
  }

  function Enter(s: State, id: u16, total: nat): (r: State)
    ensures id in r.inFlight
  {
    if id in s.inFlight then s
    else s.(inFlight := s.inFlight[id := Group(total, seq(total, _ => None), 0)], order := s.order + [id])
  }

  function Without(order: seq<u16>, id: u16): seq<u16> {
    if order == [] then [] else if order[0] == id then order[1..] else [order[0]] + Without(order[1..], id)
  }

  /** Store one body in its group, and complete the group when it was the last. */
  function Store(s: State, h: FragmentHeader, body: Bytes): (State, Outcome)
    requires h.Valid() && h.fragmentId in s.inFlight
    requires var g := s.inFlight[h.fragmentId]; |g.slots| == g.total && g.received == Filled(g.slots)
  {
    var g := s.inFlight[h.fragmentId];
    if g.total != h.total then (s, Err(MismatchedTotal))
    else if g.slots[h.offset].Some? && g.slots[h.offset].value != body then (s, Err(Inconsistent))
    else
      var g' := if g.slots[h.offset].Some? then g
                else Group(g.total, g.slots[h.offset := Some(body)], g.received + 1);
      if g'.received == h.total then
        FilledAfterStore(g, h.offset, body);
        var s' := s.(inFlight := s.inFlight - {h.fragmentId}, order := Without(s.order, h.fragmentId));
        (s', Ok(Some(Drain(g'.slots))))
      else
        (s.(inFlight := s.inFlight[h.fragmentId := g']), Ok(None))
  }

  lemma FilledAfterStore(g: Group, i: nat, body: Bytes)
    requires i < |g.slots| && g.received == Filled(g.slots)
    ensures g.slots[i].None? ==> g.received + 1 == Filled(g.slots[i := Some(body)])
  {
    if g.slots[i].None? {
      FilledUpdate(g.slots, i, body);
    }
  }

  function Receive(s: State, bytes: Bytes): (State, Outcome)
    requires Inv(s)
  {
    match DecodeHeader(bytes)
    case Err(e) => (s, Err(e))
    case Ok(h) =>
      if h.total > MAX_FRAGMENTS then (s, Err(TooManyFragments))
      else
        FilledNone(h.total);
        Store(Enter(Evict(s, h.fragmentId), h.fragmentId, h.total), h, bytes[FRAGMENT_HEADER_LEN..])
  }

  // ----- Every push keeps the invariant

  lemma NoRepeatsTail(order: seq<u16>)
    requires NoRepeats(order) && order != []
    ensures NoRepeats(order[1..]) && order[0] !in order[1..]
    ensures forall x :: x in order <==> x == order[0] || x in order[1..]
  {
    assert order == [order[0]] + order[1..];
  }

  lemma NoRepeatsCons(x: u16, rest: seq<u16>)
    requires NoRepeats(rest) && x !in rest
    ensures NoRepeats([x] + rest)
  {
  }

  lemma {:induction false} WithoutFacts(order: seq<u16>, id: u16)
    requires NoRepeats(order)
    ensures NoRepeats(Without(order, id)) && |Without(order, id)| <= |order|
    ensures forall x :: x in Without(order, id) <==> x in order && x != id
  {
    if order != [] {
      NoRepeatsTail(order);
      if order[0] != id {
        WithoutFacts(order[1..], id);
        NoRepeatsCons(order[0], Without(order[1..], id));
      }
    }
  }

  lemma EvictKeepsInv(s: State, id: u16)
    requires Inv(s)
    ensures Inv(Evict(s, id))
    ensures id !in s.inFlight ==> id !in Evict(s, id).inFlight && |Evict(s, id).order| < s.limit
  {
    OrderLength(s.order, s.inFlight.Keys);
    if Evict(s, id) != s {
      WithoutFacts(s.order, s.order[0]);
    }
  }

  /** The invariant between `Enter` and `Store`: the group of `id` may still be empty. */
  ghost predicate Entered(s: State, id: u16) {
    && 1 <= s.limit && NoRepeats(s.order) && |s.order| <= s.limit
    && (forall x :: x in s.order <==> x in s.inFlight)
    && (forall x :: x in s.inFlight && x != id ==> GroupOk(s.inFlight[x]))
    && id in s.inFlight
    && var g := s.inFlight[id];
       g.received < g.total <= MAX_FRAGMENTS && |g.slots| == g.total && g.received == Filled(g.slots)
  }

  lemma EnterKeepsInv(s: State, id: u16, total: nat)
    requires Inv(s) && 1 <= total <= MAX_FRAGMENTS && (id !in s.inFlight ==> |s.order| < s.limit)
    ensures Entered(Enter(s, id, total), id)
    ensures var g := Enter(s, id, total).inFlight[id];
            g.received == 0 ==> g.total == total && forall i :: 0 <= i < |g.slots| ==> g.slots[i].None?
  {
    FilledNone(total);
  }

  /** The only way `Store` leaves the group as it was is on a repeat or an error. */
  lemma StoreKeepsInv(s: State, h: FragmentHeader, body: Bytes)
    requires Entered(s, h.fragmentId) && h.Valid()
    requires var g := s.inFlight[h.fragmentId]; g.received == 0 ==> g.total == h.total && g.slots[h.offset].None?
    ensures Inv(Store(s, h, body).0)
  {
    hide Filled, Drain, Without;
    var g := s.inFlight[h.fragmentId];
    if g.total == h.total && g.slots[h.offset].None? {
      FilledUpdate(g.slots, h.offset, body);
      if g.received + 1 == h.total {
        WithoutFacts(s.order, h.fragmentId);
      }
    }
  }

  lemma PushKeepsInv(s: State, bytes: Bytes)
    requires Inv(s)
    ensures Inv(Receive(s, bytes).0) && Receive(s, bytes).0.limit == s.limit
  {
    hide Filled, Drain, Without;
    var d := DecodeHeader(bytes);
    if d.Ok? && d.value.total <= MAX_FRAGMENTS {
      var h := d.value;
      EvictKeepsInv(s, h.fragmentId);
      EnterKeepsInv(Evict(s, h.fragmentId), h.fragmentId, h.total);
      StoreKeepsInv(Enter(Evict(s, h.fragmentId), h.fragmentId, h.total), h, bytes[FRAGMENT_HEADER_LEN..]);
    }
  }

  /** A rejected fragment changes nothing: in particular a repeat with a different body does not
      discard its group, although the comment on the error says it does. */
  lemma ErrorsKeepState(s: State, bytes: Bytes)
    requires Inv(s) && Receive(s, bytes).1.Err?
    ensures Receive(s, bytes).0 == s
  {
    var d := DecodeHeader(bytes);
    if d.Ok? && d.value.total <= MAX_FRAGMENTS && d.value.fragmentId !in s.inFlight {
      EvictKeepsInv(s, d.value.fragmentId);
      EnterKeepsInv(Evict(s, d.value.fragmentId), d.value.fragmentId, d.value.total);
    }
  }

  /** From a new reassembler: the first of two fragments, then the same fragment with another body.
      The second is rejected as inconsistent and the group is still there with the first body. */
  lemma ConflictKeepsGroup()
    ensures var s := State(map[], [], 1);
            var (first, other) := ([0, 1, 0, 2, 7], [0, 1, 0, 2, 8]);
            var s1 := Receive(s, first).0;
            && Inv(s) && Inv(s1) && Receive(s1, other) == (s1, Err(Inconsistent))
            && 1 in s1.inFlight && s1.inFlight[1].slots[0] == Some([7])
  {
    hide Receive, Inv;
    var (s, first, other) := (State(map[], [], 1), [0, 1, 0, 2, 7], [0, 1, 0, 2, 8]);
    StartInv(1);
    PushKeepsInv(s, first);
    FirstStored();
    var s1 := Receive(s, first).0;
    assert DecodeHeader(other) == Ok(FragmentHeader(1, 0, 2)) && other[FRAGMENT_HEADER_LEN..] == [8];
    RejectedIff(s1, other);
    ErrorsKeepState(s1, other);
  }

  lemma StartInv(limit: nat)
    requires limit >= 1
    ensures Inv(State(map[], [], limit))
  {
  }

  lemma FirstStored()
    ensures var (s, first) := (State(map[], [], 1), [0, 1, 0, 2, 7]);
            Inv(s) && Receive(s, first).0 == State(map[1 := Group(2, [Some([7]), None], 1)], [1], 1)
  {
    hide Inv, Filled;
    StartInv(1);
    var (s, first) := (State(map[], [], 1), [0, 1, 0, 2, 7]);
    assert DecodeHeader(first) == Ok(FragmentHeader(1, 0, 2)) && first[FRAGMENT_HEADER_LEN..] == [7];
    FilledNone(2);
    var slots: Slots := seq(2, _ => None);
    assert Enter(Evict(s, 1), 1, 2) == State(map[1 := Group(2, slots, 0)], [1], 1);
    assert slots[0 := Some([7])] == [Some([7]), None];
  }

  /** A fragment is rejected for its header alone, or because its group is in flight with another
      total or with another body in that slot; a fragment of a new group never is. */
  lemma RejectedIff(s: State, bytes: Bytes)
    requires Inv(s)
    ensures var (d, r) := (DecodeHeader(bytes), Receive(s, bytes).1);
            var known := d.Ok? && d.value.total <= MAX_FRAGMENTS && d.value.fragmentId in s.inFlight;
            && (d.Err? ==> r == Err(d.error))
            && (d.Ok? && d.value.total > MAX_FRAGMENTS ==> r == Err(TooManyFragments))
            && (d.Ok? && d.value.total <= MAX_FRAGMENTS && d.value.fragmentId !in s.inFlight ==> r.Ok?)
            && (known ==>
                  var (h, g) := (d.value, s.inFlight[d.value.fragmentId]);
                  var body := bytes[FRAGMENT_HEADER_LEN..];
                  && (r == Err(MismatchedTotal) <==> g.total != h.total)
                  && (r == Err(Inconsistent) <==> g.total == h.total && g.slots[h.offset] !in {None, Some(body)})
                  && (r.Ok? <==> g.total == h.total && g.slots[h.offset] in {None, Some(body)}))
  {
    hide Filled, Drain, Without;
    var d := DecodeHeader(bytes);
    if d.Ok? && d.value.total <= MAX_FRAGMENTS && d.value.fragmentId !in s.inFlight {
      EvictKeepsInv(s, d.value.fragmentId);
      EnterKeepsInv(Evict(s, d.value.fragmentId), d.value.fragmentId, d.value.total);
    }
  }

  // ----- The object

  class Reassembler {
    var inFlight: map<u16, Group>
    var order: seq<u16>
    const inFlightLimit: nat

    function Model(): State
      reads this
    {
      State(inFlight, order, inFlightLimit)
    }

    ghost predicate Valid()
      reads this
    {
      Inv(Model())
    }

    constructor (limit: nat)
      ensures Valid() && Model() == State(map[], [], if limit == 0 then 1 else limit)
    {
      inFlight, order := map[], [];
      inFlightLimit := if limit == 0 then 1 else limit;
    }

    /** Feed one fragment. */
    method Push(bytes: Bytes) returns (r: Outcome)
      requires Valid()
      modifies this
      ensures Valid() && (Model(), r) == Receive(old(Model()), bytes)
    {
      PushKeepsInv(Model(), bytes);
      var hdr := DecodeHeader(bytes);
      if hdr.Err? {
        return Err(hdr.error);
      }
      var h := hdr.value;
      var body := bytes[FRAGMENT_HEADER_LEN..];
      if h.total > MAX_FRAGMENTS {
        return Err(TooManyFragments);
      }
      EvictKeepsInv(Model(), h.fragmentId);
      EnterKeepsInv(Evict(Model(), h.fragmentId), h.fragmentId, h.total);
      if h.fragmentId !in inFlight && |inFlight| >= inFlightLimit {
        if order != [] {
          inFlight := inFlight - {order[0]};
          order := order[1..];
        }
      }
      if h.fragmentId !in inFlight {
        order := order + [h.fragmentId];
        inFlight := inFlight[h.fragmentId := Group(h.total, seq(h.total, _ => None), 0)];
      }
      r := StoreBody(h, body);
    }

    method StoreBody(h: FragmentHeader, body: Bytes) returns (r: Outcome)
      requires h.fragmentId in inFlight && h.Valid()
      requires var g := inFlight[h.fragmentId]; |g.slots| == g.total && g.received == Filled(g.slots)
      modifies this
      ensures (Model(), r) == Store(old(Model()), h, body)
    {
      var g := inFlight[h.fragmentId];
      if g.total != h.total {
        return Err(MismatchedTotal);
      }
      ghost var was := inFlight;
      match g.slots[h.offset] {
        case Some(existing) =>
          if existing != body {
            return Err(Inconsistent);
          }
        case None =>
          FilledUpdate(g.slots, h.offset, body);
          g := Group(g.total, g.slots[h.offset := Some(body)], g.received + 1);
      }
      inFlight := inFlight[h.fragmentId := g];
      if g.received == h.total {
        assert inFlight - {h.fragmentId} == was - {h.fragmentId};
        inFlight := inFlight - {h.fragmentId};
        order := RemoveFromOrder(order, h.fragmentId);
        var out := DrainSlots(g.slots);
        return Ok(Some(out));
      }
      return Ok(None);
    }

    method Clear()
      modifies this
      ensures Model() == old(Model()).(inFlight := map[], order := [])
      ensures inFlightLimit >= 1 ==> Valid()
    {
      inFlight, order := map[], [];
    }
  }

  /** Find the id in the deque and remove it there. */
  method RemoveFromOrder(order: seq<u16>, id: u16) returns (r: seq<u16>)
    ensures r == Without(order, id)
  {
    hide Without;
    var pos := 0;
    ghost var spec := Without(order, id);
    WithoutAt(order, id, 0);
    while pos < |order| && order[pos] != id
      invariant 0 <= pos <= |order|
      invariant spec == order[..pos] + Without(order[pos..], id)
    {
      WithoutAt(order, id, pos);
      pos := pos + 1;
    }
    WithoutAt(order, id, pos);
    if pos < |order| {
      return order[..pos] + order[pos + 1..];
    }
    return order;
  }

  /** One turn of the search. */
  lemma WithoutAt(order: seq<u16>, id: u16, pos: nat)
    requires pos <= |order|
    ensures order[..0] + Without(order[0..], id) == Without(order, id)
    ensures pos == |order| ==> order[..pos] + Without(order[pos..], id) == order
    ensures pos < |order| && order[pos] == id ==> Without(order[pos..], id) == order[pos + 1..]
    ensures pos < |order| && order[pos] != id ==>
      order[..pos] + Without(order[pos..], id) == order[..pos + 1] + Without(order[pos + 1..], id)
  {
    assert order[0..] == order;
    if pos < |order| {
      assert order[pos..][1..] == order[pos + 1..] && order[..pos] + [order[pos]] == order[..pos + 1];
    }
  }

  /** Concatenate the slots in order. */
  method DrainSlots(slots: Slots) returns (out: Bytes)
    requires AllFilled(slots)
    ensures out == Drain(slots)
  {
    out := [];
    for i := 0 to |slots|
      invariant out + Drain(slots[i..]) == Drain(slots)
    {
      out := out + slots[i].value;
    }
  }
}
