/** The hierarchical timer wheel: four levels of 32 slots, where a slot of level `l` covers
    `32^l` milliseconds. The wheel is proved to behave as a plain multiset of timers.
    Shifts and masks by powers of two are written as `/` and `%`. */
module TimerWheelModel {
  import opened Arithmetic

  const NUM_LEVELS := 4
  const SLOTS := 32
  const CELLS := 128

  /** A timer, both while it waits in a slot and once it has fired. */
  datatype Timer = Timer(id: u64, expiresAt: u64)

  /** Milliseconds covered by one slot of level `l`, that is `1 << (5 * l)`. */
  function SlotSpan(l: nat): (r: nat)
    requires l < NUM_LEVELS
    ensures r > 0
  {
    if l == 0 then 1 else if l == 1 then 32 else if l == 2 then 1024 else 32768
  }

  /** The slot index `(ms >> (5 * l)) & 31`. */
  function SlotIndex(l: nat, ms: u64): (r: nat)
    requires l < NUM_LEVELS
    ensures r < SLOTS
  {
    (ms / SlotSpan(l)) % SLOTS
  }

  /** The cell of `levels[l][s]` when the four levels are laid out one after the other. */
  function Cell(l: nat, ms: u64): (r: nat)
    requires l < NUM_LEVELS
    ensures r < CELLS && r / SLOTS == l && r % SLOTS == SlotIndex(l, ms)
  {
    l * SLOTS + SlotIndex(l, ms)
  }

  /** `ms` rounded down to the start of its slot at level `l`. */
  function SlotStart(l: nat, ms: u64): (r: nat)
    requires l < NUM_LEVELS
    ensures r <= ms < r + SlotSpan(l)
  {
    (ms / SlotSpan(l)) * SlotSpan(l)
  }

  function LevelForDelta(delta: nat): (l: nat)
    ensures l < NUM_LEVELS
    ensures l > 0 ==> SlotSpan(l) <= delta
    ensures l < 3 ==> delta < 32 * SlotSpan(l)
  {
    if delta < 32 then 0 else if delta < 1024 then 1 else if delta < 32768 then 2 else 3
  }

  // ----- Where timers wait

  /** Where a timer may wait: in the slot its expiry selects, whose start the clock has not
      passed and, below the top level, which comes round within one revolution. */
  ghost predicate Placed(now: nat, l: nat, s: nat, ms: u64)
    requires l < NUM_LEVELS
  {
    && s == SlotIndex(l, ms)
    && now <= SlotStart(l, ms)
    && (l < 3 ==> SlotStart(l, ms) < now + 32 * SlotSpan(l))
  }

  type Cells = c: seq<seq<Timer>> | |c| == CELLS witness seq(CELLS, _ => [])

  ghost predicate AllPlaced(c: Cells, now: nat) {
    forall k, t :: 0 <= k < CELLS && t in c[k] ==> Placed(now, k / SLOTS, k % SLOTS, t.expiresAt)
  }

  /** No timer of level `l` waits in a slot that starts now. */
  ghost predicate Ahead(c: Cells, now: nat, l: nat)
    requires l < NUM_LEVELS
  {
    forall k, t :: 0 <= k < CELLS && k / SLOTS == l && t in c[k] ==> now < SlotStart(l, t.expiresAt)
  }

  /** An inserted timer is placed; at level 1 or above its slot starts strictly later. */
  lemma InsertPlaced(c: Cells, now: u64, t: Timer)
    requires AllPlaced(c, now) && now <= t.expiresAt
    ensures var l := LevelForDelta(t.expiresAt - now);
            var k := Cell(l, t.expiresAt);
            var c' := c[k := c[k] + [t]];
            && AllPlaced(c', now)
            && forall m :: 1 <= m < NUM_LEVELS && Ahead(c, now, m) ==> Ahead(c', now, m)
  {
    var l := LevelForDelta(t.expiresAt - now);
    var k := Cell(l, t.expiresAt);
    var c' := c[k := c[k] + [t]];
    assert Placed(now, l, k % SLOTS, t.expiresAt);
    assert forall j, x :: 0 <= j < CELLS && x in c'[j] ==> x in c[j] || (j == k && x == t);
  }

  /** Emptying the slot the clock points at leaves nothing of that level due now. */
  lemma TakePlaced(c: Cells, now: u64, l: nat)
    requires AllPlaced(c, now) && l < NUM_LEVELS && now % SlotSpan(l) == 0
    ensures var c' := c[Cell(l, now) := []];
            && AllPlaced(c', now) && Ahead(c', now, l)
            && forall m :: 0 <= m < NUM_LEVELS && Ahead(c, now, m) ==> Ahead(c', now, m)
  {
    var c' := c[Cell(l, now) := []];
    forall k, t: Timer | 0 <= k < CELLS && k / SLOTS == l && t in c'[k] ensures now < SlotStart(l, t.expiresAt) {
      assert Placed(now, l, k % SLOTS, t.expiresAt);
      assert k % SLOTS != SlotIndex(l, now);
    }
  }

  lemma AheadOffBoundary(c: Cells, now: u64, l: nat)
    requires AllPlaced(c, now) && l < NUM_LEVELS && now % SlotSpan(l) != 0
    ensures Ahead(c, now, l)
  {
    hide Placed, SlotStart, SlotSpan;
    forall k, t: Timer | 0 <= k < CELLS && k / SLOTS == l && t in c[k] ensures now < SlotStart(l, t.expiresAt) {
      StartsLater(now, l, k % SLOTS, t.expiresAt);
    }
  }

  /** A slot never starts off a boundary of its level. */
  lemma StartsLater(now: u64, l: nat, s: nat, ms: u64)
    requires l < NUM_LEVELS && Placed(now, l, s, ms) && now % SlotSpan(l) != 0
    ensures now < SlotStart(l, ms)
  {
    hide SlotIndex;
    MultipleHasNoRemainder(ms / SlotSpan(l), SlotSpan(l));
  }

  lemma MultipleHasNoRemainder(q: nat, span: nat)
    requires span > 0
    ensures (q * span) % span == 0
  {
    RemainderUnique(q * span, span, q, 0);
  }

  /** When no slot starts now, the clock may advance. */
  lemma AdvancePlaced(c: Cells, now: u64)
    requires AllPlaced(c, now)
    requires Ahead(c, now, 0) && Ahead(c, now, 1) && Ahead(c, now, 2) && Ahead(c, now, 3)
    ensures AllPlaced(c, now + 1)
  {
    forall k, t: Timer | 0 <= k < CELLS && t in c[k] ensures Placed(now + 1, k / SLOTS, k % SLOTS, t.expiresAt) {
      assert Placed(now, k / SLOTS, k % SLOTS, t.expiresAt);
      assert Ahead(c, now, k / SLOTS);
    }
  }

  /** The timers in the level-0 slot the clock points at expire exactly now. */
  lemma CurrentSlotIsDue(c: Cells, now: u64, t: Timer)
    requires AllPlaced(c, now) && t in c[Cell(0, now)]
    ensures t.expiresAt == now
  {
    assert Placed(now, 0, SlotIndex(0, now), t.expiresAt);
  }

  // ----- What the wheel holds

  ghost function Contents(c: seq<seq<Timer>>): multiset<Timer> {
    if c == [] then multiset{} else multiset(c[0]) + Contents(c[1..])
  }

  lemma {:induction false} ContentsUpdate(c: seq<seq<Timer>>, k: nat, slot: seq<Timer>)
    requires k < |c|
    ensures Contents(c[k := slot]) + multiset(c[k]) == Contents(c) + multiset(slot)
  {
    var c' := c[k := slot];
    if k == 0 {
      assert c'[1..] == c[1..];
    } else {
      ContentsUpdate(c[1..], k - 1, slot);
      assert c'[1..] == c[1..][k - 1 := slot];
    }
    if k > 0 {
      var rest, rest' := Contents(c[1..]), Contents(c'[1..]);
      assert (multiset(c[0]) + rest') + multiset(c[k]) == multiset(c[0]) + (rest' + multiset(c[k]));
      assert (multiset(c[0]) + rest) + multiset(slot) == multiset(c[0]) + (rest + multiset(slot));
    }
  }

  lemma Cancel(a: multiset<Timer>, b: multiset<Timer>, x: multiset<Timer>)
    requires a + x == b + x
    ensures a == b
  {
    forall t: Timer ensures a[t] == b[t] {
      assert (a + x)[t] == (b + x)[t];
    }
  }

  lemma {:induction false} ContentsMember(c: seq<seq<Timer>>, t: Timer) returns (k: nat)
    requires t in Contents(c)
    ensures k < |c| && t in c[k]
  {
    if t in c[0] {
      k := 0;
    } else {
      k := ContentsMember(c[1..], t);
      k := k + 1;
    }
  }

  lemma NotOverdue(c: Cells, now: nat)
    requires AllPlaced(c, now)
    ensures forall t :: t in Contents(c) ==> now <= t.expiresAt
  {
    forall t | t in Contents(c) ensures now <= t.expiresAt {
      var k := ContentsMember(c, t);
      assert Placed(now, k / SLOTS, k % SLOTS, t.expiresAt);
    }
  }

  lemma {:induction false} ContentsEmpty(c: seq<seq<Timer>>)
    requires forall k :: 0 <= k < |c| ==> c[k] == []
    ensures Contents(c) == multiset{}
  {
    if c != [] {
      ContentsEmpty(c[1..]);
    }
  }

  ghost predicate SortedByExpiry(s: seq<Timer>) {
    forall i, j :: 0 <= i < j < |s| ==> s[i].expiresAt <= s[j].expiresAt
  }

  lemma SortedAppend(s: seq<Timer>, slot: seq<Timer>, now: u64)
    requires SortedByExpiry(s)
    requires forall t :: t in s ==> t.expiresAt < now
    requires forall t :: t in slot ==> t.expiresAt == now
    ensures SortedByExpiry(s + slot)
    ensures forall t :: t in s + slot ==> t.expiresAt <= now
  {
  }

  /** The wheel clock after polling at `now`: just past `now`, unless that is in the past. */
  function NextClock(current: u64, now: u64): u64 {
    if now < current then current else if now < MAX_U64 then now + 1 else MAX_U64
  }

  class TimerWheel {
    const levels: array<seq<Timer>>
    var currentMs: u64
    var nextId: u64

    ghost predicate Valid()
      reads this, levels
    {
      levels.Length == CELLS && AllPlaced(levels[..], currentMs)
    }

    /** The timers that were scheduled and have not fired. */
    ghost function Pending(): multiset<Timer>
      reads levels
    {
      Contents(levels[..])
    }

    constructor (startMs: u64)
      ensures Valid() && fresh(levels)
      ensures Pending() == multiset{} && currentMs == startMs && nextId == 0
    {
      levels := new seq<Timer>[CELLS](_ => []);
      currentMs, nextId := startMs, 0;
      new;
      ContentsEmpty(levels[..]);
    }

    method Schedule(afterMs: u64) returns (id: u64)
      requires Valid()
      modifies this, levels
      ensures Valid() && currentMs == old(currentMs)
      ensures id == old(nextId) && nextId == (old(nextId) + 1) % WORD
      ensures Pending() == old(Pending()) + multiset{Timer(id, Min(currentMs + afterMs, MAX_U64))}
    {
      id := nextId;
      nextId := if nextId == MAX_U64 then 0 else nextId + 1;
      var expiresAt := if afterMs <= MAX_U64 - currentMs then currentMs + afterMs else MAX_U64;
      InsertEntry(Timer(id, expiresAt));
    }

    /** Append `t` to the slot its remaining delay selects. */
    method InsertEntry(t: Timer)
      requires Valid() && currentMs <= t.expiresAt
      modifies levels
      ensures Valid()
      ensures Pending() == old(Pending()) + multiset{t}
      ensures forall m :: 1 <= m < NUM_LEVELS ==>
        (Ahead(old(levels[..]), currentMs, m) ==> Ahead(levels[..], currentMs, m))
    {
      var l := LevelForDelta(t.expiresAt - currentMs);
      var k := Cell(l, t.expiresAt);
      ghost var c := levels[..];
      levels[k] := levels[k] + [t];
      assert levels[..] == c[k := c[k] + [t]];
      InsertPlaced(c, currentMs, t);
      ContentsUpdate(c, k, c[k] + [t]);
      assert multiset(c[k] + [t]) == multiset(c[k]) + multiset{t};
      Cancel(Pending(), Contents(c) + multiset{t}, multiset(c[k]));
    }

    /** Empty the slot that the clock points at in level `l`. */
    method TakeSlot(l: nat) returns (entries: seq<Timer>)
      requires Valid() && l < NUM_LEVELS && currentMs % SlotSpan(l) == 0
      modifies levels
      ensures Valid() && Ahead(levels[..], currentMs, l)
      ensures entries == old(levels[..])[Cell(l, currentMs)]
      ensures Pending() + multiset(entries) == old(Pending())
      ensures forall m :: 0 <= m < NUM_LEVELS ==>
        (Ahead(old(levels[..]), currentMs, m) ==> Ahead(levels[..], currentMs, m))
    {
      ghost var c := levels[..];
      var k := Cell(l, currentMs);
      entries := levels[k];
      levels[k] := [];
      assert levels[..] == c[k := []];
      TakePlaced(c, currentMs, l);
      ContentsUpdate(c, k, []);
    }

    method CascadeLevel(l: nat)
      requires Valid() && 1 <= l < NUM_LEVELS && currentMs % SlotSpan(l) == 0
      modifies levels
      ensures Valid() && Ahead(levels[..], currentMs, l)
      ensures Pending() == old(Pending())
      ensures forall m :: 1 <= m < NUM_LEVELS ==>
        (Ahead(old(levels[..]), currentMs, m) ==> Ahead(levels[..], currentMs, m))
    {
      var entries := TakeSlot(l);
      forall t | t in entries ensures currentMs <= t.expiresAt {
        assert Placed(currentMs, l, SlotIndex(l, currentMs), t.expiresAt);
      }
      for i := 0 to |entries|
        invariant Valid() && Ahead(levels[..], currentMs, l)
        invariant Pending() + multiset(entries[i..]) == old(Pending())
        invariant forall m :: 1 <= m < NUM_LEVELS ==>
        (Ahead(old(levels[..]), currentMs, m) ==> Ahead(levels[..], currentMs, m))
      {
        assert entries[i..] == [entries[i]] + entries[i + 1..];
        InsertEntry(entries[i]);
      }
    }

    /** Cascade from high levels to low, so that a timer moved down is still reached below. */
    method CascadeIfNeeded()
      requires Valid()
      modifies levels
      ensures Valid()
      ensures Pending() == old(Pending())
      ensures forall m :: 1 <= m < NUM_LEVELS ==> Ahead(levels[..], currentMs, m)
    {
      hide Ahead, AllPlaced, Contents, SlotSpan;
      if currentMs % SlotSpan(3) == 0 {
        CascadeLevel(3);
      } else {
        AheadOffBoundary(levels[..], currentMs, 3);
      }
      if currentMs % SlotSpan(2) == 0 {
        CascadeLevel(2);
      } else {
        AheadOffBoundary(levels[..], currentMs, 2);
      }
      if currentMs % SlotSpan(1) == 0 {
        CascadeLevel(1);
      } else {
        AheadOffBoundary(levels[..], currentMs, 1);
      }
    }

    /** One turn of the poll loop before the clock moves: everything due at `currentMs`. */
    method FireCurrent() returns (slot: seq<Timer>)
      requires Valid()
      modifies levels
      ensures Valid() && AllPlaced(levels[..], currentMs + 1)
      ensures multiset(slot) + Pending() == old(Pending())
      ensures forall t :: t in slot ==> t.expiresAt == currentMs
      ensures forall t :: t in Pending() ==> t.expiresAt > currentMs
    {
      CascadeIfNeeded();
      ghost var c := levels[..];
      slot := TakeSlot(0);
      AdvancePlaced(levels[..], currentMs);
      forall t | t in slot ensures t.expiresAt == currentMs {
        CurrentSlotIsDue(c, currentMs, t);
      }
      NotOverdue(levels[..], currentMs + 1);
    }

    /** The loop of `Poll`: fire slot by slot until the clock has passed `now`. */
    method Advance(now: u64) returns (fired: seq<Timer>)
      requires Valid()
      modifies `currentMs, levels
      ensures Valid() && currentMs == NextClock(old(currentMs), now)
      ensures SortedByExpiry(fired) && multiset(fired) + Pending() == old(Pending())
      ensures forall t :: t in fired ==> old(currentMs) <= t.expiresAt <= now
      ensures forall t :: t in Pending() ==> now < t.expiresAt
    {
      fired := [];
      while currentMs <= now
        invariant Valid()
        invariant currentMs == old(currentMs) || old(currentMs) < currentMs <= now + 1
        invariant SortedByExpiry(fired) && multiset(fired) + Pending() == old(Pending())
        invariant forall t :: t in fired ==> old(currentMs) <= t.expiresAt < currentMs
        decreases now + 1 - currentMs
      {
        var slot := FireCurrent();
        SortedAppend(fired, slot, currentMs);
        fired := fired + slot;
        if currentMs == MAX_U64 {
          return;
        }
        currentMs := currentMs + 1;
      }
      NotOverdue(levels[..], currentMs);
    }

    /** The timers that are due by `now` fire, and `out` grows by them in expiry order. */
    method Poll(now: u64, out: seq<Timer>) returns (out': seq<Timer>)
      requires Valid()
      modifies `currentMs, levels
      ensures Valid() && currentMs == NextClock(old(currentMs), now)
      ensures old(currentMs) <= now < MAX_U64 ==> currentMs == now + 1
      ensures now < old(currentMs) ==> currentMs == old(currentMs)
      ensures now == MAX_U64 ==> currentMs == MAX_U64
      ensures out <= out' && SortedByExpiry(out'[|out|..])
      ensures forall t :: multiset(out'[|out|..])[t] == if t.expiresAt <= now then old(Pending())[t] else 0
      ensures forall t :: Pending()[t] == if t.expiresAt <= now then 0 else old(Pending())[t]
    {
      var fired := Advance(now);
      out' := out + fired;
      assert out'[|out|..] == fired;
      forall t: Timer ensures multiset(fired)[t] == if t.expiresAt <= now then old(Pending())[t] else 0
               ensures Pending()[t] == if t.expiresAt <= now then 0 else old(Pending())[t]
      {
        assert (multiset(fired) + Pending())[t] == old(Pending())[t];
        if t.expiresAt <= now {
          assert t !in Pending();
        } else {
          assert t !in fired;
        }
      }
    }
  }

  // ----- Whole runs against a plain list of timers

  datatype Op = Schedule(afterMs: u64) | Poll(now: u64)

  /** The reference: a clock, the next id and the timers in the order they were scheduled. */
  datatype Ref = Ref(clock: u64, nextId: u64, waiting: seq<Timer>)

  function Due(waiting: seq<Timer>, now: u64): seq<Timer> {
    if waiting == [] then []
    else (if waiting[0].expiresAt <= now then [waiting[0]] else []) + Due(waiting[1..], now)
  }

  function Later(waiting: seq<Timer>, now: u64): seq<Timer> {
    if waiting == [] then []
    else (if waiting[0].expiresAt <= now then [] else [waiting[0]]) + Later(waiting[1..], now)
  }

  function RefStep(r: Ref, op: Op): Ref {
    match op
    case Schedule(d) => Ref(r.clock, (r.nextId + 1) % WORD, r.waiting + [Timer(r.nextId, Min(r.clock + d, MAX_U64))])
    case Poll(now) => Ref(NextClock(r.clock, now), r.nextId, Later(r.waiting, now))
  }

  function RefOut(r: Ref, op: Op): seq<Timer> {
    if op.Poll? then Due(r.waiting, op.now) else []
  }

  function RefRun(start: u64, ops: seq<Op>): Ref {
    if ops == [] then Ref(start, 0, []) else RefStep(RefRun(start, ops[..|ops| - 1]), ops[|ops| - 1])
  }

  lemma {:induction false} DueLaterSplit(waiting: seq<Timer>, now: u64, t: Timer)
    ensures multiset(Due(waiting, now))[t] == if t.expiresAt <= now then multiset(waiting)[t] else 0
    ensures multiset(Later(waiting, now))[t] == if t.expiresAt <= now then 0 else multiset(waiting)[t]
  {
    if waiting != [] {
      DueLaterSplit(waiting[1..], now, t);
      assert waiting == [waiting[0]] + waiting[1..];
    }
  }

  lemma {:induction false} DueLaterParts(waiting: seq<Timer>, now: u64)
    ensures multiset(Due(waiting, now)) + multiset(Later(waiting, now)) == multiset(waiting)
    ensures forall t :: t in Due(waiting, now) ==> t in waiting && t.expiresAt <= now
    ensures forall t :: t in Later(waiting, now) ==> t in waiting && now < t.expiresAt
  {
    if waiting != [] {
      DueLaterParts(waiting[1..], now);
      assert waiting == [waiting[0]] + waiting[1..];
    }
  }

  lemma SplitIsDueLater(waiting: seq<Timer>, now: u64, fired: multiset<Timer>, rest: multiset<Timer>)
    requires forall t :: fired[t] == if t.expiresAt <= now then multiset(waiting)[t] else 0
    requires forall t :: rest[t] == if t.expiresAt <= now then 0 else multiset(waiting)[t]
    ensures fired == multiset(Due(waiting, now)) && rest == multiset(Later(waiting, now))
  {
    forall t: Timer
      ensures fired[t] == multiset(Due(waiting, now))[t] && rest[t] == multiset(Later(waiting, now))[t]
    {
      DueLaterSplit(waiting, now, t);
    }
  }

  ghost predicate Refines(w: TimerWheel, r: Ref)
    reads w, w.levels
  {
    w.Valid() && w.currentMs == r.clock && w.nextId == r.nextId && w.Pending() == multiset(r.waiting)
  }

  ghost predicate RefinesOut(out: seq<Timer>, r: Ref, op: Op) {
    SortedByExpiry(out) && multiset(out) == multiset(RefOut(r, op))
  }

  method Apply(w: TimerWheel, op: Op, ghost r: Ref) returns (out: seq<Timer>)
    requires Refines(w, r)
    modifies w, w.levels
    ensures Refines(w, RefStep(r, op)) && RefinesOut(out, r, op)
  {
    out := [];
    match op
    case Schedule(d) =>
      var _ := w.Schedule(d);
    case Poll(now) =>
      out := w.Poll(now, []);
      assert out[0..] == out;
      SplitIsDueLater(r.waiting, now, multiset(out), w.Pending());
  }

  /** A new wheel driven through any run gives, poll by poll, exactly the timers the reference
      list says are due, and it is left holding exactly the others. */
  method Run(start: u64, ops: seq<Op>) returns (w: TimerWheel, outs: seq<seq<Timer>>)
    ensures Refines(w, RefRun(start, ops)) && fresh(w) && fresh(w.levels)
    ensures |outs| == |ops|
    ensures forall i :: 0 <= i < |ops| ==> RefinesOut(outs[i], RefRun(start, ops[..i]), ops[i])
  {
    if ops == [] {
      w := new TimerWheel(start);
      outs := [];
    } else {
      var n := |ops| - 1;
      w, outs := Run(start, ops[..n]);
      forall i | 0 <= i < n ensures ops[..n][..i] == ops[..i] {
      }
      var out := Apply(w, ops[n], RefRun(start, ops[..n]));
      outs := outs + [out];
    }
  }

  ghost function NewTimer(r: Ref, op: Op): multiset<Timer> {
    if op.Schedule? then multiset{Timer(r.nextId, Min(r.clock + op.afterMs, MAX_U64))} else multiset{}
  }

  ghost function RefScheduled(start: u64, ops: seq<Op>): multiset<Timer> {
    if ops == [] then multiset{}
    else
      var init := ops[..|ops| - 1];
      RefScheduled(start, init) + NewTimer(RefRun(start, init), ops[|ops| - 1])
  }

  ghost function RefFired(start: u64, ops: seq<Op>): seq<Timer> {
    if ops == [] then []
    else
      var init := ops[..|ops| - 1];
      RefFired(start, init) + RefOut(RefRun(start, init), ops[|ops| - 1])
  }

  lemma StepConserves(r: Ref, op: Op)
    ensures multiset(RefOut(r, op)) + multiset(RefStep(r, op).waiting) == multiset(r.waiting) + NewTimer(r, op)
  {
    if op.Poll? {
      DueLaterParts(r.waiting, op.now);
    }
  }

  /** No timer is lost or fired twice: what was scheduled has fired or still waits. */
  lemma {:induction false} TimersConserved(start: u64, ops: seq<Op>)
    ensures multiset(RefFired(start, ops)) + multiset(RefRun(start, ops).waiting) == RefScheduled(start, ops)
  {
    if ops != [] {
      var init, op := ops[..|ops| - 1], ops[|ops| - 1];
      var r := RefRun(start, init);
      TimersConserved(start, init);
      StepConserves(r, op);
      calc {
        multiset(RefFired(start, ops)) + multiset(RefRun(start, ops).waiting);
        (multiset(RefFired(start, init)) + multiset(RefOut(r, op))) + multiset(RefStep(r, op).waiting);
        multiset(RefFired(start, init)) + (multiset(RefOut(r, op)) + multiset(RefStep(r, op).waiting));
        multiset(RefFired(start, init)) + (multiset(r.waiting) + NewTimer(r, op));
        RefScheduled(start, init) + NewTimer(r, op);
      }
    }
  }

  /** One past the largest time polled, or 0 when there was no poll. */
  ghost function PolledPast(ops: seq<Op>): nat {
    if ops == [] then 0
    else
      var past := PolledPast(ops[..|ops| - 1]);
      var op := ops[|ops| - 1];
      if op.Poll? then Max(past, op.now + 1) else past
  }

  /** The clock of a run is the larger of its start and one past the largest time polled, as far
      as 64 bits go. So it never goes back. */
  lemma {:induction false} ClockOfRun(start: u64, ops: seq<Op>)
    ensures RefRun(start, ops).clock == Min(Max(start, PolledPast(ops)), MAX_U64)
  {
    if ops != [] {
      ClockOfRun(start, ops[..|ops| - 1]);
    }
  }

  /** What is polled anywhere in a run is before the clock it ends with. */
  lemma {:induction false} PolledBefore(ops: seq<Op>, i: nat)
    requires i < |ops| && ops[i].Poll?
    ensures ops[i].now < PolledPast(ops)
  {
    if i < |ops| - 1 {
      PolledBefore(ops[..|ops| - 1], i);
    }
  }

  function Schedules(ops: seq<Op>): nat {
    if ops == [] then 0 else Schedules(ops[..|ops| - 1]) + if ops[|ops| - 1].Schedule? then 1 else 0
  }

  /** The timer that `schedule` makes after `ops`: the number of those before it, and its delay past
      the larger of the start and one past the largest time polled. */
  ghost function TimerAfter(start: u64, ops: seq<Op>, afterMs: u64): Timer {
    Timer(Schedules(ops) % WORD, Min(Max(start, PolledPast(ops)) + afterMs, MAX_U64))
  }

  lemma {:induction false} IdsCount(start: u64, ops: seq<Op>)
    ensures RefRun(start, ops).nextId == Schedules(ops) % WORD
  {
    if ops != [] {
      hide Later;
      IdsCount(start, ops[..|ops| - 1]);
      WordNext(Schedules(ops[..|ops| - 1]));
    }
  }

  lemma NewTimerIs(start: u64, ops: seq<Op>, afterMs: u64)
    ensures RefStep(RefRun(start, ops), Schedule(afterMs)).waiting ==
            RefRun(start, ops).waiting + [TimerAfter(start, ops, afterMs)]
    ensures NewTimer(RefRun(start, ops), Schedule(afterMs)) == multiset{TimerAfter(start, ops, afterMs)}
  {
    hide RefRun, PolledPast, Schedules;
    ClockOfRun(start, ops);
    IdsCount(start, ops);
  }

  /** A timer scheduled after a poll at `now` expires strictly after `now`. */
  lemma ScheduledAfterPoll(start: u64, ops: seq<Op>, i: nat, afterMs: u64)
    requires i < |ops| && ops[i].Poll? && ops[i].now < MAX_U64
    ensures ops[i].now < TimerAfter(start, ops, afterMs).expiresAt
  {
    PolledBefore(ops, i);
  }

  /** Operation `i` scheduled a timer that no poll since has reached. */
  ghost predicate Unreached(start: u64, ops: seq<Op>, i: int) {
    && 0 <= i < |ops| && ops[i].Schedule?
    && forall j :: i < j < |ops| && ops[j].Poll? ==>
         ops[j].now < TimerAfter(start, ops[..i], ops[i].afterMs).expiresAt
  }

  /** `t` was scheduled and not reached since. */
  ghost predicate Scheduled(start: u64, ops: seq<Op>, t: Timer) {
    exists i :: Unreached(start, ops, i) && t == TimerAfter(start, ops[..i], ops[i].afterMs)
  }

  lemma UnreachedStep(start: u64, ops: seq<Op>, i: int)
    requires ops != [] && i < |ops| - 1
    ensures var (init, op) := (ops[..|ops| - 1], ops[|ops| - 1]);
            Unreached(start, ops, i) <==>
            && Unreached(start, init, i)
            && (op.Poll? ==> op.now < TimerAfter(start, init[..i], init[i].afterMs).expiresAt)
  {
    hide TimerAfter;
    var init := ops[..|ops| - 1];
    assert i >= 0 ==> init[..i] == ops[..i];
  }

  lemma ScheduledStep(start: u64, ops: seq<Op>, t: Timer)
    requires ops != []
    ensures var (init, op) := (ops[..|ops| - 1], ops[|ops| - 1]);
            Scheduled(start, ops, t) <==>
            match op {
              case Poll(now) => Scheduled(start, init, t) && now < t.expiresAt
              case Schedule(d) => Scheduled(start, init, t) || t == TimerAfter(start, init, d)
            }
  {
    hide TimerAfter;
    var n := |ops| - 1;
    var init, op := ops[..n], ops[n];
    assert forall i :: 0 <= i < n ==> init[..i] == ops[..i] && init[i] == ops[i];
    if i :| Unreached(start, ops, i) && t == TimerAfter(start, ops[..i], ops[i].afterMs) {
      if i < n {
        UnreachedStep(start, ops, i);
        assert Unreached(start, init, i);
      }
    }
    if i :| Unreached(start, init, i) && t == TimerAfter(start, init[..i], init[i].afterMs) {
      UnreachedStep(start, ops, i);
      assert op.Schedule? || op.now < t.expiresAt ==> Unreached(start, ops, i);
    }
    assert op.Schedule? ==> Unreached(start, ops, n);
  }

  /** What waits is what was scheduled and no poll has reached. */
  lemma {:induction false} WaitingIff(start: u64, ops: seq<Op>, t: Timer)
    ensures t in RefRun(start, ops).waiting <==> Scheduled(start, ops, t)
  {
    if ops != [] {
      hide Scheduled, TimerAfter;
      var init, op := ops[..|ops| - 1], ops[|ops| - 1];
      WaitingIff(start, init, t);
      ScheduledStep(start, ops, t);
      match op
      case Schedule(d) => NewTimerIs(start, init, d);
      case Poll(now) => LaterIff(RefRun(start, init).waiting, now, t);
    }
  }

  lemma LaterIff(waiting: seq<Timer>, now: u64, t: Timer)
    ensures t in Later(waiting, now) <==> t in waiting && now < t.expiresAt
    ensures t in Due(waiting, now) <==> t in waiting && t.expiresAt <= now
  {
    DueLaterSplit(waiting, now, t);
    assert t in waiting <==> multiset(waiting)[t] > 0;
    assert t in Later(waiting, now) <==> multiset(Later(waiting, now))[t] > 0;
    assert t in Due(waiting, now) <==> multiset(Due(waiting, now))[t] > 0;
  }

  /** Told from the operations alone: a poll fires a timer exactly when it is the first at or after
      the timer's expiry since the timer was scheduled. */
  lemma FiresAtFirstPoll(start: u64, ops: seq<Op>, now: u64, t: Timer)
    ensures t in RefOut(RefRun(start, ops), Poll(now)) <==> Scheduled(start, ops, t) && t.expiresAt <= now
  {
    hide RefRun, Scheduled;
    WaitingIff(start, ops, t);
    LaterIff(RefRun(start, ops).waiting, now, t);
  }

  /** The clock never passes a waiting timer, and is strictly past every fired one unless it has
      reached the last representable time. */
  lemma {:induction false} WaitingNotOverdue(start: u64, ops: seq<Op>)
    ensures forall t :: t in RefRun(start, ops).waiting ==> RefRun(start, ops).clock <= t.expiresAt
    ensures forall t :: t in RefFired(start, ops) ==>
                          t.expiresAt < RefRun(start, ops).clock || RefRun(start, ops).clock == MAX_U64
  {
    if ops != [] {
      var init, op := ops[..|ops| - 1], ops[|ops| - 1];
      WaitingNotOverdue(start, init);
      var r := RefRun(start, init);
      if op.Poll? {
        DueLaterParts(r.waiting, op.now);
      }
    }
  }

  /** Over a whole run timers fire in expiry order: nothing fired by a later poll expires
      before anything fired by an earlier one. */
  lemma FiringOrder(start: u64, ops: seq<Op>, t: Timer, t': Timer)
    requires ops != [] && t in RefFired(start, ops[..|ops| - 1])
    requires t' in RefOut(RefRun(start, ops[..|ops| - 1]), ops[|ops| - 1])
    ensures t.expiresAt <= t'.expiresAt
  {
    var init, op := ops[..|ops| - 1], ops[|ops| - 1];
    var r := RefRun(start, init);
    WaitingNotOverdue(start, init);
    DueLaterParts(r.waiting, op.now);
  }
}
