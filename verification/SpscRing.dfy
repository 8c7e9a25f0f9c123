/** The single-producer single-consumer ring as an interleaving of the two threads' single
    loads, slot accesses and stores. Every counter is a machine word and wraps. */
module SpscRingModel {
  import opened Arithmetic

  /** The capacities `new_split` accepts. */
  ghost predicate IsCapacity(capacity: nat) {
    IsPowerOfTwo(capacity) && capacity < WORD
  }

  /** `x & (capacity - 1)`. */
  function Mask(x: nat, capacity: nat): nat
    requires capacity > 0
  {
    x % capacity
  }

  type usize = u64

  function WrappingAdd(a: usize, b: usize): usize {
    if a + b < WORD then a + b else a + b - WORD
  }

  function WrappingSub(a: usize, b: usize): usize {
    if a >= b then a - b else a - b + WORD
  }

  datatype Slot<T> = Uninit | Init(value: T)

  /** Where the producer is inside `try_push`, with its thread-local copies. */
  datatype ProducerPc<T> =
    | PIdle
    | PLoadTail(value: T)
    | PLoadHead(value: T, tail: usize)
    | PCheck(value: T, tail: usize, head: usize)
    | PWrite(value: T, tail: usize)
    | PStore(tail: usize)

  /** Where the consumer is inside `try_pop`. */
  datatype ConsumerPc<T> =
    | CIdle
    | CLoadHead
    | CLoadTail(head: usize)
    | CCheck(head: usize, tail: usize)
    | CRead(head: usize)
    | CStore(head: usize, value: T)

  /** The shared ring and the two threads; then the history of the run, which no step tests:
      the values written and how many were published, the values taken and how many were
      released, both unwrapped counts as last loaded by the other thread, and whether a slot
      was ever misused. */
  datatype State<T> = State(
    capacity: nat,
    head: usize,
    tail: usize,
    slots: seq<Slot<T>>,
    producer: ProducerPc<T>,
    consumer: ConsumerPc<T>,
    written: seq<T>,
    published: nat,
    taken: seq<T>,
    released: nat,
    headSeen: nat,
    tailSeen: nat,
    misused: bool)

  ghost predicate Start<T>(s: State<T>) {
    && IsCapacity(s.capacity)
    && s.head == 0 && s.tail == 0
    && |s.slots| == s.capacity
    && (forall i :: 0 <= i < |s.slots| ==> s.slots[i] == Uninit)
    && s.producer == PIdle && s.consumer == CIdle
    && s.written == [] && s.published == 0 && s.taken == [] && s.released == 0 && !s.misused
  }

  function NewRing<T>(capacity: nat): State<T> {
    State(capacity, 0, 0, seq(capacity, _ => Uninit), PIdle, CIdle, [], 0, [], 0, 0, 0, false)
  }

  // ----- Steps of try_push

  /** One step of the producer; `value` is the argument of a new call. */
  function ProducerStep<T>(s: State<T>, value: T): State<T>
    requires |s.slots| == s.capacity > 0
  {
    match s.producer
    case PIdle => s.(producer := PLoadTail(value))
    case PLoadTail(v) => s.(producer := PLoadHead(v, s.tail))
    case PLoadHead(v, t) => s.(producer := PCheck(v, t, s.head), headSeen := s.released)
    case PCheck(v, t, h) =>
      if WrappingSub(t, h) == s.capacity then s.(producer := PIdle) else s.(producer := PWrite(v, t))
    case PWrite(v, t) =>
      var i := Mask(t, s.capacity);
      s.(slots := s.slots[i := Init(v)], producer := PStore(t), written := s.written + [v],
         misused := s.misused || s.slots[i].Init?)
    case PStore(t) =>
      s.(tail := WrappingAdd(t, 1), producer := PIdle, published := |s.written|)
  }

  // ----- Steps of try_pop

  function ConsumerStep<T>(s: State<T>): State<T>
    requires |s.slots| == s.capacity > 0
  {
    match s.consumer
    case CIdle => s.(consumer := CLoadHead)
    case CLoadHead => s.(consumer := CLoadTail(s.head))
    case CLoadTail(h) => s.(consumer := CCheck(h, s.tail), tailSeen := s.published)
    case CCheck(h, t) => if h == t then s.(consumer := CIdle) else s.(consumer := CRead(h))
    case CRead(h) =>
      var i := Mask(h, s.capacity);
      if s.slots[i].Init? then
        var v := s.slots[i].value;
        s.(slots := s.slots[i := Uninit], consumer := CStore(h, v), taken := s.taken + [v])
      else
        s.(misused := true)
    case CStore(h, v) =>
      s.(head := WrappingAdd(h, 1), consumer := CIdle, released := |s.taken|)
  }

  /** A scheduling decision: the producer moves (with the argument of its next call) or the consumer does. */
  datatype Move<T> = Produce(value: T) | Consume

  /** The state after any interleaving of the two threads' steps. */
  function Exec<T>(s: State<T>, moves: seq<Move<T>>): (r: State<T>)
    requires |s.slots| == s.capacity > 0
    ensures |r.slots| == r.capacity == s.capacity
  {
    if moves == [] then s
    else
      var r := Exec(s, moves[..|moves| - 1]);
      match moves[|moves| - 1]
      case Produce(v) => ProducerStep(r, v)
      case Consume => ConsumerStep(r)
  }

  // ----- The invariant

  /** From the next value to take, one turn of the ring: first the values not yet taken, in
      order, then free slots. */
  ghost predicate Holds<T>(s: State<T>)
    requires |s.slots| == s.capacity > 0
  {
    forall i :: |s.taken| <= i < |s.taken| + s.capacity ==>
      s.slots[i % s.capacity] == if i < |s.written| then Init(s.written[i]) else Uninit
  }

  ghost predicate Counters<T>(s: State<T>) {
    && IsCapacity(s.capacity) && |s.slots| == s.capacity
    && s.tail == s.published % WORD && s.head == s.released % WORD
    && s.released <= |s.taken| <= s.published <= |s.written| <= s.released + s.capacity
    && s.taken <= s.written
  }

  ghost predicate Inv<T>(s: State<T>) {
    Counters(s) && Holds(s) && ProducerInv(s) && ConsumerInv(s) && !s.misused
  }

  ghost predicate ProducerInv<T>(s: State<T>) {
    match s.producer
    case PIdle => s.published == |s.written|
    case PLoadTail(_) => s.published == |s.written|
    case PLoadHead(_, t) => s.published == |s.written| && t == s.tail
    case PCheck(_, t, h) =>
      s.published == |s.written| && t == s.tail &&
      s.headSeen <= s.released && s.published <= s.headSeen + s.capacity && h == s.headSeen % WORD
    case PWrite(_, t) => s.published == |s.written| < s.released + s.capacity && t == s.tail
    case PStore(t) => s.published + 1 == |s.written| && t == s.tail
  }

  ghost predicate ConsumerInv<T>(s: State<T>) {
    match s.consumer
    case CIdle => s.released == |s.taken|
    case CLoadHead => s.released == |s.taken|
    case CLoadTail(h) => s.released == |s.taken| && h == s.head
    case CCheck(h, t) =>
      s.released == |s.taken| && h == s.head &&
      s.released <= s.tailSeen <= s.published && t == s.tailSeen % WORD
    case CRead(h) => s.released == |s.taken| < s.published && h == s.head
    case CStore(h, v) => s.released + 1 == |s.taken| && h == s.head && v == s.taken[s.released]
  }

  // ----- Arithmetic of wrapping counters

  /** Wrapping the counter does not disturb the slot index: the word is a multiple of the capacity. */
  lemma MaskOfWrapped(x: nat, capacity: nat)
    requires IsCapacity(capacity)
    ensures capacity > 0 && Mask(x % WORD, capacity) == x % capacity
  {
    WordIsPower();
    var k := PowerDivides(capacity, WORD);
    RemainderOfRemainder(x, capacity, k);
  }

  /** Two counters less than a word apart are recovered exactly from their wrapped values. */
  lemma WrappingDistance(x: nat, d: nat)
    requires d < WORD
    ensures WrappingSub((x + d) % WORD, x % WORD) == d
    ensures (x + d) % WORD == x % WORD <==> d == 0
  {
  }

  // ----- Every step keeps the invariant

  lemma StartInv<T>(s: State<T>)
    requires Start(s)
    ensures Inv(s)
  {
  }

  /** When the check lets the producer through, the slot it will write is free. */
  lemma WriteSlotFree<T>(s: State<T>)
    requires Inv(s) && s.producer.PWrite?
    ensures Mask(s.producer.tail, s.capacity) == |s.written| % s.capacity
    ensures s.slots[|s.written| % s.capacity].Uninit?
  {
    MaskOfWrapped(s.published, s.capacity);
  }

  /** When the check lets the consumer through, the slot it will read holds the next value. */
  lemma ReadSlotFull<T>(s: State<T>)
    requires Inv(s) && s.consumer.CRead?
    ensures Mask(s.consumer.head, s.capacity) == |s.taken| % s.capacity
    ensures s.slots[|s.taken| % s.capacity] == Init(s.written[|s.taken|])
  {
    MaskOfWrapped(s.released, s.capacity);
  }

  lemma HoldsAfterWrite<T>(s: State<T>, value: T)
    requires Inv(s) && s.producer.PWrite?
    ensures Holds(ProducerStep(s, value)) && !ProducerStep(s, value).misused
  {
    WriteSlotFree(s);
    var n := |s.written|;
    forall i | |s.taken| <= i < |s.taken| + s.capacity && i != n ensures i % s.capacity != n % s.capacity {
      if i < n { RemaindersDiffer(i, n, s.capacity); } else { RemaindersDiffer(n, i, s.capacity); }
    }
  }

  lemma HoldsAfterRead<T>(s: State<T>)
    requires Inv(s) && s.consumer.CRead?
    ensures Holds(ConsumerStep(s)) && !ConsumerStep(s).misused
    ensures ConsumerStep(s).taken == s.taken + [s.written[|s.taken|]]
  {
    ReadSlotFull(s);
    OneTurn(|s.taken|, s.capacity);
  }

  lemma WrappedNext(x: nat)
    ensures WrappingAdd(x % WORD, 1) == (x + 1) % WORD
  {
  }

  lemma ProducerControl<T>(s: State<T>, value: T)
    requires Counters(s) && ProducerInv(s) && ConsumerInv(s)
    ensures var s' := ProducerStep(s, value); Counters(s') && ProducerInv(s') && ConsumerInv(s')
  {
    if s.producer.PCheck? {
      WrappingDistance(s.headSeen, s.published - s.headSeen);
    } else if s.producer.PStore? {
      WrappedNext(s.published);
    }
  }

  lemma ConsumerControl<T>(s: State<T>)
    requires Counters(s) && ProducerInv(s) && ConsumerInv(s)
    requires s.consumer.CRead? ==> ConsumerStep(s).taken == s.taken + [s.written[|s.taken|]]
    ensures var s' := ConsumerStep(s); Counters(s') && ProducerInv(s') && ConsumerInv(s')
  {
    if s.consumer.CCheck? {
      WrappingDistance(s.released, s.tailSeen - s.released);
    } else if s.consumer.CStore? {
      WrappedNext(s.released);
    }
  }

  lemma HoldsFrame<T>(s: State<T>, s': State<T>)
    requires Counters(s) && Holds(s)
    requires s'.capacity == s.capacity && s'.slots == s.slots && s'.taken == s.taken && s'.written == s.written
    ensures Holds(s')
  {
  }

  lemma ProducerKeepsInv<T>(s: State<T>, value: T)
    requires Inv(s)
    ensures Inv(ProducerStep(s, value))
  {
    ProducerControl(s, value);
    if s.producer.PWrite? {
      HoldsAfterWrite(s, value);
    } else {
      HoldsFrame(s, ProducerStep(s, value));
    }
  }

  lemma ConsumerKeepsInv<T>(s: State<T>)
    requires Inv(s)
    ensures Inv(ConsumerStep(s))
  {
    if s.consumer.CRead? {
      HoldsAfterRead(s);
    } else {
      HoldsFrame(s, ConsumerStep(s));
    }
    ConsumerControl(s);
  }

  // ----- Safety of every run

  lemma {:induction false} RunInv<T>(s: State<T>, moves: seq<Move<T>>)
    requires Start(s)
    ensures |s.slots| == s.capacity > 0 && Inv(Exec(s, moves))
  {
    StartInv(s);
    if moves != [] {
      var init, move := moves[..|moves| - 1], moves[|moves| - 1];
      RunInv(s, init);
      match move
      case Produce(v) => ProducerKeepsInv(Exec(s, init), v);
      case Consume => ConsumerKeepsInv(Exec(s, init));
    }
  }

  /** In every interleaving: what was taken is a prefix of what was pushed; no unwritten slot
      was read and no unread slot overwritten; the wrapped difference of the counters is the
      true number of published, unreleased items and never exceeds the capacity; and the two
      threads never access the same slot at the same time. */
  lemma RunSafe<T>(start: State<T>, moves: seq<Move<T>>)
    requires Start(start)
    ensures |start.slots| == start.capacity > 0
    ensures var s := Exec(start, moves);
            && s.taken <= s.written
            && !s.misused
            && WrappingSub(s.tail, s.head) == s.published - s.released <= s.capacity
            && (s.producer.PWrite? && s.consumer.CRead? ==>
                  Mask(s.producer.tail, s.capacity) != Mask(s.consumer.head, s.capacity))
  {
    RunInv(start, moves);
    var s := Exec(start, moves);
    WrappingDistance(s.released, s.published - s.released);
    if s.producer.PWrite? && s.consumer.CRead? {
      MaskOfWrapped(s.published, s.capacity);
      MaskOfWrapped(s.released, s.capacity);
      RemaindersDiffer(s.released, s.published, s.capacity);
    }
  }

  // ----- What was pushed and popped, by the calls alone

  /** The arguments of the `try_push` calls begun so far: a move the producer makes while idle begins one. */
  ghost function Calls<T>(start: State<T>, moves: seq<Move<T>>): seq<T>
    requires |start.slots| == start.capacity > 0
  {
    if moves == [] then []
    else
      var init, move := moves[..|moves| - 1], moves[|moves| - 1];
      var calls := Calls(start, init);
      if move.Produce? && Exec(start, init).producer.PIdle? then calls + [move.value] else calls
  }

  /** The arguments of the calls that got past the full test, in order. */
  ghost function Accepted<T>(start: State<T>, moves: seq<Move<T>>): seq<T>
    requires |start.slots| == start.capacity > 0
  {
    if moves == [] then []
    else
      var init := moves[..|moves| - 1];
      var accepted, calls := Accepted(start, init), Calls(start, init);
      if calls != [] && Exec(start, init).producer.PCheck? && Exec(start, moves).producer.PWrite?
      then accepted + [calls[|calls| - 1]]
      else accepted
  }

  /** The values `try_pop` has returned: a call returns with its store of the head. */
  ghost function Returned<T>(start: State<T>, moves: seq<Move<T>>): seq<T>
    requires |start.slots| == start.capacity > 0
  {
    if moves == [] then []
    else
      var init, move := moves[..|moves| - 1], moves[|moves| - 1];
      var returned, pc := Returned(start, init), Exec(start, init).consumer;
      if move.Consume? && pc.CStore? then returned + [pc.value] else returned
  }

  /** The value a call carries is its argument, and what is written is what was accepted, but for
      the write about to happen. */
  ghost predicate Carries<T>(s: State<T>, calls: seq<T>, accepted: seq<T>) {
    && (!s.producer.PIdle? ==> calls != [])
    && (s.producer.PLoadTail? || s.producer.PLoadHead? || s.producer.PCheck? || s.producer.PWrite? ==>
          s.producer.value == calls[|calls| - 1])
    && accepted == s.written + if s.producer.PWrite? then [s.producer.value] else []
  }

  lemma ProducerCarries<T>(s: State<T>, value: T, calls: seq<T>, accepted: seq<T>)
    requires |s.slots| == s.capacity > 0 && Carries(s, calls, accepted)
    ensures var s' := ProducerStep(s, value);
            Carries(s', if s.producer.PIdle? then calls + [value] else calls,
                    if s.producer.PCheck? && s'.producer.PWrite? then accepted + [calls[|calls| - 1]] else accepted)
  {
  }

  lemma ConsumerCarries<T>(s: State<T>, calls: seq<T>, accepted: seq<T>)
    requires |s.slots| == s.capacity > 0 && Carries(s, calls, accepted)
    ensures Carries(ConsumerStep(s), calls, accepted) && ConsumerStep(s).producer == s.producer
  {
  }

  lemma {:induction false} RunCarries<T>(start: State<T>, moves: seq<Move<T>>)
    requires Start(start)
    ensures |start.slots| == start.capacity > 0
    ensures Carries(Exec(start, moves), Calls(start, moves), Accepted(start, moves))
  {
    if moves != [] {
      hide Carries, ProducerStep, ConsumerStep;
      var init, move := moves[..|moves| - 1], moves[|moves| - 1];
      RunCarries(start, init);
      var s, calls, accepted := Exec(start, init), Calls(start, init), Accepted(start, init);
      assert s.producer.PIdle? || calls != [] by {
        CarriesCall(s, calls, accepted);
      }
      match move
      case Produce(v) => ProducerCarries(s, v, calls, accepted);
      case Consume => ConsumerCarries(s, calls, accepted);
    } else {
      assert start.producer == PIdle;
    }
  }

  lemma CarriesCall<T>(s: State<T>, calls: seq<T>, accepted: seq<T>)
    requires Carries(s, calls, accepted)
    ensures s.producer.PIdle? || calls != []
  {
  }

  lemma ConsumerReturns<T>(s: State<T>)
    requires Counters(s) && ConsumerInv(s)
    ensures var s' := ConsumerStep(s);
            && s'.released <= |s'.taken|
            && s'.taken[..s'.released]
               == s.taken[..s.released] + if s.consumer.CStore? then [s.consumer.value] else []
  {
  }

  lemma ProducerLeavesTaken<T>(s: State<T>, value: T)
    requires |s.slots| == s.capacity > 0
    ensures var s' := ProducerStep(s, value);
            s'.taken == s.taken && s'.released == s.released && s'.consumer == s.consumer
  {
  }

  lemma {:induction false} RunReturns<T>(start: State<T>, moves: seq<Move<T>>)
    requires Start(start)
    ensures |start.slots| == start.capacity > 0 && Exec(start, moves).released <= |Exec(start, moves).taken|
    ensures Returned(start, moves) == Exec(start, moves).taken[..Exec(start, moves).released]
  {
    if moves != [] {
      hide ProducerStep, ConsumerStep, Counters, ConsumerInv, ProducerInv, Holds;
      var init, move := moves[..|moves| - 1], moves[|moves| - 1];
      RunReturns(start, init);
      RunInv(start, init);
      match move
      case Produce(v) => ProducerLeavesTaken(Exec(start, init), v);
      case Consume => ConsumerReturns(Exec(start, init));
    }
  }

  /** In every interleaving `try_pop` returns the arguments of the successful `try_push` calls: each
      once, in the order of the calls, and only ones whose call has stored the tail. */
  lemma PoppedArePushed<T>(start: State<T>, moves: seq<Move<T>>)
    requires Start(start)
    ensures |start.slots| == start.capacity > 0
    ensures var s := Exec(start, moves);
            && Returned(start, moves) <= Accepted(start, moves)
            && |Returned(start, moves)| == s.released <= s.published
            && s.published == |Accepted(start, moves)| - if s.producer.PWrite? || s.producer.PStore? then 1 else 0
  {
    RunInv(start, moves);
    RunCarries(start, moves);
    RunReturns(start, moves);
  }

  /** The other thread's steps leave a thread where it is, with its local copies. */
  lemma {:induction false} OthersLeaveThread<T>(s: State<T>, moves: seq<Move<T>>)
    requires |s.slots| == s.capacity > 0
    ensures (forall i :: 0 <= i < |moves| ==> moves[i].Consume?) ==> Exec(s, moves).producer == s.producer
    ensures (forall i :: 0 <= i < |moves| ==> moves[i].Produce?) ==> Exec(s, moves).consumer == s.consumer
  {
    if moves != [] {
      OthersLeaveThread(s, moves[..|moves| - 1]);
    }
  }

  /** `try_push` fails exactly when the ring was full at the moment the head was loaded, whatever the
      consumer does between that load and the test. */
  lemma FullTestExact<T>(start: State<T>, moves: seq<Move<T>>, value: T, between: seq<Move<T>>)
    requires Start(start) && forall i :: 0 <= i < |between| ==> between[i].Consume?
    ensures |start.slots| == start.capacity > 0
    ensures var s := Exec(start, moves);
            s.producer.PLoadHead? ==>
              (ProducerStep(Exec(ProducerStep(s, value), between), value).producer.PIdle? <==>
               s.published == s.released + s.capacity)
  {
    hide Exec, ProducerStep, Inv;
    RunInv(start, moves);
    var s := Exec(start, moves);
    if s.producer.PLoadHead? {
      ProducerKeepsCapacity(s, value);
      OthersLeaveThread(ProducerStep(s, value), between);
      FullTest(s, Exec(ProducerStep(s, value), between), value);
    }
  }

  lemma ProducerKeepsCapacity<T>(s: State<T>, value: T)
    requires |s.slots| == s.capacity > 0
    ensures |ProducerStep(s, value).slots| == ProducerStep(s, value).capacity == s.capacity
  {
  }

  lemma ConsumerKeepsCapacity<T>(s: State<T>)
    requires |s.slots| == s.capacity > 0
    ensures |ConsumerStep(s).slots| == ConsumerStep(s).capacity == s.capacity
  {
  }

  /** The test on the local copies, in a state reached after the head was loaded in `s`. */
  lemma FullTest<T>(s: State<T>, t: State<T>, value: T)
    requires Inv(s) && s.producer.PLoadHead? && t.producer == ProducerStep(s, value).producer
    requires |t.slots| == t.capacity == s.capacity
    ensures ProducerStep(t, value).producer.PIdle? <==> s.published == s.released + s.capacity
  {
    hide Holds;
    WrappingDistance(s.released, s.published - s.released);
  }

  lemma EmptyTest<T>(s: State<T>, t: State<T>)
    requires Inv(s) && s.consumer.CLoadTail? && t.consumer == ConsumerStep(s).consumer
    requires |t.slots| == t.capacity == s.capacity
    ensures ConsumerStep(t).consumer.CIdle? <==> s.published == s.released
  {
    hide Holds;
    WrappingDistance(s.released, s.published - s.released);
  }

  /** `try_pop` fails exactly when the ring was empty at the moment the tail was loaded, whatever the
      producer does between that load and the test. */
  lemma EmptyTestExact<T>(start: State<T>, moves: seq<Move<T>>, between: seq<Move<T>>)
    requires Start(start) && forall i :: 0 <= i < |between| ==> between[i].Produce?
    ensures |start.slots| == start.capacity > 0
    ensures var s := Exec(start, moves);
            s.consumer.CLoadTail? ==>
              (ConsumerStep(Exec(ConsumerStep(s), between)).consumer.CIdle? <==> s.published == s.released)
  {
    hide Exec, ConsumerStep, Inv;
    RunInv(start, moves);
    var s := Exec(start, moves);
    if s.consumer.CLoadTail? {
      ConsumerKeepsCapacity(s);
      OthersLeaveThread(ConsumerStep(s), between);
      EmptyTest(s, Exec(ConsumerStep(s), between));
    }
  }

  // ----- Producer::len

  lemma {:induction false} ExecAppend<T>(s: State<T>, a: seq<Move<T>>, b: seq<Move<T>>)
    requires |s.slots| == s.capacity > 0
    ensures Exec(s, a + b) == Exec(Exec(s, a), b)
    decreases |b|
  {
    if b == [] {
      assert a + b == a;
    } else {
      var n := |b| - 1;
      ExecAppend(s, a, b[..n]);
      assert (a + b)[..|a + b| - 1] == a + b[..n];
    }
  }

  lemma {:induction false} ConsumerLeavesTail<T>(s: State<T>, moves: seq<Move<T>>)
    requires |s.slots| == s.capacity > 0 && forall i :: 0 <= i < |moves| ==> moves[i].Consume?
    ensures Exec(s, moves).tail == s.tail && Exec(s, moves).published == s.published
  {
    if moves != [] {
      ConsumerLeavesTail(s, moves[..|moves| - 1]);
    }
  }

  /** The items pushed and not yet popped. */
  function Length<T>(s: State<T>): int {
    s.published - s.released
  }

  /** The producer's `len` loads the tail, and later, after any steps of the consumer, the head. It
      is the exact length at the second load. */
  lemma LenIsExactAtHeadLoad<T>(start: State<T>, before: seq<Move<T>>, between: seq<Move<T>>)
    requires Start(start) && forall i :: 0 <= i < |between| ==> between[i].Consume?
    ensures |start.slots| == start.capacity > 0
    ensures var (s1, s2) := (Exec(start, before), Exec(start, before + between));
            WrappingSub(s1.tail, s2.head) == Length(s2)
  {
    RunInv(start, before + between);
    ExecAppend(start, before, between);
    ConsumerLeavesTail(Exec(start, before), between);
    var s2 := Exec(start, before + between);
    WrappingDistance(s2.released, s2.published - s2.released);
  }

  /** How many steps at most the consumer is from its next store, unless the ring is empty. */
  function Distance<T>(s: State<T>): nat {
    match s.consumer
    case CCheck(_, _) => if s.tailSeen > s.released then 2 else 6
    case CIdle => 5
    case CLoadHead => 4
    case CLoadTail(_) => 3
    case CRead(_) => 1
    case CStore(_, _) => 0
  }

  /** Every step of the consumer on a ring that is not empty brings it nearer to its next store, or
      is that store and releases one item. */
  lemma ConsumerProgress<T>(s: State<T>)
    requires Inv(s) && Length(s) > 0
    ensures var s' := ConsumerStep(s);
            if s.consumer.CStore? then Length(s') == Length(s) - 1
            else Length(s') == Length(s) && Distance(s') < Distance(s)
  {
    if s.consumer.CCheck? {
      WrappingDistance(s.released, s.tailSeen - s.released);
    } else if s.consumer.CRead? {
      ReadSlotFull(s);
    }
  }

  /** From every reachable state the consumer alone can empty the ring. */
  lemma {:induction false} ConsumerEmpties<T>(s: State<T>) returns (moves: seq<Move<T>>)
    requires Inv(s)
    ensures (forall i :: 0 <= i < |moves| ==> moves[i].Consume?) && Length(Exec(s, moves)) == 0
    decreases Length(s), Distance(s)
  {
    if Length(s) == 0 {
      moves := [];
    } else {
      ConsumerProgress(s);
      ConsumerKeepsInv(s);
      var rest := ConsumerEmpties(ConsumerStep(s));
      var first: seq<Move<T>> := [Consume];
      assert first[..0] == [] && Exec(s, first) == ConsumerStep(s);
      ExecAppend(s, first, rest);
      moves := first + rest;
    }
  }

  /** `len` is at most the true length in every state of every continuation. */
  ghost predicate LowerBoundFrom<T(!new)>(s: State<T>, len: nat)
    requires |s.slots| == s.capacity > 0
  {
    forall later: seq<Move<T>> :: len <= Length(Exec(s, later))
  }

  /** The comment on `len` calls it a lower bound at any later point. That holds exactly when it
      returns zero. */
  lemma LenBoundIffZero<T(!new)>(start: State<T>, before: seq<Move<T>>, between: seq<Move<T>>)
    requires Start(start) && forall i :: 0 <= i < |between| ==> between[i].Consume?
    ensures |start.slots| == start.capacity > 0
    ensures var (s1, s2) := (Exec(start, before), Exec(start, before + between));
            var len := WrappingSub(s1.tail, s2.head);
            LowerBoundFrom(s2, len) <==> len == 0
  {
    LenIsExactAtHeadLoad(start, before, between);
    var s2 := Exec(start, before + between);
    RunInv(start, before + between);
    var moves := ConsumerEmpties(s2);
    forall later: seq<Move<T>> ensures Length(Exec(s2, later)) >= 0 {
      ExecAppend(start, before + between, later);
      RunInv(start, before + between + later);
    }
  }

  function Repeat<T>(move: Move<T>, n: nat): seq<Move<T>> {
    if n == 0 then [] else Repeat(move, n - 1) + [move]
  }

  lemma RepeatStep<T>(s: State<T>, move: Move<T>, n: nat)
    requires |s.slots| == s.capacity > 0
    ensures Exec(s, Repeat(move, 0)) == s
    ensures var r := Exec(s, Repeat(move, n));
            Exec(s, Repeat(move, n + 1)) == if move.Consume? then ConsumerStep(r) else ProducerStep(r, move.value)
  {
    assert Repeat(move, n + 1)[..|Repeat(move, n + 1)| - 1] == Repeat(move, n);
  }

  /** One whole push, `len`, one whole pop: `len` returned one and the ring is empty. */
  lemma LenOverstates()
    ensures var start: State<int> := NewRing(1);
            var s := Exec(start, Repeat(Produce(7), 6));
            && Start(start) && WrappingSub(s.tail, s.head) == 1
            && Length(Exec(s, Repeat(Consume, 6))) == 0
  {
    RunPush(NewRing(1));
    RunPop(Exec(NewRing(1), Repeat(Produce(7), 6)));
  }

  lemma RunPush(s: State<int>)
    requires s == NewRing(1)
    ensures Exec(s, Repeat(Produce(7), 6)) == s.(slots := [Init(7)], tail := 1, written := [7], published := 1)
  {
    hide Exec, Repeat;
    var p := Produce(7);
    assert Exec(s, Repeat(p, 3)) == s.(producer := PCheck(7, 0, 0)) by {
      RepeatStep(s, p, 0);
      RepeatStep(s, p, 1);
      RepeatStep(s, p, 2);
    }
    assert Exec(s, Repeat(p, 5)) == s.(slots := [Init(7)], producer := PStore(0), written := [7]) by {
      RepeatStep(s, p, 3);
      RepeatStep(s, p, 4);
    }
    RepeatStep(s, p, 5);
  }

  lemma RunPop(s: State<int>)
    requires s.capacity == 1 && s.slots == [Init(7)] && s.head == 0 && s.tail == 1 && s.published == 1
    requires s.consumer.CIdle? && s.taken == []
    ensures Length(Exec(s, Repeat(Consume, 6))) == 0
  {
    hide Exec, Repeat;
    RunPopHalf(s);
    RepeatStep(s, Consume, 3);
    RepeatStep(s, Consume, 4);
    RepeatStep(s, Consume, 5);
  }

  lemma RunPopHalf(s: State<int>)
    requires |s.slots| == s.capacity == 1 && s.head == 0 && s.tail == 1 && s.published == 1 && s.consumer.CIdle?
    ensures Exec(s, Repeat(Consume, 3)) == s.(consumer := CCheck(0, 1), tailSeen := 1)
  {
    RepeatStep(s, Consume, 0);
    RepeatStep(s, Consume, 1);
    RepeatStep(s, Consume, 2);
  }

  // ----- Drop

  /** The slots of a ring whose values up to position `n` have been released. */
  ghost predicate DroppedTo<T>(s: State<T>, slots: seq<Slot<T>>, n: nat)
    requires |slots| == s.capacity > 0 && s.published <= |s.written|
  {
    forall i :: s.released <= i < s.released + s.capacity ==>
      slots[i % s.capacity] == if n <= i < s.published then Init(s.written[i]) else Uninit
  }

  lemma DropOne<T>(s: State<T>, slots: seq<Slot<T>>, n: nat)
    requires |slots| == s.capacity > 0 && s.published <= |s.written|
    requires s.released <= n < s.published <= s.released + s.capacity && DroppedTo(s, slots, n)
    ensures slots[n % s.capacity] == Init(s.written[n])
    ensures DroppedTo(s, slots[n % s.capacity := Uninit], n + 1)
  {
    forall j | s.released <= j < s.released + s.capacity && j != n ensures j % s.capacity != n % s.capacity {
      if j < n { RemaindersDiffer(j, n, s.capacity); } else { RemaindersDiffer(n, j, s.capacity); }
    }
  }

  lemma AllDropped<T>(s: State<T>, slots: seq<Slot<T>>)
    requires |slots| == s.capacity > 0 && s.published <= |s.written| && DroppedTo(s, slots, s.published)
    ensures forall j :: 0 <= j < |slots| ==> slots[j].Uninit?
  {
    forall j | 0 <= j < |slots| ensures slots[j].Uninit? {
      var i := TurnPosition(s.released, s.capacity, j);
    }
  }

  lemma DropStart<T>(s: State<T>)
    requires Inv(s) && s.producer.PIdle? && s.consumer.CIdle?
    ensures DroppedTo(s, s.slots, s.released) && s.taken == s.written[..s.released] && s.published == |s.written|
  {
  }

  /** The walk's cursor stands for position `n`: it is at the tail exactly when `n` is the last. */
  lemma DropCursor(n: nat, published: nat)
    requires n <= published < n + WORD
    ensures n % WORD == published % WORD <==> n == published
    ensures WrappingAdd(n % WORD, 1) == (n + 1) % WORD
  {
    WrappingDistance(n, published - n);
  }

  /** Drop of the ring once both handles are gone: walks from head to tail, releasing each slot.
      It releases exactly the values pushed and not popped, in order, and leaves no slot full. */
  method Drop<T>(s: State<T>) returns (dropped: seq<T>, slots: seq<Slot<T>>)
    requires Inv(s) && s.producer.PIdle? && s.consumer.CIdle?
    ensures s.taken + dropped == s.written
    ensures |slots| == s.capacity && forall i :: 0 <= i < |slots| ==> slots[i].Uninit?
  {
    hide Inv, Dropping, Mask, WrappingAdd;
    var cur := s.head;
    dropped, slots := [], s.slots;
    ghost var n := s.released;
    DroppingStart(s);
    while cur != s.tail
      invariant Dropping(s, cur, n, dropped, slots)
      decreases s.published - n
    {
      DroppingStep(s, cur, n, dropped, slots);
      var i := Mask(cur, s.capacity);
      dropped := dropped + [slots[i].value];
      slots := slots[i := Uninit];
      cur := WrappingAdd(cur, 1);
      n := n + 1;
    }
    DroppingEnd(s, cur, n, dropped, slots);
  }

  /** Half way through the walk: the values before `n` are released, the cursor stands for `n`. */
  ghost predicate Dropping<T>(s: State<T>, cur: usize, n: nat, dropped: seq<T>, slots: seq<Slot<T>>) {
    && Inv(s) && s.producer.PIdle? && s.consumer.CIdle?
    && s.released <= n <= s.published && cur == n % WORD
    && |slots| == s.capacity && DroppedTo(s, slots, n) && dropped == s.written[s.released..n]
  }

  lemma DroppingStart<T>(s: State<T>)
    requires Inv(s) && s.producer.PIdle? && s.consumer.CIdle?
    ensures Dropping(s, s.head, s.released, [], s.slots) && s.capacity > 0
  {
    hide Holds, DroppedTo;
    DropStart(s);
  }

  lemma DroppingStep<T>(s: State<T>, cur: usize, n: nat, dropped: seq<T>, slots: seq<Slot<T>>)
    requires Dropping(s, cur, n, dropped, slots) && cur != s.tail
    ensures n < s.published && s.capacity > 0
    ensures var i := Mask(cur, s.capacity);
            && i < |slots| && slots[i].Init?
            && Dropping(s, WrappingAdd(cur, 1), n + 1, dropped + [slots[i].value], slots[i := Uninit])
  {
    hide ProducerInv, ConsumerInv, Holds, DroppedTo;
    DropCursor(n, s.published);
    MaskOfWrapped(n, s.capacity);
    DropOne(s, slots, n);
  }

  lemma DroppingEnd<T>(s: State<T>, cur: usize, n: nat, dropped: seq<T>, slots: seq<Slot<T>>)
    requires Dropping(s, cur, n, dropped, slots) && cur == s.tail
    ensures s.taken + dropped == s.written
    ensures |slots| == s.capacity && forall i :: 0 <= i < |slots| ==> slots[i].Uninit?
  {
    hide ProducerInv, ConsumerInv, Holds, DroppedTo;
    DropStart(s);
    DropCursor(n, s.published);
    AllDropped(s, slots);
  }
}
