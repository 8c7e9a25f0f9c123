/** The sliding anti-replay window, proved to decide as if it remembered every accepted number. */
module AntiReplayModel {
  import opened Wrappers

  const WINDOW_SIZE := 128

  /** A `u128` as its bits, bit 0 first. */
  type Bits = b: seq<bool> | |b| == WINDOW_SIZE witness seq(WINDOW_SIZE, _ => false)

  /** `1u128 << k`. */
  function OneAt(k: nat): Bits
    requires k < WINDOW_SIZE
  {
    seq(WINDOW_SIZE, i => i == k)
  }

  function ShiftLeft(b: Bits, n: nat): Bits
    requires n < WINDOW_SIZE
  {
    seq(WINDOW_SIZE, i requires 0 <= i < WINDOW_SIZE => i >= n && b[i - n])
  }

  function Or(a: Bits, b: Bits): Bits {
    seq(WINDOW_SIZE, i requires 0 <= i < WINDOW_SIZE => a[i] || b[i])
  }

  function And(a: Bits, b: Bits): Bits {
    seq(WINDOW_SIZE, i requires 0 <= i < WINDOW_SIZE => a[i] && b[i])
  }

  function Zero(): Bits {
    seq(WINDOW_SIZE, _ => false)
  }

  datatype ReplayError = Duplicate | OutOfWindow

  datatype Window = Window(highest: nat, bitmap: Bits, initialised: bool)

  function Empty(): Window {
    Window(0, Zero(), false)
  }

  predicate WouldAccept(w: Window, s: nat) {
    !w.initialised || s > w.highest ||
    (w.highest - s < WINDOW_SIZE && And(w.bitmap, OneAt(w.highest - s)) == Zero())
  }

  function CheckAndUpdate(w: Window, s: nat): (Window, Result<(), ReplayError>) {
    if !w.initialised then (Window(s, OneAt(0), true), Ok(()))
    else if s > w.highest then
      var shift := s - w.highest;
      var bitmap := if shift >= WINDOW_SIZE then OneAt(0) else Or(ShiftLeft(w.bitmap, shift), OneAt(0));
      (Window(s, bitmap, true), Ok(()))
    else
      var offset := w.highest - s;
      if offset >= WINDOW_SIZE then (w, Err(OutOfWindow))
      else
        var mask := OneAt(offset);
        if And(w.bitmap, mask) != Zero() then (w, Err(Duplicate))
        else (w.(bitmap := Or(w.bitmap, mask)), Ok(()))
  }

  // ----- The window against the set of accepted numbers

  /** The window remembers exactly the last 128 numbers of the history. */
  ghost predicate Reflects(w: Window, accepted: set<nat>) {
    && (w.initialised <==> accepted != {})
    && (w.initialised ==>
          && w.highest in accepted
          && (forall x :: x in accepted ==> x <= w.highest)
          && (forall k :: 0 <= k < WINDOW_SIZE ==> (w.bitmap[k] <==> k <= w.highest && w.highest - k in accepted)))
  }

  /** The rule in terms of the history alone: newer than everything accepted, or not accepted yet
      and less than 128 behind everything accepted. */
  ghost predicate Fresh(accepted: set<nat>, s: nat) {
    || (forall x :: x in accepted ==> x < s)
    || (s !in accepted && forall x :: x in accepted ==> x < s + 128)
  }

  lemma TestBit(b: Bits, k: nat)
    requires k < WINDOW_SIZE
    ensures And(b, OneAt(k)) != Zero() <==> b[k]
  {
    assert And(b, OneAt(k))[k] == b[k];
    if !b[k] {
      assert And(b, OneAt(k)) == Zero();
    }
  }

  /** One call decides by the rule, reports the right error, and records what it accepts. */
  lemma StepReflects(w: Window, accepted: set<nat>, s: nat)
    requires Reflects(w, accepted)
    ensures var (w', r) := CheckAndUpdate(w, s);
            && (r.Ok? <==> Fresh(accepted, s))
            && (r == Err(OutOfWindow) <==> exists x :: x in accepted && x >= s + WINDOW_SIZE)
            && WouldAccept(w, s) == r.Ok?
            && Reflects(w', if r.Ok? then accepted + {s} else accepted)
  {
    if w.initialised && s <= w.highest && w.highest - s < WINDOW_SIZE {
      TestBit(w.bitmap, w.highest - s);
    }
  }

  // ----- Whole runs

  ghost function Run(calls: seq<nat>): Window {
    if calls == [] then Empty() else CheckAndUpdate(Run(calls[..|calls| - 1]), calls[|calls| - 1]).0
  }

  /** The result of call `i` of a run. */
  ghost function ResultAt(calls: seq<nat>, i: nat): Result<(), ReplayError>
    requires i < |calls|
  {
    CheckAndUpdate(Run(calls[..i]), calls[i]).1
  }

  ghost function Accepted(calls: seq<nat>): set<nat> {
    set i | 0 <= i < |calls| && ResultAt(calls, i).Ok? :: calls[i]
  }

  lemma AcceptedSnoc(calls: seq<nat>)
    requires calls != []
    ensures var n := |calls| - 1;
            Accepted(calls) ==
            if ResultAt(calls, n).Ok? then Accepted(calls[..n]) + {calls[n]} else Accepted(calls[..n])
  {
    hide CheckAndUpdate, Run;
    var n := |calls| - 1;
    var init := calls[..n];
    forall i | 0 <= i < n ensures ResultAt(init, i) == ResultAt(calls, i) && init[i] == calls[i] {
      assert init[..i] == calls[..i];
    }
    forall x | x in Accepted(calls) ensures x in Accepted(init) || (ResultAt(calls, n).Ok? && x == calls[n]) {
      var i :| 0 <= i < |calls| && ResultAt(calls, i).Ok? && calls[i] == x;
      if i < n { assert ResultAt(init, i).Ok? && init[i] == x; }
    }
    forall x | x in Accepted(init) ensures x in Accepted(calls) {
      var i :| 0 <= i < n && ResultAt(init, i).Ok? && init[i] == x;
      assert ResultAt(calls, i).Ok? && calls[i] == x;
    }
  }

  lemma {:induction false} RunReflects(calls: seq<nat>)
    ensures Reflects(Run(calls), Accepted(calls))
  {
    if calls != [] {
      var n := |calls| - 1;
      RunReflects(calls[..n]);
      AcceptedSnoc(calls);
      StepReflects(Run(calls[..n]), Accepted(calls[..n]), calls[n]);
    }
  }

  /** After any run the next call is decided by the history alone, `would_accept` foretells it, and
      bit `k` of the bitmap is set exactly when `highest - k` was accepted. */
  lemma DecidesByHistory(calls: seq<nat>, s: nat)
    ensures var w := Run(calls);
            var accepted := Accepted(calls);
            var r := CheckAndUpdate(w, s).1;
            && (r.Ok? <==> Fresh(accepted, s))
            && (r == Err(OutOfWindow) <==> exists x :: x in accepted && x >= s + 128)
            && WouldAccept(w, s) == r.Ok?
            && (accepted != {} ==> forall k :: 0 <= k < 128 ==>
                 (w.bitmap[k] <==> k <= w.highest && w.highest - k in accepted))
  {
    hide CheckAndUpdate, WouldAccept, Run, Accepted, Fresh;
    RunReflects(calls);
    StepReflects(Run(calls), Accepted(calls), s);
  }

  /** No sequence number is accepted twice. */
  lemma AcceptedOnce(calls: seq<nat>, i: nat, j: nat)
    requires i < j < |calls| && ResultAt(calls, i).Ok? && ResultAt(calls, j).Ok?
    ensures calls[i] != calls[j]
  {
    var before := calls[..j];
    assert before[..i] == calls[..i] && before[i] == calls[i];
    assert ResultAt(before, i).Ok?;
    assert calls[i] in Accepted(before);
    DecidesByHistory(before, calls[j]);
  }

  // ----- The object

  class AntiReplayWindow {
    var highest: nat
    var bitmap: Bits
    var initialised: bool

    function Model(): Window
      reads this
    {
      Window(highest, bitmap, initialised)
    }

    constructor ()
      ensures Model() == Empty()
    {
      highest, bitmap, initialised := 0, Zero(), false;
    }

    method Check(s: nat) returns (r: Result<(), ReplayError>)
      modifies this
      ensures (Model(), r) == CheckAndUpdate(old(Model()), s)
    {
      if !initialised {
        highest, bitmap, initialised := s, OneAt(0), true;
        return Ok(());
      }
      if s > highest {
        var shift := s - highest;
        bitmap := if shift >= WINDOW_SIZE then OneAt(0) else Or(ShiftLeft(bitmap, shift), OneAt(0));
        highest := s;
        return Ok(());
      }
      var offset := highest - s;
      if offset >= WINDOW_SIZE {
        return Err(OutOfWindow);
      }
      var mask := OneAt(offset);
      if And(bitmap, mask) != Zero() {
        return Err(Duplicate);
      }
      bitmap := Or(bitmap, mask);
      return Ok(());
    }
  }
}
