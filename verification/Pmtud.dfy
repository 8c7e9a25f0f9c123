/** Path MTU discovery: shrink the probe until the path answers, never below the IPv6 minimum. */
module PmtudModel {
  import opened Wrappers
  import opened Arithmetic

  const MIN_MTU := 1280
  const STEP := 64
  const DEFAULT_MAX_ATTEMPTS := 5

  datatype State = Probing | Converged(size: nat) | Failed

  datatype Pmtud = Pmtud(state: State, currentProbe: nat, attempts: nat, maxAttempts: nat)

  function Start(initialMtu: nat, maxAttempts: nat): Pmtud {
    Pmtud(Probing, Max(initialMtu, MIN_MTU), 0, maxAttempts)
  }

  function Mtu(p: Pmtud): nat {
    match p.state
    case Probing => p.currentProbe
    case Converged(size) => size
    case Failed => MIN_MTU
  }

  function OnSuccess(p: Pmtud, probedSize: nat): Pmtud {
    if p.state.Failed? then p else p.(state := Converged(probedSize), attempts := 0)
  }

  function OnTimeout(p: Pmtud, probedSize: nat): Pmtud {
    if !p.state.Probing? || probedSize != p.currentProbe then p
    else
      var attempts := if p.attempts < 255 then p.attempts + 1 else 255;
      if p.currentProbe <= MIN_MTU then
        p.(attempts := attempts, state := if attempts >= p.maxAttempts then Failed else Probing)
      else
        p.(attempts := attempts, currentProbe := Max(p.currentProbe - STEP, MIN_MTU))
  }

  class PmtudMachine {
    var state: State
    var currentProbe: nat
    var attempts: nat
    const maxAttempts: nat

    function Model(): Pmtud
      reads this
    {
      Pmtud(state, currentProbe, attempts, maxAttempts)
    }

    constructor (initialMtu: nat, maxAttempts: nat := DEFAULT_MAX_ATTEMPTS)
      ensures Model() == Start(initialMtu, maxAttempts)
    {
      state, currentProbe, attempts := Probing, Max(initialMtu, MIN_MTU), 0;
      this.maxAttempts := maxAttempts;
    }

    method Success(probedSize: nat)
      modifies this
      ensures Model() == OnSuccess(old(Model()), probedSize)
    {
      if state.Failed? {
        return;
      }
      state, attempts := Converged(probedSize), 0;
    }

    method Timeout(probedSize: nat)
      modifies this
      ensures Model() == OnTimeout(old(Model()), probedSize)
    {
      if !state.Probing? {
        return;
      }
      if probedSize != currentProbe {
        return;
      }
      attempts := if attempts < 255 then attempts + 1 else 255;
      if currentProbe <= MIN_MTU {
        if attempts >= maxAttempts {
          state := Failed;
        }
        return;
      }
      currentProbe := Max(currentProbe - STEP, MIN_MTU);
    }

    method Reset(initialMtu: nat)
      modifies this
      ensures Model() == Start(initialMtu, maxAttempts)
    {
      state, currentProbe, attempts := Probing, Max(initialMtu, MIN_MTU), 0;
    }
  }

  // ----- Any sequence of calls

  datatype Call = Succeeded(size: nat) | TimedOut(size: nat) | Restart(initialMtu: nat)

  function Called(p: Pmtud, c: Call): Pmtud {
    match c
    case Succeeded(size) => OnSuccess(p, size)
    case TimedOut(size) => OnTimeout(p, size)
    case Restart(initialMtu) => Start(initialMtu, p.maxAttempts)
  }

  function CalledAll(p: Pmtud, calls: seq<Call>): Pmtud {
    if calls == [] then p else Called(CalledAll(p, calls[..|calls| - 1]), calls[|calls| - 1])
  }

  /** The probe never goes below the minimum; nor does the MTU, as long as no smaller size is
      reported to have succeeded. */
  lemma {:induction false} NeverBelowMinimum(initialMtu: nat, maxAttempts: nat, calls: seq<Call>)
    ensures var p := CalledAll(Start(initialMtu, maxAttempts), calls);
            && p.currentProbe >= MIN_MTU && p.maxAttempts == maxAttempts
            && ((forall i :: 0 <= i < |calls| && calls[i].Succeeded? ==> calls[i].size >= MIN_MTU) ==>
                  Mtu(p) >= MIN_MTU)
  {
    if calls != [] {
      NeverBelowMinimum(initialMtu, maxAttempts, calls[..|calls| - 1]);
    }
  }

  // ----- Every run, told from the calls alone

  /** The size the latest start began with. */
  function Base(initialMtu: nat, calls: seq<Call>): (s: nat)
    ensures s >= 1280
  {
    if calls == [] then Max(initialMtu, 1280)
    else if calls[|calls| - 1].Restart? then Max(calls[|calls| - 1].initialMtu, 1280)
    else Base(initialMtu, calls[..|calls| - 1])
  }

  /** How many timeouts since the latest start were about the size that was due: the base less one
      step for each before it. Timeouts about another size are stale. */
  function Silent(initialMtu: nat, calls: seq<Call>): nat {
    if calls == [] || calls[|calls| - 1].Restart? then 0
    else
      var init, c := calls[..|calls| - 1], calls[|calls| - 1];
      var j := Silent(initialMtu, init);
      if c.TimedOut? && c.size == Shrunk(Base(initialMtu, init), j) then j + 1 else j
  }

  /** The number of those timeouts at which discovery gives up. */
  function Limit(s: nat, maxAttempts: nat): nat
    requires s >= 1280
  {
    Max(Shrinks(s) + 1, maxAttempts)
  }

  /** The size last acknowledged since the latest start, if the first of them came before the limit. */
  function Answer(initialMtu: nat, maxAttempts: nat, calls: seq<Call>): Option<nat> {
    if calls == [] || calls[|calls| - 1].Restart? then None
    else
      var init, c := calls[..|calls| - 1], calls[|calls| - 1];
      var answer := Answer(initialMtu, maxAttempts, init);
      if !c.Succeeded? then answer
      else if answer.None? && Silent(initialMtu, init) >= Limit(Base(initialMtu, init), maxAttempts) then None
      else Some(c.size)
  }

  ghost predicate Discovered(p: Pmtud, s: nat, silent: nat, answer: Option<nat>)
    requires s >= 1280
  {
    match answer
    case Some(size) => p.state == Converged(size) && p.attempts == 0
    case None =>
      if silent >= Limit(s, p.maxAttempts) then p.state == Failed
      else
        && p.state == Probing && p.currentProbe == Shrunk(s, silent)
        && p.attempts == if silent < 255 then silent else 255
  }

  lemma TimeoutDiscovered(p: Pmtud, s: nat, silent: nat, answer: Option<nat>, size: nat)
    requires s >= 1280 && p.maxAttempts <= 255 && Discovered(p, s, silent, answer)
    ensures Discovered(OnTimeout(p, size), s, if size == Shrunk(s, silent) then silent + 1 else silent, answer)
  {
  }

  lemma {:induction false} RunDiscovered(initialMtu: nat, maxAttempts: nat, calls: seq<Call>)
    requires maxAttempts <= 255
    ensures var p := CalledAll(Start(initialMtu, maxAttempts), calls);
            && p.maxAttempts == maxAttempts
            && Discovered(p, Base(initialMtu, calls), Silent(initialMtu, calls), Answer(initialMtu, maxAttempts, calls))
  {
    if calls != [] {
      hide OnTimeout, Shrunk, Shrinks;
      var init, c := calls[..|calls| - 1], calls[|calls| - 1];
      RunDiscovered(initialMtu, maxAttempts, init);
      var (s, silent) := (Base(initialMtu, init), Silent(initialMtu, init));
      var p := CalledAll(Start(initialMtu, maxAttempts), init);
      match c
      case TimedOut(size) =>
        TimeoutDiscovered(p, s, silent, Answer(initialMtu, maxAttempts, init), size);
        TimeoutKeepsLimit(p, size);
      case Succeeded(_) =>
      case Restart(mtu) => StartShrunk(Max(mtu, 1280));
    } else {
      StartShrunk(Max(initialMtu, 1280));
    }
  }

  lemma TimeoutKeepsLimit(p: Pmtud, size: nat)
    ensures OnTimeout(p, size).maxAttempts == p.maxAttempts
  {
  }

  lemma StartShrunk(s: nat)
    requires s >= 1280
    ensures Shrunk(s, 0) == s
  {
  }

  /** After any calls the MTU is the size last acknowledged since the latest start; with none, it is
      the base less 64 for each timeout that was not stale, at least 1280; and 1280 once those reach
      the limit. */
  lemma MtuOfRun(initialMtu: nat, maxAttempts: nat, calls: seq<Call>)
    requires maxAttempts <= 255
    ensures var p := CalledAll(Start(initialMtu, maxAttempts), calls);
            var (s, silent) := (Base(initialMtu, calls), Silent(initialMtu, calls));
            match Answer(initialMtu, maxAttempts, calls) {
              case Some(size) => Mtu(p) == size && p.state.Converged? && p.attempts == 0
              case None =>
                && (p.state.Failed? <==> silent >= Limit(s, maxAttempts))
                && (p.state.Probing? <==> silent < Limit(s, maxAttempts))
                && Mtu(p) == if p.state.Probing? && 64 * silent + 1280 <= s then s - 64 * silent else 1280
            }
  {
    RunDiscovered(initialMtu, maxAttempts, calls);
  }

  // ----- Driving it on a path that answers exactly the sizes up to `m`

  function Driven(p: Pmtud, m: nat, n: nat): Pmtud {
    if n == 0 then p
    else
      var q := Driven(p, m, n - 1);
      if !q.state.Probing? then q
      else if q.currentProbe <= m then OnSuccess(q, q.currentProbe)
      else OnTimeout(q, q.currentProbe)
  }

  /** The probe size after `j` shrinks. */
  function Shrunk(s: nat, j: nat): nat {
    if 64 * j + MIN_MTU <= s then s - 64 * j else MIN_MTU
  }

  /** Number of shrinks from `s` to the minimum. */
  function Shrinks(s: nat): nat
    requires s >= MIN_MTU
  {
    (s - MIN_MTU + STEP - 1) / STEP
  }

  /** While the path stays silent and the machine has not given up, it has shrunk once a probe. */
  lemma {:induction false} SilentProbes(initialMtu: nat, maxAttempts: nat, m: nat, j: nat)
    requires maxAttempts <= 255
    requires forall i :: 0 <= i < j ==> Shrunk(Max(initialMtu, MIN_MTU), i) > m
    requires j < Max(Shrinks(Max(initialMtu, MIN_MTU)) + 1, maxAttempts)
    ensures Driven(Start(initialMtu, maxAttempts), m, j) ==
            Pmtud(Probing, Shrunk(Max(initialMtu, MIN_MTU), j), if j < 255 then j else 255, maxAttempts)
  {
    if j > 0 {
      SilentProbes(initialMtu, maxAttempts, m, j - 1);
      var s := Max(initialMtu, MIN_MTU);
      assert Shrunk(s, j - 1) > m;
    }
  }

  /** On a path that carries the minimum, discovery converges within `k + 1` probes to a size the
      path carries, and less than one step below the best unless it is the starting size. */
  lemma ConvergesOnUsablePath(initialMtu: nat, maxAttempts: nat, m: nat) returns (n: nat)
    requires maxAttempts <= 255 && m >= MIN_MTU
    ensures var s := Max(initialMtu, MIN_MTU);
            var p := Driven(Start(initialMtu, maxAttempts), m, n);
            && n <= Shrinks(s) + 1 && p.state.Converged?
            && p.state.size <= m && (p.state.size == s || m - p.state.size <= 63)
  {
    var s := Max(initialMtu, MIN_MTU);
    var j := 0;
    while Shrunk(s, j) > m
      invariant j <= Shrinks(s) && forall i :: 0 <= i < j ==> Shrunk(s, i) > m
      decreases Shrinks(s) - j
    {
      j := j + 1;
    }
    SilentProbes(initialMtu, maxAttempts, m, j);
    n := j + 1;
    assert j > 0 ==> Shrunk(s, j - 1) > m;
  }

  /** With a limit of one, a start at 1500 is still probing after one failure, and after four. */
  lemma LimitAloneIsTooFew()
    ensures Driven(Start(1500, 1), 0, 1).state == Probing && Driven(Start(1500, 1), 0, 4).state == Probing
    ensures Driven(Start(1500, 1), 0, 5).state == Failed
  {
    FailsOnBrokenPath(1500, 1, 0, 1);
    FailsOnBrokenPath(1500, 1, 0, 4);
    FailsOnBrokenPath(1500, 1, 0, 5);
  }

  /** On a path that cannot carry the minimum, it gives up after exactly the larger of `k + 1` and
      the attempt limit, and not before. */
  lemma {:induction false} FailsOnBrokenPath(initialMtu: nat, maxAttempts: nat, m: nat, n: nat)
    requires maxAttempts <= 255 && m < MIN_MTU
    ensures var last := Max(Shrinks(Max(initialMtu, MIN_MTU)) + 1, maxAttempts);
            Driven(Start(initialMtu, maxAttempts), m, n).state == if n < last then Probing else Failed
  {
    var last := Max(Shrinks(Max(initialMtu, MIN_MTU)) + 1, maxAttempts);
    if n < last {
      SilentProbes(initialMtu, maxAttempts, m, n);
    } else if n == last {
      SilentProbes(initialMtu, maxAttempts, m, n - 1);
    } else {
      FailsOnBrokenPath(initialMtu, maxAttempts, m, n - 1);
    }
  }
}
