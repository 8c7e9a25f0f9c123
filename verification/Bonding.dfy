/** The bonding engine and the failover controller: probe outcomes decide which links of the table
    are healthy, and the strategies pick only from those. */
module BondingModel {
  import opened Wrappers
  import opened Arithmetic
  import opened LinkStateModel
  import opened StrategyModel
  import opened AdaptiveModel

  /** The strategies with their interior state: a wrapping cursor or a random state. */
  datatype Strategy =
    | RoundRobin(next: u64)
    | Weighted(rng: bv64)
    | LatencyAdaptive(rng: bv64, scores: map<nat, real>, default: real)
    | Redundant

  /** A draw picks by the links' weights, or uniformly when they are all zero. */
  ghost predicate ByWeight(healthy: seq<Link>, draw: nat, sel: Selection)
    requires healthy != []
  {
    if Total(healthy) == 0 then sel == One(healthy[draw % |healthy|])
    else exists i: nat :: Picks(healthy, draw % Total(healthy), i) && sel == One(healthy[i])
  }

  ghost predicate ByScore(healthy: seq<Link>, weights: seq<real>, draw: u64, sel: Selection)
    requires |weights| == |healthy| > 0
  {
    var total := Cumulative(weights, |weights|);
    if total <= 0.0 then sel == One(healthy[draw % |healthy|])
    else exists i: nat :: Walks(weights, Pick(DrawnPart(draw), total), i) && sel == One(healthy[i])
  }

  /** What each strategy does on a non-empty list of healthy links. */
  ghost predicate Chosen(strategy: Strategy, healthy: seq<Link>, sel: Selection, strategy': Strategy)
    requires healthy != []
  {
    match strategy
    case RoundRobin(next) =>
      sel == One(healthy[RoundRobinPick(next, 0, |healthy|)]) && strategy' == RoundRobin((next + 1) % WORD)
    case Weighted(rng) =>
      strategy' == Weighted(Xorshift64(rng)) && ByWeight(healthy, Drawn(Xorshift64(rng)), sel)
    case LatencyAdaptive(rng, scores, default) =>
      && strategy' == strategy.(rng := Xorshift64(rng))
      && ByScore(healthy, Weights(scores, default, healthy), Drawn(Xorshift64(rng)), sel)
    case Redundant => sel == Many(healthy) && strategy' == strategy
  }

  class Engine {
    var strategy: Strategy
    var links: seq<Link>

    constructor (strategy: Strategy, links: seq<Link>)
      ensures this.strategy == strategy && this.links == links
    {
      this.strategy, this.links := strategy, links;
    }

    method SwapStrategy(newStrategy: Strategy)
      modifies `strategy
      ensures strategy == newStrategy
    {
      strategy := newStrategy;
    }

    method SwapLinks(newLinks: seq<Link>)
      modifies `links
      ensures links == newLinks
    {
      links := newLinks;
    }

    /** Schedule one packet with the current strategy over the current table. */
    method Schedule() returns (sel: Selection)
      modifies `strategy
      ensures Sound(links, sel)
      ensures HealthyLinks(links) != [] ==> Chosen(old(strategy), HealthyLinks(links), sel, strategy)
      ensures HealthyLinks(links) == [] ==> sel == NoLink && strategy == old(strategy)
    {
      hide Xorshift64, RoundRobinPick, Total, Picks, Cumulative, Walks, Pick, DrawnPart, Drawn, Sound, HealthyLinks;
      var healthy := HealthyLinks(links);
      if healthy == [] {
        NoneHealthy(links);
        return NoLink;
      }
      ghost var was := strategy;
      match strategy {
        case RoundRobin(next) =>
          var idx := PickRoundRobin(next, |healthy|);
          strategy := RoundRobin((next + 1) % WORD);
          sel := One(healthy[idx]);
        case Weighted(rng) =>
          var y := Xorshift64(rng);
          strategy := Weighted(y);
          var i := PickWeighted(Drawn(y), healthy);
          sel := One(healthy[i]);
        case LatencyAdaptive(rng, scores, default) =>
          var y := Xorshift64(rng);
          strategy := strategy.(rng := y);
          var i := PickAdaptive(Weights(scores, default, healthy), Drawn(y));
          sel := One(healthy[i]);
        case Redundant =>
          sel := Many(healthy);
      }
      ChosenIsSound(was, links, sel, strategy);
    }
  }

  lemma NoneHealthy(links: seq<Link>)
    requires HealthyLinks(links) == []
    ensures Sound(links, NoLink)
  {
  }

  lemma ChosenIsSound(strategy: Strategy, links: seq<Link>, sel: Selection, strategy': Strategy)
    requires HealthyLinks(links) != [] && Chosen(strategy, HealthyLinks(links), sel, strategy')
    ensures Sound(links, sel)
  {
    hide Xorshift64, RoundRobinPick, Total, Picks, Cumulative, Walks, Pick, DrawnPart, Drawn;
    var healthy := HealthyLinks(links);
    if sel.One? {
      assert sel.link in healthy by { ChosenIsHealthy(strategy, healthy, sel, strategy'); }
    }
  }

  lemma ChosenIsHealthy(strategy: Strategy, healthy: seq<Link>, sel: Selection, strategy': Strategy)
    requires healthy != [] && sel.One? && Chosen(strategy, healthy, sel, strategy')
    ensures sel.link in healthy
  {
    hide Xorshift64, Total, Before, Cumulative, Pick, DrawnPart, Drawn;
  }

  method PickRoundRobin(next: u64, n: nat) returns (idx: nat)
    requires n > 0
    ensures idx == RoundRobinPick(next, 0, n)
  {
    idx := next % n;
  }

  /** The weighted sampler: a uniform pick when every weight is zero, else the cumulative walk. */
  method PickWeighted(draw: nat, healthy: seq<Link>) returns (i: nat)
    requires healthy != []
    ensures i < |healthy|
    ensures Total(healthy) == 0 ==> i == draw % |healthy|
    ensures Total(healthy) > 0 ==> Picks(healthy, draw % Total(healthy), i)
  {
    var total := Total(healthy);
    if total == 0 {
      return draw % |healthy|;
    }
    i := WalkWeights(healthy, draw % total);
  }

  /** The verdict on a link: unregistered links count as healthy. */
  function Alive(machines: map<nat, Machine>, id: nat): bool {
    id !in machines || machines[id].state.IsBondable()
  }

  /** The table with each healthy flag set to the verdict and everything else kept. */
  function Judged(machines: map<nat, Machine>, links: seq<Link>): (r: seq<Link>)
    ensures |r| == |links|
    ensures forall i :: 0 <= i < |links| ==> r[i] == links[i].(healthy := Alive(machines, links[i].id))
  {
    if links == [] then []
    else [links[0].(healthy := Alive(machines, links[0].id))] + Judged(machines, links[1..])
  }

  datatype LinkTransition = LinkTransition(linkId: nat, from: LinkState, to: LinkState)

  function Changed(id: nat, from: LinkState, to: LinkState): Option<LinkTransition> {
    if from == to then None else Some(LinkTransition(id, from, to))
  }

  /** The report lists the transitions of exactly the given links. */
  ghost predicate ReportsAll(out: seq<LinkTransition>, was: map<nat, Machine>, now: map<nat, Machine>, ids: set<nat>)
    requires was.Keys == now.Keys
  {
    forall t :: t in out <==>
      t.linkId in ids && t.linkId in was && Changed(t.linkId, was[t.linkId].state, now[t.linkId].state) == Some(t)
  }

  ghost predicate NoRepeats(out: seq<LinkTransition>) {
    forall i, j :: 0 <= i < j < |out| ==> out[i] != out[j]
  }

  /** Half way through a tick of all machines: those in `left` are still as they were, the others
      have ticked and their transitions are in the report. */
  ghost predicate Ticking(out: seq<LinkTransition>, was: map<nat, Machine>, now: map<nat, Machine>, left: set<nat>,
                          nowMs: nat)
  {
    && now.Keys == was.Keys && left <= was.Keys
    && (forall id :: id in was ==> now[id] == if id in left then was[id] else OnTick(was[id], nowMs))
    && ReportsAll(out, was, now, was.Keys - left) && NoRepeats(out)
  }

  lemma TickingEnds(out: seq<LinkTransition>, was: map<nat, Machine>, now: map<nat, Machine>, nowMs: nat)
    ensures Ticking([], was, was, was.Keys, nowMs)
    ensures Ticking(out, was, now, {}, nowMs) ==>
      && now == (map id | id in was :: OnTick(was[id], nowMs))
      && ReportsAll(out, was, now, was.Keys) && NoRepeats(out)
  {
    hide OnTick;
    assert was.Keys - {} == was.Keys;
  }

  lemma TickingStep(out: seq<LinkTransition>, was: map<nat, Machine>, now: map<nat, Machine>, left: set<nat>,
                    nowMs: nat, id: nat)
    requires Ticking(out, was, now, left, nowMs) && id in left
    ensures var m := OnTick(was[id], nowMs);
            var t := Changed(id, was[id].state, m.state);
            && now[id] == was[id]
            && Ticking(if t.Some? then out + [t.value] else out, was, now[id := m], left - {id}, nowMs)
  {
    hide OnTick;
    assert was.Keys - (left - {id}) == was.Keys - left + {id};
    ReportOne(out, was, now, was.Keys - left, id, OnTick(was[id], nowMs));
  }

  lemma ReportOne(out: seq<LinkTransition>, was: map<nat, Machine>, now: map<nat, Machine>, ids: set<nat>,
                  id: nat, m: Machine)
    requires was.Keys == now.Keys && id in was && id !in ids && ReportsAll(out, was, now, ids) && NoRepeats(out)
    ensures var t := Changed(id, was[id].state, m.state);
            var out' := if t.Some? then out + [t.value] else out;
            ReportsAll(out', was, now[id := m], ids + {id}) && NoRepeats(out')
  {
  }

  class FailoverController {
    var machines: map<nat, LinkStateMachine>

    /** No two links share a machine. */
    ghost predicate Valid()
      reads this
    {
      forall a, b :: a in machines && b in machines && a != b ==> machines[a] != machines[b]
    }

    ghost function Model(): map<nat, Machine>
      reads this, machines.Values
    {
      map id | id in machines :: machines[id].Model()
    }

    constructor ()
      ensures Valid() && machines == map[] && Model() == map[]
    {
      machines := map[];
    }

    method Register(id: nat)
      requires Valid()
      modifies this
      ensures Valid() && id in machines && fresh(machines.Values - old(machines.Values))
      ensures Model() == if id in old(Model()) then old(Model()) else old(Model())[id := New()]
    {
      if id !in machines {
        var m := new LinkStateMachine();
        machines := machines[id := m];
      }
    }

    method Deregister(id: nat)
      requires Valid()
      modifies this
      ensures Valid() && machines.Values <= old(machines.Values)
      ensures Model() == old(Model()) - {id}
    {
      machines := machines - {id};
    }

    method ProbeRegistered(id: nat, sample: ProbeSample, nowMs: nat) returns (t: Option<LinkTransition>)
      requires Valid() && id in machines
      modifies machines[id]
      ensures Model() == old(Model())[id := OnProbe(old(Model())[id], sample, nowMs)]
      ensures t == Changed(id, old(Model())[id].state, OnProbe(old(Model())[id], sample, nowMs).state)
    {
      hide OnProbe;
      var r := machines[id].Probe(sample, nowMs);
      t := if r.None? then None else Some(LinkTransition(id, r.value.from, r.value.to));
    }

    /** Feed a probe outcome for one link, registering it if it is new. */
    method Probe(id: nat, sample: ProbeSample, nowMs: nat) returns (t: Option<LinkTransition>)
      requires Valid()
      modifies this, machines.Values
      ensures Valid() && fresh(machines.Values - old(machines.Values))
      ensures Model() == Signalled(old(Model()), ProbeFor(id, sample, nowMs))
      ensures t == Changed(id, if id in old(Model()) then old(Model())[id].state else Healthy, Model()[id].state)
    {
      hide OnProbe;
      Register(id);
      t := ProbeRegistered(id, sample, nowMs);
    }

    method TickRegistered(id: nat, nowMs: nat) returns (t: Option<LinkTransition>)
      requires Valid() && id in machines
      modifies machines[id]
      ensures Model() == old(Model())[id := OnTick(old(Model())[id], nowMs)]
      ensures t == Changed(id, old(Model())[id].state, OnTick(old(Model())[id], nowMs).state)
    {
      hide OnTick;
      var r := machines[id].Tick(nowMs);
      t := if r.None? then None else Some(LinkTransition(id, r.value.from, r.value.to));
    }

    /** Advance every machine's clock; reports each transition that fired, once. */
    method Tick(nowMs: nat) returns (out: seq<LinkTransition>)
      requires Valid()
      modifies machines.Values
      ensures Model() == map id | id in old(Model()) :: OnTick(old(Model())[id], nowMs)
      ensures ReportsAll(out, old(Model()), Model(), old(Model()).Keys) && NoRepeats(out)
    {
      hide OnTick, Ticking, Changed;
      out := [];
      var left := machines.Keys;
      ghost var was := Model();
      assert left == was.Keys;
      TickingEnds(out, was, was, nowMs);
      while left != {}
        modifies machines.Values
        invariant left <= machines.Keys && Ticking(out, was, Model(), left, nowMs)
        decreases |left|
      {
        var id :| id in left;
        TickingStep(out, was, Model(), left, nowMs, id);
        var t := TickRegistered(id, nowMs);
        if t.Some? {
          out := out + [t.value];
        }
        left := left - {id};
      }
      TickingEnds(out, was, Model(), nowMs);
    }

    /** Rebuild the engine's table so that every healthy flag is the verdict of its machine, and
        swap it in if anything changed. */
    method ApplyToEngine(engine: Engine)
      modifies engine`links
      ensures engine.links == Judged(Model(), old(engine.links))
    {
      var current := engine.links;
      var dirty := false;
      var rebuilt: seq<Link> := [];
      for i := 0 to |current|
        invariant |rebuilt| == i
        invariant forall j :: 0 <= j < i ==> rebuilt[j] == current[j].(healthy := Alive(Model(), current[j].id))
        invariant !dirty ==> rebuilt == current[..i]
      {
        var existing := current[i];
        var state := if existing.id in machines then machines[existing.id].state else Healthy;
        var shouldBeHealthy := state.IsBondable();
        if existing.healthy != shouldBeHealthy {
          dirty := true;
        }
        rebuilt := rebuilt + [Link(existing.id, existing.name, existing.peer, existing.weight, shouldBeHealthy)];
      }
      if dirty {
        engine.SwapLinks(rebuilt);
      }
    }
  }

  /** With the table as the controller left it, whatever any strategy selects is a link whose
      machine is not dead, and nothing is selected exactly when every link's machine is dead. */
  lemma NoDeadLinkSelected(machines: map<nat, Machine>, links: seq<Link>, sel: Selection)
    requires Sound(Judged(machines, links), sel)
    ensures sel.One? ==>
      Alive(machines, sel.link.id) && exists i :: 0 <= i < |links| && links[i].(healthy := true) == sel.link
    ensures sel.Many? ==> forall l :: l in sel.links ==> Alive(machines, l.id)
    ensures sel.NoLink? <==> forall i :: 0 <= i < |links| ==> !Alive(machines, links[i].id)
  {
    var judged := Judged(machines, links);
    forall i | 0 <= i < |links| && Alive(machines, links[i].id) ensures judged[i] in HealthyLinks(judged) {
    }
    if sel.Many? {
      assert sel.links[0] in judged;
    }
  }

  // ----- From probe history to scheduling

  datatype Signal =
    | ProbeFor(id: nat, sample: ProbeSample, nowMs: nat)
    | TickAll(nowMs: nat)
    | Add(id: nat)
    | Remove(id: nat)

  /** The machines of a controller after one call. */
  function Signalled(machines: map<nat, Machine>, signal: Signal): map<nat, Machine> {
    match signal
    case ProbeFor(id, sample, nowMs) =>
      machines[id := OnProbe(MachineAt(machines, id), sample, nowMs)]
    case TickAll(nowMs) => map id | id in machines :: OnTick(machines[id], nowMs)
    case Add(id) => if id in machines then machines else machines[id := New()]
    case Remove(id) => machines - {id}
  }

  function SignalledAll(signals: seq<Signal>): map<nat, Machine> {
    if signals == [] then map[] else Signalled(SignalledAll(signals[..|signals| - 1]), signals[|signals| - 1])
  }

  /** What happened to one link since it was last removed: its own probes, and every tick. */
  function EventsOf(signals: seq<Signal>, id: nat): seq<Event> {
    if signals == [] then []
    else
      var before := EventsOf(signals[..|signals| - 1], id);
      match signals[|signals| - 1]
      case TickAll(nowMs) => before + [Ticked(nowMs)]
      case ProbeFor(k, sample, nowMs) => if k == id then before + [Probed(sample, nowMs)] else before
      case Add(_) => before
      case Remove(k) => if k == id then [] else before
  }

  /** Each machine is driven by its own link's history since the link was last removed, whatever the
      other links do. */
  lemma {:induction false} MachineOfHistory(signals: seq<Signal>, id: nat)
    ensures MachineAt(SignalledAll(signals), id) == After(New(), EventsOf(signals, id))
  {
    if signals != [] {
      hide After, OnProbe, OnTick, MachineAt;
      var init, last := signals[..|signals| - 1], signals[|signals| - 1];
      MachineOfHistory(init, id);
      MachineAfter(SignalledAll(init), last, id);
      var events := EventsOf(init, id);
      match last
      case TickAll(nowMs) => AfterSnoc(New(), events, Ticked(nowMs));
      case ProbeFor(_, sample, nowMs) => AfterSnoc(New(), events, Probed(sample, nowMs));
      case Add(_) =>
      case Remove(_) => NothingYet(New(), 0);
    } else {
      NothingYet(New(), 0);
    }
  }

  /** The machine that stands for a link: a new one if it is not registered. */
  function MachineAt(machines: map<nat, Machine>, id: nat): Machine {
    if id in machines then machines[id] else New()
  }

  lemma MachineAfter(machines: map<nat, Machine>, signal: Signal, id: nat)
    ensures MachineAt(Signalled(machines, signal), id) ==
            match signal {
              case ProbeFor(k, sample, nowMs) =>
                if k == id then OnProbe(MachineAt(machines, id), sample, nowMs) else MachineAt(machines, id)
              case TickAll(nowMs) => OnTick(MachineAt(machines, id), nowMs)
              case Add(_) => MachineAt(machines, id)
              case Remove(k) => if k == id then New() else MachineAt(machines, id)
            }
  {
  }

  /** The verdict on a link after any run depends on its own history alone. */
  lemma VerdictOfHistory(signals: seq<Signal>, id: nat)
    ensures Alive(SignalledAll(signals), id) <==> !After(New(), EventsOf(signals, id)).state.Dead?
  {
    MachineOfHistory(signals, id);
  }

  /** One call on a controller. */
  method Deliver(c: FailoverController, signal: Signal)
    requires c.Valid()
    modifies c, c.machines.Values
    ensures c.Valid() && fresh(c.machines.Values - old(c.machines.Values))
    ensures c.Model() == Signalled(old(c.Model()), signal)
  {
    match signal
    case ProbeFor(id, sample, nowMs) =>
      var _ := c.Probe(id, sample, nowMs);
    case TickAll(nowMs) =>
      var _ := c.Tick(nowMs);
    case Add(id) =>
      c.Register(id);
    case Remove(id) =>
      c.Deregister(id);
  }

  /** The selection uses only links that are not dead by their own history, and is empty only
      when all are dead. */
  ghost predicate SafeFor(signals: seq<Signal>, links: seq<Link>, sel: Selection) {
    && (sel.One? ==> !After(New(), EventsOf(signals, sel.link.id)).state.Dead?)
    && (sel.Many? ==> forall l :: l in sel.links ==> !After(New(), EventsOf(signals, l.id)).state.Dead?)
    && (sel.NoLink? <==> forall i :: 0 <= i < |links| ==> After(New(), EventsOf(signals, links[i].id)).state.Dead?)
  }

  lemma SafeSelection(signals: seq<Signal>, links: seq<Link>, sel: Selection)
    requires Sound(Judged(SignalledAll(signals), links), sel)
    ensures SafeFor(signals, links, sel)
  {
    NoDeadLinkSelected(SignalledAll(signals), links, sel);
    forall id: nat ensures Alive(SignalledAll(signals), id) <==> !After(New(), EventsOf(signals, id)).state.Dead? {
      VerdictOfHistory(signals, id);
    }
  }

  // ----- Whole sessions

  /** A call on the controller, the update of the engine, a packet, or a swap of either handle. */
  datatype Action = Told(signal: Signal) | Apply | Packet | SwapTo(strategy: Strategy) | SwapTable(links: seq<Link>)

  /** What a session has come to: the calls on the controller, the table, and, as long as no other
      table was swapped in since, the calls there had been at the last update. */
  datatype View = View(signals: seq<Signal>, links: seq<Link>, applied: Option<seq<Signal>>)

  function Viewed(v: View, a: Action): View {
    match a
    case Told(signal) => v.(signals := v.signals + [signal])
    case Apply => v.(links := Judged(SignalledAll(v.signals), v.links), applied := Some(v.signals))
    case SwapTable(links) => v.(links := links, applied := None)
    case _ => v
  }

  function ViewOf(links: seq<Link>, actions: seq<Action>): View {
    if actions == [] then View([], links, None)
    else Viewed(ViewOf(links, actions[..|actions| - 1]), actions[|actions| - 1])
  }

  lemma SignalledSnoc(signals: seq<Signal>, signal: Signal)
    ensures SignalledAll(signals + [signal]) == Signalled(SignalledAll(signals), signal)
  {
    assert (signals + [signal])[..|signals|] == signals;
  }

  lemma JudgedTwice(machines: map<nat, Machine>, links: seq<Link>)
    ensures Judged(machines, Judged(machines, links)) == Judged(machines, links)
  {
  }

  /** The table is the verdict of the calls at the last update, and stays so until the next swap. */
  lemma {:induction false} TableJudged(links: seq<Link>, actions: seq<Action>)
    ensures var v := ViewOf(links, actions);
            v.applied.Some? ==> v.links == Judged(SignalledAll(v.applied.value), v.links)
  {
    hide SignalledAll, Judged;
    if actions != [] {
      var v := ViewOf(links, actions[..|actions| - 1]);
      TableJudged(links, actions[..|actions| - 1]);
      JudgedTwice(SignalledAll(v.signals), v.links);
    }
  }

  /** What a packet gets at some point of a session. */
  ghost predicate Served(v: View, sel: Selection) {
    Sound(v.links, sel) && (v.applied.Some? ==> SafeFor(v.applied.value, v.links, sel))
  }

  /** Every packet of a session, and nothing else, gets a selection, and is served. */
  ghost predicate AllServed(links: seq<Link>, actions: seq<Action>, sels: seq<Option<Selection>>) {
    && |sels| == |actions|
    && (forall k :: 0 <= k < |actions| ==> (sels[k].Some? <==> actions[k].Packet?))
    && (forall k :: 0 <= k < |actions| && sels[k].Some? ==> Served(ViewOf(links, actions[..k]), sels[k].value))
  }

  /** One action. */
  method Act(c: FailoverController, engine: Engine, a: Action, ghost v: View) returns (sel: Option<Selection>)
    requires c.Valid() && c.Model() == SignalledAll(v.signals) && engine.links == v.links
    modifies c, c.machines.Values, engine
    ensures c.Valid() && fresh(c.machines.Values - old(c.machines.Values))
    ensures c.Model() == SignalledAll(Viewed(v, a).signals) && engine.links == Viewed(v, a).links
    ensures sel.Some? <==> a.Packet?
    ensures sel.Some? ==> Sound(v.links, sel.value)
  {
    hide Signalled, SignalledAll, Judged, Sound;
    sel := None;
    match a
    case Told(signal) =>
      SignalledSnoc(v.signals, signal);
      Deliver(c, signal);
    case Apply =>
      c.ApplyToEngine(engine);
    case Packet =>
      var s := engine.Schedule();
      sel := Some(s);
    case SwapTo(strategy) =>
      engine.SwapStrategy(strategy);
    case SwapTable(table) =>
      engine.SwapLinks(table);
  }

  /** In any session, whatever is registered, removed, probed, ticked, swapped and sent in whatever
      order: while the table of an update is in place, no packet goes to a link that was dead at that
      update by its own history, and one is dropped only when all were. */
  method RunSession(actions: seq<Action>, engine: Engine) returns (sels: seq<Option<Selection>>)
    modifies engine
    ensures engine.links == ViewOf(old(engine.links), actions).links
    ensures AllServed(old(engine.links), actions, sels)
  {
    hide AllServed, Sound, SignalledAll, Viewed;
    ghost var links := engine.links;
    var c := new FailoverController();
    sels := [];
    StartOfSession(links);
    for i := 0 to |actions|
      invariant fresh(c) && fresh(c.machines.Values) && c.Valid()
      invariant c.Model() == SignalledAll(ViewOf(links, actions[..i]).signals)
      invariant engine.links == ViewOf(links, actions[..i]).links
      invariant AllServed(links, actions[..i], sels)
    {
      assert actions[..i + 1][..i] == actions[..i] && actions[..i + 1] == actions[..i] + [actions[i]];
      var sel := Act(c, engine, actions[i], ViewOf(links, actions[..i]));
      OneMoreServed(links, actions[..i], sels, actions[i], sel);
      sels := sels + [sel];
    }
    assert actions[..|actions|] == actions;
  }

  lemma StartOfSession(links: seq<Link>)
    ensures ViewOf(links, []) == View([], links, None) && SignalledAll([]) == map[] && AllServed(links, [], [])
  {
  }

  lemma OneMoreServed(links: seq<Link>, actions: seq<Action>, sels: seq<Option<Selection>>, a: Action,
                      sel: Option<Selection>)
    requires AllServed(links, actions, sels) && (sel.Some? <==> a.Packet?)
    requires sel.Some? ==> Sound(ViewOf(links, actions).links, sel.value)
    ensures AllServed(links, actions + [a], sels + [sel])
  {
    hide Sound, Served, ViewOf;
    if sel.Some? {
      ServedAt(links, actions, sel.value);
    }
    var more := actions + [a];
    assert forall k :: 0 <= k <= |actions| ==> more[..k] == actions[..k];
    assert actions[..|actions|] == actions;
  }

  lemma ServedAt(links: seq<Link>, actions: seq<Action>, sel: Selection)
    requires Sound(ViewOf(links, actions).links, sel)
    ensures Served(ViewOf(links, actions), sel)
  {
    hide Sound, SafeFor;
    var v := ViewOf(links, actions);
    TableJudged(links, actions);
    if v.applied.Some? {
      SafeSelection(v.applied.value, v.links, sel);
    }
  }

  /** Consecutive round-robin calls over an unchanged table pick along the wrapping cursor. */
  method RoundRobinCalls(engine: Engine, calls: nat) returns (sels: seq<Selection>)
    requires engine.strategy.RoundRobin? && HealthyLinks(engine.links) != []
    modifies engine`strategy
    ensures |sels| == calls
    ensures forall i :: 0 <= i < calls ==>
      var healthy := HealthyLinks(engine.links);
      sels[i] == One(healthy[RoundRobinPick(old(engine.strategy).next, i, |healthy|)])
  {
    hide RoundRobinPick, Sound;
    ghost var c, n := engine.strategy.next, |HealthyLinks(engine.links)|;
    sels := [];
    for i := 0 to calls
      invariant engine.strategy == RoundRobin((c + i) % WORD) && |sels| == i
      invariant forall j :: 0 <= j < i ==>
        var healthy := HealthyLinks(engine.links);
        sels[j] == One(healthy[RoundRobinPick(c, j, |healthy|)])
    {
      CursorAdvance(c, i, n);
      var sel := engine.Schedule();
      sels := sels + [sel];
    }
  }

  /** The random state after `n` draws. */
  function Iterated(rng: bv64, n: nat): bv64 {
    if n == 0 then rng else Xorshift64(Iterated(rng, n - 1))
  }

  /** Consecutive calls of a random strategy over an unchanged table: the `i`-th samples by draw
      `i + 1` of the generator, by the weights or the published scores. */
  method RandomCalls(engine: Engine, calls: nat) returns (sels: seq<Selection>)
    requires (engine.strategy.Weighted? || engine.strategy.LatencyAdaptive?) && HealthyLinks(engine.links) != []
    modifies engine`strategy
    ensures |sels| == calls
    ensures engine.strategy == old(engine.strategy).(rng := Iterated(old(engine.strategy).rng, calls))
    ensures forall i :: 0 <= i < calls ==>
      Sampled(old(engine.strategy), HealthyLinks(engine.links), Iterated(old(engine.strategy).rng, i + 1), sels[i])
  {
    hide Xorshift64, Sound, ByWeight, ByScore, HealthyLinks;
    ghost var was := engine.strategy;
    sels := [];
    for i := 0 to calls
      invariant engine.strategy == was.(rng := Iterated(was.rng, i)) && |sels| == i
      invariant forall j :: 0 <= j < i ==>
        Sampled(was, HealthyLinks(engine.links), Iterated(was.rng, j + 1), sels[j])
    {
      var sel := engine.Schedule();
      sels := sels + [sel];
    }
  }

  /** A selection by the draw `rng`. */
  ghost predicate Sampled(strategy: Strategy, healthy: seq<Link>, rng: bv64, sel: Selection)
    requires healthy != []
  {
    match strategy
    case Weighted(_) => ByWeight(healthy, Drawn(rng), sel)
    case LatencyAdaptive(_, scores, default) => ByScore(healthy, Weights(scores, default, healthy), Drawn(rng), sel)
    case _ => false
  }

  lemma CursorAdvance(c: u64, i: nat, n: nat)
    requires n > 0
    ensures RoundRobinPick((c + i) % WORD, 0, n) == RoundRobinPick(c, i, n)
    ensures ((c + i) % WORD + 1) % WORD == (c + (i + 1)) % WORD
  {
    WordNext(c + i);
    assert ((c + i) % WORD + 0) % WORD == (c + i) % WORD;
  }
}
