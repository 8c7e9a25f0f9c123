/** Links, the link table, and the strategies that pick from its healthy links. */
module StrategyModel {
  import opened Arithmetic

  /** The peer address is not interpreted. */
  datatype Link = Link(id: nat, name: string, peer: string, weight: nat, healthy: bool)

  /** `LinkTable::healthy`. */
  function HealthyLinks(links: seq<Link>): (r: seq<Link>)
    ensures forall l :: l in r <==> l in links && l.healthy
  {
    if links == [] then []
    else (if links[0].healthy then [links[0]] else []) + HealthyLinks(links[1..])
  }

  lemma {:induction false} HealthyInOrder(a: seq<Link>, b: seq<Link>)
    ensures HealthyLinks(a + b) == HealthyLinks(a) + HealthyLinks(b)
  {
    if a == [] {
      assert a + b == b;
    } else {
      assert (a + b)[1..] == a[1..] + b;
      HealthyInOrder(a[1..], b);
    }
  }

  /** Each link of the table, wherever it stands, is kept in its place if its flag is set and left
      out otherwise. */
  lemma HealthyKeepsPlace(before: seq<Link>, link: Link, behind: seq<Link>)
    ensures HealthyLinks(before + ([link] + behind)) ==
            HealthyLinks(before) + ((if link.healthy then [link] else []) + HealthyLinks(behind))
  {
    HealthyInOrder(before, [link] + behind);
    assert ([link] + behind)[1..] == behind;
  }

  datatype Selection = One(link: Link) | Many(links: seq<Link>) | NoLink

  /** What every strategy owes its caller: only healthy links, and none exactly when there is none. */
  ghost predicate Sound(links: seq<Link>, sel: Selection) {
    match sel
    case NoLink => HealthyLinks(links) == []
    case One(l) => l in links && l.healthy
    case Many(ls) => ls != [] && forall l :: l in ls <==> l in links && l.healthy
  }

  // ----- Round robin

  /** The link index the `i`-th call from cursor `c` picks among `n`: the cursor is a wrapping word. */
  function RoundRobinPick(c: nat, i: nat, n: nat): (idx: nat)
    requires n > 0
    ensures idx < n
  {
    ((c + i) % WORD) % n
  }

  ghost predicate Picked(c: nat, n: nat, l: nat)
    requires n > 0
  {
    exists i :: 0 <= i < n && RoundRobinPick(c, i, n) == l
  }

  /** `n` consecutive calls pick each of `n` links exactly once. */
  ghost predicate Sweeps(c: nat, n: nat)
    requires n > 0
  {
    && (forall l :: 0 <= l < n ==> Picked(c, n, l))
    && (forall i, j :: 0 <= i < j < n ==> RoundRobinPick(c, i, n) != RoundRobinPick(c, j, n))
  }

  /** A sweep is clean exactly when the cursor does not wrap during it, or the number of links
      divides the word. */
  lemma SweepIff(c: nat, n: nat)
    requires 0 < n < WORD && c < WORD
    ensures Sweeps(c, n) <==> c + n <= WORD || WORD % n == 0
  {
    if c + n <= WORD || WORD % n == 0 {
      forall i | 0 <= i < n ensures RoundRobinPick(c, i, n) == (c + i) % n {
        PlainPick(c, i, n);
      }
      forall l | 0 <= l < n ensures Picked(c, n, l) {
        var x := TurnPosition(c, n, l);
        assert RoundRobinPick(c, x - c, n) == l;
      }
      forall i, j | 0 <= i < j < n ensures RoundRobinPick(c, i, n) != RoundRobinPick(c, j, n) {
        RemaindersDiffer(c + i, c + j, n);
      }
    } else {
      var i, j := Collision(c, n);
    }
  }

  /** Three links, and the cursor at its last value before the wrap. */
  lemma SweepMayRepeat()
    ensures !Sweeps(WORD - 1, 3) && RoundRobinPick(WORD - 1, 0, 3) == RoundRobinPick(WORD - 1, 1, 3) == 0
  {
    SweepIff(WORD - 1, 3);
  }

  lemma PlainPick(c: nat, i: nat, n: nat)
    requires 0 < n < WORD && i < n && (c + n <= WORD || WORD % n == 0)
    ensures RoundRobinPick(c, i, n) == (c + i) % n
  {
    if c + n > WORD {
      assert WORD == (WORD / n) * n;
      RemainderOfRemainder(c + i, n, WORD / n);
    }
  }

  /** When the cursor wraps and the count does not divide the word, two calls pick the same link. */
  lemma Collision(c: nat, n: nat) returns (i: nat, j: nat)
    requires 0 < n < WORD && c < WORD < c + n && WORD % n != 0
    ensures i < j < n && RoundRobinPick(c, i, n) == RoundRobinPick(c, j, n)
  {
    var a, q, r := WORD - c, WORD / n, WORD % n;
    assert WORD == q * n + r;
    var d := if r <= n - a then 0 else r - (n - a);
    i, j := a - 1 - d, a + (r - 1 - d);
    RemainderUnique(WORD - 1 - d, n, q, r - 1 - d);
    RemainderUnique(r - 1 - d, n, 0, r - 1 - d);
    assert (c + i) % WORD == WORD - 1 - d;
    assert (c + j) % WORD == r - 1 - d;
  }

  // ----- Weighted

  function Total(links: seq<Link>): nat {
    if links == [] then 0 else links[0].weight + Total(links[1..])
  }

  /** The links whose weights come before link `i`. */
  function Before(links: seq<Link>, i: nat): nat
    requires i <= |links|
  {
    Total(links[..i])
  }

  lemma {:induction false} TotalAppend(a: seq<Link>, b: seq<Link>)
    ensures Total(a + b) == Total(a) + Total(b)
  {
    if a == [] {
      assert a + b == b;
    } else {
      assert (a + b)[1..] == a[1..] + b;
      TotalAppend(a[1..], b);
    }
  }

  lemma BeforeNext(links: seq<Link>, i: nat)
    requires i < |links|
    ensures Before(links, i + 1) == Before(links, i) + links[i].weight
  {
    assert links[..i + 1] == links[..i] + [links[i]];
    TotalAppend(links[..i], [links[i]]);
  }

  lemma {:induction false} BeforeMonotone(links: seq<Link>, i: nat, j: nat)
    requires i <= j <= |links|
    ensures Before(links, i) <= Before(links, j)
  {
    if i < j {
      BeforeMonotone(links, i, j - 1);
      BeforeNext(links, j - 1);
    }
  }

  /** The cumulative walk. Given a pick below the total, it stops at the link whose share of the
      range contains the pick; the exit past the last link is not reached. */
  method WalkWeights(links: seq<Link>, pick: nat) returns (i: nat)
    requires pick < Total(links)
    ensures Picks(links, pick, i)
  {
    var cumulative := 0;
    i := 0;
    assert links[..|links|] == links;
    while i < |links|
      invariant i <= |links| && cumulative == Before(links, i) <= pick
    {
      BeforeNext(links, i);
      cumulative := cumulative + links[i].weight;
      if pick < cumulative {
        return;
      }
      i := i + 1;
    }
    assert false;
  }

  /** The walk selects link `i` for this pick. */
  predicate Picks(links: seq<Link>, pick: nat, i: nat) {
    i < |links| && Before(links, i) <= pick < Before(links, i + 1)
  }

  /** How many of the picks below `n` select link `i`. */
  function CountPicks(links: seq<Link>, i: nat, n: nat): nat {
    if n == 0 then 0 else CountPicks(links, i, n - 1) + if Picks(links, n - 1, i) then 1 else 0
  }

  lemma {:induction false} CountInterval(links: seq<Link>, i: nat, n: nat)
    requires i < |links|
    ensures var (lo, hi) := (Before(links, i), Before(links, i) + links[i].weight);
            CountPicks(links, i, n) == if n <= lo then 0 else if n <= hi then n - lo else hi - lo
  {
    BeforeNext(links, i);
    if n > 0 {
      CountInterval(links, i, n - 1);
    }
  }

  /** Exactly `weight` of the picks below the total select link `i`, and a pick selects one link
      only; so a link of weight zero is never selected. */
  lemma ExactShares(links: seq<Link>, i: nat)
    requires i < |links|
    ensures CountPicks(links, i, Total(links)) == links[i].weight
    ensures forall p: nat, j: nat :: Picks(links, p, i) && Picks(links, p, j) ==> i == j
  {
    BeforeNext(links, i);
    BeforeMonotone(links, i + 1, |links|);
    assert links[..|links|] == links;
    CountInterval(links, i, Total(links));
    forall p: nat, j: nat | Picks(links, p, i) && Picks(links, p, j) ensures i == j {
      if i < j { BeforeMonotone(links, i + 1, j); }
      if j < i { BeforeMonotone(links, j + 1, i); }
    }
  }

  // ----- The shared random source

  const SEED: bv64 := 0x9E37_79B9_7F4A_7C15

  function Xorshift64(x: bv64): bv64 {
    var y0 := if x == 0 then SEED else x;
    var y1 := y0 ^ (y0 << 13);
    var y2 := y1 ^ (y1 >> 7);
    y2 ^ (y2 << 17)
  }

  function Drawn(x: bv64): u64 {
    x as nat
  }

  lemma ShiftUpNonZero(y: bv64)
    requires y != 0
    ensures y ^ (y << 13) != 0
  {
  }

  lemma ShiftFartherUpNonZero(y: bv64)
    requires y != 0
    ensures y ^ (y << 17) != 0
  {
  }

  lemma ShiftDownNonZero(y: bv64)
    requires y != 0
    ensures y ^ (y >> 7) != 0
  {
  }

  /** It does yield a draw that samples a link of weight zero. */
  lemma ReachingDrawHappens()
    ensures Xorshift64(0x55AA_AAA5_4912_3870) == 0xFFFF_FF80_0000_0000
  {
  }

  /** The source never yields zero. */
  lemma XorshiftNonZero(x: bv64)
    ensures Xorshift64(x) != 0
  {
    var y0 := if x == 0 then SEED else x;
    ShiftUpNonZero(y0);
    var y1 := y0 ^ (y0 << 13);
    ShiftDownNonZero(y1);
    ShiftFartherUpNonZero(y1 ^ (y1 >> 7));
  }
}
