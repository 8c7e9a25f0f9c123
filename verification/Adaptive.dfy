/** The latency-adaptive strategy in the arithmetic it runs in: scores, sums and picks are binary32, the
    random part binary64, and every operation rounds. */
module AdaptiveModel {
  import opened Arithmetic
  import opened Floats
  import opened StrategyModel

  /** The weight of a link: its published score, or the default, but not below zero. */
  function Weight(scores: map<nat, real>, default: real, link: Link): (w: real)
    ensures w >= 0.0
  {
    var w := if link.id in scores then scores[link.id] else default;
    if w < 0.0 then 0.0 else w
  }

  function Weights(scores: map<nat, real>, default: real, links: seq<Link>): (r: seq<real>)
    ensures |r| == |links| && forall i :: 0 <= i < |r| ==> r[i] == Weight(scores, default, links[i])
  {
    seq(|links|, i requires 0 <= i < |links| => Weight(scores, default, links[i]))
  }

  /** What the probe loop does to the published scores. */
  datatype ScoreCall = UpdateScore(linkId: nat, score: real) | Forget(linkId: nat)

  function ScoresAfter(calls: seq<ScoreCall>): map<nat, real> {
    if calls == [] then map[]
    else
      var scores := ScoresAfter(calls[..|calls| - 1]);
      match calls[|calls| - 1]
      case UpdateScore(id, score) => scores[id := score]
      case Forget(id) => scores - {id}
  }

  lemma {:induction false} UnpublishedGetsDefault(calls: seq<ScoreCall>, default: real, link: Link)
    requires forall k :: 0 <= k < |calls| ==> calls[k].linkId != link.id
    ensures link.id !in ScoresAfter(calls)
    ensures Weight(ScoresAfter(calls), default, link) == if default >= 0.0 then default else 0.0
  {
    if calls != [] {
      UnpublishedGetsDefault(calls[..|calls| - 1], default, link);
    }
  }

  /** After any calls, a link weighs what the latest call about it says: the score it published, or
      the default if it forgot the link, and zero if that is negative. */
  lemma {:induction false} WeightIsLatest(calls: seq<ScoreCall>, default: real, link: Link, j: nat)
    requires j < |calls| && calls[j].linkId == link.id
    requires forall k :: j < k < |calls| ==> calls[k].linkId != link.id
    ensures var w := if calls[j].UpdateScore? then calls[j].score else default;
            Weight(ScoresAfter(calls), default, link) == if w >= 0.0 then w else 0.0
  {
    if j < |calls| - 1 {
      WeightIsLatest(calls[..|calls| - 1], default, link, j);
    }
  }

  ghost predicate NonNegative(weights: seq<real>) {
    forall k :: 0 <= k < |weights| ==> weights[k] >= 0.0
  }

  /** The sum of the first `n` weights, rounded after every addition. */
  function Cumulative(weights: seq<real>, n: nat): real
    requires n <= |weights|
  {
    if n == 0 then 0.0 else Fl(SINGLE, Cumulative(weights, n - 1) + weights[n - 1])
  }

  const TWO_64: real := 18446744073709551616.0

  /** The draw as a part of one: it is rounded to binary64, and so is the quotient by `u64::MAX`, which
      itself is rounded to 2^64. */
  function DrawnPart(draw: u64): real {
    Fl(DOUBLE, Fl(DOUBLE, draw as real) / TWO_64)
  }

  /** The drawn part of the total, rounded to binary64 and then to binary32. */
  function Pick(part: real, total: real): real {
    if total >= Infinity(SINGLE) then Infinity(SINGLE) else Fl(SINGLE, Fl(DOUBLE, part * total))
  }

  /** The first link whose cumulative weight is above the pick, or the last link. */
  ghost predicate Walks(weights: seq<real>, pick: real, i: nat) {
    && i < |weights|
    && (forall j :: 1 <= j <= i ==> Cumulative(weights, j) <= pick)
    && (pick < Cumulative(weights, i + 1) || i == |weights| - 1)
  }

  lemma {:induction false} CumulativeRounded(weights: seq<real>, n: nat)
    requires n <= |weights|
    ensures Fl(SINGLE, Cumulative(weights, n)) == Cumulative(weights, n)
  {
    hide Fl;
    FlIdempotent(SINGLE, if n == 0 then 0.0 else Cumulative(weights, n - 1) + weights[n - 1]);
  }

  lemma CumulativeStep(weights: seq<real>, n: nat)
    requires n < |weights| && weights[n] >= 0.0
    ensures Cumulative(weights, n) <= Cumulative(weights, n + 1)
    ensures weights[n] == 0.0 ==> Cumulative(weights, n + 1) == Cumulative(weights, n)
  {
    hide Fl;
    CumulativeRounded(weights, n);
    FlMonotone(SINGLE, Cumulative(weights, n), Cumulative(weights, n) + weights[n]);
  }

  /** A link of weight zero is picked exactly when it is the last and the rounded pick reaches the
      rounded total. */
  lemma ZeroWeightPickedIff(weights: seq<real>, pick: real, i: nat)
    requires NonNegative(weights) && pick >= 0.0 && Walks(weights, pick, i)
    ensures weights[i] == 0.0 <==> weights[|weights| - 1] == 0.0 && pick >= Cumulative(weights, |weights|)
  {
    hide Fl;
    var n := |weights|;
    CumulativeStep(weights, i);
    CumulativeStep(weights, n - 1);
    assert Cumulative(weights, i) <= pick;
    if i < n - 1 && pick >= Cumulative(weights, n) {
      CumulativeMonotone(weights, i + 1, n);
    }
  }

  lemma {:induction false} CumulativeMonotone(weights: seq<real>, i: nat, j: nat)
    requires i <= j <= |weights| && NonNegative(weights)
    ensures Cumulative(weights, i) <= Cumulative(weights, j)
  {
    hide Fl;
    if i < j {
      CumulativeMonotone(weights, i, j - 1);
      CumulativeStep(weights, j - 1);
    }
  }

  lemma OneLinkPerPick(weights: seq<real>, pick: real, i: nat, j: nat)
    requires Walks(weights, pick, i) && Walks(weights, pick, j)
    ensures i == j
  {
  }

  // ----- Which draws reach the total

  lemma Powers()
    ensures Pow2(0) == 1.0 && Pow2(11) == 2048.0 && Pow2(12) == 4096.0
    ensures Pow2(-14) == 1.0 / 16384.0 && Pow2(-25) == 1.0 / 33554432.0
  {
    assert Pow2(4) == 16.0 && Pow2(8) == 256.0;
    assert Pow2(-4) == 1.0 / 16.0 && Pow2(-8) == 1.0 / 256.0 && Pow2(-12) == 1.0 / 4096.0;
    assert Pow2(-16) == 1.0 / 65536.0 && Pow2(-20) == 1.0 / 1048576.0 && Pow2(-24) == 1.0 / 16777216.0;
  }

  lemma WholeNumbers()
    ensures IsFloat(DOUBLE, 1.0) && IsFloat(DOUBLE, TWO_64)
  {
    hide Pow2;
    Powers();
    assert Represents(DOUBLE, 1, 0, 1.0);
    assert Represents(DOUBLE, 0x10_0000_0000_0000, 12, TWO_64);
  }

  /** The 1024 largest draws, and with them `u64::MAX` itself, are rounded to 2^64. */
  lemma LargeAsDouble(draw: u64)
    requires draw >= WORD - 1024
    ensures Fl(DOUBLE, draw as real) == TWO_64
  {
    hide Pow2, Fl, Nearest;
    Powers();
    var y := draw as real / 2048.0;
    NearestReaches(y, DOUBLE.top);
    assert Nearest(y) == DOUBLE.top;
    FlBetween(DOUBLE, draw as real, 11, 2048.0, DOUBLE.top);
  }

  lemma PartRange(draw: u64)
    ensures 0.0 <= DrawnPart(draw) <= 1.0
    ensures draw >= WORD - 1024 ==> DrawnPart(draw) == 1.0
  {
    hide Fl, IsFloat;
    WholeNumbers();
    FlFixes(DOUBLE, 1.0);
    FlFixes(DOUBLE, TWO_64);
    FlIdempotent(DOUBLE, 0.0);
    FlMonotone(DOUBLE, 0.0, draw as real);
    FlMonotone(DOUBLE, draw as real, TWO_64);
    var part := Fl(DOUBLE, draw as real) / TWO_64;
    FlMonotone(DOUBLE, 0.0, part);
    FlMonotone(DOUBLE, part, 1.0);
    if draw >= WORD - 1024 {
      LargeAsDouble(draw);
    }
  }

  lemma PartMonotone(draw: u64, draw': u64)
    requires draw <= draw'
    ensures DrawnPart(draw) <= DrawnPart(draw')
  {
    hide Fl;
    FlMonotone(DOUBLE, draw as real, draw' as real);
    FlMonotone(DOUBLE, Fl(DOUBLE, draw as real) / TWO_64, Fl(DOUBLE, draw' as real) / TWO_64);
  }

  lemma PickMonotone(part: real, part': real, total: real)
    requires part <= part' && total >= 0.0
    ensures Pick(part, total) <= Pick(part', total)
  {
    hide Fl, Infinity;
    Product(part, part', total);
    FlMonotone(DOUBLE, part * total, part' * total);
    FlMonotone(SINGLE, Fl(DOUBLE, part * total), Fl(DOUBLE, part' * total));
  }

  lemma Product(a: real, b: real, c: real)
    requires a <= b && c >= 0.0
    ensures a * c <= b * c
  {
    assert (b - a) * c >= 0.0;
  }

  /** The whole of a total is the total, none of it is zero or infinite. */
  lemma PickEnds(weights: seq<real>)
    requires NonNegative(weights)
    ensures var total := Cumulative(weights, |weights|);
            total >= 0.0 && Pick(1.0, total) == total && Pick(0.0, total) >= 0.0
  {
    hide Fl, Infinity, IsFloat;
    var total := Cumulative(weights, |weights|);
    CumulativeMonotone(weights, 0, |weights|);
    CumulativeRounded(weights, |weights|);
    InfinityPositive(SINGLE);
    FlIsFloatOrInfinite(SINGLE, total);
    FlIdempotent(DOUBLE, 0.0);
    FlIdempotent(SINGLE, 0.0);
    FlRange(SINGLE, total);
    if total < Infinity(SINGLE) {
      SingleIsDouble(total);
      FlFixes(DOUBLE, total);
      assert 1.0 * total == total && 0.0 * total == 0.0;
    }
  }

  /** The pick is never negative and never above the total; the 1024 largest draws reach it, so does
      every draw above one that does, and a draw that does gets the last link. */
  lemma DrawsThatReach(weights: seq<real>, draw: u64, draw': u64)
    requires NonNegative(weights) && weights != [] && draw <= draw'
    ensures var total := Cumulative(weights, |weights|);
            var (pick, pick') := (Pick(DrawnPart(draw), total), Pick(DrawnPart(draw'), total));
            && 0.0 <= pick <= pick' <= total
            && (draw >= WORD - 1024 ==> pick == total)
            && (pick == total ==> Walks(weights, pick', |weights| - 1))
  {
    hide Fl, Pick, DrawnPart, Cumulative;
    var total := Cumulative(weights, |weights|);
    PickEnds(weights);
    PartRange(draw);
    PartRange(draw');
    PartMonotone(draw, draw');
    PickMonotone(0.0, DrawnPart(draw), total);
    PickMonotone(DrawnPart(draw), DrawnPart(draw'), total);
    PickMonotone(DrawnPart(draw'), 1.0, total);
    forall j | 1 <= j <= |weights| ensures Cumulative(weights, j) <= total {
      CumulativeMonotone(weights, j, |weights|);
    }
  }

  /** The link a draw samples has weight zero exactly when it is the last link, of weight zero, and the
      rounded pick reaches the total. */
  lemma ZeroWeightSampledIff(weights: seq<real>, draw: u64, i: nat)
    requires NonNegative(weights) && weights != []
    requires Walks(weights, Pick(DrawnPart(draw), Cumulative(weights, |weights|)), i)
    ensures var total := Cumulative(weights, |weights|);
            weights[i] == 0.0 <==> weights[|weights| - 1] == 0.0 && Pick(DrawnPart(draw), total) == total
  {
    hide Fl, Pick, DrawnPart, Cumulative, Walks;
    DrawsThatReach(weights, draw, draw);
    ZeroWeightPickedIff(weights, Pick(DrawnPart(draw), Cumulative(weights, |weights|)), i);
  }

  lemma TwentyFifths(m: int)
    requires -DOUBLE.top < m < DOUBLE.top
    ensures Fl(DOUBLE, m as real / 33554432.0) == m as real / 33554432.0
  {
    hide Pow2, Fl;
    Powers();
    assert Represents(DOUBLE, m, -25, m as real / 33554432.0);
    FlFixes(DOUBLE, m as real / 33554432.0);
  }

  lemma WholeDraw(m: nat, draw: u64)
    requires m < 0x200_0000 && draw == m * 0x80_0000_0000
    ensures Fl(DOUBLE, draw as real) == draw as real && draw as real / TWO_64 == m as real / 33554432.0
  {
    hide Pow2, Fl;
    Powers();
    var k := m * 0x800_0000;
    assert draw as real == k as real * 4096.0;
    assert Represents(DOUBLE, k, 12, draw as real);
    FlFixes(DOUBLE, draw as real);
    assert draw as real == m as real * 549755813888.0;
  }

  /** A draw of `m * 2^39`, with `m` below 2^25, is an exact part of one and of a thousand. */
  lemma ExactPart(m: nat, draw: u64)
    requires m < 0x200_0000 && draw == m * 0x80_0000_0000
    ensures DrawnPart(draw) == m as real / 33554432.0
    ensures Fl(DOUBLE, DrawnPart(draw) * 1000.0) == (1000 * m) as real / 33554432.0
  {
    hide Fl;
    WholeDraw(m, draw);
    TwentyFifths(m);
    TwentyFifths(1000 * m);
    assert m as real / 33554432.0 * 1000.0 == (1000 * m) as real / 33554432.0;
  }

  /** Near a thousand, binary32 has steps of 2^-14. */
  lemma NearThousand(x: real, n: int)
    requires 999.0 <= x <= 1001.0 && n as real - 0.5 < x * 16384.0 < n as real + 0.5
    ensures Fl(SINGLE, x) == n as real / 16384.0
  {
    hide Pow2, Fl, Nearest;
    Powers();
    var p := 1.0 / 16384.0;
    assert x / p == x * 16384.0;
    assert Nearest(x * 16384.0) == n;
    FlBetween(SINGLE, x, -14, p, n);
    assert n as real * p == n as real / 16384.0;
  }

  /** Weights of a thousand and zero: the draw 2^39 below 2^64, far from the largest, samples the link of
      weight zero; the draw 2^40 below does not. */
  lemma ZeroWeightSampled()
    ensures var w := [1000.0, 0.0];
            && Cumulative(w, 2) == 1000.0
            && Walks(w, Pick(DrawnPart(WORD - 0x80_0000_0000), 1000.0), 1)
            && Walks(w, Pick(DrawnPart(WORD - 0x100_0000_0000), 1000.0), 0)
  {
    hide Fl, DrawnPart;
    var w := [1000.0, 0.0];
    ThousandInRange();
    FlFixes(SINGLE, 1000.0);
    assert Cumulative(w, 1) == 1000.0 && Cumulative(w, 2) == 1000.0 by {
      assert Cumulative(w, 0) == 0.0;
    }
    ExactPart(0x1FF_FFFF, WORD - 0x80_0000_0000);
    NearThousand((1000 * 0x1FF_FFFF) as real / 33554432.0, 16384000);
    ExactPart(0x1FF_FFFE, WORD - 0x100_0000_0000);
    NearThousand((1000 * 0x1FF_FFFE) as real / 33554432.0, 16383999);
  }

  lemma ThousandInRange()
    ensures IsFloat(SINGLE, 1000.0) && 1000.0 < Infinity(SINGLE)
  {
    assert Represents(SINGLE, 1000, 0, 1000.0);
    FloatBelowInfinity(SINGLE, 1000.0, Infinity(SINGLE));
  }

  /** The walk over the cumulative weights, with a uniform pick when they are all zero. */
  method PickAdaptive(weights: seq<real>, draw: u64) returns (i: nat)
    requires weights != [] && NonNegative(weights)
    ensures i < |weights|
    ensures var total := Cumulative(weights, |weights|);
            if total <= 0.0 then i == draw % |weights| else Walks(weights, Pick(DrawnPart(draw), total), i)
  {
    hide Fl, Pick, DrawnPart;
    var total := 0.0;
    for k := 0 to |weights|
      invariant total == Cumulative(weights, k)
    {
      total := Fl(SINGLE, total + weights[k]);
    }
    if total <= 0.0 {
      return draw % |weights|;
    }
    var pick := Pick(DrawnPart(draw), total);
    var cumulative := 0.0;
    i := 0;
    while i < |weights|
      invariant i <= |weights| && cumulative == Cumulative(weights, i)
      invariant forall j :: 1 <= j <= i ==> Cumulative(weights, j) <= pick
    {
      cumulative := Fl(SINGLE, cumulative + weights[i]);
      if pick < cumulative {
        return;
      }
      i := i + 1;
    }
    i := |weights| - 1;
  }
}
