/** The few facts about products, remainders and powers of two that the other modules share. */
module Arithmetic {

  /** A machine word (`u64`, `usize`) has this many values. */
  const WORD: nat := 0x1_0000_0000_0000_0000

  const MAX_U64: nat := WORD - 1

  type u64 = x: nat | x < WORD

  function Min(a: nat, b: nat): nat { if a <= b then a else b }

  function Max(a: nat, b: nat): nat { if a < b then b else a }

  lemma WordNext(x: nat)
    ensures (x % WORD + 1) % WORD == (x + 1) % WORD
  {
  }

  function DivCeil(x: nat, y: nat): nat
    requires y > 0
  {
    (x + y - 1) / y
  }

  lemma DivCeilStep(x: nat, y: nat)
    requires y > 0
    ensures DivCeil(x, y) == if x == 0 then 0 else if x <= y then 1 else DivCeil(x - y, y) + 1
  {
    if x == 0 {
      RemainderUnique(y - 1, y, 0, y - 1);
    } else if x <= y {
      RemainderUnique(x + y - 1, y, 1, x - 1);
    } else {
      RemainderUnique(x - 1 + y, y, (x - 1) / y + 1, (x - 1) % y);
    }
  }

  ghost function MinKey(keys: set<nat>): (k: nat)
    requires keys != {}
    ensures k in keys && forall j :: j in keys ==> k <= j
  {
    var x :| x in keys;
    if keys == {x} then x
    else
      assert keys == (keys - {x}) + {x};
      var y := MinKey(keys - {x});
      if x < y then x else y
  }

  predicate IsPowerOfTwo(n: nat) {
    n == 1 || (n > 1 && n % 2 == 0 && IsPowerOfTwo(n / 2))
  }

  lemma MulAtLeast(k: int, c: nat)
    requires k >= 1
    ensures k * c >= c
  {
  }

  lemma MulMonotone(a: nat, b: nat, c: nat)
    ensures a <= b ==> a * c <= b * c
  {
    assert (b - a) * c == b * c - a * c;
  }

  lemma QuotientUnique(c: nat, q: int, r: int, q': int, r': int)
    requires 0 <= r < c && 0 <= r' < c
    requires q * c + r == q' * c + r'
    ensures q == q' && r == r'
  {
    assert (q - q') * c == q * c - q' * c;
    if q > q' {
      MulAtLeast(q - q', c);
    } else if q < q' {
      assert (q' - q) * c == q' * c - q * c;
      MulAtLeast(q' - q, c);
    }
  }

  lemma RemainderUnique(x: int, c: nat, q: int, r: int)
    requires 0 <= r < c && x == q * c + r
    ensures x / c == q && x % c == r
  {
    assert x == (x / c) * c + x % c;
    QuotientUnique(c, x / c, x % c, q, r);
  }

  /** Numbers less than `c` apart have different remainders. */
  lemma RemaindersDiffer(i: nat, j: nat, c: nat)
    requires i < j < i + c
    ensures i % c != j % c
  {
    if i % c == j % c {
      var q, r := i / c, i % c;
      var q' := j / c;
      assert i == q * c + r && j == q' * c + r;
      assert (q' - q) * c == q' * c - q * c;
      if q' > q {
        MulAtLeast(q' - q, c);
      } else {
        assert (q - q') * c == q * c - q' * c;
        if q > q' { MulAtLeast(q - q', c); }
      }
    }
  }

  /** Reducing modulo a multiple of `c` first does not change the remainder modulo `c`. */
  lemma RemainderOfRemainder(x: nat, c: nat, k: nat)
    requires 0 < c && 0 < k * c
    ensures (x % (k * c)) % c == x % c
  {
    var w := k * c;
    var q, r := x / w, x % w;
    assert x == q * w + r;
    assert q * w == (q * k) * c;
    assert r == (r / c) * c + r % c;
    assert x == (q * k + r / c) * c + r % c by {
      assert (q * k + r / c) * c == (q * k) * c + (r / c) * c;
    }
    RemainderUnique(x, c, q * k + r / c, r % c);
  }

  /** Of two powers of two the smaller divides the larger. */
  lemma {:induction false} PowerDivides(c: nat, w: nat) returns (k: nat)
    requires IsPowerOfTwo(c) && IsPowerOfTwo(w) && c <= w
    ensures k * c == w
    decreases w
  {
    if c == w {
      k := 1;
    } else {
      PowerBelow(c, w);
      var k' := PowerDivides(c, w / 2);
      k := 2 * k';
      assert k * c == 2 * (k' * c);
    }
  }

  /** No power of two lies strictly between one and its double. */
  lemma {:induction false} PowerBelow(c: nat, w: nat)
    requires IsPowerOfTwo(c) && IsPowerOfTwo(w) && c < w
    ensures c <= w / 2 && IsPowerOfTwo(w / 2)
    decreases w
  {
    if c > 1 {
      PowerBelow(c / 2, w / 2);
    }
  }

  lemma PowerDoubled(n: nat)
    requires IsPowerOfTwo(n)
    ensures IsPowerOfTwo(2 * n)
  {
    assert (2 * n) / 2 == n;
  }

  lemma PowerTimes16(n: nat)
    requires IsPowerOfTwo(n)
    ensures IsPowerOfTwo(16 * n)
  {
    hide IsPowerOfTwo;
    PowerDoubled(n);
    PowerDoubled(2 * n);
    PowerDoubled(4 * n);
    PowerDoubled(8 * n);
  }

  lemma PowerTimes65536(n: nat)
    requires IsPowerOfTwo(n)
    ensures IsPowerOfTwo(65536 * n)
  {
    hide IsPowerOfTwo;
    PowerTimes16(n);
    PowerTimes16(16 * n);
    PowerTimes16(256 * n);
    PowerTimes16(4096 * n);
  }

  lemma WordIsPower()
    ensures IsPowerOfTwo(WORD)
  {
    PowerTimes65536(1);
    PowerTimes65536(0x1_0000);
    PowerTimes65536(0x1_0000_0000);
    PowerTimes65536(0x1_0000_0000_0000);
  }

  /** One turn of `c` consecutive numbers starts and ends on the same remainder, met only there. */
  lemma OneTurn(n: nat, c: nat)
    requires c > 0
    ensures (n + c) % c == n % c
    ensures forall i :: n < i < n + c ==> i % c != n % c
  {
    RemainderUnique(n + c, c, n / c + 1, n % c);
    forall i | n < i < n + c ensures i % c != n % c {
      RemaindersDiffer(n, i, c);
    }
  }

  /** One turn of `capacity` consecutive numbers meets every remainder. */
  lemma TurnPosition(start: nat, capacity: nat, j: nat) returns (i: nat)
    requires j < capacity
    ensures start <= i < start + capacity && i % capacity == j
  {
    var q, r := start / capacity, start % capacity;
    if r <= j {
      i := start + (j - r);
      RemainderUnique(i, capacity, q, j);
    } else {
      i := start + (j + capacity - r);
      RemainderUnique(i, capacity, q + 1, j);
    }
  }

  lemma {:induction false} RangeSize(keys: set<nat>, lo: nat, hi: nat)
    requires lo <= hi && forall k :: k in keys ==> lo <= k < hi
    ensures |keys| <= hi - lo
    decreases hi - lo
  {
    if lo == hi {
      assert keys == {};
    } else {
      RangeSize(keys - {lo}, lo + 1, hi);
    }
  }
}
