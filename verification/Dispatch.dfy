/** The suggestion for an unknown subcommand: the registered name at least edit distance. */
module DispatchModel {
  import opened Arithmetic
  import opened Wrappers

  // ----- Edits, the meaning of the distance

  /** One single-character edit. */
  datatype Edit = Insert(at: nat, c: char) | Delete(at: nat) | Replace(at: nat, c: char)

  predicate Fits(e: Edit, s: string) {
    match e
    case Insert(i, _) => i <= |s|
    case Delete(i) => i < |s|
    case Replace(i, _) => i < |s|
  }

  function Edited(e: Edit, s: string): string
    requires Fits(e, s)
  {
    match e
    case Insert(i, c) => s[..i] + [c] + s[i..]
    case Delete(i) => s[..i] + s[i + 1..]
    case Replace(i, c) => s[..i] + [c] + s[i + 1..]
  }

  /** The script turns `s` into `t`. */
  predicate Turns(script: seq<Edit>, s: string, t: string) {
    if script == [] then s == t
    else Fits(script[0], s) && Turns(script[1..], Edited(script[0], s), t)
  }

  // ----- The recurrence the rows compute

  function Lev(s: string, t: string): nat
    decreases |s| + |t|
  {
    if s == "" then |t|
    else if t == "" then |s|
    else
      var s', t' := s[..|s| - 1], t[..|t| - 1];
      var cost := if s[|s| - 1] == t[|t| - 1] then 0 else 1;
      Min(Min(Lev(s', t) + 1, Lev(s, t') + 1), Lev(s', t') + cost)
  }

  // ----- No script is shorter

  /** Edits before the last character leave it in place. */
  lemma EditBeforeLast(e: Edit, s: string)
    requires s != "" && Fits(e, s[..|s| - 1]) && e.at < |s| - 1 + (if e.Insert? then 1 else 0)
    ensures Fits(e, s) && Edited(e, s) == Edited(e, s[..|s| - 1]) + [s[|s| - 1]]
  {
    var init, last := s[..|s| - 1], [s[|s| - 1]];
    assert s == init + last && s[..e.at] == init[..e.at];
    match e
    case Insert(i, _) => assert s[i..] == init[i..] + last;
    case _ => assert s[e.at + 1..] == init[e.at + 1..] + last;
  }

  /** Shortening or lengthening one side by its last character costs at most one. */
  lemma LevSnoc(s: string, t: string)
    ensures t != "" ==> Lev(s, t) <= Lev(s, t[..|t| - 1]) + 1
    ensures s != "" ==> Lev(s, t) <= Lev(s[..|s| - 1], t) + 1
  {
  }

  /** One edit changes the distance to any target by at most one. */
  lemma {:induction false} EditCostsOne(e: Edit, s: string, t: string)
    requires Fits(e, s)
    ensures Lev(s, t) <= Lev(Edited(e, s), t) + 1
    decreases |s| + |t|
  {
    var b := Edited(e, s);
    LevSnoc(s, t);
    if t != "" {
      EditCostsOne(e, s, t[..|t| - 1]);
      if s != "" && Fits(e, s[..|s| - 1]) {
        EditBeforeLast(e, s);
        EditCostsOne(e, s[..|s| - 1], t);
        EditCostsOne(e, s[..|s| - 1], t[..|t| - 1]);
        assert b[..|b| - 1] == Edited(e, s[..|s| - 1]);
      } else {
        EditAtEnd(e, s);
      }
    }
  }

  /** An edit at the end changes only the last character. */
  lemma EditAtEnd(e: Edit, s: string)
    requires Fits(e, s) && (s == "" || !Fits(e, s[..|s| - 1]))
    ensures var b := Edited(e, s);
            match e
            case Insert(_, c) => b == s + [c] && b[..|b| - 1] == s
            case Delete(_) => b == s[..|s| - 1]
            case Replace(_, c) => b == s[..|s| - 1] + [c] && b[..|b| - 1] == s[..|s| - 1]
  {
  }

  lemma {:induction false} NoScriptShorter(script: seq<Edit>, s: string, t: string)
    requires Turns(script, s, t)
    ensures Lev(s, t) <= |script|
    decreases |script|
  {
    if script == [] {
      LevSelf(s);
    } else {
      NoScriptShorter(script[1..], Edited(script[0], s), t);
      EditCostsOne(script[0], s, t);
    }
  }

  lemma {:induction false} LevSelf(s: string)
    ensures Lev(s, s) == 0
    decreases |s|
  {
    if s != "" {
      LevSelf(s[..|s| - 1]);
    }
  }

  // ----- Some script is that short

  lemma {:induction false} TurnsAppend(p: seq<Edit>, q: seq<Edit>, s: string, u: string, t: string)
    requires Turns(p, s, u) && Turns(q, u, t)
    ensures Turns(p + q, s, t)
    decreases |p|
  {
    hide Edited, Fits;
    if p == [] {
      assert p + q == q;
    } else {
      TurnsAppend(p[1..], q, Edited(p[0], s), u, t);
      assert (p + q)[1..] == p[1..] + q;
    }
  }

  /** A script works in front of any common last character. */
  lemma {:induction false} TurnsBeforeLast(script: seq<Edit>, s: string, t: string, c: char)
    requires Turns(script, s, t)
    ensures Turns(script, s + [c], t + [c])
    decreases |script|
  {
    if script != [] {
      assert (s + [c])[..|s + [c]| - 1] == s;
      EditBeforeLast(script[0], s + [c]);
      TurnsBeforeLast(script[1..], Edited(script[0], s), t, c);
    }
  }

  lemma NoEdits(s: string) returns (script: seq<Edit>)
    ensures script == [] && Turns(script, s, s)
  {
    script := [];
  }

  lemma InsertLast(t: string) returns (e: Edit)
    requires t != ""
    ensures Turns([e], t[..|t| - 1], t)
  {
    e := Insert(|t| - 1, t[|t| - 1]);
    assert Edited(e, t[..|t| - 1]) == t;
  }

  lemma DeleteLast(s: string) returns (e: Edit)
    requires s != ""
    ensures Turns([e], s, s[..|s| - 1])
  {
    e := Delete(|s| - 1);
    assert Edited(e, s) == s[..|s| - 1];
  }

  lemma {:induction false} BestScript(s: string, t: string) returns (script: seq<Edit>)
    ensures Turns(script, s, t) && |script| == Lev(s, t)
    decreases |s| + |t|
  {
    hide Turns;
    if s == "" && t == "" {
      script := NoEdits(s);
    } else if t != "" && Lev(s, t) == Lev(s, t[..|t| - 1]) + 1 {
      var p := BestScript(s, t[..|t| - 1]);
      var e := InsertLast(t);
      script := p + [e];
      TurnsAppend(p, [e], s, t[..|t| - 1], t);
    } else if s != "" && Lev(s, t) == Lev(s[..|s| - 1], t) + 1 {
      var p := BestScript(s[..|s| - 1], t);
      var e := DeleteLast(s);
      script := [e] + p;
      TurnsAppend([e], p, s, s[..|s| - 1], t);
    } else {
      script := DiagonalScript(s, t);
    }
  }

  lemma {:induction false} DiagonalScript(s: string, t: string) returns (script: seq<Edit>)
    requires s != "" && t != ""
    requires Lev(s, t) == Lev(s[..|s| - 1], t[..|t| - 1]) + if s[|s| - 1] == t[|t| - 1] then 0 else 1
    ensures Turns(script, s, t) && |script| == Lev(s, t)
    decreases |s| + |t|, 0
  {
    var s', t', c, d := s[..|s| - 1], t[..|t| - 1], s[|s| - 1], t[|t| - 1];
    assert s == s' + [c] && t == t' + [d];
    script := BestScript(s', t');
    TurnsBeforeLast(script, s', t', c);
    if c != d {
      var e := Replace(|t| - 1, d);
      assert Edited(e, t' + [c]) == t;
      TurnsAppend(script, [e], s, t' + [c], t);
      script := script + [e];
    }
  }

  /** The distance is the least length of a script that turns `s` into `t`. */
  lemma LevIsLeastEdits(s: string, t: string)
    ensures exists script :: Turns(script, s, t) && |script| == Lev(s, t)
    ensures forall script :: Turns(script, s, t) ==> Lev(s, t) <= |script|
  {
    var best := BestScript(s, t);
    forall script | Turns(script, s, t) ensures Lev(s, t) <= |script| {
      NoScriptShorter(script, s, t);
    }
  }

  /** Hence it is a metric. */
  lemma LevIsMetric(s: string, t: string, u: string)
    ensures Lev(s, t) == 0 <==> s == t
    ensures Lev(s, t) == Lev(t, s)
    ensures Lev(s, u) <= Lev(s, t) + Lev(t, u)
  {
    var p := BestScript(s, t);
    var q := BestScript(t, u);
    LevSelf(s);
    TurnsAppend(p, q, s, t, u);
    NoScriptShorter(p + q, s, u);
    LevSymmetric(s, t);
  }

  lemma {:induction false} LevSymmetric(s: string, t: string)
    ensures Lev(s, t) == Lev(t, s)
    decreases |s| + |t|
  {
    if s != "" && t != "" {
      LevSymmetric(s[..|s| - 1], t);
      LevSymmetric(s, t[..|t| - 1]);
      LevSymmetric(s[..|s| - 1], t[..|t| - 1]);
    }
  }

  // ----- The two-row loop

  lemma {:induction false} LevStep(s: string, t: string)
    requires s != "" && t != ""
    ensures Lev(s, t) ==
            Min(Min(Lev(s[..|s| - 1], t) + 1, Lev(s, t[..|t| - 1]) + 1),
                Lev(s[..|s| - 1], t[..|t| - 1]) + if s[|s| - 1] == t[|t| - 1] then 0 else 1)
  {
  }

  /** One cell of the table, from its three neighbours. */
  lemma LevCell(s: string, t: string, i: nat, j: nat)
    requires 1 <= i <= |s| && 1 <= j <= |t|
    ensures Lev(s[..i], t[..j]) ==
            Min(Min(Lev(s[..i - 1], t[..j]) + 1, Lev(s[..i], t[..j - 1]) + 1),
                Lev(s[..i - 1], t[..j - 1]) + if s[i - 1] == t[j - 1] then 0 else 1)
  {
    hide Lev;
    var a, b := s[..i], t[..j];
    assert a[..|a| - 1] == s[..i - 1] && a[|a| - 1] == s[i - 1];
    assert b[..|b| - 1] == t[..j - 1] && b[|b| - 1] == t[j - 1];
    LevStep(a, b);
  }

  lemma LevEdge(s: string, t: string)
    ensures Lev("", t) == |t| && Lev(s, "") == |s|
  {
  }

  method FillRow(s: string, t: string, i: nat, prev: array<nat>, curr: array<nat>)
    requires 1 <= i <= |s| && prev != curr && prev.Length == curr.Length == |t| + 1
    requires forall j :: 0 <= j <= |t| ==> prev[j] == Lev(s[..i - 1], t[..j])
    modifies curr
    ensures forall j :: 0 <= j <= |t| ==> curr[j] == Lev(s[..i], t[..j])
  {
    hide Lev;
    LevEdge(s[..i], t);
    curr[0] := i;
    for j := 1 to |t| + 1
      invariant forall k :: 0 <= k < j ==> curr[k] == Lev(s[..i], t[..k])
      invariant forall k :: 0 <= k <= |t| ==> prev[k] == Lev(s[..i - 1], t[..k])
    {
      LevCell(s, t, i, j);
      var cost := if s[i - 1] == t[j - 1] then 0 else 1;
      curr[j] := Min(Min(prev[j] + 1, curr[j - 1] + 1), prev[j - 1] + cost);
    }
  }

  method Levenshtein(s: string, t: string) returns (d: nat)
    ensures d == Lev(s, t)
  {
    hide Lev;
    var m, n := |s|, |t|;
    LevEdge(s, t);
    if m == 0 {
      return n;
    }
    if n == 0 {
      return m;
    }
    var prev := new nat[n + 1](j => j);
    var curr := new nat[n + 1](_ => 0);
    forall j | 0 <= j <= n ensures prev[j] == Lev(s[..0], t[..j]) {
      LevEdge(s, t[..j]);
    }
    for i := 1 to m + 1
      invariant prev != curr && prev.Length == curr.Length == n + 1 && fresh(prev) && fresh(curr)
      invariant forall j :: 0 <= j <= n ==> prev[j] == Lev(s[..i - 1], t[..j])
    {
      FillRow(s, t, i, prev, curr);
      prev, curr := curr, prev;
    }
    assert s[..m] == s && t[..n] == t;
    d := prev[n];
  }

  /** The first registered name of least distance among those within three. */
  method ClosestMatch(names: seq<string>, input: string) returns (r: Option<string>)
    ensures r.None? <==> forall i :: 0 <= i < |names| ==> Lev(input, names[i]) > 3
    ensures r.Some? ==> exists k :: 0 <= k < |names| && r.value == names[k] && IsFirstBest(names, input, k)
  {
    hide Lev;
    var best: Option<(nat, string)> := None;
    ghost var at := 0;
    for i := 0 to |names|
      invariant best.None? <==> forall j :: 0 <= j < i ==> Lev(input, names[j]) > 3
      invariant best.Some? ==>
        at < i && best.value == (Lev(input, names[at]), names[at]) && IsFirstBest(names[..i], input, at)
    {
      var d := Levenshtein(input, names[i]);
      if d <= 3 && (best.None? || d < best.value.0) {
        best := Some((d, names[i]));
        at := i;
      }
    }
    assert names[..|names|] == names;
    r := if best.None? then None else Some(best.value.1);
  }

  ghost predicate IsFirstBest(names: seq<string>, input: string, k: nat) {
    && k < |names| && Lev(input, names[k]) <= 3
    && (forall j :: 0 <= j < k ==> Lev(input, names[j]) > Lev(input, names[k]))
    && (forall j :: k <= j < |names| ==> Lev(input, names[j]) >= Lev(input, names[k]))
  }
}
