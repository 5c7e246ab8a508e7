/** The spell suggester of the scaffolder (cli/src/utils.ts). */
module EditDistance {
  import opened Common

  function Min3(a: nat, b: nat, c: nat): nat {
    if a <= b && a <= c then a else if b <= c then b else c
  }

  function Cost(x: char, y: char): nat {
    if x == y then 0 else 1
  }

  /** The recurrence on the last characters. */
  function Dist(a: string, b: string): nat
    decreases |a| + |b|
  {
    if a == "" then |b|
    else if b == "" then |a|
    else
      var a', b' := a[..|a| - 1], b[..|b| - 1];
      Min3(Dist(a', b) + 1, Dist(a, b') + 1, Dist(a', b') + Cost(a[|a| - 1], b[|b| - 1]))
  }

  /** The distance of the first i characters of a from the first j of b. */
  function Cell(a: string, b: string, i: nat, j: nat): nat
    requires i <= |a| && j <= |b|
  {
    Dist(a[..i], b[..j])
  }

  lemma CellRule(a: string, b: string, i: nat, j: nat)
    requires i <= |a| && j <= |b|
    ensures i == 0 ==> Cell(a, b, i, j) == j
    ensures j == 0 ==> Cell(a, b, i, j) == i
    ensures i > 0 && j > 0 ==>
              Cell(a, b, i, j) ==
              Min3(Cell(a, b, i - 1, j) + 1, Cell(a, b, i, j - 1) + 1, Cell(a, b, i - 1, j - 1) + Cost(a[i - 1], b[j - 1]))
  {
    if i > 0 && j > 0 { assert a[..i][..i - 1] == a[..i - 1] && b[..j][..j - 1] == b[..j - 1]; }
  }

  /** editDistance: the table is filled in place, row by row. */
  method TableDistance(a: string, b: string) returns (d: nat)
    ensures d == Dist(a, b)
  {
    var rows, cols := |a| + 1, |b| + 1;
    var dist := new nat[rows, cols]((i, j) => 0);
    for i := 0 to rows
      invariant forall k :: 0 <= k < i ==> dist[k, 0] == k
    {
      dist[i, 0] := i;
    }
    for j := 0 to cols
      invariant forall k :: 0 <= k < rows ==> dist[k, 0] == k
      invariant forall k :: 0 <= k < j ==> dist[0, k] == k
    {
      dist[0, j] := j;
    }
    forall q: nat | q < cols ensures Cell(a, b, 0, q) == q { CellRule(a, b, 0, q); }
    for i := 1 to rows
      invariant forall p: nat, q: nat :: p < i && q < cols ==> dist[p, q] == Cell(a, b, p, q)
      invariant forall p :: i <= p < rows ==> dist[p, 0] == p
    {
      hide Cell;
      CellRule(a, b, i, 0);
      for j := 1 to cols
        invariant forall p: nat, q: nat :: p < i && q < cols ==> dist[p, q] == Cell(a, b, p, q)
        invariant forall q: nat :: q < j ==> dist[i, q] == Cell(a, b, i, q)
        invariant forall p :: i < p < rows ==> dist[p, 0] == p
      {
        CellRule(a, b, i, j);
        var cost := if a[i - 1] == b[j - 1] then 0 else 1;
        dist[i, j] := Min3(dist[i - 1, j] + 1, dist[i, j - 1] + 1, dist[i - 1, j - 1] + cost);
      }
    }
    assert a[..|a|] == a && b[..|b|] == b;
    return dist[|a|, |b|];
  }

  // ---------------------------------------------------------------- edits

  datatype Edit = Insert(at: nat, c: char) | Delete(at: nat) | Substitute(at: nat, c: char)

  predicate Applies(e: Edit, s: string) {
    match e
    case Insert(at, _) => at <= |s|
    case Delete(at) => at < |s|
    case Substitute(at, _) => at < |s|
  }

  function Apply(e: Edit, s: string): string
    requires Applies(e, s)
  {
    match e
    case Insert(at, c) => s[..at] + [c] + s[at..]
    case Delete(at) => s[..at] + s[at + 1..]
    case Substitute(at, c) => s[..at] + [c] + s[at + 1..]
  }

  /** The edits, made one after the other anywhere in the string, turn a into b. */
  predicate Turns(edits: seq<Edit>, a: string, b: string) {
    if edits == [] then a == b
    else Applies(edits[0], a) && Turns(edits[1..], Apply(edits[0], a), b)
  }

  // ---------------------------------------------------------------- Dist is attained

  lemma {:induction false} TurnsThen(x: seq<Edit>, y: seq<Edit>, a: string, b: string, c: string)
    requires Turns(x, a, b) && Turns(y, b, c)
    ensures Turns(x + y, a, c)
  {
    if x == [] {
      assert x + y == y;
    } else {
      assert (x + y)[1..] == x[1..] + y;
      TurnsThen(x[1..], y, Apply(x[0], a), b, c);
    }
  }

  lemma AppliesBefore(e: Edit, a: string, tail: string)
    requires Applies(e, a)
    ensures Applies(e, a + tail) && Apply(e, a + tail) == Apply(e, a) + tail
  {
    assert (a + tail)[..e.at] == a[..e.at];
    if e.Insert? {
      assert (a + tail)[e.at..] == a[e.at..] + tail;
    } else {
      assert (a + tail)[e.at + 1..] == a[e.at + 1..] + tail;
    }
  }

  /** Edits of a string can be made on it with something after it. */
  lemma {:induction false} TurnsBefore(edits: seq<Edit>, a: string, b: string, tail: string)
    requires Turns(edits, a, b)
    ensures Turns(edits, a + tail, b + tail)
  {
    hide Apply, Applies;
    if edits != [] {
      AppliesBefore(edits[0], a, tail);
      TurnsBefore(edits[1..], Apply(edits[0], a), b, tail);
    }
  }

  lemma OneTurns(e: Edit, a: string)
    requires Applies(e, a)
    ensures Turns([e], a, Apply(e, a))
  {
    assert [e][1..] == [];
  }

  lemma {:induction false} DistIsAttained(a: string, b: string) returns (edits: seq<Edit>)
    ensures Turns(edits, a, b) && |edits| == Dist(a, b)
    decreases |a| + |b|
  {
    if a == "" && b == "" {
      edits := [];
    } else if b == "" || (a != "" && Dist(a, b) == Dist(a[..|a| - 1], b) + 1) {
      var a', e := a[..|a| - 1], Delete(|a| - 1);
      var rest := DistIsAttained(a', b);
      assert Apply(e, a) == a';
      hide Turns, Apply;
      OneTurns(e, a);
      TurnsThen([e], rest, a, a', b);
      edits := [e] + rest;
    } else if a == "" || Dist(a, b) == Dist(a, b[..|b| - 1]) + 1 {
      var b', e := b[..|b| - 1], Insert(|b| - 1, b[|b| - 1]);
      var rest := DistIsAttained(a, b');
      assert Apply(e, b') == b;
      hide Turns, Apply;
      OneTurns(e, b');
      TurnsThen(rest, [e], a, b', b);
      edits := rest + [e];
    } else {
      edits := AttainedByLast(a, b);
    }
  }

  lemma {:induction false} AttainedByLast(a: string, b: string) returns (edits: seq<Edit>)
    requires a != "" && b != ""
    requires Dist(a, b) == Dist(a[..|a| - 1], b[..|b| - 1]) + Cost(a[|a| - 1], b[|b| - 1])
    ensures Turns(edits, a, b) && |edits| == Dist(a, b)
    decreases |a| + |b|, 0
  {
    hide Dist, Turns;
    var a', b', x, y := a[..|a| - 1], b[..|b| - 1], a[|a| - 1], b[|b| - 1];
    var rest := DistIsAttained(a', b');
    TurnsBefore(rest, a', b', [x]);
    assert a' + [x] == a && b' + [y] == b;
    if x == y {
      edits := rest;
    } else {
      var e := Substitute(|b'|, y);
      assert Apply(e, b' + [x]) == b;
      OneTurns(e, b' + [x]);
      TurnsThen(rest, [e], a, b' + [x], b);
      edits := rest + [e];
    }
  }

  // ---------------------------------------------------------------- Dist is a metric

  lemma {:induction false} DistZero(a: string)
    ensures Dist(a, a) == 0
  {
    if a != "" { DistZero(a[..|a| - 1]); }
  }

  lemma {:induction false} DistSymmetric(a: string, b: string)
    ensures Dist(a, b) == Dist(b, a)
    decreases |a| + |b|
  {
    if a != "" && b != "" {
      DistSymmetric(a[..|a| - 1], b);
      DistSymmetric(a, b[..|b| - 1]);
      DistSymmetric(a[..|a| - 1], b[..|b| - 1]);
    }
  }

  lemma {:induction false} DistBounds(a: string, b: string)
    ensures Dist(a, b) + |a| >= |b| && Dist(a, b) + |b| >= |a|
    decreases |a| + |b|
  {
    if a != "" && b != "" {
      DistBounds(a[..|a| - 1], b);
      DistBounds(a, b[..|b| - 1]);
      DistBounds(a[..|a| - 1], b[..|b| - 1]);
    }
  }

  /** Dropping the last character of either string lowers the recurrence by a step at most. */
  lemma DistStep(a: string, b: string)
    ensures a != "" ==> Dist(a, b) <= Dist(a[..|a| - 1], b) + 1
    ensures b != "" ==> Dist(a, b) <= Dist(a, b[..|b| - 1]) + 1
    ensures a != "" && b != "" ==> Dist(a, b) <= Dist(a[..|a| - 1], b[..|b| - 1]) + Cost(a[|a| - 1], b[|b| - 1])
    ensures a != "" && b != "" ==>
              Dist(a, b) == Dist(a[..|a| - 1], b) + 1 || Dist(a, b) == Dist(a, b[..|b| - 1]) + 1 ||
              Dist(a, b) == Dist(a[..|a| - 1], b[..|b| - 1]) + Cost(a[|a| - 1], b[|b| - 1])
    ensures a == "" ==> Dist(a, b) == |b|
    ensures b == "" ==> Dist(a, b) == |a|
  {}

  lemma {:induction false} Triangle(a: string, b: string, c: string)
    ensures Dist(a, c) <= Dist(a, b) + Dist(b, c)
    decreases |a| + |b| + |c|
  {
    hide Dist;
    DistStep(a, b);
    DistStep(b, c);
    DistStep(a, c);
    DistBounds(a, b);
    DistBounds(b, c);
    DistBounds(a, c);
    if a == "" || c == "" {
    } else if b == "" {
      DistStep(a[..|a| - 1], b);
      Triangle(a[..|a| - 1], b, c);
    } else {
      var a', b', c' := a[..|a| - 1], b[..|b| - 1], c[..|c| - 1];
      if Dist(a, b) == Dist(a', b) + 1 {
        Triangle(a', b, c);
      } else if Dist(b, c) == Dist(b, c') + 1 {
        Triangle(a, b, c');
      } else if Dist(a, b) == Dist(a, b') + 1 {
        Triangle(a, b', c);
        Triangle(a, b', c');
      } else {
        Triangle(a', b', c);
        Triangle(a', b', c');
      }
    }
  }

  /** One edit is at distance one at most. */
  lemma {:induction false} OneEdit(e: Edit, s: string)
    requires Applies(e, s)
    ensures Dist(s, Apply(e, s)) <= 1
    decreases |s|
  {
    hide Dist;
    var t := Apply(e, s);
    DistStep(s, t);
    if e.at == |s| {
      assert t[..|t| - 1] == s;
      DistZero(s);
    } else if e.at == |s| - 1 && !e.Insert? {
      DistZero(s[..|s| - 1]);
      if e.Delete? { assert t == s[..|s| - 1]; } else { assert t[..|t| - 1] == s[..|s| - 1]; }
    } else {
      EditBeforeLast(e, s);
      OneEdit(e, s[..|s| - 1]);
    }
  }

  lemma EditBeforeLast(e: Edit, s: string)
    requires s != "" && Applies(e, s[..|s| - 1])
    ensures Applies(e, s) && Apply(e, s) == Apply(e, s[..|s| - 1]) + [s[|s| - 1]]
  {
    var p, x := s[..|s| - 1], s[|s| - 1];
    assert s[..e.at] == p[..e.at];
    match e
    case Insert(at, c) =>
      assert s[at..] == p[at..] + [x];
    case _ =>
      assert s[e.at + 1..] == p[e.at + 1..] + [x];
  }

  /** No way of turning a into b is shorter. */
  lemma {:induction false} DistIsLeast(edits: seq<Edit>, a: string, b: string)
    requires Turns(edits, a, b)
    ensures Dist(a, b) <= |edits|
  {
    if edits == [] {
      DistZero(a);
    } else {
      var mid := Apply(edits[0], a);
      OneEdit(edits[0], a);
      DistIsLeast(edits[1..], mid, b);
      Triangle(a, mid, b);
    }
  }

  /** The recurrence is the edit distance: the least number of insertions, deletions and substitutions. */
  lemma {:induction false} DistIsEditDistance(a: string, b: string, n: nat)
    ensures n == Dist(a, b) <==>
            (exists edits :: Turns(edits, a, b) && |edits| == n) && (forall edits :: Turns(edits, a, b) ==> n <= |edits|)
  {
    var best := DistIsAttained(a, b);
    forall edits | Turns(edits, a, b) ensures Dist(a, b) <= |edits| { DistIsLeast(edits, a, b); }
  }

  // ---------------------------------------------------------------- suggestComponent

  const COMPONENTS: seq<string> := [
    "fastapi", "fastify", "express", "go", "rust", "laravel", "vitejs", "nextjs", "mobile", "e2e", "infra", "admin-panel"]

  /** The component an id or an alias stands for. */
  function NormalizeComponent(raw: string): Option<string> {
    var id := if raw == "frontend" then "vitejs" else raw;
    if id in COMPONENTS then Some(id) else None
  }

  /** COMPONENTS[i] is at the least distance from the needle, and no component before it is as near. */
  ghost predicate FirstNearest(needle: string, i: nat) {
    i < |COMPONENTS| &&
    (forall j :: 0 <= j < |COMPONENTS| ==> Dist(needle, COMPONENTS[i]) <= Dist(needle, COMPONENTS[j])) &&
    (forall j :: 0 <= j < i ==> Dist(needle, COMPONENTS[i]) < Dist(needle, COMPONENTS[j]))
  }

  /** Three edits away at most, and at most one for every two characters. */
  predicate NearEnough(needle: string, c: string) {
    Dist(needle, c) <= 3 && 2 * Dist(needle, c) <= |c|
  }

  /** `lower` is toLowerCase. */
  method SuggestComponent(lower: string -> string, input: string) returns (r: Option<string>)
    ensures lower(input) in COMPONENTS ==> r == Some(lower(input))
    ensures lower(input) == "frontend" ==> r == Some("vitejs")
    ensures lower(input) !in COMPONENTS && lower(input) != "frontend" ==>
              exists i: nat :: FirstNearest(lower(input), i) &&
                          r == if NearEnough(lower(input), COMPONENTS[i]) then Some(COMPONENTS[i]) else None
  {
    var needle := lower(input);
    hide Dist;
    var aliased := NormalizeComponent(needle);
    if aliased.Some? { return aliased; }
    var best: Option<nat> := None;
    var bestDistance := 0;
    for i := 0 to |COMPONENTS|
      invariant i > 0 ==> best.Some?
      invariant best.Some? ==> best.value < i && bestDistance == Dist(needle, COMPONENTS[best.value])
      invariant best.Some? ==> forall j :: 0 <= j < i ==> bestDistance <= Dist(needle, COMPONENTS[j])
      invariant best.Some? ==> forall j :: 0 <= j < best.value ==> bestDistance < Dist(needle, COMPONENTS[j])
    {
      var d := TableDistance(needle, COMPONENTS[i]);
      if best.None? || d < bestDistance {
        bestDistance := d;
        best := Some(i);
      }
    }
    var c := COMPONENTS[best.value];
    var half := |c| / 2;
    var maxAllowed := if half < 3 then half else 3;
    assert FirstNearest(needle, best.value);
    return if bestDistance <= maxAllowed then Some(c) else None;
  }

  /** A name with a single typing error in it always gets a suggestion. */
  lemma {:induction false} OneTypoIsNearEnough(needle: string, k: nat, e: Edit, i: nat)
    requires k < |COMPONENTS| && Applies(e, COMPONENTS[k]) && needle == Apply(e, COMPONENTS[k])
    requires FirstNearest(needle, i)
    ensures NearEnough(needle, COMPONENTS[i])
  {
    hide Dist;
    OneEdit(e, COMPONENTS[k]);
    DistSymmetric(COMPONENTS[k], needle);
    assert Dist(needle, COMPONENTS[i]) <= 1;
    assert |COMPONENTS[i]| >= 2;
  }
}
