/** The two edit-distance routines and the minimum they compute.

    Both routines fill a dynamic-programming table row by row.  `Dist` is the
    recurrence they tabulate; the lemmas show that it is the length of a
    shortest sequence of single edits, a definition that mentions no table. */
module EditDistance {

  // ----- what an edit is -----

  ghost predicate DeletesAt<T>(longer: seq<T>, shorter: seq<T>, i: nat) {
    i < |longer| && shorter == longer[..i] + longer[i + 1..]
  }

  ghost predicate ReplacesAt<T>(u: seq<T>, v: seq<T>, i: nat) {
    i < |u| && |u| == |v| && u[..i] == v[..i] && u[i + 1..] == v[i + 1..]
  }

  /** One insertion, deletion or replacement of a single element. */
  ghost predicate OneEdit<T>(u: seq<T>, v: seq<T>) {
    || (exists i :: DeletesAt(u, v, i))
    || (exists i :: DeletesAt(v, u, i))
    || (exists i :: ReplacesAt(u, v, i))
  }

  /** A run of edits: every text is one edit away from the one before it. */
  ghost predicate EditRun<T>(texts: seq<seq<T>>) {
    && |texts| > 0
    && forall k :: 0 < k < |texts| ==> OneEdit(texts[k - 1], texts[k])
  }

  ghost predicate EditRunBetween<T>(texts: seq<seq<T>>, a: seq<T>, b: seq<T>) {
    EditRun(texts) && texts[0] == a && texts[|texts| - 1] == b
  }

  // ----- the recurrence the tables hold -----

  function Least(x: nat, y: nat, z: nat): nat {
    if x <= y && x <= z then x else if y <= z then y else z
  }

  function Cost<T(==)>(x: T, y: T): nat { if x == y then 0 else 1 }

  /** Table cell (i, j): the distance between the first `i` elements of `a` and
      the first `j` elements of `b`. */
  function Cell<T(==)>(a: seq<T>, b: seq<T>, i: nat, j: nat): nat
    requires i <= |a| && j <= |b|
    decreases i + j
  {
    if i == 0 then j
    else if j == 0 then i
    else
      Least(Cell(a, b, i - 1, j) + 1, Cell(a, b, i, j - 1) + 1, Cell(a, b, i - 1, j - 1) + Cost(a[i - 1], b[j - 1]))
  }

  /** One unfolding of `Cell`.  The proofs below hide its body and call this, so
      that the solver never unfolds the three-way recursion by itself. */
  lemma {:induction false} Unfold<T>(a: seq<T>, b: seq<T>, i: nat, j: nat)
    requires i <= |a| && j <= |b|
    ensures i == 0 ==> Cell(a, b, i, j) == j
    ensures j == 0 ==> Cell(a, b, i, j) == i
    ensures i != 0 && j != 0 ==>
      Cell(a, b, i, j)
      == Least(Cell(a, b, i - 1, j) + 1, Cell(a, b, i, j - 1) + 1, Cell(a, b, i - 1, j - 1) + Cost(a[i - 1], b[j - 1]))
  {
  }

  lemma {:induction false} Edges<T>(a: seq<T>, b: seq<T>)
    ensures forall j :: 0 <= j <= |b| ==> Cell(a, b, 0, j) == j
    ensures forall i :: 0 <= i <= |a| ==> Cell(a, b, i, 0) == i
  {
  }

  function Dist<T(==)>(a: seq<T>, b: seq<T>): nat {
    Cell(a, b, |a|, |b|)
  }

  // ----- the recurrence is symmetric and moves by at most one per edit -----

  lemma {:induction false} CellSymmetric<T>(a: seq<T>, b: seq<T>, i: nat, j: nat)
    requires i <= |a| && j <= |b|
    ensures Cell(a, b, i, j) == Cell(b, a, j, i)
    decreases i + j
  {
    hide Cell;
    Unfold(a, b, i, j);
    Unfold(b, a, j, i);
    if i != 0 && j != 0 {
      CellSymmetric(a, b, i - 1, j);
      CellSymmetric(a, b, i, j - 1);
      CellSymmetric(a, b, i - 1, j - 1);
    }
  }

  lemma Symmetric<T>(a: seq<T>, b: seq<T>)
    ensures Dist(a, b) == Dist(b, a)
  {
    CellSymmetric(a, b, |a|, |b|);
  }

  lemma {:induction false} Diagonal<T>(a: seq<T>, i: nat)
    requires i <= |a|
    ensures Cell(a, a, i, i) == 0
  {
    hide Cell;
    Unfold(a, a, i, i);
    if i != 0 {
      Diagonal(a, i - 1);
    }
  }

  lemma {:induction false} Neighbours<T>(a: seq<T>, b: seq<T>, i: nat, j: nat)
    requires i <= |a| && 0 < j <= |b|
    ensures Cell(a, b, i, j - 1) <= Cell(a, b, i, j) + 1
    ensures Cell(a, b, i, j) <= Cell(a, b, i, j - 1) + 1
    decreases i
  {
    hide Cell;
    Unfold(a, b, i, j);
    Unfold(a, b, i, j - 1);
    if i != 0 {
      Unfold(a, b, i - 1, j - 1);
      Neighbours(a, b, i - 1, j);
      assert Cell(a, b, i, j - 1) <= Cell(a, b, i - 1, j - 1) + 1;
    }
  }

  lemma {:induction false} CellReadsPrefix<T>(a: seq<T>, u: seq<T>, v: seq<T>, i: nat, j: nat)
    requires i <= |a| && j <= |u| && j <= |v|
    requires forall k :: 0 <= k < j ==> u[k] == v[k]
    ensures Cell(a, u, i, j) == Cell(a, v, i, j)
    decreases i + j
  {
    hide Cell;
    Unfold(a, u, i, j);
    Unfold(a, v, i, j);
    if i != 0 && j != 0 {
      CellReadsPrefix(a, u, v, i - 1, j);
      CellReadsPrefix(a, u, v, i, j - 1);
      CellReadsPrefix(a, u, v, i - 1, j - 1);
    }
  }

  lemma {:induction false} DeletionMovesByOne<T>(a: seq<T>, longer: seq<T>, shorter: seq<T>, at: nat, i: nat, j: nat)
    requires DeletesAt(longer, shorter, at)
    requires i <= |a| && at < j <= |longer|
    ensures Cell(a, longer, i, j) <= Cell(a, shorter, i, j - 1) + 1
    ensures Cell(a, shorter, i, j - 1) <= Cell(a, longer, i, j) + 1
    decreases i + j
  {
    hide Cell;
    Unfold(a, longer, i, j);
    Unfold(a, shorter, i, j - 1);
    if j == at + 1 {
      CellReadsPrefix(a, longer, shorter, i, at);
      Neighbours(a, longer, i, j);
    } else if i != 0 {
      assert shorter[j - 2] == longer[j - 1];
      DeletionMovesByOne(a, longer, shorter, at, i - 1, j);
      DeletionMovesByOne(a, longer, shorter, at, i, j - 1);
      DeletionMovesByOne(a, longer, shorter, at, i - 1, j - 1);
    }
  }

  lemma {:induction false} ReplacementMovesByOne<T>(a: seq<T>, u: seq<T>, v: seq<T>, at: nat, i: nat, j: nat)
    requires ReplacesAt(u, v, at)
    requires i <= |a| && at < j <= |u|
    ensures Cell(a, u, i, j) <= Cell(a, v, i, j) + 1
    ensures Cell(a, v, i, j) <= Cell(a, u, i, j) + 1
    decreases i + j
  {
    hide Cell;
    Unfold(a, u, i, j);
    Unfold(a, v, i, j);
    if i != 0 {
      ReplacementMovesByOne(a, u, v, at, i - 1, j);
      if j == at + 1 {
        assert forall k :: 0 <= k < at ==> u[k] == u[..at][k] == v[k];
        CellReadsPrefix(a, u, v, i, at);
        CellReadsPrefix(a, u, v, i - 1, at);
      } else {
        assert u[j - 1] == u[at + 1..][j - at - 2] == v[j - 1];
        ReplacementMovesByOne(a, u, v, at, i, j - 1);
        ReplacementMovesByOne(a, u, v, at, i - 1, j - 1);
      }
    }
  }

  // ----- Dist is the length of a shortest run of edits -----

  lemma EditMovesByOne<T>(a: seq<T>, u: seq<T>, v: seq<T>)
    requires OneEdit(u, v)
    ensures Dist(a, v) <= Dist(a, u) + 1
  {
    hide Cell;
    if at: nat :| DeletesAt(u, v, at) {
      DeletionMovesByOne(a, u, v, at, |a|, |u|);
    } else if at: nat :| DeletesAt(v, u, at) {
      DeletionMovesByOne(a, v, u, at, |a|, |v|);
    } else {
      var at: nat :| ReplacesAt(u, v, at);
      ReplacementMovesByOne(a, u, v, at, |a|, |u|);
    }
  }

  /** No run of edits is shorter than `Dist`. */
  lemma {:induction false} NoShorterRun<T>(texts: seq<seq<T>>)
    requires EditRun(texts)
    ensures Dist(texts[0], texts[|texts| - 1]) <= |texts| - 1
    decreases |texts|
  {
    if |texts| == 1 {
      Diagonal(texts[0], |texts[0]|);
    } else {
      NoShorterRun(texts[..|texts| - 1]);
      assert OneEdit(texts[|texts| - 2], texts[|texts| - 1]);
      EditMovesByOne(texts[0], texts[|texts| - 2], texts[|texts| - 1]);
    }
  }

  /** An edit stays an edit when the same element is appended to both texts. */
  lemma EditUnderSuffix<T>(u: seq<T>, v: seq<T>, x: T)
    requires OneEdit(u, v)
    ensures OneEdit(u + [x], v + [x])
  {
    if i: nat :| DeletesAt(u, v, i) {
      assert v + [x] == (u + [x])[..i] + (u + [x])[i + 1..];
      assert DeletesAt(u + [x], v + [x], i);
    } else if i: nat :| DeletesAt(v, u, i) {
      assert u + [x] == (v + [x])[..i] + (v + [x])[i + 1..];
      assert DeletesAt(v + [x], u + [x], i);
    } else {
      var i: nat :| ReplacesAt(u, v, i);
      assert (u + [x])[i + 1..] == u[i + 1..] + [x] == v[i + 1..] + [x] == (v + [x])[i + 1..];
      assert (u + [x])[..i] == (v + [x])[..i];
      assert ReplacesAt(u + [x], v + [x], i);
    }
  }

  lemma RunUnderSuffix<T>(texts: seq<seq<T>>, a: seq<T>, b: seq<T>, x: T) returns (lifted: seq<seq<T>>)
    requires EditRunBetween(texts, a, b)
    ensures EditRunBetween(lifted, a + [x], b + [x]) && |lifted| == |texts|
  {
    lifted := seq(|texts|, k requires 0 <= k < |texts| => texts[k] + [x]);
    forall k | 0 < k < |lifted| ensures OneEdit(lifted[k - 1], lifted[k]) {
      EditUnderSuffix(texts[k - 1], texts[k], x);
    }
  }

  lemma RunExtended<T>(texts: seq<seq<T>>, a: seq<T>, b: seq<T>, c: seq<T>) returns (longer: seq<seq<T>>)
    requires EditRunBetween(texts, a, b) && OneEdit(b, c)
    ensures EditRunBetween(longer, a, c) && |longer| == |texts| + 1
  {
    longer := texts + [c];
    forall k | 0 < k < |longer| ensures OneEdit(longer[k - 1], longer[k]) {
      assert k < |texts| ==> OneEdit(texts[k - 1], texts[k]);
    }
  }

  lemma RunPrefixed<T>(c: seq<T>, texts: seq<seq<T>>, a: seq<T>, b: seq<T>) returns (longer: seq<seq<T>>)
    requires EditRunBetween(texts, a, b) && OneEdit(c, a)
    ensures EditRunBetween(longer, c, b) && |longer| == |texts| + 1
  {
    longer := [c] + texts;
    forall k | 0 < k < |longer| ensures OneEdit(longer[k - 1], longer[k]) {
      assert 1 < k ==> OneEdit(texts[k - 2], texts[k - 1]);
    }
  }

  lemma LastDeleted<T>(s: seq<T>, i: nat)
    requires 0 < i <= |s|
    ensures s[..i] == s[..i - 1] + [s[i - 1]]
    ensures OneEdit(s[..i], s[..i - 1]) && OneEdit(s[..i - 1], s[..i])
  {
    assert DeletesAt(s[..i], s[..i - 1], i - 1);
  }

  lemma LastReplaced<T>(s: seq<T>, i: nat, x: T)
    requires 0 < i <= |s|
    ensures OneEdit(s[..i - 1] + [x], s[..i])
  {
    assert ReplacesAt(s[..i - 1] + [x], s[..i], i - 1);
  }

  /** Some run of edits is exactly `Dist` long. */
  lemma {:induction false} ShortestRun<T>(a: seq<T>, b: seq<T>, i: nat, j: nat) returns (texts: seq<seq<T>>)
    requires i <= |a| && j <= |b|
    ensures EditRunBetween(texts, a[..i], b[..j]) && |texts| == Cell(a, b, i, j) + 1
    decreases i + j
  {
    hide Cell, OneEdit;
    Unfold(a, b, i, j);
    Edges(a, b);
    if i == 0 && j == 0 {
      texts := [a[..0]];
    } else if j == 0 || (i != 0 && Cell(a, b, i, j) == Cell(a, b, i - 1, j) + 1) {
      texts := ShortestRun(a, b, i - 1, j);
      LastDeleted(a, i);
      texts := RunPrefixed(a[..i], texts, a[..i - 1], b[..j]);
    } else if i == 0 || Cell(a, b, i, j) == Cell(a, b, i, j - 1) + 1 {
      texts := ShortestRun(a, b, i, j - 1);
      LastDeleted(b, j);
      texts := RunExtended(texts, a[..i], b[..j - 1], b[..j]);
    } else {
      texts := ShortestRun(a, b, i - 1, j - 1);
      LastDeleted(a, i);
      LastDeleted(b, j);
      texts := RunUnderSuffix(texts, a[..i - 1], b[..j - 1], a[i - 1]);
      if a[i - 1] != b[j - 1] {
        LastReplaced(b, j, a[i - 1]);
        texts := RunExtended(texts, a[..i], b[..j - 1] + [a[i - 1]], b[..j]);
      }
    }
  }

  /** The meaning of a computed distance: reachable in `d` edits and in no fewer. */
  ghost predicate IsEditDistance<T(!new)>(a: seq<T>, b: seq<T>, d: nat) {
    && (exists texts :: EditRunBetween(texts, a, b) && |texts| == d + 1)
    && (forall texts :: EditRunBetween(texts, a, b) ==> |texts| >= d + 1)
  }

  lemma DistIsEditDistance<T(!new)>(a: seq<T>, b: seq<T>)
    ensures IsEditDistance(a, b, Dist(a, b))
  {
    var best := ShortestRun(a, b, |a|, |b|);
    assert a[..|a|] == a && b[..|b|] == b;
    assert EditRunBetween(best, a, b);
    forall texts | EditRunBetween(texts, a, b) ensures |texts| >= Dist(a, b) + 1 {
      NoShorterRun(texts);
    }
  }

  // ----- the routines -----

  /** One fresh row per element of `a` (the derivation pass). */
  method EditDistance<T(==, !new)>(a: seq<T>, b: seq<T>) returns (d: nat)
    ensures IsEditDistance(a, b, d)
    ensures d == Dist(a, b)
  {
    hide Cell;
    DistIsEditDistance(a, b);
    Edges(a, b);
    var prev := new nat[|b| + 1](j => j);
    for i := 0 to |a|
      invariant prev.Length == |b| + 1
      invariant forall j :: 0 <= j <= |b| ==> prev[j] == Cell(a, b, i, j)
    {
      var curr := new nat[|b| + 1](_ => 0);
      curr[0] := i + 1;
      for j := 0 to |b|
        invariant curr[0] == i + 1
        invariant forall k :: 0 <= k <= |b| ==> prev[k] == Cell(a, b, i, k)
        invariant forall k :: 0 <= k <= j ==> curr[k] == Cell(a, b, i + 1, k)
      {
        Unfold(a, b, i + 1, j + 1);
        var cost := if a[i] != b[j] then 1 else 0;
        var del, ins, sub := prev[j + 1] + 1, curr[j] + 1, prev[j] + cost;
        curr[j + 1] := del;
        if ins < curr[j + 1] {
          curr[j + 1] := ins;
        }
        if sub < curr[j + 1] {
          curr[j + 1] := sub;
        }
      }
      prev := curr;
    }
    d := prev[|b|];
  }

  /** Two reused rows over the shorter text (the flag suggester): the arguments
      trade places when the first is shorter. */
  method LevenshteinDistance<T(==, !new)>(first: seq<T>, second: seq<T>) returns (d: nat)
    ensures IsEditDistance(first, second, d)
    ensures d == Dist(first, second)
  {
    hide Cell;
    DistIsEditDistance(first, second);
    Edges(first, second);
    if |first| == 0 {
      return |second|;
    }
    if |second| == 0 {
      return |first|;
    }
    var a, b := first, second;
    if |a| < |b| {
      a, b := b, a;
      Symmetric(first, second);
    }
    Edges(a, b);
    var prev := new nat[|b| + 1](_ => 0);
    var curr := new nat[|b| + 1](_ => 0);
    for j := 0 to prev.Length
      invariant forall k :: 0 <= k < j ==> prev[k] == k
    {
      prev[j] := j;
    }
    var i := 1;
    while i <= |a|
      invariant 1 <= i <= |a| + 1
      invariant prev != curr && prev.Length == curr.Length == |b| + 1 && fresh(prev) && fresh(curr)
      invariant forall j :: 0 <= j <= |b| ==> prev[j] == Cell(a, b, i - 1, j)
    {
      curr[0] := i;
      var j := 1;
      while j <= |b|
        invariant 1 <= j <= |b| + 1
        invariant forall k :: 0 <= k <= |b| ==> prev[k] == Cell(a, b, i - 1, k)
        invariant forall k :: 0 <= k < j ==> curr[k] == Cell(a, b, i, k)
      {
        Unfold(a, b, i, j);
        var cost := if a[i - 1] == b[j - 1] then 0 else 1;
        var ins, del, sub := curr[j - 1] + 1, prev[j] + 1, prev[j - 1] + cost;
        var min := ins;
        if del < min {
          min := del;
        }
        if sub < min {
          min := sub;
        }
        curr[j] := min;
        j := j + 1;
      }
      prev, curr := curr, prev;
      i := i + 1;
    }
    d := prev[|b|];
  }
}
