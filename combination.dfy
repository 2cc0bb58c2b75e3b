/** k-subsets of {0, ..., n-1} stored as an array of size_t, stepped through
    in lexicographic order (gsl_combination). */
module Combination {
  import opened GslErrno

  /** size_t is a 64-bit unsigned integer; its arithmetic wraps around. */
  const SIZE_MODULUS: int := 0x1_0000_0000_0000_0000
  type SizeT = x: int | 0 <= x < SIZE_MODULUS

  /** The size_t value of an unbounded integer result (unsigned wrap-around):
      x reduced modulo 2^64 by whole turns. */
  function Wrap(x: int): (r: SizeT)
    ensures 0 <= x < SIZE_MODULUS ==> r == x
    ensures x == -1 ==> r == SIZE_MODULUS - 1
    decreases if x < 0 then SIZE_MODULUS - x else x
  {
    if x < 0 then Wrap(x + SIZE_MODULUS)
    else if x < SIZE_MODULUS then x
    else Wrap(x - SIZE_MODULUS)
  }

  /** Shifting by one modulus leaves the residue alone. */
  lemma ShiftResidue(x: int, y: int)
    requires y == x + SIZE_MODULUS
    ensures y % SIZE_MODULUS == x % SIZE_MODULUS
  {
    var q := x / SIZE_MODULUS;
    var r := x % SIZE_MODULUS;
    assert x == q * SIZE_MODULUS + r;
    assert y == (q + 1) * SIZE_MODULUS + r;
  }

  /** Wrap is reduction modulo 2^64, which is what every size_t result in
      C is. */
  lemma {:induction false} WrapIsModulo(x: int)
    ensures Wrap(x) == x % SIZE_MODULUS
    decreases if x < 0 then SIZE_MODULUS - x else x
  {
    if x < 0 {
      WrapIsModulo(x + SIZE_MODULUS);
      ShiftResidue(x, x + SIZE_MODULUS);
    } else if x >= SIZE_MODULUS {
      WrapIsModulo(x - SIZE_MODULUS);
      ShiftResidue(x - SIZE_MODULUS, x);
    }
  }

  /** Adding one commutes with wrapping. */
  lemma {:induction false} WrapSucc(a: int)
    ensures Wrap(Wrap(a) + 1) == Wrap(a + 1)
    decreases if a < 0 then SIZE_MODULUS - a else a
  {
    if a < 0 {
      WrapSucc(a + SIZE_MODULUS);
    } else if a >= SIZE_MODULUS {
      WrapSucc(a - SIZE_MODULUS);
    }
  }

  /** m consecutive size_t values starting at from (wrapping past the top). */
  function Ascending(from: int, m: nat): (r: seq<SizeT>)
    ensures |r| == m
    ensures forall j :: 0 <= j < m ==> r[j] == Wrap(from + j)
  {
    seq<SizeT>(m, j => Wrap(from + j))
  }

  /** s with the slots lo..hi-1 overwritten by the run from, from+1, ...:
      the array part-way through one of the refill loops. */
  function Overlay(s: seq<SizeT>, lo: nat, hi: nat, from: int): (r: seq<SizeT>)
    ensures |r| == |s|
    ensures forall j :: 0 <= j < |s| && !(lo <= j < hi) ==> r[j] == s[j]
    ensures forall j :: lo <= j < hi && j < |s| ==> r[j] == Wrap(from + (j - lo))
  {
    seq<SizeT>(|s|, j requires 0 <= j < |s| => OverlayAt(s, lo, hi, from, j))
  }

  function OverlayAt(s: seq<SizeT>, lo: nat, hi: nat, from: int, j: nat): SizeT
    requires j < |s|
  {
    if lo <= j < hi then Wrap(from + (j - lo)) else s[j]
  }

  /** Writing the run's next value at hi extends the run by one slot. */
  lemma OverlayExtend(s: seq<SizeT>, lo: nat, hi: nat, from: int)
    requires lo <= hi < |s|
    ensures lo < hi ==> Wrap(Overlay(s, lo, hi, from)[hi - 1] as int + 1) == Wrap(from + (hi - lo))
    ensures Overlay(s, lo, hi, from)[hi := Wrap(from + (hi - lo))] == Overlay(s, lo, hi + 1, from)
  {
    if lo < hi {
      WrapSucc(from + (hi - 1 - lo));
    }
  }

  /** A run that reaches the end of the array. */
  lemma OverlayToEnd(s: seq<SizeT>, lo: nat, from: int)
    requires lo <= |s|
    ensures Overlay(s, lo, |s|, from) == s[..lo] + Ascending(from, |s| - lo)
  {
  }

  // ---------------------------------------------------------------------
  // What a combination is, and the lexicographic order on them
  // ---------------------------------------------------------------------

  ghost predicate Increasing(s: seq<int>) {
    forall i, j :: 0 <= i < j < |s| ==> s[i] < s[j]
  }

  /** s is a k-subset of {0, ..., n-1} listed in increasing order. */
  ghost predicate IsCombination(s: seq<int>, n: int) {
    && |s| <= n
    && (forall i :: 0 <= i < |s| ==> 0 <= s[i] < n)
    && Increasing(s)
  }

  /** [0, 1, ..., k-1], the lexicographically least k-subset. */
  function FirstCombination(k: nat): seq<int> {
    seq(k, j => j)
  }

  /** [n-k, ..., n-1], the lexicographically greatest k-subset of {0, ..., n-1}. */
  function LastCombination(n: int, k: nat): seq<int> {
    seq(k, j => n - k + j)
  }

  /** s and t agree before position m and s is smaller at m. */
  ghost predicate LexLessAt(s: seq<int>, t: seq<int>, m: nat) {
    && |s| == |t|
    && m < |s|
    && (forall j :: 0 <= j < m ==> s[j] == t[j])
    && s[m] < t[m]
  }

  ghost predicate LexLess(s: seq<int>, t: seq<int>) {
    exists m: nat :: LexLessAt(s, t, m)
  }

  lemma LexLessIrreflexive(s: seq<int>)
    ensures !LexLess(s, s)
  {
  }

  lemma LexLessTransitive(a: seq<int>, b: seq<int>, c: seq<int>)
    requires LexLess(a, b) && LexLess(b, c)
    ensures LexLess(a, c)
  {
    var m1: nat :| LexLessAt(a, b, m1);
    var m2: nat :| LexLessAt(b, c, m2);
    if m1 <= m2 {
      assert LexLessAt(a, c, m1);
    } else {
      assert LexLessAt(a, c, m2);
    }
  }

  lemma LexLessAsymmetric(a: seq<int>, b: seq<int>)
    requires LexLess(a, b)
    ensures !LexLess(b, a) && a != b
  {
    var m1: nat :| LexLessAt(a, b, m1);
    assert forall m2: nat :: !LexLessAt(b, a, m2);
  }

  /** Two sequences that agree below q and are ordered pointwise from q on
      are equal or lexicographically ordered. */
  lemma {:induction false} LexFromPointwise(r: seq<int>, t: seq<int>, q: nat)
    requires |r| == |t| && q <= |r|
    requires forall j :: 0 <= j < q ==> r[j] == t[j]
    requires forall j :: q <= j < |r| ==> r[j] <= t[j]
    ensures r == t || LexLess(r, t)
    decreases |r| - q
  {
    if q == |r| {
      assert r == t;
    } else if r[q] < t[q] {
      assert LexLessAt(r, t, q);
    } else {
      LexFromPointwise(r, t, q + 1);
    }
  }

  /** Entries of an increasing sequence of integers grow by at least one per slot. */
  lemma {:induction false} IncreasingGap(s: seq<int>, a: nat, b: nat)
    requires Increasing(s) && a <= b < |s|
    ensures s[b] >= s[a] + (b - a)
    decreases b - a
  {
    if a < b {
      IncreasingGap(s, a + 1, b);
    }
  }

  /** Slot j of a k-subset of {0, ..., n-1} holds a value in [j, n-k+j]. */
  lemma CombinationBounds(s: seq<int>, n: int, j: nat)
    requires IsCombination(s, n) && j < |s|
    ensures j <= s[j] <= n - |s| + j
  {
    IncreasingGap(s, 0, j);
    IncreasingGap(s, j, |s| - 1);
  }

  lemma FirstIsLeast(t: seq<int>, n: int)
    requires IsCombination(t, n)
    ensures t == FirstCombination(|t|) || LexLess(FirstCombination(|t|), t)
  {
    forall j | 0 <= j < |t| ensures FirstCombination(|t|)[j] <= t[j] {
      CombinationBounds(t, n, j);
    }
    LexFromPointwise(FirstCombination(|t|), t, 0);
  }

  lemma LastIsGreatest(t: seq<int>, n: int)
    requires IsCombination(t, n)
    ensures t == LastCombination(n, |t|) || LexLess(t, LastCombination(n, |t|))
  {
    forall j | 0 <= j < |t| ensures t[j] <= LastCombination(n, |t|)[j] {
      CombinationBounds(t, n, j);
    }
    LexFromPointwise(t, LastCombination(n, |t|), 0);
  }

  // ---------------------------------------------------------------------
  // gsl_combination_next as a function of the array contents
  // ---------------------------------------------------------------------

  /** Slot j holds its largest possible value n-k+j (computed in size_t). */
  predicate AtMax(s: seq<SizeT>, n: SizeT, j: nat)
    requires j < |s|
  {
    s[j] == Wrap(n - |s| + j)
  }

  /** Where the backward scan of gsl_combination_next stops when started at
      slot i: the last slot at or below i that is not at its maximum n-k+j,
      or 0. */
  function NextPivot(s: seq<SizeT>, n: SizeT, i: nat): (p: nat)
    requires i < |s|
    ensures p <= i
    ensures forall j :: p < j <= i ==> AtMax(s, n, j)
    ensures p == 0 || !AtMax(s, n, p)
    decreases i
  {
    if i > 0 && AtMax(s, n, i) then NextPivot(s, n, i - 1) else i
  }

  /** The pivot is the last slot not at its maximum (or slot 0). */
  lemma NextPivotIsLastBelowMax(s: seq<SizeT>, n: SizeT, i: nat)
    requires i < |s|
    requires forall j :: i < j < |s| ==> AtMax(s, n, j)
    requires i == 0 || !AtMax(s, n, i)
    ensures NextPivot(s, n, |s| - 1) == i
  {
  }

  /** The failure test of gsl_combination_next. */
  predicate NextFails(s: seq<SizeT>, n: SizeT) {
    |s| == 0 || (NextPivot(s, n, |s| - 1) == 0 && s[0] == Wrap(n - |s|))
  }

  /** The array after a successful gsl_combination_next: the pivot slot is
      incremented and every later slot is one more than the slot before it. */
  function NextData(s: seq<SizeT>, n: SizeT): (r: seq<SizeT>)
    requires !NextFails(s, n)
  {
    RaiseAt(s, NextPivot(s, n, |s| - 1))
  }

  /** Slot p incremented and every later slot one more than the one before. */
  function RaiseAt(s: seq<SizeT>, p: nat): (r: seq<SizeT>)
    requires p < |s|
  {
    s[..p] + Ascending(Wrap(s[p] as int + 1), |s| - p)
  }

  /** Overwriting slot p and keeping only the prefix up to it. */
  lemma SpliceAfterUpdate<T>(s: seq<T>, p: nat, x: T, a: seq<T>, lowered: seq<T>, d: seq<T>)
    requires p < |s| && lowered == s[p := x] && d == lowered[..p + 1] + a
    ensures d == s[..p] + [x] + a
  {
    assert lowered[..p + 1] == s[..p] + [x];
  }

  /** The array after the pivot is raised and the ascending run written
      behind it is NextData. */
  lemma RaiseAssembled(s: seq<SizeT>, p: nat, raised: seq<SizeT>, d: seq<SizeT>)
    requires p < |s| && raised == s[p := Wrap(s[p] as int + 1)]
    requires d == raised[..p] + Ascending(raised[p] as int, |s| - p)
    ensures d == RaiseAt(s, p)
  {
    assert raised[..p] == s[..p];
  }

  /** On a combination, the next-step leaves the prefix before the pivot p,
      adds one at p and fills the rest with consecutive values; the slots
      after p were all at their maxima. */
  lemma NextShape(s: seq<SizeT>, n: SizeT)
    requires IsCombination(s, n) && !NextFails(s, n)
    ensures var p := NextPivot(s, n, |s| - 1);
            var r := NextData(s, n);
            && |r| == |s|
            && s[p] < n - |s| + p
            && (forall j :: p < j < |s| ==> s[j] == n - |s| + j)
            && (forall j :: 0 <= j < p ==> r[j] == s[j])
            && (forall j :: p <= j < |s| ==> r[j] == s[p] + 1 + (j - p))
  {
    var k, p := |s|, NextPivot(s, n, |s| - 1);
    var r := NextData(s, n);
    CombinationBounds(s, n, p);
    assert s[p] != n - k + p;
    forall j | p < j < k ensures s[j] == n - k + j {
      assert AtMax(s, n, j);
    }
    forall j | p <= j < k ensures r[j] == s[p] + 1 + (j - p) {
      assert r[j] == Wrap(s[p] as int + 1 + (j - p));
    }
  }

  /** For a combination, gsl_combination_next fails exactly on [n-k, ..., n-1]. */
  lemma NextFailsIffLast(s: seq<SizeT>, n: SizeT)
    requires IsCombination(s, n)
    ensures NextFails(s, n) <==> s == LastCombination(n, |s|)
  {
    var k := |s|;
    if k > 0 {
      var p := NextPivot(s, n, k - 1);
      if NextFails(s, n) {
        forall j | 0 <= j < k ensures s[j] == n - k + j {
          if j > 0 {
            assert AtMax(s, n, j);
          }
        }
      }
      if s == LastCombination(n, k) {
        assert s[p] == Wrap(n - k + p);
        assert s[0] == Wrap(n - k);
      }
    }
  }

  /** A successful next-step yields a combination that is lexicographically
      greater. */
  lemma NextAdvances(s: seq<SizeT>, n: SizeT)
    requires IsCombination(s, n) && !NextFails(s, n)
    ensures IsCombination(NextData(s, n), n)
    ensures LexLess(s, NextData(s, n))
  {
    var p := NextPivot(s, n, |s| - 1);
    var r := NextData(s, n);
    NextShape(s, n);
    assert LexLessAt(s, r, p);
  }

  /** ... and nothing lies strictly between: every combination greater than
      s is at least NextData(s). */
  lemma NextIsImmediate(s: seq<SizeT>, n: SizeT, t: seq<int>)
    requires IsCombination(s, n) && !NextFails(s, n)
    requires IsCombination(t, n) && |t| == |s|
    ensures LexLess(s, t) ==> t == NextData(s, n) || LexLess(NextData(s, n), t)
  {
    if LexLess(s, t) {
      var k, p := |s|, NextPivot(s, n, |s| - 1);
      var r := NextData(s, n);
      NextShape(s, n);
      var m: nat :| LexLessAt(s, t, m);
      CombinationBounds(t, n, m);
      assert m <= p;
      if m < p {
        assert LexLessAt(r, t, m);
      } else {
        forall j | 0 <= j < k ensures r[j] <= t[j] {
          if p <= j {
            IncreasingGap(t, p, j);
          }
        }
        LexFromPointwise(r, t, 0);
      }
    }
  }

  // ---------------------------------------------------------------------
  // gsl_combination_prev as a function of the array contents
  // ---------------------------------------------------------------------

  /** Slot j holds one more than slot j-1, in size_t arithmetic: the test of
      the backward scan of gsl_combination_prev. */
  predicate OneAfter(s: seq<SizeT>, j: nat)
    requires 0 < j < |s|
  {
    s[j] == Wrap(s[j - 1] as int + 1)
  }

  /** Where the backward scan of gsl_combination_prev stops when started at
      slot i: the last slot at or below i that is not one more than its
      predecessor, or 0. */
  function PrevPivot(s: seq<SizeT>, i: nat): (p: nat)
    requires i < |s|
    ensures p <= i
    ensures forall j :: p < j <= i ==> OneAfter(s, j)
    ensures p == 0 || !OneAfter(s, p)
    decreases i
  {
    if i > 0 && OneAfter(s, i) then PrevPivot(s, i - 1) else i
  }

  /** The array after the pivot is lowered and the maxima written behind it
      is PrevData. */
  lemma LowerAssembled(s: seq<SizeT>, n: SizeT, p: nat, from: nat, lowered: seq<SizeT>, d: seq<SizeT>)
    requires p < |s| && from == p + 1 && lowered == s[p := Wrap(s[p] as int - 1)]
    requires d == lowered[..from] + Ascending(n - |s| + from, |s| - from)
    ensures d == LowerAt(s, n, p)
  {
    var x, a := Wrap(s[p] as int - 1), Ascending(n - |s| + from, |s| - from);
    SpliceAfterUpdate(s, p, x, a, lowered, d);
  }

  /** The pivot is the last slot that does not continue a run (or slot 0). */
  lemma PrevPivotIsLastBreak(s: seq<SizeT>, i: nat)
    requires i < |s|
    requires forall j :: i < j < |s| ==> OneAfter(s, j)
    requires i == 0 || !OneAfter(s, i)
    ensures PrevPivot(s, |s| - 1) == i
  {
  }

  /** The failure test of gsl_combination_prev. */
  predicate PrevFails(s: seq<SizeT>) {
    |s| == 0 || (PrevPivot(s, |s| - 1) == 0 && s[0] == 0)
  }

  /** The array after a successful gsl_combination_prev: the pivot slot is
      decremented and every later slot j is set to n-k+j. */
  function PrevData(s: seq<SizeT>, n: SizeT): (r: seq<SizeT>)
    requires !PrevFails(s)
  {
    LowerAt(s, n, PrevPivot(s, |s| - 1))
  }

  /** Slot p decremented and every later slot j set to its maximum n-k+j. */
  function LowerAt(s: seq<SizeT>, n: SizeT, p: nat): (r: seq<SizeT>)
    requires p < |s|
  {
    s[..p] + [Wrap(s[p] as int - 1)] + Ascending(n - |s| + p + 1, |s| - p - 1)
  }

  /** In a combination the slots from the prev-pivot on run consecutively. */
  lemma {:induction false} RunFromPrevPivot(s: seq<SizeT>, n: SizeT, j: nat)
    requires IsCombination(s, n) && 0 < |s|
    requires PrevPivot(s, |s| - 1) <= j < |s|
    ensures s[j] == s[PrevPivot(s, |s| - 1)] + (j - PrevPivot(s, |s| - 1))
    decreases j
  {
    if PrevPivot(s, |s| - 1) < j {
      RunFromPrevPivot(s, n, j - 1);
      assert OneAfter(s, j);
    }
  }

  /** On a combination, the prev-step leaves the prefix before the pivot p,
      subtracts one at p and sets every later slot to its maximum; the slots
      from p on were consecutive and p was not one more than its predecessor. */
  lemma PrevShape(s: seq<SizeT>, n: SizeT)
    requires IsCombination(s, n) && !PrevFails(s)
    ensures var p := PrevPivot(s, |s| - 1);
            var r := PrevData(s, n);
            && |r| == |s|
            && (p == 0 ==> s[p] >= 1)
            && (p > 0 ==> s[p] >= s[p - 1] + 2)
            && (forall j :: p <= j < |s| ==> s[j] == s[p] + (j - p))
            && (forall j :: 0 <= j < p ==> r[j] == s[j])
            && r[p] == s[p] - 1
            && (forall j :: p < j < |s| ==> r[j] == n - |s| + j)
  {
    var k, p := |s|, PrevPivot(s, |s| - 1);
    var r := PrevData(s, n);
    if p > 0 {
      assert s[p - 1] < s[p];
      assert !OneAfter(s, p);
    }
    forall j | p <= j < k ensures s[j] == s[p] + (j - p) {
      RunFromPrevPivot(s, n, j);
    }
    forall j | p < j < k ensures r[j] == n - k + j {
      assert r[j] == Wrap(n - k + p + 1 + (j - p - 1));
    }
  }

  /** For a combination, gsl_combination_prev fails exactly on [0, ..., k-1]. */
  lemma PrevFailsIffFirst(s: seq<SizeT>, n: SizeT)
    requires IsCombination(s, n)
    ensures PrevFails(s) <==> s == FirstCombination(|s|)
  {
    var k := |s|;
    if k > 0 {
      if PrevFails(s) {
        forall j | 0 <= j < k ensures s[j] == j {
          RunFromPrevPivot(s, n, j);
        }
      }
      if s == FirstCombination(k) {
        assert forall j :: 0 < j < k ==> OneAfter(s, j);
      }
    }
  }

  /** A successful prev-step yields a combination that is lexicographically
      smaller. */
  lemma PrevRetreats(s: seq<SizeT>, n: SizeT)
    requires IsCombination(s, n) && !PrevFails(s)
    ensures IsCombination(PrevData(s, n), n)
    ensures LexLess(PrevData(s, n), s)
  {
    var p := PrevPivot(s, |s| - 1);
    var r := PrevData(s, n);
    PrevShape(s, n);
    CombinationBounds(s, n, p);
    assert LexLessAt(r, s, p);
  }

  /** ... and nothing lies strictly between: every combination smaller than
      s is at most PrevData(s). */
  lemma PrevIsImmediate(s: seq<SizeT>, n: SizeT, t: seq<int>)
    requires IsCombination(s, n) && !PrevFails(s)
    requires IsCombination(t, n) && |t| == |s|
    ensures LexLess(t, s) ==> t == PrevData(s, n) || LexLess(t, PrevData(s, n))
  {
    if LexLess(t, s) {
      var k, p := |s|, PrevPivot(s, |s| - 1);
      var r := PrevData(s, n);
      PrevShape(s, n);
      var m: nat :| LexLessAt(t, s, m);
      if m > 0 {
        assert t[m - 1] == s[m - 1] && t[m - 1] < t[m];
      }
      assert m <= p;
      if m < p {
        assert LexLessAt(t, r, m);
      } else {
        forall j | 0 <= j < k ensures t[j] <= r[j] {
          if p < j {
            CombinationBounds(t, n, j);
          }
        }
        LexFromPointwise(t, r, 0);
      }
    }
  }

  // ---------------------------------------------------------------------
  // next and prev undo each other
  // ---------------------------------------------------------------------

  lemma PrevUndoesNext(s: seq<SizeT>, n: SizeT)
    requires IsCombination(s, n) && !NextFails(s, n)
    ensures !PrevFails(NextData(s, n))
    ensures PrevData(NextData(s, n), n) == s
  {
    var r := NextData(s, n);
    NextAdvances(s, n);
    LexLessAsymmetric(s, r);
    FirstIsLeast(s, n);
    PrevFailsIffFirst(r, n);
    assert !PrevFails(r);
    var u := PrevData(r, n);
    PrevRetreats(r, n);
    PrevIsImmediate(r, n, s);
    NextIsImmediate(s, n, u);
    LexLessAsymmetric(u, r);
    LexLessIrreflexive(s);
  }

  lemma NextUndoesPrev(s: seq<SizeT>, n: SizeT)
    requires IsCombination(s, n) && !PrevFails(s)
    ensures !NextFails(PrevData(s, n), n)
    ensures NextData(PrevData(s, n), n) == s
  {
    var r := PrevData(s, n);
    PrevRetreats(s, n);
    LexLessAsymmetric(r, s);
    LastIsGreatest(s, n);
    NextFailsIffLast(r, n);
    assert !NextFails(r, n);
    var u := NextData(r, n);
    NextAdvances(r, n);
    NextIsImmediate(r, n, s);
    PrevIsImmediate(s, n, u);
    LexLessAsymmetric(r, u);
    LexLessIrreflexive(s);
  }

  // ---------------------------------------------------------------------
  // gsl_combination_valid: what the code accepts, and what it should
  // ---------------------------------------------------------------------

  /** What gsl_combination_valid accepts as written: k <= n, every entry
      below n and every entry SMALLER than all entries before it. */
  ghost predicate AcceptedAsWritten(s: seq<int>, n: int) {
    && |s| <= n
    && (forall i :: 0 <= i < |s| ==> s[i] < n)
    && (forall i, j :: 0 <= j < i < |s| ==> s[i] < s[j])
  }

  /** The first combination [0, 1] of {0, 1} is refused by the as-written test. */
  lemma AsWrittenRejectsFirstCombination()
    ensures IsCombination([0, 1], 2)
    ensures !AcceptedAsWritten([0, 1], 2)
  {
    assert [0, 1][1] > [0, 1][0];
  }

  /** More generally every combination with two or more entries is refused,
      including every result of a successful next-step. */
  lemma AsWrittenRejectsCombinations(s: seq<int>, n: int)
    requires IsCombination(s, n) && |s| >= 2
    ensures !AcceptedAsWritten(s, n)
  {
    assert s[0] < s[1];
  }
}
