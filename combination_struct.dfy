/** The gsl_combination record itself: its fields and the operations that
    read or step its array in place. */
module CombinationStruct {
  import opened GslErrno
  import opened Combination

  /** gsl_combination: the accessors gsl_combination_n, gsl_combination_k and
      gsl_combination_data are the fields n, k and data. */
  class Comb {
    var n: SizeT
    var k: SizeT
    var data: array<SizeT>

    /** The record's shape: data holds k entries. */
    ghost predicate Wellformed()
      reads this
    {
      data.Length == k
    }

    constructor (n: SizeT, data: array<SizeT>)
      requires data.Length < SIZE_MODULUS
      ensures Wellformed() && this.n == n && this.k == data.Length && this.data == data
    {
      this.n := n;
      this.k := data.Length;
      this.data := data;
    }

    /** gsl_combination_get: entry i, or 0 with GSL_EINVAL when range checking
        is on and i >= k (with it off, the caller must keep i < k). */
    function Get(checkRange: bool, i: SizeT): (r: Checked<SizeT>)
      reads this, data
      requires Wellformed()
      requires checkRange || i < k
      ensures i < k ==> r.errno == SUCCESS && r.value == data[i]
      ensures k <= i ==> r.errno == EINVAL && r.value == 0
    {
      if checkRange && i >= k then Checked(0, EINVAL) else Checked(data[i], SUCCESS)
    }

    /** gsl_combination_valid as written: it succeeds exactly on strictly
        DECREASING arrays of entries below n. */
    method Validate() returns (status: int)
      requires Wellformed()
      ensures status == SUCCESS || status == FAILURE
      ensures status == SUCCESS <==> AcceptedAsWritten(data[..], n)
    {
      if k > n {
        return FAILURE;
      }
      for i := 0 to k
        invariant forall a :: 0 <= a < i ==> data[a] < n
        invariant forall a, b :: 0 <= b < a < i ==> data[a] < data[b]
      {
        if data[i] >= n {
          return FAILURE;
        }
        for j := 0 to i
          invariant forall b :: 0 <= b < j ==> data[i] < data[b]
        {
          if data[i] == data[j] {
            return FAILURE;
          }
          if data[i] > data[j] {
            return FAILURE;
          }
        }
      }
      return SUCCESS;
    }

    /** gsl_combination_valid with the order test turned the way its message
        says: it succeeds exactly on combinations. */
    method ValidateIntended() returns (status: int)
      requires Wellformed()
      ensures status == SUCCESS || status == FAILURE
      ensures status == SUCCESS <==> IsCombination(data[..], n)
    {
      if k > n {
        return FAILURE;
      }
      for i := 0 to k
        invariant forall a :: 0 <= a < i ==> data[a] < n
        invariant forall a, b :: 0 <= b < a < i ==> data[b] < data[a]
      {
        if data[i] >= n {
          return FAILURE;
        }
        for j := 0 to i
          invariant forall b :: 0 <= b < j ==> data[b] < data[i]
        {
          if data[i] == data[j] {
            return FAILURE;
          }
          if data[i] < data[j] {
            return FAILURE;
          }
        }
      }
      return SUCCESS;
    }

    /** gsl_combination_next. */
    method Next() returns (status: int)
      requires Wellformed()
      modifies data
      ensures NextFails(old(data[..]), n) ==> status == FAILURE && data[..] == old(data[..])
      ensures !NextFails(old(data[..]), n) ==> status == SUCCESS && data[..] == NextData(old(data[..]), n)
    {
      if k == 0 {
        return FAILURE;
      }
      var i := LastBelowMax();
      if i == 0 && data[i] == Wrap(n - k) {
        return FAILURE;
      }
      ghost var s := data[..];
      data[i] := Wrap(data[i] as int + 1);
      ghost var raised := data[..];
      FillAscending(i);
      RaiseAssembled(s, i, raised, data[..]);
      return SUCCESS;
    }

    /** The first loop of gsl_combination_next: the backward scan for the
        last slot that is not at its maximum. */
    method LastBelowMax() returns (i: nat)
      requires Wellformed() && 0 < k
      ensures i == NextPivot(data[..], n, k - 1)
    {
      i := k - 1;
      while i > 0 && data[i] == Wrap(n - k + i)
        invariant 0 <= i < k
        invariant forall j :: i < j < k ==> AtMax(data[..], n, j)
      {
        i := i - 1;
      }
      NextPivotIsLastBelowMax(data[..], n, i);
    }

    /** The second loop of gsl_combination_next: from slot p on, every slot
        is one more than the slot before it. */
    method FillAscending(p: nat)
      requires Wellformed() && p < k
      modifies data
      ensures data[..] == old(data[..])[..p] + Ascending(old(data[p]) as int, k - p)
    {
      ghost var s := data[..];
      assert s == Overlay(s, p, p + 1, s[p] as int);
      var i := p;
      while i < k - 1
        invariant p <= i < k
        invariant data[..] == Overlay(s, p, i + 1, s[p] as int)
      {
        OverlayExtend(s, p, i + 1, s[p] as int);
        data[i + 1] := Wrap(data[i] as int + 1);
        i := i + 1;
      }
      OverlayToEnd(s, p, s[p] as int);
    }

    /** gsl_combination_prev. */
    method Prev() returns (status: int)
      requires Wellformed()
      modifies data
      ensures PrevFails(old(data[..])) ==> status == FAILURE && data[..] == old(data[..])
      ensures !PrevFails(old(data[..])) ==> status == SUCCESS && data[..] == PrevData(old(data[..]), n)
    {
      if k == 0 {
        return FAILURE;
      }
      var i := LastBreak();
      if i == 0 && data[i] == 0 {
        return FAILURE;
      }
      ghost var s := data[..];
      data[i] := Wrap(data[i] as int - 1);
      ghost var lowered := data[..];
      FillMaxima(i + 1);
      LowerAssembled(s, n, i, i + 1, lowered, data[..]);
      return SUCCESS;
    }

    /** The first loop of gsl_combination_prev: the backward scan for the
        last slot that is not exactly one more than the slot before it. */
    method LastBreak() returns (i: nat)
      requires Wellformed() && 0 < k
      ensures i == PrevPivot(data[..], k - 1)
    {
      i := k - 1;
      while i > 0 && data[i] == Wrap(data[i - 1] as int + 1)
        invariant 0 <= i < k
        invariant forall j :: i < j < k ==> OneAfter(data[..], j)
      {
        i := i - 1;
      }
      PrevPivotIsLastBreak(data[..], i);
    }

    /** The second loop of gsl_combination_prev: every slot j from the given
        one on is set to its maximum n-k+j. */
    method FillMaxima(from: nat)
      requires Wellformed() && from <= k
      modifies data
      ensures data[..] == old(data[..])[..from] + Ascending(n - k + from, k - from)
    {
      ghost var s := data[..];
      assert s == Overlay(s, from, from, n - k + from);
      var i := from;
      while i < k
        invariant from <= i <= k
        invariant data[..] == Overlay(s, from, i, n - k + from)
      {
        OverlayExtend(s, from, i, n - k + from);
        data[i] := Wrap(n - k + i);
        i := i + 1;
      }
      OverlayToEnd(s, from, n - k + from);
    }
  }
}
