/** The strided double vector of gsl_vector_double.h: a view of size
    elements stored stride slots apart in a flat buffer, with range-checked
    element access. */
module GslVector {
  import opened GslErrno

  /** What gsl_vector_ptr hands back: the null pointer, or the address
      data + offset inside the vector's buffer. */
  datatype Pointer = Null | Slot(offset: nat)

  /** Moving to a later element moves at least one whole stride further
      into the buffer. */
  lemma {:induction false} StrideMonotone(stride: nat, i: nat, j: nat)
    requires i < j
    ensures i * stride + stride <= j * stride
    decreases j - i
  {
    assert (j - 1) * stride + stride == j * stride;
    if i < j - 1 {
      StrideMonotone(stride, i, j - 1);
    }
  }

  /** Element i of a vector with the given stride lives at buffer slot
      i * stride; with a positive stride, distinct elements never share a
      slot. */
  lemma DistinctOffsets(stride: nat, i: nat, j: nat)
    requires stride >= 1
    ensures i != j <==> i * stride != j * stride
  {
    if i < j {
      StrideMonotone(stride, i, j);
    } else if j < i {
      StrideMonotone(stride, j, i);
    }
  }

  /** gsl_vector: the fields size, stride and data (the owner and block
      pointers play no part in element access). */
  class Vector {
    var size: nat
    var stride: nat
    var data: array<real>

    /** Buffer slot that holds element i. */
    function Offset(i: nat): nat
      reads this
    {
      i * stride
    }

    /** The view is well formed: the stride is positive and every element
        lies inside the buffer. */
    ghost predicate Valid()
      reads this
    {
      stride >= 1 && forall i: nat :: i < size ==> Offset(i) < data.Length
    }

    /** A view of size elements of data, stride slots apart. */
    constructor (data: array<real>, stride: nat, size: nat)
      requires stride >= 1 && (size == 0 || (size - 1) * stride < data.Length)
      ensures Valid()
      ensures this.data == data && this.stride == stride && this.size == size
    {
      this.data := data;
      this.stride := stride;
      this.size := size;
      new;
      forall i: nat | i < size
        ensures Offset(i) < data.Length
      {
        if i < size - 1 {
          StrideMonotone(stride, i, size - 1);
        }
      }
    }

    /** gsl_vector_ptr: the address of element i, or the null pointer with
        GSL_EINVAL when range checking is on and i >= size (with it off, the
        caller must keep i < size). */
    function Ptr(checkRange: bool, i: nat): (r: Checked<Pointer>)
      reads this
      requires Valid()
      requires checkRange || i < size
      ensures r.errno == SUCCESS <==> i < size
      ensures r.errno == SUCCESS || r.errno == EINVAL
      ensures r.value.Slot? <==> i < size
      ensures i < size ==> r.value == Slot(Offset(i))
      ensures r.value.Slot? ==> r.value.offset < data.Length
    {
      if checkRange && i >= size then Checked(Null, EINVAL) else Checked(Slot(Offset(i)), SUCCESS)
    }

    /** Distinct in-range elements have distinct addresses, so writing
        through one pointer never changes another element. */
    lemma DistinctPointers(checkRange: bool, i: nat, j: nat)
      requires Valid()
      requires i < size && j < size
      ensures i != j <==> Ptr(checkRange, i) != Ptr(checkRange, j)
    {
      DistinctOffsets(stride, i, j);
    }

    /** gsl_vector_get: element i, or 0 with GSL_EINVAL when range checking
        is on and i >= size. */
    function Get(checkRange: bool, i: nat): (r: Checked<real>)
      reads this, data
      requires Valid()
      requires checkRange || i < size
      ensures r.errno == SUCCESS <==> i < size
      ensures r.errno == SUCCESS || r.errno == EINVAL
      ensures i < size ==> r.value == data[Offset(i)]
      ensures i >= size ==> r.value == 0.0
    {
      if checkRange && i >= size then Checked(0.0, EINVAL) else Checked(data[Offset(i)], SUCCESS)
    }

    /** gsl_vector_set: store x as element i; with range checking on and
        i >= size, report GSL_EINVAL and store nothing. */
    method Set(checkRange: bool, i: nat, x: real) returns (status: int)
      requires Valid()
      requires checkRange || i < size
      modifies data
      ensures Valid()
      ensures i < size ==> status == SUCCESS && data[..] == old(data[..])[Offset(i) := x]
      ensures i >= size ==> status == EINVAL && data[..] == old(data[..])
      ensures i < size ==> Get(checkRange, i) == Checked(x, SUCCESS)
      ensures forall j: nat :: j < size && j != i ==> Get(checkRange, j) == old(Get(checkRange, j))
    {
      if checkRange && i >= size {
        return EINVAL;
      }
      forall j: nat | j < size && j != i
        ensures Offset(j) != Offset(i)
      {
        DistinctOffsets(stride, i, j);
      }
      data[Offset(i)] := x;
      return SUCCESS;
    }

    /** Reading element i through the pointer gsl_vector_ptr returns gives
        what gsl_vector_get returns, on the error path as well. */
    lemma GetThroughPtr(checkRange: bool, i: nat)
      requires Valid()
      requires checkRange || i < size
      ensures Get(checkRange, i).errno == Ptr(checkRange, i).errno
      ensures Ptr(checkRange, i).value.Slot? ==> Get(checkRange, i).value == data[Ptr(checkRange, i).value.offset]
      ensures Ptr(checkRange, i).value.Null? ==> Get(checkRange, i).value == 0.0
    {
    }
  }
}
