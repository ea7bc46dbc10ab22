// The growable record arrays of src/dwarf/cfi.c.
module GrowVector {

  /** The capacity after `n` appends to an empty vector. */
  function CapacityAfter(n: nat): nat {
    if n == 0 then 0
    else
      var c := CapacityAfter(n - 1);
      if n <= c then c else if c == 0 then 8 else 2 * c
  }

  /** Records copied to new storage in the course of `n` appends. */
  function CopiedAfter(n: nat): nat {
    if n == 0 then 0
    else if n <= CapacityAfter(n - 1) then CopiedAfter(n - 1)
    else CopiedAfter(n - 1) + (n - 1)
  }

  /** Doubling pays for itself: fewer than two copies per append. */
  lemma {:induction false} DoublingIsLinear(n: nat)
    ensures n <= CapacityAfter(n)
    ensures n > 0 ==> CopiedAfter(n) + 8 == CapacityAfter(n) && (CapacityAfter(n) == 8 || CapacityAfter(n) < 2 * n)
    ensures n > 0 ==> CopiedAfter(n) < 2 * n
  {
    if n > 0 {
      DoublingIsLinear(n - 1);
    }
  }

  lemma {:induction false} CapacityGrows(a: nat, b: nat)
    requires a <= b
    ensures CapacityAfter(a) <= CapacityAfter(b)
    decreases b - a
  {
    if a < b {
      DoublingIsLinear(a);
      CapacityGrows(a + 1, b);
    }
  }

  /** The storage in use with `a` records is still in use with `b` exactly when it has
      room for them. */
  lemma StorageKeptIff(a: nat, b: nat)
    requires a <= b
    ensures CapacityAfter(a) == CapacityAfter(b) <==> b <= CapacityAfter(a)
  {
    DoublingIsLinear(b);
    if b <= CapacityAfter(a) {
      StaysWithin(a, b);
    }
  }

  lemma {:induction false} StaysWithin(a: nat, b: nat)
    requires a <= b <= CapacityAfter(a)
    ensures CapacityAfter(b) == CapacityAfter(a)
  {
    if a < b {
      StaysWithin(a, b - 1);
    }
  }

  class Vector<T(0)> {
    var data: array<T>
    var count: nat
    ghost var copied: nat

    ghost predicate Valid()
      reads this
    {
      && count <= data.Length == CapacityAfter(count)
      && copied == CopiedAfter(count)
    }

    ghost function Contents(): seq<T>
      reads this, data
      requires Valid()
    {
      data[..count]
    }

    constructor ()
      ensures Valid() && fresh(data)
      ensures Contents() == []
    {
      data, count, copied := new T[0], 0, 0;
    }

    /** `vector_reserve`: room for `minCap` records, doubling when it must grow. */
    method Reserve(minCap: nat)
      requires count <= data.Length
      modifies this
      ensures count == old(count) <= data.Length
      ensures data[..count] == old(data[..count])
      ensures old(data.Length) >= minCap ==> data == old(data) && copied == old(copied)
      ensures old(data.Length) < minCap ==> fresh(data) && copied == old(copied + count)
      ensures old(data.Length) < minCap ==>
                var doubled := if old(data.Length) == 0 then 8 else 2 * old(data.Length);
                data.Length == if doubled < minCap then minCap else doubled
    {
      if data.Length >= minCap {
        return;
      }
      var newCap := if data.Length == 0 then 8 else 2 * data.Length;
      if newCap < minCap {
        newCap := minCap;
      }
      var moved := new T[newCap];
      forall i | 0 <= i < count {
        moved[i] := data[i];
      }
      data, copied := moved, copied + count;
    }

    /** `cie_vector_append` and `fde_vector_append`. */
    method Append(rec: T)
      requires Valid()
      modifies this, data
      ensures Valid()
      ensures data == old(data) || (fresh(data) && data.Length > old(data.Length))
      ensures Contents() == old(Contents()) + [rec]
    {
      DoublingIsLinear(count);
      Reserve(count + 1);
      data[count] := rec;
      count := count + 1;
    }
  }
}
