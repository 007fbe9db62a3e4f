/** allocator::malloc_ of ec_alloctor.h: the choice of the block allocator for a size. */
module SizeClasses {
  // The binary search over more than 16 classes: where the linear search starts.
  method HalfFind(sizes: seq<nat>, size: nat) returns (i: nat)
    requires (forall a, b :: 0 <= a < b < |sizes| ==> sizes[a] <= sizes[b]) && |sizes| > 0 && size <= sizes[|sizes| - 1]
    ensures i < |sizes| && forall j :: 0 <= j < |sizes| && size <= sizes[j] ==> sizes[i] <= sizes[j]
  {
    var nl: int, nh: int, nm: int := 0, |sizes| - 1, 0;
    while nl <= nh
      invariant 0 <= nl <= |sizes| && -1 <= nh < |sizes| && nl <= nh + 1 && 0 <= nm < |sizes|
      invariant forall j :: 0 <= j < nl ==> sizes[j] < size
      invariant forall j :: nh < j < |sizes| ==> sizes[j] > size
      invariant nl > nh ==> nm == nl || nm == nl - 1
      decreases nh - nl
    {
      nm := (nl + nh) / 2;
      if sizes[nm] < size {
        nl := nm + 1;
      } else if sizes[nm] > size {
        nh := nm - 1;
      } else {
        break;
      }
    }
    i := nm;
  }

  /** The class chosen is the smallest whose blocks are large enough. */
  method SizeClass(sizes: seq<nat>, size: nat) returns (i: nat)
    requires (forall a, b :: 0 <= a < b < |sizes| ==> sizes[a] <= sizes[b]) && |sizes| > 0 && size <= sizes[|sizes| - 1]
    ensures i < |sizes| && size <= sizes[i]
    ensures forall j :: 0 <= j < |sizes| && size <= sizes[j] ==> sizes[i] <= sizes[j]
  {
    i := 0;
    if |sizes| > 16 {
      i := HalfFind(sizes, size);
    }
    while i < |sizes|
      invariant i < |sizes| && forall j :: 0 <= j < |sizes| && size <= sizes[j] ==> sizes[i] <= sizes[j]
      decreases |sizes| - i
    {
      if sizes[i] >= size {
        return;
      }
      i := i + 1;
    }
  }
}
