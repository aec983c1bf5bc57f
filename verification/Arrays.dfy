/** The array idiom that the server uses wherever a list loses an entry. */
module Arrays {

  /** Of the first count elements of a, those behind i move one place forward. */
  method CloseGap<T>(a: array<T>, i: nat, count: nat)
    requires i < count <= a.Length
    modifies a
    ensures a[..count - 1] == old(a[..i]) + old(a[i + 1..count])
  {
    for j := i to count - 1
      invariant forall k :: 0 <= k < i ==> a[k] == old(a[k])
      invariant forall k :: i <= k < j ==> a[k] == old(a[k + 1])
      invariant forall k :: j <= k < count ==> a[k] == old(a[k])
    {
      a[j] := a[j + 1];
    }
  }
}
