/** The intrusive hash handle (UT_hash_handle) and the two doubly linked structures it sits in:
    the application-order list (prev, next) and a bucket chain (hhPrev, hhNext). */
module Handles {
  import opened Seqs

  newtype byte = x: int | 0 <= x < 256
  type Key = seq<byte>

  /** An element with its hash handle. The key bytes belong to the application, which may not
      change them while the element is in a table. */
  class Handle {
    const key: Key
    var keylen: nat
    var hashv: nat
    var prev: Handle?
    var next: Handle?
    var hhPrev: Handle?
    var hhNext: Handle?

    constructor (key: Key)
      ensures this.key == key
    {
      this.key := key;
      keylen, hashv := 0, 0;
      prev, next, hhPrev, hhNext := null, null, null, null;
    }
  }

  /** The element at position i, or null outside the sequence. */
  function At(s: seq<Handle>, i: int): Handle? {
    if 0 <= i < |s| then s[i] else null
  }

  lemma DropAt(s: seq<Handle>, k: nat, i: int)
    requires k < |s| && -1 <= i <= |s| - 1
    ensures At(Drop(s, k), i) == At(s, if i < k then i else i + 1)
  {
  }

  /** The i-th element after the k-th was taken out, and its neighbours. */
  lemma DropNeighbours(s: seq<Handle>, k: nat, i: nat)
    requires k < |s| && i < |s| - 1
    ensures var d, m := Drop(s, k), if i < k then i else i + 1;
      && d[i] == s[m]
      && At(d, i - 1) == At(s, if m == k + 1 then k - 1 else m - 1)
      && At(d, i + 1) == At(s, if m == k - 1 then k + 1 else m + 1)
  {
    DropAt(s, k, i - 1);
    DropAt(s, k, i + 1);
  }

  /** next and prev are mutually inverse along s, with null at both ends. */
  ghost predicate AppLinked(s: seq<Handle>)
    reads s`prev, s`next
  {
    forall i {:trigger s[i].prev} {:trigger s[i].next} :: 0 <= i < |s| ==>
      s[i].prev == At(s, i - 1) && s[i].next == At(s, i + 1)
  }

  ghost predicate ChainLinked(c: seq<Handle>)
    reads c`hhPrev, c`hhNext
  {
    forall i {:trigger c[i].hhPrev} {:trigger c[i].hhNext} :: 0 <= i < |c| ==>
      c[i].hhPrev == At(c, i - 1) && c[i].hhNext == At(c, i + 1)
  }

  /** next leads from each element of s to the following one; the last link is not constrained. */
  ghost predicate NextLinked(s: seq<Handle>)
    reads s`next
  {
    forall i {:trigger s[i].next} :: 0 <= i < |s| - 1 ==> s[i].next == s[i + 1]
  }

  ghost predicate PrevLinked(s: seq<Handle>)
    reads s`prev
  {
    forall i {:trigger s[i].prev} :: 0 <= i < |s| ==> s[i].prev == At(s, i - 1)
  }

  /** A list that can be walked along next from its first element to null. */
  ghost predicate Walkable(s: seq<Handle>)
    reads s`next
  {
    NextLinked(s) && (s != [] ==> s[|s| - 1].next == null)
  }

  ghost predicate Apart(a: seq<Handle>, b: seq<Handle>) {
    forall i, j :: 0 <= i < |a| && 0 <= j < |b| ==> a[i] != b[j]
  }
}
