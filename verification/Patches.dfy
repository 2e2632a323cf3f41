/**
 Overwriting a part of a sequence, the meaning of every write in the storage code.
 */
module Patches {

  /** `s` with `data` written over it at `at`. */
  function Patch<T>(s: seq<T>, at: nat, data: seq<T>): (r: seq<T>)
    requires at + |data| <= |s|
    ensures |r| == |s|
    ensures forall p :: 0 <= p < |s| ==> r[p] == if at <= p < at + |data| then data[p - at] else s[p]
  {
    s[..at] + data + s[at + |data|..]
  }

  /** Writing `a` and then `b` right behind it is one write. */
  lemma PatchAppend<T>(s: seq<T>, at: nat, a: seq<T>, b: seq<T>)
    requires at + |a| + |b| <= |s|
    ensures Patch(Patch(s, at, a), at + |a|, b) == Patch(s, at, a + b)
  {
  }

  /** Writing a block that was itself overwritten in part. */
  lemma PatchNested<T>(s: seq<T>, base: nat, block: seq<T>, offset: nat, data: seq<T>)
    requires base + |block| <= |s| && offset + |data| <= |block|
    ensures Patch(s, base, Patch(block, offset, data)) == Patch(Patch(s, base, block), base + offset, data)
  {
  }

  function Fill<T>(n: nat, x: T): (r: seq<T>)
    ensures |r| == n && forall k :: 0 <= k < n ==> r[k] == x
  {
    if n == 0 then [] else Fill(n - 1, x) + [x]
  }
}
