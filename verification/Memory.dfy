/** memcpy of the C library. A pointer is an array and an index into it; two pointers into
    different arrays compare either way. */
module Memory {

  /** s with the elements from position at on replaced by those of data. */
  function Put<T>(s: seq<T>, at: nat, data: seq<T>): (r: seq<T>)
    requires at + |data| <= |s|
    ensures |r| == |s|
    ensures forall k :: 0 <= k < |r| ==> r[k] == if at <= k < at + |data| then data[k - at] else s[k]
  {
    seq(|s|, k requires 0 <= k < |s| => if at <= k < at + |data| then data[k - at] else s[k])
  }

  lemma PutTwice<T>(s: seq<T>, at: nat, x: seq<T>, y: seq<T>)
    requires at + |x| + |y| <= |s|
    ensures Put(Put(s, at, x), at + |x|, y) == Put(s, at, x + y)
  {
  }

  method Memcpy<T>(a: array<T>, dst: nat, b: array<T>, src: nat, size: nat)
    requires dst + size <= a.Length && src + size <= b.Length
    modifies a
    ensures a[..] == Put(old(a[..]), dst, old(b[src..src + size]))
  {
    var rdir: bool := *;
    if a == b {
      rdir := !(src > dst);
    }
    ghost var data := b[src..src + size];
    ghost var before := a[..];
    var i := 0;
    while i < size
      invariant i <= size
      invariant forall k :: 0 <= k < a.Length ==>
                  a[k] == if dst <= k < dst + size && (if rdir then dst + size - i <= k else k < dst + i)
                          then data[k - dst] else before[k]
      invariant b != a ==> b[src..src + size] == data
    {
      var c := if rdir then size - (i + 1) else i;
      assert b[src + c] == data[c] by {
        if a != b { assert b[src + c] == b[src..src + size][c]; }
      }
      a[dst + c] := b[src + c];
      i := i + 1;
    }
  }
}
