/** Bytes, and RT_ALIGN and RT_ALIGN_DOWN for the alignment of one word. */
module Words {

  type byte = x: int | 0 <= x < 256

  /** RT_ALIGN(n, RT_ALIGN_SIZE) */
  function Align(n: nat): (r: nat)
    ensures n <= r < n + 4 && r % 4 == 0
  {
    (n + 3) / 4 * 4
  }

  /** RT_ALIGN_DOWN(n, RT_ALIGN_SIZE) */
  function AlignDown(n: nat): (r: nat)
    ensures r <= n < r + 4 && r % 4 == 0
  {
    n / 4 * 4
  }

  lemma SlicePrefix(b: seq<byte>, low: nat, high: nat, n: nat)
    requires low + n <= high <= |b|
    ensures b[low..high][..n] == b[low..low + n]
  {
  }

  lemma SameSlice(b: seq<byte>, c: seq<byte>, low: nat, high: nat)
    requires low <= high <= |b| && high <= |c| && forall a :: low <= a < high ==> c[a] == b[a]
    ensures c[low..high] == b[low..high]
  {
  }

  /** `n` bytes copied from `src` to `dst`, where the two ranges do not meet. */
  lemma CopiedBytes(b: seq<byte>, dst: nat, src: nat, n: nat)
    requires src + n <= |b| && dst + n <= |b|
    ensures var c := b[..dst] + b[src..src + n] + b[dst + n..];
            && |c| == |b| && c[dst..dst + n] == b[src..src + n]
            && forall a :: 0 <= a < |b| && !(dst <= a < dst + n) ==> c[a] == b[a]
  {
    var c := b[..dst] + b[src..src + n] + b[dst + n..];
    assert c == b[..dst] + (b[src..src + n] + b[dst + n..]);
  }
}
