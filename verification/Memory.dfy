/** Storing a run of bytes. */
module Memory {
  import opened Json

  method Store(dst: array<byte>, at: nat, x: Bytes)
    requires at + |x| <= dst.Length
    modifies dst
    ensures dst[at..at + |x|] == x
    ensures dst[..at] == old(dst[..at]) && dst[at + |x|..] == old(dst[at + |x|..])
  {
    for k := 0 to |x|
      invariant dst[at..at + k] == x[..k]
      invariant dst[..at] == old(dst[..at]) && dst[at + |x|..] == old(dst[at + |x|..])
    {
      dst[at + k] := x[k];
      assert dst[at..at + k + 1] == dst[at..at + k] + [x[k]];
    }
  }
}
