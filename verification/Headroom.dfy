/** Growing the image: how many blocks a graft that does not fit asks for. */
module Headroom {
  import opened Wrappers
  import opened Arithmetic

  const SLACK := 16 * 1024 * 1024
  const ROUND := 1024

  /** `-(-n // d)`. */
  function CeilDiv(n: int, d: nat): int
    requires d > 0
  {
    -(-n / d)
  }

  /** The new block count, when the free space is too small. */
  function NewCount(need: nat, free: nat, blockSize: nat, count: nat): Option<int>
    requires blockSize > 0
  {
    if free >= need then None
    else
      var grow := CeilDiv(need - free, blockSize);
      Some(CeilDiv(count + grow, ROUND) * ROUND)
  }

  function Total(sizes: seq<Option<nat>>): nat {
    if sizes == [] then 0
    else (if sizes[|sizes| - 1].Some? then sizes[|sizes| - 1].value else 0) + Total(sizes[..|sizes| - 1])
  }

  /** Sums the sizes of the files to graft, where one is known, and decides on the new block count. */
  method EnsureHeadroom(sizes: seq<Option<nat>>, free: nat, blockSize: nat, count: nat) returns (r: Option<int>)
    requires blockSize > 0
    ensures r == NewCount(Total(sizes) + SLACK, free, blockSize, count)
  {
    hide NewCount, CeilDiv;
    var need := 0;
    for i := 0 to |sizes|
      invariant need == Total(sizes[..i])
    {
      assert sizes[..i + 1][..i] == sizes[..i];
      need := need + if sizes[i].Some? then sizes[i].value else 0;
    }
    assert sizes[..|sizes|] == sizes;
    need := need + SLACK;
    r := NewCount(need, free, blockSize, count);
  }

  /** What is needed: 16 MiB over no files, more by each known size, and the same for an unknown one. */
  lemma NeedExact(sizes: seq<Option<nat>>, n: nat)
    ensures Total([]) + SLACK == 16_777_216
    ensures Total(sizes + [Some(n)]) + SLACK == Total(sizes) + SLACK + n
    ensures Total(sizes + [None]) + SLACK == Total(sizes) + SLACK
  {
    assert (sizes + [Some(n)])[..|sizes|] == sizes && (sizes + [None])[..|sizes|] == sizes;
  }

  lemma CeilDivBounds(n: nat, d: nat)
    requires d > 0
    ensures n <= CeilDiv(n, d) * d < n + d && CeilDiv(n, d) >= 0
  {
    var m := -(n as int);
    var q, r := m / d, m % d;
    assert m == q * d + r && 0 <= r < d;
    assert (-q) * d == -(q * d);
    if q > 0 {
      MultiplesApart(d, 0, q);
    }
  }

  /**
   The image grows exactly when the free space is too small. The growth is enough and nearly minimal: with
   the added blocks the free space covers the need, and the count is the least multiple of 1024 that has
   `grow` blocks more, where `grow` is the least number of blocks that is enough.
   */
  lemma GrowthSuffices(need: nat, free: nat, blockSize: nat, count: nat)
    requires blockSize > 0
    ensures NewCount(need, free, blockSize, count).Some? <==> free < need
    ensures free < need ==>
      var new' := NewCount(need, free, blockSize, count).value;
      && new' % 1024 == 0 && new' > count && free + (new' - count) * blockSize >= need
      && exists grow: nat ::
           && (grow - 1) * blockSize < need - free <= grow * blockSize
           && new' - 1024 < count + grow <= new'
  {
    if free < need {
      var grow := CeilDiv(need - free, blockSize);
      CeilDivBounds(need - free, blockSize);
      CeilDivBounds(count + grow, ROUND);
      var new' := NewCount(need, free, blockSize, count).value;
      assert new' - count >= grow;
      Monotone(grow, new' - count, blockSize);
      assert (grow - 1) * blockSize == grow * blockSize - blockSize;
    }
  }

  lemma Monotone(a: nat, b: nat, d: nat)
    requires a <= b
    ensures a * d <= b * d
  {
    if a < b {
      MultiplesApart(d, a, b);
    }
  }
}
