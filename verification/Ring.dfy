// The contents of a bounded ring: `len` bytes from `head`, wrapping at the end of the buffer.
module Ring {
  import opened Words

  function Contents(b: bytes, head: nat, len: nat): (r: bytes)
    requires head < |b| && len <= |b|
    ensures |r| == len
  {
    if head + len <= |b| then b[head..head + len] else b[head..] + b[..head + len - |b|]
  }

  // What memcpy leaves behind.
  function Put(b: bytes, at: nat, src: bytes): (r: bytes)
    requires at + |src| <= |b|
    ensures |r| == |b|
  {
    b[..at] + src + b[at + |src|..]
  }

  function Min(x: nat, y: nat): nat { if x < y then x else y }

  // x % c
  function Wrap(x: nat, c: nat): nat
    requires c > 0
  {
    x % c
  }

  lemma Wraps(x: nat, c: nat)
    requires 0 < c && x < 2 * c
    ensures Wrap(x, c) == if x < c then x else x - c
  {
    if x >= c { assert x == c * 1 + (x - c); }
  }

  // Where new bytes start, and the buffer after copying up to its end and the remainder to its front.
  function Tail(b: bytes, head: nat, len: nat): (t: nat)
    requires head < |b| && len <= |b|
    ensures t < |b|
  {
    Wraps(head + len, |b|);
    Wrap(head + len, |b|)
  }

  function Filled(b: bytes, head: nat, len: nat, data: bytes): (r: bytes)
    requires head < |b| && len + |data| <= |b|
    ensures |r| == |b|
  {
    var tail := Tail(b, head, len);
    var first := Min(|b| - tail, |data|);
    Put(Put(b, tail, data[..first]), 0, data[first..])
  }

  lemma Append(b: bytes, head: nat, len: nat, data: bytes)
    requires head < |b| && len + |data| <= |b|
    ensures Contents(Filled(b, head, len, data), head, len + |data|) == Contents(b, head, len) + data
  {
    hide Wrap, Contents, Put;
    Wraps(head + len, |b|);
    var first := Min(|b| - Tail(b, head, len), |data|);
    if head + len >= |b| {
      PutNothing(b, head + len - |b|, data);
      AppendFront(b, head, len, data);
    } else if first == |data| {
      PutNothing(b, head + len, data);
      AppendFlat(b, head, len, data);
    } else {
      var b' := Put(b, head + len, data[..first]);
      AppendFlat(b, head, len, data[..first]);
      AppendFront(b', head, len + first, data[first..]);
      assert Contents(b, head, len) + data[..first] + data[first..] == Contents(b, head, len) + data;
    }
  }

  // The second copy is skipped when the first took everything.
  lemma PutNothing(b: bytes, at: nat, data: bytes)
    requires at + |data| <= |b|
    ensures data[..|data|] == data && data[|data|..] == []
    ensures Put(Put(b, at, data), 0, []) == Put(b, at, data)
  { }

  // No copy goes past the end of the buffer.
  lemma AppendFlat(b: bytes, head: nat, len: nat, data: bytes)
    requires head < |b| && head + len + |data| <= |b|
    ensures Contents(Put(b, head + len, data), head, len + |data|) == Contents(b, head, len) + data
  { }

  // The contents already reach the end, so the copy lands at the front.
  lemma AppendFront(b: bytes, head: nat, len: nat, data: bytes)
    requires head < |b| <= head + len && len + |data| <= |b|
    ensures Contents(Put(b, head + len - |b|, data), head, len + |data|) == Contents(b, head, len) + data
  {
    var k := head + len - |b|;
    var c := Put(b, k, data);
    assert Contents(b, head, len) == b[head..] + b[..k];
    assert c[head..] == b[head..];
    assert c[..k + |data|] == b[..k] + data;
    assert Contents(c, head, len + |data|) == c[head..] + c[..k + |data|];
  }

  // The bytes at `head` leave first, and the rest of the contents stays in order.
  lemma Remove(b: bytes, head: nat, len: nat, n: nat)
    requires head < |b| && n <= len <= |b| && head + n <= |b|
    ensures Wrap(head + n, |b|) < |b|
    ensures Contents(b, head, len) == b[head..head + n] + Contents(b, Wrap(head + n, |b|), len - n)
  {
    hide Wrap;
    Wraps(head + n, |b|);
  }

  // The two memcpy calls of an enqueue.
  method CopyIn(b: array<byte>, head: nat, len: nat, data: bytes)
    requires head < b.Length && len + |data| <= b.Length
    modifies b
    ensures b[..] == Filled(old(b[..]), head, len, data)
  {
    hide Wrap;
    var n := |data|;
    Wraps(head + len, b.Length);
    var tail := Wrap(head + len, b.Length);
    var first := b.Length - tail;
    if first > n { first := n; }
    MemCopy(b, tail, data[..first]);
    if n > first { MemCopy(b, 0, data[first..]); }
  }
}
