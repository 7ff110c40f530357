/**
 Memory-to-memory transfers that go chunk by chunk: each chunk is read whole, transformed byte by
 byte, and written before the next one is read.  When source and destination overlap the chunk
 size can show, and this module says exactly when it does not.
 */
module Transfer {

  /** How the byte at a position of the stream is transformed. */
  type Transform<!T> = (nat, T) -> T

  function Read<T>(m: seq<T>, address: nat, len: nat): (data: seq<T>)
    requires address + len <= |m|
    ensures |data| == len
  {
    m[address..address + len]
  }

  function Write<T>(m: seq<T>, address: nat, data: seq<T>): (r: seq<T>)
    requires address + |data| <= |m|
    ensures |r| == |m|
  {
    m[..address] + data + m[address + |data|..]
  }

  /** A write to memory, byte by byte. */
  method Store<T>(memory: array<T>, address: nat, data: seq<T>)
    requires address + |data| <= memory.Length
    modifies memory
    ensures memory[..] == Write(old(memory[..]), address, data)
  {
    for i := 0 to |data|
      invariant forall k :: 0 <= k < i ==> memory[address + k] == data[k]
      invariant forall a :: 0 <= a < memory.Length && !(address <= a < address + i) ==> memory[a] == old(memory[a])
    {
      memory[address + i] := data[i];
    }
  }

  lemma WriteAt<T>(m: seq<T>, address: nat, data: seq<T>, a: nat)
    requires address + |data| <= |m| && a < |m|
    ensures Write(m, address, data)[a] == if address <= a < address + |data| then data[a - address] else m[a]
  {
  }

  lemma WriteNothing<T>(m: seq<T>, address: nat, data: seq<T>)
    requires address <= |m| && data == []
    ensures Write(m, address, data) == m
  {
  }

  lemma WriteTwice<T>(m: seq<T>, address: nat, x: seq<T>, y: seq<T>)
    requires address + |x| + |y| <= |m|
    ensures Write(Write(m, address, x), address + |x|, y) == Write(m, address, x + y)
  {
  }

  function Mapped<T>(f: Transform<T>, p: nat, data: seq<T>): (r: seq<T>)
    ensures |r| == |data|
  {
    seq(|data|, i requires 0 <= i < |data| => f(p + i, data[i]))
  }

  lemma MappedAt<T>(f: Transform<T>, p: nat, m: seq<T>, s: nat, n: nat, i: nat)
    requires s + n <= |m| && i < n
    ensures Mapped(f, p, Read(m, s, n))[i] == f(p + i, m[s + i])
  {
  }

  lemma MappedAppend<T>(f: Transform<T>, p: nat, a: seq<T>, b: seq<T>)
    ensures Mapped(f, p, a + b) == Mapped(f, p, a) + Mapped(f, p + |a|, b)
  {
  }

  function Min(a: nat, b: nat): nat {
    if a < b then a else b
  }

  /** Both ranges of a transfer lie in a memory of `size` bytes. */
  predicate InMemory(size: nat, s: nat, d: nat, len: nat) {
    s + len <= size && d + len <= size
  }

  /** Read everything, then write everything. */
  function Whole<T>(f: Transform<T>, p: nat, m: seq<T>, s: nat, d: nat, len: nat): (r: seq<T>)
    requires InMemory(|m|, s, d, len)
    ensures |r| == |m|
  {
    Write(m, d, Mapped(f, p, Read(m, s, len)))
  }

  /** The same, `c` bytes at a time. */
  function Chunked<T>(f: Transform<T>, c: nat, p: nat, m: seq<T>, s: nat, d: nat, len: nat): (r: seq<T>)
    requires 0 < c && InMemory(|m|, s, d, len)
    ensures |r| == |m|
    decreases len
  {
    if len == 0 then m
    else
      var n := Min(len, c);
      Chunked(f, c, p + n, Whole(f, p, m, s, d, n), s + n, d + n, len - n)
  }

  // ---------- when the chunk size does not show ----------

  /** No chunk overwrites a source byte that a later chunk still reads. */
  predicate Harmless(c: nat, s: nat, d: nat, len: nat) {
    d <= s || s + len <= d || len <= c
  }

  lemma {:induction false} HarmlessIsWhole<T>(f: Transform<T>, c: nat, p: nat, m: seq<T>, s: nat, d: nat, len: nat)
    requires 0 < c && InMemory(|m|, s, d, len)
    requires Harmless(c, s, d, len)
    ensures Chunked(f, c, p, m, s, d, len) == Whole(f, p, m, s, d, len)
    decreases len
  {
    hide Mapped, Write;
    if len != 0 {
      var n := Min(len, c);
      var x := Mapped(f, p, Read(m, s, n));
      var m1 := Write(m, d, x);
      HarmlessIsWhole(f, c, p + n, m1, s + n, d + n, len - n);
      var rest := Read(m, s + n, len - n);
      assert Read(m1, s + n, len - n) == rest by {
        RestUntouched(m, s, d, len, n, x);
      }
      assert Read(m, s, len) == Read(m, s, n) + rest;
      MappedAppend(f, p, Read(m, s, n), rest);
      WriteTwice(m, d, x, Mapped(f, p + n, rest));
    } else {
      WriteNothing(m, d, Mapped(f, p, Read(m, s, 0)));
    }
  }

  lemma RestUntouched<T>(m: seq<T>, s: nat, d: nat, len: nat, n: nat, x: seq<T>)
    requires InMemory(|m|, s, d, len) && n <= len && |x| == n
    requires d <= s || s + len <= d || n == len
    ensures Read(Write(m, d, x), s + n, len - n) == Read(m, s + n, len - n)
  {
  }

  /** Bytes outside the destination never change. */
  lemma {:induction false} OutsideUnchanged<T>(f: Transform<T>, c: nat, p: nat, m: seq<T>, s: nat, d: nat, len: nat,
      a: nat)
    requires 0 < c && InMemory(|m|, s, d, len)
    requires a < |m| && !(d <= a < d + len)
    ensures Chunked(f, c, p, m, s, d, len)[a] == m[a]
    decreases len
  {
    hide Mapped;
    if len != 0 {
      var n := Min(len, c);
      var x := Mapped(f, p, Read(m, s, n));
      OutsideUnchanged(f, c, p + n, Write(m, d, x), s + n, d + n, len - n, a);
      WriteAt(m, d, x, a);
    }
  }

  /** A byte whose source lies below the destination is transformed from its original value. */
  lemma {:induction false} BelowIsOriginal<T>(f: Transform<T>, c: nat, p: nat, m: seq<T>, s: nat, d: nat, len: nat,
      i: nat)
    requires 0 < c && InMemory(|m|, s, d, len)
    requires i < len && s + i < d
    ensures Chunked(f, c, p, m, s, d, len)[d + i] == f(p + i, m[s + i])
    decreases len
  {
    hide Read, Write, Mapped;
    var n := Min(len, c);
    var x := Mapped(f, p, Read(m, s, n));
    var m1 := Write(m, d, x);
    if i < n {
      MappedAt(f, p, m, s, n, i);
      OutsideUnchanged(f, c, p + n, m1, s + n, d + n, len - n, d + i);
      WriteAt(m, d, x, d + i);
    } else {
      BelowIsOriginal(f, c, p + n, m1, s + n, d + n, len - n, i - n);
      WriteAt(m, d, x, s + i);
    }
  }

  lemma FirstChunkIsOriginal<T>(f: Transform<T>, c: nat, p: nat, m: seq<T>, s: nat, d: nat, len: nat, i: nat)
    requires 0 < c && InMemory(|m|, s, d, len) && i < len && i < c
    ensures Chunked(f, c, p, m, s, d, len)[d + i] == f(p + i, m[s + i])
  {
    hide Read, Write, Mapped;
    var n := Min(len, c);
    var x := Mapped(f, p, Read(m, s, n));
    OutsideUnchanged(f, c, p + n, Write(m, d, x), s + n, d + n, len - n, d + i);
    WriteAt(m, d, x, d + i);
    MappedAt(f, p, m, s, n, i);
  }

  /** A source byte that the first chunk overwrites reaches a later chunk in its transformed form. */
  lemma OverwrittenByFirst<T>(f: Transform<T>, c: nat, p: nat, m: seq<T>, s: nat, d: nat, len: nat, i: nat)
    requires 0 < c && InMemory(|m|, s, d, len)
    requires s < d && c <= i < len && d <= s + i < d + c
    ensures Chunked(f, c, p, m, s, d, len)[d + i] == f(p + i, f(p + (s + i - d), m[s + (s + i - d)]))
  {
    hide Read, Write, Mapped;
    var n := Min(len, c);
    var x := Mapped(f, p, Read(m, s, n));
    var m1 := Write(m, d, x);
    MappedAt(f, p, m, s, n, s + i - d);
    BelowIsOriginal(f, c, p + n, m1, s + n, d + n, len - n, i - n);
    WriteAt(m, d, x, s + i);
  }

  // ---------- overlapping ranges that a chunk does not reach across ----------

  /**
   Byte `i` of the result of going forward one byte at a time, when the destination is `gap` bytes
   above the source: bytes from `gap` on are read after they were written.
   */
  function Forward<T>(f: Transform<T>, p: nat, m: seq<T>, s: nat, gap: nat, i: nat): T
    requires 0 < gap && s + i < |m|
  {
    if i < gap then f(p + i, m[s + i]) else f(p + i, Forward(f, p, m, s, gap, i - gap))
  }

  /** After the first chunk, the rest of the transfer goes forward as the whole would have. */
  lemma {:induction false} ForwardAfterChunk<T>(f: Transform<T>, p: nat, m: seq<T>, s: nat, gap: nat, n: nat,
      x: seq<T>, j: nat)
    requires 0 < n <= gap && s + gap + n <= |m| && s + n + j < |m|
    requires x == Mapped(f, p, Read(m, s, n))
    ensures Forward(f, p + n, Write(m, s + gap, x), s + n, gap, j) == Forward(f, p, m, s, gap, n + j)
  {
    hide Read, Write, Mapped;
    var m1 := Write(m, s + gap, x);
    WriteAt(m, s + gap, x, s + n + j);
    if j < gap {
      if gap <= n + j {
        MappedAt(f, p, m, s, n, n + j - gap);
      }
    } else {
      ForwardAfterChunk(f, p, m, s, gap, n, x, j - gap);
    }
  }

  /** If no chunk is longer than the distance, the chunk size does not show: the transfer goes forward. */
  lemma {:induction false} ChunkedIsForward<T>(f: Transform<T>, c: nat, p: nat, m: seq<T>, s: nat, d: nat, len: nat,
      i: nat)
    requires 0 < c && InMemory(|m|, s, d, len)
    requires s + c <= d && i < len
    ensures Chunked(f, c, p, m, s, d, len)[d + i] == Forward(f, p, m, s, d - s, i)
    decreases len
  {
    hide Read, Write, Mapped;
    var n := Min(len, c);
    var x := Mapped(f, p, Read(m, s, n));
    var m1 := Write(m, d, x);
    if i < n {
      OutsideUnchanged(f, c, p + n, m1, s + n, d + n, len - n, d + i);
      WriteAt(m, d, x, d + i);
      MappedAt(f, p, m, s, n, i);
    } else {
      ChunkedIsForward(f, c, p + n, m1, s + n, d + n, len - n, i - n);
      ForwardAfterChunk(f, p, m, s, d - s, n, x, i - n);
    }
  }

  lemma FarIsSame<T>(f: Transform<T>, c: nat, e: nat, p: nat, m: seq<T>, s: nat, d: nat, len: nat)
    requires 0 < c && 0 < e && InMemory(|m|, s, d, len)
    requires s + c <= d && s + e <= d
    ensures Chunked(f, c, p, m, s, d, len) == Chunked(f, e, p, m, s, d, len)
  {
    hide Chunked, Forward;
    var r, t := Chunked(f, c, p, m, s, d, len), Chunked(f, e, p, m, s, d, len);
    forall a | 0 <= a < |m| ensures r[a] == t[a] {
      if d <= a < d + len {
        ChunkedIsForward(f, c, p, m, s, d, len, a - d);
        ChunkedIsForward(f, e, p, m, s, d, len, a - d);
      } else {
        OutsideUnchanged(f, c, p, m, s, d, len, a);
        OutsideUnchanged(f, e, p, m, s, d, len, a);
      }
    }
  }

  // ---------- splitting ----------

  /** The length of consecutive parts. */
  function Total(sizes: seq<nat>): nat {
    if sizes == [] then 0 else Total(sizes[..|sizes| - 1]) + sizes[|sizes| - 1]
  }

  lemma TotalAll(sizes: seq<nat>)
    ensures Total(sizes[..|sizes|]) == Total(sizes)
  {
    assert sizes[..|sizes|] == sizes;
  }

  lemma TotalSplit(sizes: seq<nat>, i: nat)
    requires i < |sizes|
    ensures Total(sizes[..i + 1]) == Total(sizes[..i]) + sizes[i]
    ensures Total(sizes[..i + 1]) <= Total(sizes)
  {
    assert sizes[..i + 1][..i] == sizes[..i];
    TotalPrefix(sizes, i + 1);
  }

  lemma {:induction false} TotalPrefix(sizes: seq<nat>, i: nat)
    requires i <= |sizes|
    ensures Total(sizes[..i]) <= Total(sizes)
  {
    if i == |sizes| {
      TotalAll(sizes);
    } else {
      var init := sizes[..|sizes| - 1];
      assert init[..i] == sizes[..i];
      TotalPrefix(init, i);
    }
  }
}
