/** The flat heap: bytes, and the aligned little-endian words that its typed views read. */
module Heap {
  import opened Unicode

  // `h` with `bytes` written at `at`.
  ghost function Replace(h: seq<Byte>, at: nat, bytes: seq<Byte>): (h': seq<Byte>)
    requires at + |bytes| <= |h|
    ensures |h'| == |h|
    ensures h'[at..at + |bytes|] == bytes
  {
    h[..at] + bytes + h[at + |bytes|..]
  }

  lemma IsReplace(h: seq<Byte>, h': seq<Byte>, at: nat, bytes: seq<Byte>)
    requires |h'| == |h| && at + |bytes| <= |h|
    requires forall i :: 0 <= i < |bytes| ==> h'[at + i] == bytes[i]
    requires forall i :: 0 <= i < at || at + |bytes| <= i < |h| ==> h'[i] == h[i]
    ensures h' == Replace(h, at, bytes)
  {
  }

  lemma ReplaceTwice(h: seq<Byte>, at: nat, xs: seq<Byte>, ys: seq<Byte>)
    requires at + |xs| + |ys| <= |h|
    ensures Replace(Replace(h, at, xs), at + |xs|, ys) == Replace(h, at, xs + ys)
  {
  }

  // A read past the end of the heap is undefined, whose bits are all zero.
  function ByteAt(h: seq<Byte>, i: nat): Byte {
    if i < |h| then h[i] else 0
  }

  function Bytes16(v: int): (bytes: seq<Byte>)
    ensures |bytes| == 2
  {
    [v % 0x100, v / 0x100 % 0x100]
  }

  function Bytes32(v: int): (bytes: seq<Byte>)
    ensures |bytes| == 4
  {
    [v % 0x100, v / 0x100 % 0x100, v / 0x1_0000 % 0x100, v / 0x100_0000 % 0x100]
  }

  // The word at an aligned address, unsigned.
  function Load16(h: seq<Byte>, at: nat): Unit
    requires at + 2 <= |h|
  {
    var b0: int, b1: int := h[at], h[at + 1];
    b0 + 0x100 * b1
  }

  function Load32(h: seq<Byte>, at: nat): (v: nat)
    requires at + 4 <= |h|
    ensures v < 0x1_0000_0000
  {
    var b0: int, b1: int, b2: int, b3: int := h[at], h[at + 1], h[at + 2], h[at + 3];
    b0 + 0x100 * b1 + 0x1_0000 * b2 + 0x100_0000 * b3
  }

  // The same word through a signed view.
  function Signed32(v: nat): int {
    if v >= 0x8000_0000 then v - 0x1_0000_0000 else v
  }

  // Byte `i` of a word holds its bits from 8 * i on, the lowest first.
  lemma LittleEndian(v: int, i: nat)
    ensures i < 2 ==> Bytes16(v)[i] == v / [1, 256][i] % 256
    ensures i < 4 ==> Bytes32(v)[i] == v / [1, 256, 65536, 16777216][i] % 256
  {
  }

  lemma LoadsLittleEndian(h: seq<Byte>, at: nat)
    ensures at + 2 <= |h| ==> Load16(h, at) % 256 == h[at] && Load16(h, at) / 256 == h[at + 1]
    ensures at + 4 <= |h| ==> var v := Load32(h, at);
      v % 256 == h[at] && v / 256 % 256 == h[at + 1] && v / 65536 % 256 == h[at + 2] && v / 16777216 == h[at + 3]
  {
    if at + 4 <= |h| {
      var b0: int, b1: int, b2: int, b3: int := h[at], h[at + 1], h[at + 2], h[at + 3];
      var v := Load32(h, at);
      LowByte(b0, b1 + 0x100 * b2 + 0x1_0000 * b3, v);
      LowByte(b1, b2 + 0x100 * b3, v / 256);
      LowByte(b2, b3, v / 256 / 256);
      assert v / 65536 == v / 256 / 256 && v / 16777216 == v / 65536 / 256;
    }
  }

  lemma LowByte(b: int, high: int, v: int)
    requires 0 <= b < 256 && v == b + 256 * high
    ensures v % 256 == b && v / 256 == high
  {
  }

  lemma LoadBytes16(h: seq<Byte>, at: nat, v: Unit)
    requires at + 2 <= |h| && h[at..at + 2] == Bytes16(v)
    ensures Load16(h, at) == v
  {
    assert h[at] == h[at..at + 2][0] && h[at + 1] == h[at..at + 2][1];
  }

  lemma LoadBytes32(h: seq<Byte>, at: nat, v: nat)
    requires at + 4 <= |h| && h[at..at + 4] == Bytes32(v) && v < 0x1_0000_0000
    ensures Load32(h, at) == v
  {
    assert h[at] == h[at..at + 4][0] && h[at + 1] == h[at..at + 4][1];
    assert h[at + 2] == h[at..at + 4][2] && h[at + 3] == h[at..at + 4][3];
    FourBytes(v);
  }

  lemma FourBytes(v: nat)
    requires v < 0x1_0000_0000
    ensures v == v % 0x100 + 0x100 * (v / 0x100 % 0x100) + 0x1_0000 * (v / 0x1_0000 % 0x100)
      + 0x100_0000 * (v / 0x100_0000 % 0x100)
  {
    assert v / 0x100 / 0x100 == v / 0x1_0000;
    assert v / 0x1_0000 / 0x100 == v / 0x100_0000;
  }

  method Store8(heap: array<Byte>, at: nat, v: Byte)
    requires at < heap.Length
    modifies heap
    ensures heap[..] == Replace(old(heap[..]), at, [v])
  {
    heap[at] := v;
  }

  method Store16(heap: array<Byte>, at: nat, v: int)
    requires at + 2 <= heap.Length
    modifies heap
    ensures heap[..] == Replace(old(heap[..]), at, Bytes16(v))
  {
    heap[at] := v % 0x100;
    heap[at + 1] := v / 0x100 % 0x100;
  }

  method Store32(heap: array<Byte>, at: nat, v: int)
    requires at + 4 <= heap.Length
    modifies heap
    ensures heap[..] == Replace(old(heap[..]), at, Bytes32(v))
  {
    heap[at] := v % 0x100;
    heap[at + 1] := v / 0x100 % 0x100;
    heap[at + 2] := v / 0x1_0000 % 0x100;
    heap[at + 3] := v / 0x100_0000 % 0x100;
  }

  method Fetch32(heap: array<Byte>, at: nat) returns (v: nat)
    requires at + 4 <= heap.Length
    ensures v == Load32(heap[..], at)
  {
    var b0: int, b1: int, b2: int, b3: int := heap[at], heap[at + 1], heap[at + 2], heap[at + 3];
    v := b0 + 0x100 * b1 + 0x1_0000 * b2 + 0x100_0000 * b3;
  }
}
