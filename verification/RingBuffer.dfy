/// The byte ring of the reliable-UDP library: a queue that truncates what does not fit.
module RingBuffer {
  import opened Basics

  class Ringbuffer {
    const buffer: array<int>
    var wr: nat
    var rd: nat

    ghost predicate Valid()
      reads this
    {
      wr < buffer.Length && rd < buffer.Length
    }

    /// The bytes written and not yet read, oldest first. One cell stays free, so
    /// that equal positions mean an empty ring.
    ghost function Contents(): (s: seq<int>)
      reads this, buffer
      requires Valid()
      ensures |s| < buffer.Length
    {
      if rd <= wr then buffer[rd..wr] else buffer[rd..] + buffer[..wr]
    }

    /// ringbuff_init.
    constructor (size: nat)
      requires size > 0
      ensures Valid() && fresh(buffer) && buffer.Length == size && Contents() == []
    {
      buffer := new int[size](_ => 0);
      wr, rd := 0, 0;
    }

    /// ringbuff_data_size.
    function DataSize(): (n: nat)
      reads this, buffer
      requires Valid()
      ensures n == |Contents()|
    {
      if wr >= rd then wr - rd else wr + buffer.Length - rd
    }

    /// ringbuff_free_size.
    function FreeSize(): (n: nat)
      reads this, buffer
      requires Valid()
      ensures n == buffer.Length - 1 - |Contents()|
    {
      buffer.Length - 1 - DataSize()
    }

    /// is_ringbuff_empty and is_ringbuff_full.
    predicate IsEmpty()
      reads this, buffer
      requires Valid()
      ensures IsEmpty() <==> Contents() == []
    {
      wr == rd
    }

    predicate IsFull()
      reads this, buffer
      requires Valid()
      ensures IsFull() <==> FreeSize() == 0
    {
      DataSize() == buffer.Length - 1
    }

    /// memcpy into the buffer.
    method CopyIn(point: nat, data: seq<int>)
      requires point + |data| <= buffer.Length
      modifies buffer
      ensures buffer[..] == old(buffer[..point]) + data + old(buffer[point + |data|..])
    {
      forall i | 0 <= i < |data| {
        buffer[point + i] := data[i];
      }
      forall i | 0 <= i < buffer.Length
        ensures buffer[..][i] == (old(buffer[..point]) + data + old(buffer[point + |data|..]))[i]
      {
        if point <= i < point + |data| {
          assert buffer[point + (i - point)] == data[i - point];
        }
      }
    }

    /// ringbuff_write: as much of the data as fits is appended.
    method Write(data: seq<int>) returns (count: nat)
      requires Valid()
      modifies this`wr, buffer
      ensures Valid() && count == Min(|data|, old(FreeSize())) && Contents() == old(Contents()) + data[..count]
    {
      ghost var b0, w0 := buffer[..], wr;
      var len := Min(|data|, FreeSize());
      count := len;
      var point := wr;
      if point + len > buffer.Length - 1 {
        var first := buffer.Length - point;
        CopyIn(point, data[..first]);
        ghost var b1 := buffer[..];
        CopyIn(0, data[first..len]);
        wr := len - first;
        WroteAround(b0, b1, buffer[..], rd, w0, first, data, len);
      } else {
        CopyIn(point, data[..len]);
        wr := point + len;
        WroteAhead(b0, buffer[..], rd, w0, data, len);
      }
    }

    /// ringbuff_read: the oldest bytes, at most len of them, leave the ring.
    method Read(len: nat) returns (out: seq<int>)
      requires Valid()
      modifies this`rd
      ensures Valid() && out == old(Contents())[..Min(len, |old(Contents())|)]
      ensures Contents() == old(Contents())[Min(len, |old(Contents())|)..]
    {
      ghost var b := buffer[..];
      ContentsSpan();
      var n := Min(len, DataSize());
      var point := rd;
      ReadSpan(b, rd, wr, n);
      hide Span, Contents;
      if point + n > buffer.Length - 1 {
        var first := buffer.Length - point;
        out := buffer[point..] + buffer[..n - first];
        rd := n - first;
      } else {
        out := buffer[point..point + n];
        rd := point + n;
      }
      ContentsSpan();
    }

    lemma ContentsSpan()
      requires Valid()
      ensures Contents() == Span(buffer[..], rd, wr)
    {
    }
  }

  /// The contents for a buffer b with the read position r and the write position w.
  ghost function Span(b: seq<int>, r: nat, w: nat): seq<int>
    requires r < |b| && w < |b|
  {
    if r <= w then b[r..w] else b[r..] + b[..w]
  }

  lemma WroteAhead(b: seq<int>, b': seq<int>, r: nat, w: nat, data: seq<int>, len: nat)
    requires r < |b| && len <= |data| && w + len < |b| && len <= |b| - 1 - |Span(b, r, w)|
    requires b' == b[..w] + data[..len] + b[w + len..]
    ensures |b'| == |b| && Span(b', r, w + len) == Span(b, r, w) + data[..len]
  {
    assert b'[..w] == b[..w] && b'[w..w + len] == data[..len] && b'[w + len..] == b[w + len..];
    if r > w {
      assert b'[r..] == b[r..];
      assert b'[..w + len] == b[..w] + data[..len];
    }
  }

  lemma WroteAround(b: seq<int>, b1: seq<int>, b': seq<int>, r: nat, w: nat, first: nat, data: seq<int>, len: nat)
    requires r < |b| && w < |b| && first == |b| - w && first <= len <= |data| && len <= |b| - 1 - |Span(b, r, w)|
    requires b1 == b[..w] + data[..first] + b[w + first..]
    requires b' == b1[..0] + data[first..len] + b1[len - first..]
    ensures |b'| == |b| && Span(b', r, len - first) == Span(b, r, w) + data[..len]
  {
    var n := len - first;
    AroundBounds(b, r, w, first, len);
    AroundBuffer(b, b1, b', w, first, data, len);
    assert data[..len] == data[..first] + data[first..len];
    AroundTail(b, b1, b', r, w, first, data, n);
    assert b'[..n] == data[first..len];
    assert b'[r..] == b[r..w] + data[..first];
    assert (b[r..w] + data[..first]) + data[first..len] == b[r..w] + (data[..first] + data[first..len]);
  }

  lemma AroundTail(b: seq<int>, b1: seq<int>, b': seq<int>, r: nat, w: nat, first: nat, data: seq<int>, n: nat)
    requires r <= w < |b| && first == |b| - w && first <= |data| && n <= r && |b'| == |b|
    requires b1 == b[..w] + data[..first] && b'[n..] == b1[n..]
    ensures b'[r..] == b[r..w] + data[..first]
  {
    assert b'[r..] == b'[n..][r - n..] == b1[n..][r - n..] == b1[r..];
  }

  /// A write that wraps ends before the read position.
  lemma AroundBounds(b: seq<int>, r: nat, w: nat, first: nat, len: nat)
    requires r < |b| && w < |b| && first == |b| - w && first <= len <= |b| - 1 - |Span(b, r, w)|
    ensures len - first < r <= w
  {
    assert |Span(b, r, w)| == if r <= w then w - r else |b| - r + w;
  }

  lemma AroundBuffer(b: seq<int>, b1: seq<int>, b': seq<int>, w: nat, first: nat, data: seq<int>, len: nat)
    requires w < |b| && first == |b| - w && first <= len <= |data| && len - first <= w
    requires b1 == b[..w] + data[..first] + b[w + first..]
    requires b' == b1[..0] + data[first..len] + b1[len - first..]
    ensures |b1| == |b'| == |b| && b1 == b[..w] + data[..first] && b' == data[first..len] + b1[len - first..]
  {
    assert b[w + first..] == [] && b1[..0] == [];
  }

  /// The oldest n bytes, and the ring without them.
  lemma ReadSpan(b: seq<int>, r: nat, w: nat, n: nat)
    requires r < |b| && w < |b| && n <= |Span(b, r, w)|
    ensures r + n < |b| ==> b[r..r + n] == Span(b, r, w)[..n] && Span(b, r + n, w) == Span(b, r, w)[n..]
    ensures r + n >= |b| ==>
              r > w && n - (|b| - r) <= w && b[r..] + b[..n - (|b| - r)] == Span(b, r, w)[..n] &&
              Span(b, n - (|b| - r), w) == Span(b, r, w)[n..]
  {
    if r + n < |b| {
      ReadAhead(b, r, w, n);
    } else {
      var k := n - (|b| - r);
      assert Span(b, r, w)[..n] == b[r..] + b[..k];
      assert Span(b, r, w)[n..] == b[k..w];
    }
  }

  lemma ReadAhead(b: seq<int>, r: nat, w: nat, n: nat)
    requires r < |b| && w < |b| && n <= |Span(b, r, w)| && r + n < |b|
    ensures b[r..r + n] == Span(b, r, w)[..n] && Span(b, r + n, w) == Span(b, r, w)[n..]
  {
    if r > w {
      assert b[r..][..n] == b[r..r + n] && b[r..][n..] == b[r + n..];
    }
  }
}
