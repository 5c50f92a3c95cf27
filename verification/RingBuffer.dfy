/** The mirror-bit ring buffer, refined to a bounded sequence of bytes. */
module RingBuffer {
  import opened Basics

  /** The indices, their mirror bits, and the bytes of the pool that are in use. */
  datatype Ring = Ring(bytes: seq<Byte>, readMirror: bool, readIndex: int, writeMirror: bool, writeIndex: int)

  /** An index stays below the size (or is 0 for the empty pool); in the same mirror the reader is
      not ahead of the writer, in different mirrors the writer is not ahead of the reader. */
  predicate Shape(q: Ring) {
    var n := |q.bytes|;
    (if n == 0 then q.readIndex == 0 && q.writeIndex == 0 else 0 <= q.readIndex < n && 0 <= q.writeIndex < n) &&
    (if q.readMirror == q.writeMirror then q.readIndex <= q.writeIndex else q.writeIndex <= q.readIndex)
  }

  /** The bytes held, oldest first. */
  function Contents(q: Ring): (s: seq<Byte>)
    requires Shape(q)
    ensures |s| <= |q.bytes|
  {
    if q.readMirror == q.writeMirror then q.bytes[q.readIndex..q.writeIndex]
    else q.bytes[q.readIndex..] + q.bytes[..q.writeIndex]
  }

  /** Copying data into the bytes from `at` on. */
  function Written(bytes: seq<Byte>, at: int, data: seq<Byte>): (r: seq<Byte>)
    requires 0 <= at && at + |data| <= |bytes|
    ensures |r| == |bytes|
  {
    bytes[..at] + data + bytes[at + |data|..]
  }

  /** Whether appending n bytes reaches the end of the pool. */
  predicate Wraps(q: Ring, n: int) {
    |q.bytes| - q.writeIndex <= n
  }

  /** The write side after appending data at the write index. */
  function Appended(q: Ring, data: seq<Byte>): (q': Ring)
    requires Shape(q) && |data| <= |q.bytes|
    ensures |q'.bytes| == |q.bytes|
  {
    if !Wraps(q, |data|) then q.(bytes := Written(q.bytes, q.writeIndex, data), writeIndex := q.writeIndex + |data|)
    else
      var first := |q.bytes| - q.writeIndex;
      q.(bytes := Written(Written(q.bytes, q.writeIndex, data[..first]), 0, data[first..]),
         writeMirror := !q.writeMirror,
         writeIndex := |data| - first)
  }

  lemma WrittenNone(bytes: seq<Byte>, at: int, data: seq<Byte>)
    requires 0 <= at <= |bytes|
    ensures Written(bytes, at, []) == bytes && data[0..0] == []
  {
  }

  /** One more byte copied. */
  lemma WrittenMore(bytes: seq<Byte>, at: int, data: seq<Byte>, from: int, k: int)
    requires 0 <= from && 0 <= k && from + k < |data| && 0 <= at && at + k < |bytes|
    ensures Written(bytes, at, data[from..from + k])[at + k := data[from + k]] ==
            Written(bytes, at, data[from..from + k + 1])
  {
  }

  /** The three parts of a written pool. */
  lemma WrittenParts(bytes: seq<Byte>, at: int, data: seq<Byte>, lo: int, hi: int)
    requires 0 <= lo <= at && at + |data| <= hi <= |bytes|
    ensures Written(bytes, at, data)[lo..at] == bytes[lo..at]
    ensures Written(bytes, at, data)[lo..at + |data|] == bytes[lo..at] + data
    ensures Written(bytes, at, data)[at + |data|..hi] == bytes[at + |data|..hi]
  {
  }

  lemma WrittenTail(bytes: seq<Byte>, at: int, data: seq<Byte>, lo: int)
    requires 0 <= at && at + |data| <= lo <= |bytes|
    ensures Written(bytes, at, data)[lo..] == bytes[lo..]
  {
  }

  /** Two writes, the first up to the end of the pool and the second from its start. */
  lemma WrittenTwice(bytes: seq<Byte>, w: int, d1: seq<Byte>, d2: seq<Byte>, lo: int)
    requires 0 <= w && w + |d1| == |bytes| && |d2| <= lo <= w
    ensures var b := Written(Written(bytes, w, d1), 0, d2); b[lo..] == bytes[lo..w] + d1 && b[..|d2|] == d2
  {
    hide Written;
    var b1 := Written(bytes, w, d1);
    WrittenParts(bytes, w, d1, lo, |bytes|);
    WholeSlice(b1, lo);
    WrittenStart(b1, d2);
    Prefix(d2, b1[|d2|..]);
    WrittenTail(b1, 0, d2, lo);
  }

  lemma Prefix(a: seq<Byte>, b: seq<Byte>)
    ensures (a + b)[..|a|] == a
  {
  }

  lemma WholeSlice(s: seq<Byte>, lo: int)
    requires 0 <= lo <= |s|
    ensures s[lo..|s|] == s[lo..]
  {
  }

  lemma AppendedWrapped(q: Ring, data: seq<Byte>)
    requires Shape(q) && |data| <= |q.bytes| && Wraps(q, |data|)
    ensures var first := |q.bytes| - q.writeIndex;
            Appended(q, data) ==
            q.(bytes := Written(Written(q.bytes, q.writeIndex, data[..first]), 0, data[first..]),
               writeMirror := !q.writeMirror, writeIndex := |data| - first)
  {
  }

  /** What fits is appended behind the contents. */
  lemma AppendedFits(q: Ring, data: seq<Byte>)
    requires Shape(q) && |data| <= |q.bytes| - |Contents(q)|
    requires |data| > 0 || |q.bytes| > 0
    ensures Shape(Appended(q, data)) && Contents(Appended(q, data)) == Contents(q) + data
  {
    if Wraps(q, |data|) {
      FitsWrapping(q, data);
    } else {
      FitsFlat(q, data);
    }
  }

  lemma FitsWrapping(q: Ring, data: seq<Byte>)
    requires Shape(q) && |data| <= |q.bytes| - |Contents(q)| && |q.bytes| > 0 && Wraps(q, |data|)
    ensures Shape(Appended(q, data)) && Contents(Appended(q, data)) == Contents(q) + data
  {
    hide Appended, Written;
    var r, w := q.readIndex, q.writeIndex;
    var first := |q.bytes| - w;
    AppendedSides(q, data);
    AppendedWrapped(q, data);
    WrittenTwice(q.bytes, w, data[..first], data[first..], r);
    Regroup(q.bytes[r..w], data[..first], data[first..]);
    assert data[..first] + data[first..] == data;
  }

  lemma FitsFlat(q: Ring, data: seq<Byte>)
    requires Shape(q) && |data| <= |q.bytes| - |Contents(q)| && !Wraps(q, |data|)
    ensures Shape(Appended(q, data)) && Contents(Appended(q, data)) == Contents(q) + data
  {
    hide Written;
    var r, w := q.readIndex, q.writeIndex;
    if q.readMirror == q.writeMirror {
      WrittenParts(q.bytes, w, data, r, |q.bytes|);
    } else {
      WrittenParts(q.bytes, w, data, 0, |q.bytes|);
      WrittenTail(q.bytes, w, data, r);
      Regroup(q.bytes[r..], q.bytes[..w], data);
    }
  }

  lemma AppendedSides(q: Ring, data: seq<Byte>)
    requires Shape(q) && |data| <= |q.bytes|
    ensures Appended(q, data).readIndex == q.readIndex && Appended(q, data).readMirror == q.readMirror
    ensures Appended(q, data).writeMirror == if Wraps(q, |data|) then !q.writeMirror else q.writeMirror
  {
  }

  lemma Regroup(a: seq<Byte>, b: seq<Byte>, c: seq<Byte>)
    ensures a + b + c == a + (b + c)
  {
  }

  /** rt_ringbuffer_put_force with at most as many bytes as the pool has. */
  function Forced(q: Ring, data: seq<Byte>): (q': Ring)
    requires Shape(q) && |data| <= |q.bytes|
    ensures |q'.bytes| == |q.bytes|
  {
    var q1 := Appended(q, data);
    if |data| <= |q.bytes| - |Contents(q)| then q1
    else q1.(readIndex := q1.writeIndex, readMirror := if Wraps(q, |data|) then !q.readMirror else q.readMirror)
  }

  /** The case the source gets wrong: reader and writer in the same mirror, a write that reaches
      the end of the pool, and more bytes than there is room for. */
  predicate Emptied(q: Ring, data: seq<Byte>)
    requires Shape(q)
  {
    q.readMirror == q.writeMirror && Wraps(q, |data|) && |data| > |q.bytes| - |Contents(q)|
  }

  /** put_force keeps the last bytes of what was held and what is put if and only if it is not in
      the bad case; there the buffer ends up empty. */
  lemma ForcedExactly(q: Ring, data: seq<Byte>)
    requires Shape(q) && |data| <= |q.bytes|
    ensures Shape(Forced(q, data))
    ensures Contents(Forced(q, data)) == Suffix(Contents(q) + data, |q.bytes|) <==> !Emptied(q, data)
    ensures Emptied(q, data) ==> Contents(Forced(q, data)) == []
  {
    hide Contents, Forced, Appended;
    if |data| <= |q.bytes| - |Contents(q)| {
      ForcedRoom(q, data);
    } else if q.readMirror == q.writeMirror {
      ForcedEmpty(q, data);
    } else if Wraps(q, |data|) {
      ForcedWrap(q, data);
    } else {
      ForcedFlat(q, data);
    }
  }

  lemma ForcedRoom(q: Ring, data: seq<Byte>)
    requires Shape(q) && |data| <= |q.bytes| - |Contents(q)|
    ensures Shape(Forced(q, data)) && Contents(Forced(q, data)) == Contents(q) + data
  {
    hide Contents, Appended;
    if |q.bytes| > 0 {
      AppendedFits(q, data);
    } else {
      ForcedNothing(q);
      assert data == [];
    }
  }

  lemma ForcedNothing(q: Ring)
    requires Shape(q) && |q.bytes| == 0
    ensures Shape(Appended(q, [])) && Contents(Appended(q, [])) == [] && Contents(q) == []
  {
  }

  lemma ForcedEmpty(q: Ring, data: seq<Byte>)
    requires Shape(q) && |data| <= |q.bytes| && |data| > |q.bytes| - |Contents(q)|
    requires q.readMirror == q.writeMirror
    ensures Wraps(q, |data|) && Shape(Forced(q, data)) && Contents(Forced(q, data)) == []
    ensures Suffix(Contents(q) + data, |q.bytes|) != []
  {
    hide Written;
    AppendedSides(q, data);
  }

  /** Overwriting when the contents already run over the end of the pool, ending before the end. */
  lemma ForcedFlat(q: Ring, data: seq<Byte>)
    requires Shape(q) && |data| <= |q.bytes| && |data| > |q.bytes| - |Contents(q)|
    requires q.readMirror != q.writeMirror && !Wraps(q, |data|)
    ensures Shape(Forced(q, data)) && Contents(Forced(q, data)) == Suffix(Contents(q) + data, |q.bytes|)
  {
    hide Written, Appended, Suffix, Contents;
    var n, w, r := |q.bytes|, q.writeIndex, q.readIndex;
    var both := q.bytes[..w] + data;
    var b := Written(q.bytes, w, data);
    ContentsOver(q);
    Regroup(q.bytes[r..], q.bytes[..w], data);
    AppendedFlat(q, data);
    WrittenParts(q.bytes, w, data, 0, n);
    WrittenTail(q.bytes, w, data, w + |data|);
    assert b[0..w + |data|] == b[..w + |data|] && q.bytes[0..w] == q.bytes[..w];
    ContentsOver(Forced(q, data));
    SuffixSplit(q.bytes[r..], both, n, w + |data| - r);
    DropDrop(q.bytes, r, w + |data|);
  }

  lemma ContentsOver(q: Ring)
    requires Shape(q) && q.readMirror != q.writeMirror
    ensures Contents(q) == q.bytes[q.readIndex..] + q.bytes[..q.writeIndex]
    ensures |Contents(q)| == |q.bytes| - q.readIndex + q.writeIndex
  {
  }

  lemma AppendedFlat(q: Ring, data: seq<Byte>)
    requires Shape(q) && |data| <= |q.bytes| && !Wraps(q, |data|)
    ensures Appended(q, data) == q.(bytes := Written(q.bytes, q.writeIndex, data), writeIndex := q.writeIndex + |data|)
  {
  }

  lemma DropDrop(s: seq<Byte>, a: int, b: int)
    requires 0 <= a <= b <= |s|
    ensures s[a..][b - a..] == s[b..]
  {
  }

  /** The same, wrapping once more. */
  lemma ForcedWrap(q: Ring, data: seq<Byte>)
    requires Shape(q) && |data| <= |q.bytes| && |data| > |q.bytes| - |Contents(q)|
    requires q.readMirror != q.writeMirror && Wraps(q, |data|)
    ensures Shape(Forced(q, data)) && Contents(Forced(q, data)) == Suffix(Contents(q) + data, |q.bytes|)
  {
    hide Appended, Written, Suffix, Contents, Forced, Shape, Wraps;
    var n, w, r := |q.bytes|, q.writeIndex, q.readIndex;
    ForcedWrapSides(q, data);
    var a, b, d1, d2 := q.bytes[r..], q.bytes[..w], data[..n - w], data[n - w..];
    var w' := |data| - (n - w);
    ContentsOver(q);
    Regroup(a, b, data);
    AppendedWrapped(q, data);
    WrittenTwice(q.bytes, w, d1, d2, w');
    ContentsOver(Forced(q, data));
    SuffixSplit(a, b + data, n, w + |data| - r);
    DropFirst(b, data, w');
    SliceOf(q.bytes, w', w);
    Regroup(q.bytes[w'..w], d1, d2);
    SplitWhole(data, n - w);
  }

  lemma ForcedWrapSides(q: Ring, data: seq<Byte>)
    requires Shape(q) && |data| <= |q.bytes| && |data| > |q.bytes| - |Contents(q)|
    requires q.readMirror != q.writeMirror && Wraps(q, |data|)
    ensures var w' := |data| - (|q.bytes| - q.writeIndex);
            var q' := Forced(q, data);
            q'.bytes == Appended(q, data).bytes && q'.readIndex == q'.writeIndex == w' == Appended(q, data).writeIndex &&
            q'.readMirror != q'.writeMirror && Shape(q') &&
            0 <= w' <= q.writeIndex && |q.bytes| - q.writeIndex <= |data| && 0 <= q.writeIndex <= q.readIndex <= |q.bytes|
  {
    hide Written;
  }

  lemma SliceOf(s: seq<Byte>, lo: int, hi: int)
    requires 0 <= lo <= hi <= |s|
    ensures s[..hi][lo..] == s[lo..hi]
  {
  }

  lemma SplitWhole(s: seq<Byte>, i: int)
    requires 0 <= i <= |s|
    ensures s[..i] + s[i..] == s
  {
  }

  lemma DropFirst(a: seq<Byte>, b: seq<Byte>, n: int)
    requires 0 <= n <= |a|
    ensures (a + b)[n..] == a[n..] + b
  {
  }

  /** The last n elements of two parts together. */
  lemma SuffixSplit(a: seq<Byte>, b: seq<Byte>, n: nat, drop: nat)
    requires |a| + |b| == n + drop
    ensures Suffix(a + b, n) == if drop <= |a| then a[drop..] + b else b[drop - |a|..]
  {
  }

  lemma SuffixOver(s: seq<Byte>, n: nat)
    requires |s| > n
    ensures Suffix(s, n) == s[|s| - n..]
  {
  }

  lemma SuffixAll(s: seq<Byte>, n: nat)
    requires |s| <= n
    ensures Suffix(s, n) == s
  {
  }

  lemma ShapeRange(q: Ring)
    requires Shape(q)
    ensures 0 <= q.readIndex <= |q.bytes| && 0 <= q.writeIndex <= |q.bytes|
  {
  }

  /** Dropping a suffix-clipped part first changes nothing: only the last bytes can survive. */
  lemma SuffixClipped(s: seq<Byte>, data: seq<Byte>, n: nat)
    requires |data| > n
    ensures Suffix(s + data, n) == Suffix(s + Suffix(data, n), n) == Suffix(data, n)
  {
  }

  /** The read side after taking n bytes. */
  function Taken(q: Ring, n: int): Ring
    requires Shape(q) && 0 <= n <= |Contents(q)|
  {
    if |q.bytes| - q.readIndex > n then q.(readIndex := q.readIndex + n)
    else q.(readMirror := !q.readMirror, readIndex := n - (|q.bytes| - q.readIndex))
  }

  /** The bytes rt_ringbuffer_get copies out. */
  function Piece(q: Ring, n: int): seq<Byte>
    requires Shape(q) && 0 <= n <= |Contents(q)|
  {
    if |q.bytes| - q.readIndex > n then q.bytes[q.readIndex..q.readIndex + n]
    else q.bytes[q.readIndex..] + q.bytes[..n - (|q.bytes| - q.readIndex)]
  }

  lemma WrittenStart(bytes: seq<Byte>, data: seq<Byte>)
    requires |data| <= |bytes|
    ensures Written(bytes, 0, data) == data + bytes[|data|..]
  {
  }

  lemma WrittenNext(a: seq<Byte>, rest: seq<Byte>, data: seq<Byte>)
    requires |data| <= |rest|
    ensures Written(a + rest, |a|, data) == a + data + rest[|data|..]
  {
  }

  lemma TakenFacts(q: Ring, n: int)
    requires Shape(q) && 0 <= n <= |Contents(q)| && |Contents(q)| > 0
    ensures Shape(Taken(q, n)) && Contents(Taken(q, n)) == Contents(q)[n..]
    ensures Piece(q, n) == Contents(q)[..n]
  {
    hide Contents, Taken, Piece;
    if q.readMirror == q.writeMirror {
      TakenWithin(q, n);
    } else if |q.bytes| - q.readIndex > n {
      TakenFlat(q, n);
    } else {
      TakenAcross(q, n);
    }
  }

  lemma TakenWithin(q: Ring, n: int)
    requires Shape(q) && 0 <= n <= |Contents(q)| && |Contents(q)| > 0 && q.readMirror == q.writeMirror
    ensures Shape(Taken(q, n)) && Contents(Taken(q, n)) == Contents(q)[n..]
    ensures Piece(q, n) == Contents(q)[..n]
  {
    hide Contents;
    ContentsWithin(q);
    ContentsWithin(Taken(q, n));
    SliceSplit(q.bytes, q.readIndex, q.readIndex + n, q.writeIndex);
  }

  lemma TakenFlat(q: Ring, n: int)
    requires Shape(q) && 0 <= n <= |Contents(q)| && q.readMirror != q.writeMirror && |q.bytes| - q.readIndex > n
    ensures Shape(Taken(q, n)) && Contents(Taken(q, n)) == Contents(q)[n..]
    ensures Piece(q, n) == Contents(q)[..n]
  {
    hide Contents;
    ContentsOver(q);
    ContentsOver(Taken(q, n));
    SplitAt(q.bytes[q.readIndex..], q.bytes[..q.writeIndex], n);
    SliceFrom(q.bytes, q.readIndex, n);
  }

  lemma TakenAcross(q: Ring, n: int)
    requires Shape(q) && 0 <= n <= |Contents(q)| && |Contents(q)| > 0
    requires q.readMirror != q.writeMirror && |q.bytes| - q.readIndex <= n
    ensures Shape(Taken(q, n)) && Contents(Taken(q, n)) == Contents(q)[n..]
    ensures Piece(q, n) == Contents(q)[..n]
  {
    hide Contents;
    var m := n - (|q.bytes| - q.readIndex);
    ContentsOver(q);
    ContentsWithin(Taken(q, n));
    SplitAt(q.bytes[q.readIndex..], q.bytes[..q.writeIndex], n);
    SliceOf(q.bytes, m, q.writeIndex);
    Shorter(q.bytes, m, q.writeIndex);
  }

  lemma Shorter(s: seq<Byte>, m: int, n: int)
    requires 0 <= m <= n <= |s|
    ensures s[..n][..m] == s[..m]
  {
  }

  lemma ContentsWithin(q: Ring)
    requires Shape(q) && q.readMirror == q.writeMirror
    ensures Contents(q) == q.bytes[q.readIndex..q.writeIndex]
    ensures |Contents(q)| == q.writeIndex - q.readIndex
  {
  }

  lemma SliceFrom(s: seq<Byte>, r: int, n: int)
    requires 0 <= r && 0 <= n && r + n <= |s|
    ensures s[r..][..n] == s[r..r + n] && s[r..][n..] == s[r + n..]
  {
  }

  lemma Oldest(q: Ring)
    requires Shape(q) && |Contents(q)| > 0
    ensures q.readIndex < |q.bytes| && Contents(q)[0] == q.bytes[q.readIndex]
  {
  }

  lemma SliceSplit(s: seq<Byte>, lo: int, mid: int, hi: int)
    requires 0 <= lo <= mid <= hi <= |s|
    ensures s[lo..hi][..mid - lo] == s[lo..mid] && s[lo..hi][mid - lo..] == s[mid..hi]
  {
  }

  lemma SplitAt(a: seq<Byte>, b: seq<Byte>, n: int)
    requires 0 <= n <= |a| + |b|
    ensures if n <= |a| then (a + b)[..n] == a[..n] && (a + b)[n..] == a[n..] + b
            else (a + b)[..n] == a + b[..n - |a|] && (a + b)[n..] == b[n - |a|..]
  {
  }

  datatype Status = Empty | Full | HalfFull

  class RingBuffer {
    const pool: array<Byte>
    const bufferSize: int
    var readMirror: bool      // one bit each
    var readIndex: int
    var writeMirror: bool
    var writeIndex: int

    ghost function View(): Ring
      reads this, pool
      requires 0 <= bufferSize <= pool.Length
    {
      Ring(pool[..bufferSize], readMirror, readIndex, writeMirror, writeIndex)
    }

    ghost predicate Valid()
      reads this, pool
    {
      0 <= bufferSize <= pool.Length && Shape(View())
    }

    ghost function Held(): seq<Byte>
      reads this, pool
      requires Valid()
    {
      Contents(View())
    }

    /** rt_ringbuffer_init. */
    constructor (pool: array<Byte>, size: int)
      requires 0 < size < 0x8000 && size <= pool.Length
      ensures Valid() && Held() == [] && bufferSize == size / 4 * 4 && this.pool == pool
    {
      readMirror, readIndex := false, 0;
      writeMirror, writeIndex := false, 0;
      this.pool := pool;
      bufferSize := size / 4 * 4;
    }

    /** rt_ringbuffer_status. */
    method Status() returns (s: Status)
      requires Valid()
      ensures s.Empty? <==> readIndex == writeIndex && readMirror == writeMirror
      ensures s.Empty? ==> Held() == []
      ensures s.Full? ==> |Held()| == bufferSize
      ensures s.HalfFull? <==> 0 < |Held()| < bufferSize
    {
      if readIndex == writeIndex {
        if readMirror == writeMirror {
          return Empty;
        } else {
          return Full;
        }
      }
      return HalfFull;
    }

    /** rt_ringbuffer_data_len. */
    method DataLen() returns (n: int)
      requires Valid()
      ensures n == |Held()|
    {
      var s := Status();
      match s
      case Empty => return 0;
      case Full => return bufferSize;
      case HalfFull =>
        if writeIndex > readIndex {
          return writeIndex - readIndex;
        } else {
          return bufferSize - (readIndex - writeIndex);
        }
    }

    /** memcpy into the pool. */
    method CopyIn(at: int, data: seq<Byte>)
      requires 0 <= bufferSize <= pool.Length && 0 <= at && at + |data| <= bufferSize
      modifies pool
      ensures pool[..bufferSize] == Written(old(pool[..bufferSize]), at, data)
    {
      hide Written;
      ghost var before := pool[..bufferSize];
      WrittenNone(before, at, data);
      var k := 0;
      while k < |data|
        invariant 0 <= k <= |data|
        invariant pool[..bufferSize] == Written(before, at, data[0..k])
      {
        WrittenMore(before, at, data, 0, k);
        pool[at + k] := data[k];
        assert pool[..bufferSize] == Written(before, at, data[0..k])[at + k := data[k]];
        k := k + 1;
      }
      assert data[0..k] == data;
    }

    /** The two ways of rt_ringbuffer_put and rt_ringbuffer_put_force to append. */
    method Append(ptr: seq<Byte>)
      requires Valid() && |ptr| <= bufferSize
      modifies this`writeMirror, this`writeIndex, pool
      ensures View() == Appended(old(View()), ptr)
    {
      var length := |ptr|;
      if bufferSize - writeIndex > length {
        CopyIn(writeIndex, ptr);
        writeIndex := writeIndex + length;
        return;
      }
      var first := bufferSize - writeIndex;
      CopyIn(writeIndex, ptr[..first]);
      CopyIn(0, ptr[first..]);
      writeMirror := !writeMirror;
      writeIndex := length - first;
    }

    /** rt_ringbuffer_put: as much as fits. */
    method Put(ptr: seq<Byte>) returns (n: int)
      requires Valid() && |ptr| < 0x1_0000
      modifies this`writeMirror, this`writeIndex, pool
      ensures Valid() && n == Min(|ptr|, bufferSize - old(|Held()|))
      ensures Held() == old(Held()) + ptr[..n]
    {
      hide Appended;
      var len := DataLen();
      var size := bufferSize - len;
      if size == 0 {
        return 0;
      }
      n := |ptr|;
      if size < n {
        n := size;
      }
      AppendedFits(View(), ptr[..n]);
      Append(ptr[..n]);
    }

    /** rt_ringbuffer_put_force: the last bytes of the contents and the new bytes stay, unless
        reader and writer share a mirror and the write overruns the end of the pool and the room:
        then nothing stays. */
    method PutForce(ptr: seq<Byte>) returns (n: int)
      requires Valid() && |ptr| < 0x1_0000
      modifies this, pool
      ensures Valid() && n == Min(|ptr|, bufferSize)
      ensures Held() == if Emptied(old(View()), Suffix(ptr, bufferSize)) then []
                        else Suffix(old(Held()) + ptr, bufferSize)
    {
      hide Appended, Contents, Suffix, Emptied, Shape;
      var len := DataLen();
      var spaceLength := bufferSize - len;
      var data := ptr;
      if |ptr| > bufferSize {
        data := ptr[|ptr| - bufferSize..];
        SuffixOver(ptr, bufferSize);
        SuffixClipped(old(Held()), ptr, bufferSize);
      }
      SuffixAll(data, bufferSize);
      ForcedExactly(View(), data);
      ShapeRange(View());
      n := |data|;
      var wraps := bufferSize - writeIndex <= n;
      Append(data);
      if n > spaceLength {
        if wraps {
          readMirror := !readMirror;
        }
        readIndex := writeIndex;
      }
      assert View() == Forced(old(View()), data);
    }

    /** memcpy out of the pool. */
    method CopyOut(ptr: array<Byte>, to: int, from: int, n: int)
      requires 0 <= bufferSize <= pool.Length && ptr != pool
      requires 0 <= n && 0 <= from && from + n <= bufferSize && 0 <= to && to + n <= ptr.Length
      modifies ptr
      ensures ptr[..] == Written(old(ptr[..]), to, pool[..bufferSize][from..from + n])
    {
      hide Written;
      ghost var bytes, before := pool[..bufferSize], ptr[..];
      WrittenNone(before, to, bytes[from..]);
      assert bytes[from..from] == [];
      var k := 0;
      while k < n
        invariant 0 <= k <= n && pool[..bufferSize] == bytes
        invariant ptr[..] == Written(before, to, bytes[from..from + k])
      {
        WrittenMore(before, to, bytes, from, k);
        ptr[to + k] := pool[from + k];
        assert ptr[..] == Written(before, to, bytes[from..from + k])[to + k := bytes[from + k]];
        k := k + 1;
      }
    }

    /** rt_ringbuffer_get: the oldest bytes, as many as there are and are asked for. */
    method Get(ptr: array<Byte>, length: int) returns (n: int)
      requires Valid() && 0 <= length <= ptr.Length && length < 0x1_0000 && ptr != pool
      modifies this`readMirror, this`readIndex, ptr
      ensures Valid() && n == Min(length, old(|Held()|))
      ensures ptr[..] == old(Held())[..n] + old(ptr[n..])
      ensures Held() == old(Held())[n..]
    {
      hide Contents, Taken;
      var size := DataLen();
      if size == 0 {
        return 0;
      }
      n := length;
      if size < n {
        n := size;
      }
      TakenFacts(View(), n);
      ReadOut(ptr, n);
    }

    /** The two ways of rt_ringbuffer_get to copy. */
    method ReadOut(ptr: array<Byte>, n: int)
      requires Valid() && 0 <= n <= |Held()| && n <= ptr.Length && ptr != pool
      modifies this`readMirror, this`readIndex, ptr
      ensures View() == Taken(old(View()), n)
      ensures ptr[..] == Piece(old(View()), n) + old(ptr[n..])
    {
      hide Written;
      var first := bufferSize - readIndex;
      ghost var bytes, before := pool[..bufferSize], ptr[..];
      if first > n {
        CopyOut(ptr, 0, readIndex, n);
        WrittenStart(before, bytes[readIndex..readIndex + n]);
        readIndex := readIndex + n;
        return;
      }
      assert bytes[readIndex..readIndex + first] == bytes[readIndex..];
      CopyOut(ptr, 0, readIndex, first);
      WrittenStart(before, bytes[readIndex..]);
      CopyOut(ptr, first, 0, n - first);
      WrittenNext(bytes[readIndex..], before[first..], bytes[0..n - first]);
      DropDrop(before, first, n);
      readMirror := !readMirror;
      readIndex := n - first;
    }

    /** rt_ringbuffer_putchar. */
    method PutChar(ch: Byte) returns (n: int)
      requires Valid()
      modifies this`writeMirror, this`writeIndex, pool
      ensures Valid() && n == (if old(|Held()|) < bufferSize then 1 else 0)
      ensures Held() == if n == 1 then old(Held()) + [ch] else old(Held())
    {
      var len := DataLen();
      if bufferSize - len == 0 {
        return 0;
      }
      AppendedFits(View(), [ch]);
      StoreChar(ch);
      n := 1;
    }

    /** Store at the write index, then advance or flip. */
    method StoreChar(ch: Byte)
      requires Valid() && bufferSize > 0
      modifies this`writeMirror, this`writeIndex, pool
      ensures View() == Appended(old(View()), [ch])
    {
      ghost var before := pool[..bufferSize];
      pool[writeIndex] := ch;
      assert pool[..bufferSize] == Written(before, writeIndex, [ch]);
      if writeIndex == bufferSize - 1 {
        assert Written(Written(before, writeIndex, [ch][..1]), 0, [ch][1..]) == Written(before, writeIndex, [ch]);
        writeMirror := !writeMirror;
        writeIndex := 0;
      } else {
        writeIndex := writeIndex + 1;
      }
    }

    /** rt_ringbuffer_putchar_force: the oldest byte gives way when the buffer is full. */
    method PutCharForce(ch: Byte) returns (n: int)
      requires Valid() && bufferSize > 0
      modifies this, pool
      ensures Valid() && n == 1
      ensures Held() == Suffix(old(Held()) + [ch], bufferSize)
    {
      hide Appended;
      var oldState := Status();
      ForcedExactly(View(), [ch]);
      var atEnd := writeIndex == bufferSize - 1;
      StoreChar(ch);
      if oldState.Full? {
        if atEnd {
          readMirror := !readMirror;
        }
        readIndex := writeIndex;
      }
      assert View() == Forced(old(View()), [ch]);
      n := 1;
    }

    /** rt_ringbuffer_getchar. */
    method GetChar() returns (ch: Option<Byte>)
      requires Valid()
      modifies this`readMirror, this`readIndex
      ensures Valid()
      ensures ch == if old(Held()) == [] then None else Some(old(Held())[0])
      ensures Held() == if old(Held()) == [] then [] else old(Held())[1..]
    {
      hide Contents, Piece;
      var len := DataLen();
      if len == 0 {
        return None;
      }
      Oldest(View());
      TakenFacts(View(), 1);
      ch := Some(pool[readIndex]);
      if readIndex == bufferSize - 1 {
        readMirror := !readMirror;
        readIndex := 0;
      } else {
        readIndex := readIndex + 1;
      }
    }

    /** rt_ringbuffer_reset. */
    method Reset()
      requires Valid()
      modifies this
      ensures Valid() && Held() == []
    {
      readMirror, readIndex := false, 0;
      writeMirror, writeIndex := false, 0;
    }
  }
}
