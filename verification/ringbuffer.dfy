/** The ring buffer that tells full from empty by a mirror bit beside each index. */
module RingBuffer {
  import opened Text

  function Min(a: nat, b: nat): nat {
    if a < b then a else b
  }

  /** The last `n` bytes, or all of them. */
  function Last(s: seq<byte>, n: nat): seq<byte> {
    if |s| <= n then s else s[|s| - n..]
  }

  /** `RT_ALIGN_DOWN(size, 4)`. */
  function AlignDown(size: nat): (n: nat)
    ensures n % 4 == 0 && n <= size < n + 4
  {
    size - size % 4
  }

  datatype State = Empty | Full | HalfFull

  /** The bytes between the indices, oldest first. */
  function View(b: seq<byte>, r: nat, w: nat, sameMirror: bool): (v: seq<byte>)
    requires if sameMirror then r <= w <= |b| else w <= r <= |b|
    ensures |v| == if sameMirror then w - r else |b| - r + w
  {
    if sameMirror then b[r..w] else b[r..] + b[..w]
  }

  predicate Indices(b: seq<byte>, r: nat, w: nat, sameMirror: bool) {
    r < |b| && w < |b| && if sameMirror then r <= w else w <= r
  }

  /** A bulk write reaches the end of the buffer. */
  predicate Wraps(size: nat, i: nat, n: nat)
  {
    size - i <= n
  }

  /** The index `n` places on. */
  function Advance(size: nat, i: nat, n: nat): (j: nat)
    requires i < size && n <= size
    ensures j < size
  {
    if Wraps(size, i, n) then n - (size - i) else i + n
  }

  /** The buffer after `d` has been written from `w` on and around. */
  function Written(b: seq<byte>, w: nat, d: seq<byte>): (c: seq<byte>)
    requires w < |b| && |d| <= |b|
    ensures |c| == |b|
  {
    if Wraps(|b|, w, |d|) then d[|b| - w..] + b[|d| - (|b| - w)..w] + d[..|b| - w]
    else b[..w] + d + b[w + |d|..]
  }

  // ----- Parts of a concatenation -----

  lemma FromFirst<T>(x: seq<T>, y: seq<T>, i: nat)
    requires i <= |x|
    ensures (x + y)[i..] == x[i..] + y && (x + y)[..i] == x[..i]
  {
  }

  lemma FromSecond<T>(x: seq<T>, y: seq<T>, i: nat)
    requires |x| <= i <= |x| + |y|
    ensures (x + y)[i..] == y[i - |x|..] && (x + y)[..i] == x + y[..i - |x|]
  {
  }

  lemma SliceOfSlice<T>(b: seq<T>, lo: nat, hi: nat, i: nat)
    requires lo <= i <= hi <= |b|
    ensures b[lo..hi][i - lo..] == b[i..hi] && b[..hi][i..] == b[i..hi] && b[lo..][i - lo..] == b[i..]
  {
  }

  lemma Halves<T>(d: seq<T>, t: nat)
    requires t <= |d|
    ensures d == d[..t] + d[t..]
  {
  }

  lemma Rejoin<T>(x: seq<T>, d: seq<T>, t: nat)
    requires t <= |d|
    ensures (x + d[..t]) + d[t..] == x + d
  {
  }

  /** Where a write that reaches the end leaves off: its last bytes, then old ones, then its first. */
  lemma AroundParts(b: seq<byte>, w: nat, d: seq<byte>, r: nat)
    requires w < |b| && |d| <= |b| && Wraps(|b|, w, |d|) && |d| - (|b| - w) <= r <= w
    ensures var t := |b| - w;
            Written(b, w, d)[r..] == b[r..w] + d[..t] && Written(b, w, d)[..|d| - t] == d[t..]
  {
    var t := |b| - w;
    var w' := |d| - t;
    var x, y, z := d[t..], b[w'..w], d[..t];
    FromSecond(x + y, z, |x + y|);
    FromFirst(x + y, z, r);
    FromSecond(x, y, r);
    SliceOfSlice(b, w', w, r);
    FromFirst(x + y, z, w');
    FromFirst(x, y, w');
  }

  /** The two copies of a write that reaches the end. */
  lemma AroundCopied(b: seq<byte>, w: nat, d: seq<byte>, mid: seq<byte>, after: seq<byte>)
    requires w < |b| == |mid| == |after| && |d| <= |b| && Wraps(|b|, w, |d|)
    requires mid[..|b|] == b[..w] + d[..|b| - w]
    requires after[..|d| - (|b| - w)] == mid[..0] + d[|b| - w..]
    requires after[|d| - (|b| - w)..] == mid[|d| - (|b| - w)..]
    ensures after == Written(b, w, d)
  {
    var t := |b| - w;
    var w' := |d| - t;
    assert mid[..|b|] == mid && mid[..0] + d[t..] == d[t..];
    FromFirst(b[..w], d[..t], w');
    SliceOfSlice(b, 0, w, w');
    Halves(after, w');
    assert d[t..] + (b[w'..w] + d[..t]) == d[t..] + b[w'..w] + d[..t];
  }

  /** Where a write that stays below the end leaves off. */
  lemma StraightParts(b: seq<byte>, w: nat, d: seq<byte>, r: nat)
    requires w < |b| && |d| <= |b| && !Wraps(|b|, w, |d|) && w + |d| <= r <= |b|
    ensures Written(b, w, d)[..w + |d|] == b[..w] + d && Written(b, w, d)[r..] == b[r..]
  {
    var x, z := b[..w] + d, b[w + |d|..];
    FromFirst(x, z, |x|);
    FromSecond(x, z, r);
    SliceOfSlice(b, w + |d|, |b|, r);
  }

  /** Where there is space, a write appends. */
  lemma AppendView(b: seq<byte>, r: nat, w: nat, same: bool, d: seq<byte>)
    requires Indices(b, r, w, same) && |View(b, r, w, same)| + |d| <= |b|
    ensures var w', same' := Advance(|b|, w, |d|), if Wraps(|b|, w, |d|) then !same else same;
            && Indices(b, r, w', same')
            && View(Written(b, w, d), r, w', same') == View(b, r, w, same) + d
  {
    hide Written;
    if !same {
      StraightParts(b, w, d, r);
      assert b[r..] + (b[..w] + d) == b[r..] + b[..w] + d;
    } else if Wraps(|b|, w, |d|) {
      AroundParts(b, w, d, r);
      Rejoin(b[r..w], d, |b| - w);
    } else {
      StraightParts(b, w, d, |b|);
      SliceOfSlice(Written(b, w, d), 0, w + |d|, r);
      FromFirst(b[..w], d, r);
      SliceOfSlice(b, 0, w, r);
    }
  }

  /** The part of a one-piece queue that an overwriting block leaves. */
  lemma KeptOnePiece(b: seq<byte>, r: nat, w: nat, w': nat)
    requires r <= w' <= w <= |b|
    ensures View(b, r, w, true)[w' - r..] == b[w'..w]
  {
    SliceOfSlice(b, r, w, w');
  }

  /** The part of a two-piece queue that is left, in both pieces or in the second one only. */
  lemma KeptTwoPieces(b: seq<byte>, r: nat, w: nat, cut: nat)
    requires w <= r <= |b| && cut <= |b| - r + w
    ensures View(b, r, w, false)[cut..] ==
            if cut <= |b| - r then b[r + cut..] + b[..w] else b[cut - (|b| - r)..w]
  {
    if cut <= |b| - r {
      FromFirst(b[r..], b[..w], cut);
      SliceOfSlice(b, r, |b|, r + cut);
    } else {
      FromSecond(b[r..], b[..w], cut);
      SliceOfSlice(b, 0, w, cut - (|b| - r));
    }
  }

  /** What a write of `n` bytes from `w` on leaves of the buffer, read from where it ended. */
  function Left(b: seq<byte>, w: nat, n: nat): seq<byte>
    requires w < |b| && n <= |b|
  {
    var w' := Advance(|b|, w, n);
    if Wraps(|b|, w, n) then b[w'..w] else b[w'..] + b[..w]
  }

  /** An overwriting block leaves the newest part of the queue. */
  lemma LeftOfView(b: seq<byte>, r: nat, w: nat, same: bool, n: nat)
    requires Indices(b, r, w, same) && n <= |b| < |View(b, r, w, same)| + n
    ensures View(b, r, w, same)[|View(b, r, w, same)| + n - |b|..] == Left(b, w, n)
  {
    hide View;
    var w' := Advance(|b|, w, n);
    if same {
      KeptOnePiece(b, r, w, w');
    } else {
      KeptTwoPieces(b, r, w, |View(b, r, w, same)| + n - |b|);
    }
  }

  /** A full buffer read from where the write ended. */
  lemma FullView(b: seq<byte>, w: nat, d: seq<byte>)
    requires w < |b| && |d| <= |b|
    ensures var w' := Advance(|b|, w, |d|);
            View(Written(b, w, d), w', w', false) == Left(b, w, |d|) + d
  {
    hide Written;
    var w' := Advance(|b|, w, |d|);
    if Wraps(|b|, w, |d|) {
      var t := |b| - w;
      AroundParts(b, w, d, w');
      Rejoin(b[w'..w], d, t);
    } else {
      StraightParts(b, w, d, w');
      assert b[w'..] + (b[..w] + d) == b[w'..] + b[..w] + d;
    }
  }

  lemma LastOfSum(v: seq<byte>, d: seq<byte>, n: nat)
    requires |d| <= n < |v| + |d|
    ensures Last(v + d, n) == v[|v| + |d| - n..] + d
  {
    FromFirst(v, d, |v| + |d| - n);
  }

  /** Where there is not, the buffer ends up holding the newest bytes, if it is read as full. */
  lemma OverwriteView(b: seq<byte>, r: nat, w: nat, same: bool, d: seq<byte>)
    requires Indices(b, r, w, same) && |d| <= |b| < |View(b, r, w, same)| + |d|
    ensures var w' := Advance(|b|, w, |d|);
            View(Written(b, w, d), w', w', false) == Last(View(b, r, w, same) + d, |b|)
  {
    var v := View(b, r, w, same);
    hide *;
    FullView(b, w, d);
    LeftOfView(b, r, w, same, |d|);
    LastOfSum(v, d, |b|);
  }

  /** The bytes a read of length `n` from `r` on takes. */
  function Taken(b: seq<byte>, r: nat, n: nat): seq<byte>
    requires r < |b| && n <= |b|
  {
    if Wraps(|b|, r, n) then b[r..] + b[..n - (|b| - r)] else b[r..r + n]
  }

  /** Moving the read index on drops the oldest bytes. */
  lemma DropView(b: seq<byte>, r: nat, w: nat, same: bool, n: nat)
    requires Indices(b, r, w, same) && n <= |View(b, r, w, same)|
    ensures var r', same' := Advance(|b|, r, n), if Wraps(|b|, r, n) then !same else same;
            && Indices(b, r', w, same') && View(b, r', w, same') == View(b, r, w, same)[n..]
            && Taken(b, r, n) == View(b, r, w, same)[..n]
  {
  }

  class Ring {
    var buffer: array<byte>
    var bufferSize: nat
    var readMirror: bool
    var readIndex: nat
    var writeMirror: bool
    var writeIndex: nat

    /** `dg_ringbuffer_create`. Its assertions fail for a size that aligns down to nothing or does
        not fit the `int16_t` of `dg_ringbuffer_init`. */
    constructor (size: nat)
      requires 4 <= size < 0x8000
      ensures Valid() && Contents() == [] && bufferSize == AlignDown(size) && fresh(buffer)
      ensures readMirror == false && readIndex == 0
    {
      bufferSize := AlignDown(size);
      buffer := new byte[AlignDown(size)](_ => 0);
      readMirror, readIndex := false, 0;
      writeMirror, writeIndex := false, 0;
    }

    predicate Valid()
      reads this
    {
      && 0 < bufferSize == buffer.Length < 0x8000
      && readIndex < bufferSize && writeIndex < bufferSize
      && (if readMirror == writeMirror then readIndex <= writeIndex else writeIndex <= readIndex)
    }

    /** The queue the buffer stands for. */
    function Contents(): (s: seq<byte>)
      requires Valid()
      reads this, buffer
      ensures |s| <= bufferSize
    {
      View(buffer[..], readIndex, writeIndex, readMirror == writeMirror)
    }

    /** `dg_ringbuffer_status`. */
    function Status(): (s: State)
      requires Valid()
      reads this, buffer
      ensures s == Empty <==> Contents() == []
      ensures s == Full <==> |Contents()| == bufferSize
    {
      if readIndex == writeIndex then
        if readMirror == writeMirror then Empty else Full
      else HalfFull
    }

    /** `dg_ringbuffer_data_len`. */
    function DataLen(): (n: nat)
      requires Valid()
      reads this, buffer
      ensures n == |Contents()|
    {
      match Status()
      case Empty => 0
      case Full => bufferSize
      case HalfFull =>
        if writeIndex > readIndex then writeIndex - readIndex else bufferSize - (readIndex - writeIndex)
    }

    /** `dg_ringbuffer_space_len`. */
    function SpaceLen(): (n: nat)
      requires Valid()
      reads this, buffer
      ensures n == bufferSize - |Contents()|
    {
      bufferSize - DataLen()
    }

    /** `dg_ringbuffer_reset`. */
    method Reset()
      requires Valid()
      modifies this
      ensures Valid() && Contents() == [] && bufferSize == old(bufferSize) && buffer == old(buffer)
    {
      readMirror, readIndex := false, 0;
      writeMirror, writeIndex := false, 0;
    }

    /** Both `memcpy` calls of a bulk write and the move of the write index. */
    method Write(data: seq<byte>)
      requires Valid() && |data| <= bufferSize
      modifies this`writeMirror, this`writeIndex, buffer
      ensures buffer[..] == Written(old(buffer[..]), old(writeIndex), data)
      ensures writeIndex == Advance(bufferSize, old(writeIndex), |data|)
      ensures writeMirror == if Wraps(bufferSize, old(writeIndex), |data|) then !old(writeMirror) else old(writeMirror)
    {
      if bufferSize - writeIndex > |data| {
        CopyInto(buffer, writeIndex, data);
        assert buffer[..] == buffer[..writeIndex + |data|] + buffer[writeIndex + |data|..];
        writeIndex := writeIndex + |data|;
      } else {
        WriteAround(data);
        writeMirror := !writeMirror;
        writeIndex := |data| - (bufferSize - writeIndex);
      }
    }

    /** The two `memcpy` calls where the block reaches the end of the buffer. */
    method WriteAround(data: seq<byte>)
      requires Valid() && |data| <= bufferSize && Wraps(bufferSize, writeIndex, |data|)
      modifies buffer
      ensures buffer[..] == Written(old(buffer[..]), writeIndex, data)
    {
      var tail := bufferSize - writeIndex;
      ghost var b := buffer[..];
      CopyInto(buffer, writeIndex, data[..tail]);
      ghost var mid := buffer[..];
      CopyInto(buffer, 0, data[tail..]);
      AroundCopied(b, writeIndex, data, mid, buffer[..]);
    }

    /** `dg_ringbuffer_put`: as much of the block as there is space for. */
    method Put(data: seq<byte>) returns (n: nat)
      requires Valid() && |data| < 0x1_0000
      modifies this`writeMirror, this`writeIndex, buffer
      ensures Valid()
      ensures n == Min(|data|, bufferSize - |old(Contents())|)
      ensures Contents() == old(Contents()) + data[..n]
    {
      hide Written, View;
      var size := SpaceLen();
      if size == 0 {
        assert Contents() + data[..0] == Contents();
        return 0;
      }
      n := if size < |data| then size else |data|;
      AppendView(buffer[..], readIndex, writeIndex, readMirror == writeMirror, data[..n]);
      Write(data[..n]);
    }

    /** `dg_ringbuffer_put_force`, as written: on an overflow both mirrors flip whenever the write
        wraps, so that a buffer whose indices shared a mirror ends up empty. */
    method PutForce(data: seq<byte>) returns (n: nat)
      requires Valid() && |data| < 0x1_0000
      modifies this, buffer
      ensures Valid() && buffer == old(buffer) && bufferSize == old(bufferSize)
      ensures n == Min(|data|, bufferSize)
      ensures Contents() == Forced(old(Contents()), data, bufferSize, old(readMirror == writeMirror))
    {
      hide Written, View;
      var space := SpaceLen();
      var d := Last(data, bufferSize);
      n := |d|;
      LastOfLast(Contents(), data, bufferSize);
      if n > space {
        OverwriteView(buffer[..], readIndex, writeIndex, readMirror == writeMirror, d);
      } else {
        AppendView(buffer[..], readIndex, writeIndex, readMirror == writeMirror, d);
      }
      var wraps := bufferSize - writeIndex <= n;
      Write(d);
      if n > space {
        if wraps {
          readMirror := !readMirror;
        }
        readIndex := writeIndex;
        EmptyView(buffer[..], writeIndex);
      }
    }

    /** `dg_ringbuffer_get`: as much as is asked for and there. */
    method Get(out: array<byte>, length: nat) returns (n: nat)
      requires Valid() && length <= out.Length && length < 0x1_0000 && out != buffer
      modifies this`readMirror, this`readIndex, out
      ensures Valid()
      ensures n == Min(length, |old(Contents())|)
      ensures out[..n] == old(Contents())[..n] && out[n..] == old(out[n..])
      ensures Contents() == old(Contents())[n..]
    {
      hide View, Taken;
      var size := DataLen();
      if size == 0 {
        return 0;
      }
      n := if size < length then size else length;
      DropView(buffer[..], readIndex, writeIndex, readMirror == writeMirror, n);
      CopyOut(out, n);
      if bufferSize - readIndex > n {
        readIndex := readIndex + n;
      } else {
        readMirror := !readMirror;
        readIndex := n - (bufferSize - readIndex);
      }
    }

    /** The `memcpy` calls of a bulk read. */
    method CopyOut(out: array<byte>, n: nat)
      requires Valid() && n <= bufferSize && n <= out.Length && out != buffer
      modifies out
      ensures out[..n] == Taken(buffer[..], readIndex, n) && out[n..] == old(out[n..])
    {
      ghost var b := buffer[..];
      if bufferSize - readIndex > n {
        CopyInto(out, 0, buffer[readIndex..readIndex + n]);
        assert out[..0] + b[readIndex..readIndex + n] == b[readIndex..readIndex + n];
        return;
      }
      var tail := bufferSize - readIndex;
      ghost var was := out[..];
      CopyInto(out, 0, buffer[readIndex..]);
      ghost var mid := out[..];
      assert mid[..tail] == was[..0] + b[readIndex..] == b[readIndex..];
      CopyInto(out, tail, buffer[..n - tail]);
      assert out[n..] == mid[tail..][n - tail..] == was[n..];
    }

    /** `dg_ringbuffer_peak`: the longest run of contents that is contiguous in the buffer, which is
        dropped; `at` is where it lies. */
    method Peak() returns (size: nat, at: nat)
      requires Valid()
      modifies this`readMirror, this`readIndex
      ensures Valid()
      ensures size == Min(|old(Contents())|, bufferSize - old(readIndex)) && at == old(readIndex)
      ensures buffer[at..at + size] == old(Contents())[..size]
      ensures Contents() == old(Contents())[size..]
      ensures Contents() != [] ==> readIndex == 0
    {
      at := readIndex;
      size := DataLen();
      if size == 0 {
        assert buffer[at..at + size] == Contents()[..size];
        return;
      }
      ghost var v := Contents();
      if bufferSize - readIndex > size {
        DropView(buffer[..], readIndex, writeIndex, readMirror == writeMirror, size);
        readIndex := readIndex + size;
        assert buffer[at..at + size] == v[..size];
        return;
      }
      size := bufferSize - readIndex;
      DropView(buffer[..], readIndex, writeIndex, readMirror == writeMirror, size);
      readMirror := !readMirror;
      readIndex := 0;
      assert buffer[at..at + size] == v[..size];
    }

    /** Two calls of `dg_ringbuffer_peak` deliver the whole contents. */
    method PeakTwice() returns (s: seq<byte>)
      requires Valid()
      modifies this`readMirror, this`readIndex
      ensures Valid() && s == old(Contents()) && Contents() == []
    {
      ghost var v := Contents();
      var n, at := Peak();
      s := buffer[at..at + n];
      var m, at' := Peak();
      assert v[n..][m..] == [] && v[n..][..m] == v[n..];
      s := s + buffer[at'..at' + m];
      assert s == v[..n] + v[n..];
    }

    /** `dg_ringbuffer_putchar`. */
    method PutChar(ch: byte) returns (n: nat)
      requires Valid()
      modifies this`writeMirror, this`writeIndex, buffer
      ensures Valid()
      ensures n == if |old(Contents())| < bufferSize then 1 else 0
      ensures Contents() == if n == 1 then old(Contents()) + [ch] else old(Contents())
    {
      hide View;
      if SpaceLen() == 0 {
        return 0;
      }
      AppendView(buffer[..], readIndex, writeIndex, readMirror == writeMirror, [ch]);
      WrittenByte(buffer[..], writeIndex, ch);
      buffer[writeIndex] := ch;
      if writeIndex == bufferSize - 1 {
        writeMirror := !writeMirror;
        writeIndex := 0;
      } else {
        writeIndex := writeIndex + 1;
      }
      return 1;
    }

    /** `dg_ringbuffer_putchar_force`: a full buffer loses its oldest byte, in every state. */
    method PutCharForce(ch: byte) returns (n: nat)
      requires Valid()
      modifies this, buffer
      ensures Valid() && buffer == old(buffer) && bufferSize == old(bufferSize) && n == 1
      ensures Contents() == Last(old(Contents()) + [ch], bufferSize)
    {
      hide View;
      var full := Status() == Full;
      if full {
        OverwriteView(buffer[..], readIndex, writeIndex, readMirror == writeMirror, [ch]);
      } else {
        AppendView(buffer[..], readIndex, writeIndex, readMirror == writeMirror, [ch]);
      }
      WrittenByte(buffer[..], writeIndex, ch);
      buffer[writeIndex] := ch;
      if writeIndex == bufferSize - 1 {
        writeMirror := !writeMirror;
        writeIndex := 0;
        if full {
          readMirror := !readMirror;
          readIndex := writeIndex;
        }
      } else {
        writeIndex := writeIndex + 1;
        if full {
          readIndex := writeIndex;
        }
      }
      return 1;
    }

    /** `dg_ringbuffer_getchar`. */
    method GetChar() returns (n: nat, ch: byte)
      requires Valid()
      modifies this`readMirror, this`readIndex
      ensures Valid()
      ensures n == if old(Contents()) == [] then 0 else 1
      ensures n == 1 ==> ch == old(Contents())[0] && Contents() == old(Contents())[1..]
      ensures n == 0 ==> Contents() == []
    {
      ch := 0;
      if DataLen() == 0 {
        return 0, ch;
      }
      DropView(buffer[..], readIndex, writeIndex, readMirror == writeMirror, 1);
      ch := buffer[readIndex];
      if readIndex == bufferSize - 1 {
        readMirror := !readMirror;
        readIndex := 0;
      } else {
        readIndex := readIndex + 1;
      }
      return 1, ch;
    }
  }

  lemma WrittenByte(b: seq<byte>, w: nat, ch: byte)
    requires w < |b|
    ensures Written(b, w, [ch]) == b[w := ch]
    ensures Advance(|b|, w, 1) == if w == |b| - 1 then 0 else w + 1
  {
  }

  lemma EmptyView(b: seq<byte>, i: nat)
    requires i <= |b|
    ensures View(b, i, i, true) == []
  {
  }

  /** Clamping the data first does not change what a buffer of that size can keep. */
  lemma LastOfLast(v: seq<byte>, data: seq<byte>, n: nat)
    ensures Last(v + Last(data, n), n) == Last(v + data, n)
    ensures |Last(data, n)| == Min(|data|, n)
  {
    if |data| > n {
      assert Last(v + data, n) == data[|data| - n..];
    }
  }

  /** A block of that length overflows a buffer whose indices share a mirror. */
  predicate DoubleFlip(v: seq<byte>, length: nat, size: nat, sameMirror: bool)
    requires |v| <= size
  {
    sameMirror && Min(length, size) > size - |v|
  }

  /** What the forced bulk write leaves. */
  function Forced(v: seq<byte>, data: seq<byte>, size: nat, sameMirror: bool): seq<byte>
    requires |v| <= size
  {
    if DoubleFlip(v, |data|, size, sameMirror) then [] else Last(v + data, size)
  }

  /** Meant to drop the oldest bytes only, the forced bulk write does so exactly when the indices
      are on different mirrors or the clamped block fits; otherwise everything is lost. */
  lemma ForceExact(v: seq<byte>, data: seq<byte>, size: nat, sameMirror: bool)
    requires 0 < size && |v| <= size
    ensures Forced(v, data, size, sameMirror) == Last(v + data, size)
       <==> !(sameMirror && Min(|data|, size) > size - |v|)
  {
    if DoubleFlip(v, |data|, size, sameMirror) {
      assert |Last(v + data, size)| == size;
    }
  }

  /** The double flip from a state that a single `Put` reaches: three bytes of four are taken, two more
      arrive, and all five are gone. */
  method EverythingLost(data: seq<byte>, more: seq<byte>) returns (ring: Ring)
    requires |data| == 3 && |more| == 2
    ensures ring.Valid() && ring.bufferSize == 4 && ring.Contents() == []
  {
    ring := new Ring(4);
    var n := ring.Put(data);
    assert data[..n] == data && |ring.Contents()| == 3;
    assert ring.readMirror == ring.writeMirror;
    n := ring.PutForce(more);
  }
}
