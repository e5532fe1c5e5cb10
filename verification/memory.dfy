/** The memory device: a ring buffer behind the device lock. */
module MemoryDevice {
  import opened Text
  import opened RingBuffer

  const DEFAULT_MEM_SIZE := 4096

  /** What a thread asks of the open device. */
  datatype Request = Read(len: nat) | Write(bytes: seq<byte>)

  /** A `size_t` passed for the `uint16_t` length of the ring buffer. */
  function Narrow(len: nat): (n: nat)
    ensures n < 0x1_0000 && n <= len && (len < 0x1_0000 ==> n == len)
  {
    len % 0x1_0000
  }

  /** Longer ones lose their high bits. */
  lemma NarrowWraps(len: nat)
    ensures Narrow(len + 0x1_0000) == Narrow(len)
  {
  }

  class Memory {
    var ring: Ring

    /** `memory_open`. */
    constructor ()
      ensures Valid() && ring.Contents() == [] && fresh(ring) && fresh(ring.buffer)
      ensures ring.bufferSize == 4096
    {
      ring := new Ring(DEFAULT_MEM_SIZE);
    }

    predicate Valid()
      reads this, ring
    {
      ring.Valid()
    }

    /** `read_device` with `memory_read`: the count returned is the length of the bytes delivered. */
    method Read(len: nat) returns (got: seq<byte>)
      requires Valid()
      modifies ring
      ensures Valid() && ring.buffer == old(ring.buffer) && ring.bufferSize == old(ring.bufferSize)
      ensures old(ring.Contents()) == got + ring.Contents()
      ensures |got| == Min(Narrow(len), |old(ring.Contents())|)
    {
      var out := new byte[len](_ => 0);
      var n := ring.Get(out, Narrow(len));
      got := out[..n];
      assert old(ring.Contents()) == old(ring.Contents())[..n] + old(ring.Contents())[n..];
    }

    /** `write_device` with `memory_write`. */
    method Write(bytes: seq<byte>) returns (n: nat)
      requires Valid()
      modifies ring, ring.buffer
      ensures Valid() && ring.buffer == old(ring.buffer) && ring.bufferSize == old(ring.bufferSize)
      ensures n == Min(Narrow(|bytes|), ring.bufferSize - |old(ring.Contents())|)
      ensures n <= |bytes| && ring.Contents() == old(ring.Contents()) + bytes[..n]
    {
      n := ring.Put(bytes[..Narrow(|bytes|)]);
      assert bytes[..Narrow(|bytes|)][..n] == bytes[..n];
    }

    /** Conservation: over every sequence of requests the lock lets through, the bytes delivered so
        far followed by the buffer contents are the bytes accepted so far, by the counts returned. */
    method Serve(requests: seq<Request>) returns (accepted: seq<byte>, delivered: seq<byte>)
      requires Valid()
      modifies ring, ring.buffer
      ensures Valid() && ring.buffer == old(ring.buffer)
      ensures old(ring.Contents()) + accepted == delivered + ring.Contents()
    {
      accepted, delivered := [], [];
      assert old(ring.Contents()) + accepted == delivered + ring.Contents();
      for i := 0 to |requests|
        invariant Valid() && ring == old(ring) && ring.buffer == old(ring.buffer)
        invariant old(ring.Contents()) + accepted == delivered + ring.Contents()
      {
        ghost var v := ring.Contents();
        match requests[i] {
          case Read(len) =>
            var got := Read(len);
            assert delivered + (got + ring.Contents()) == (delivered + got) + ring.Contents();
            delivered := delivered + got;
          case Write(bytes) =>
            var n := Write(bytes);
            Regroup(old(ring.Contents()), accepted, delivered, v, bytes[..n]);
            accepted := accepted + bytes[..n];
        }
      }
    }
  }

  lemma Regroup(before: seq<byte>, accepted: seq<byte>, delivered: seq<byte>, v: seq<byte>, more: seq<byte>)
    requires before + accepted == delivered + v
    ensures before + (accepted + more) == delivered + (v + more)
  {
    assert before + (accepted + more) == (before + accepted) + more;
    assert delivered + (v + more) == (delivered + v) + more;
  }

  // ----- Interleavings -----

  /** Where a thread is inside `read_device` or `write_device`: before the lock, holding it, having
      measured how much can move, or having moved it with the unlock still to come. */
  datatype Thread = Idle | Locked(request: Request) | Measured(request: Request, n: nat) | Moved

  /** The device shared by the threads, and the bytes that went in and out of it. */
  datatype Shared = Shared(
    mutex: Option<nat>, threads: seq<Thread>, contents: seq<byte>, accepted: seq<byte>, delivered: seq<byte>)

  /** How much of a request the ring buffer moves. */
  function Movable(request: Request, contents: seq<byte>): nat {
    match request
    case Read(len) => Min(Narrow(len), |contents|)
    case Write(bytes) =>
      Min(Narrow(|bytes|), if |contents| < DEFAULT_MEM_SIZE then DEFAULT_MEM_SIZE - |contents| else 0)
  }

  function Take(s: seq<byte>, n: nat): seq<byte> {
    s[..Min(n, |s|)]
  }

  function Drop(s: seq<byte>, n: nat): seq<byte> {
    s[Min(n, |s|)..]
  }

  /** Thread `t` takes one step; `request` is what it asks for when it starts. */
  ghost predicate ThreadStep(s: Shared, s': Shared, t: nat, request: Request)
    requires t < |s.threads|
  {
    match s.threads[t]
    case Idle =>
      s.mutex.None? && s' == s.(mutex := Some(t), threads := s.threads[t := Locked(request)])
    case Locked(r) =>
      s' == s.(threads := s.threads[t := Measured(r, Movable(r, s.contents))])
    case Measured(Read(_), n) =>
      s' == s.(threads := s.threads[t := Moved],
               contents := Drop(s.contents, n), delivered := s.delivered + Take(s.contents, n))
    case Measured(Write(bytes), n) =>
      s' == s.(threads := s.threads[t := Moved],
               contents := s.contents + Take(bytes, n), accepted := s.accepted + Take(bytes, n))
    case Moved =>
      s' == s.(mutex := None, threads := s.threads[t := Idle])
  }

  /** Some thread takes a step. */
  ghost predicate Next(s: Shared, s': Shared) {
    exists t: nat, request :: t < |s.threads| && ThreadStep(s, s', t, request)
  }

  /** Only the holder of the lock is past it, what it measured still holds, and nothing is lost. */
  ghost predicate Inv(s: Shared) {
    && |s.contents| <= DEFAULT_MEM_SIZE
    && (s.mutex.Some? ==> s.mutex.value < |s.threads|)
    && (forall t :: 0 <= t < |s.threads| ==> (s.threads[t] != Idle <==> s.mutex == Some(t)))
    && (forall t :: 0 <= t < |s.threads| && s.threads[t].Measured? ==>
          s.threads[t].n == Movable(s.threads[t].request, s.contents))
    && s.accepted == s.delivered + s.contents
  }

  /** The device right after `memory_open`, with any number of threads. */
  ghost predicate Init(s: Shared) {
    && s.mutex == None && s.contents == [] && s.accepted == [] && s.delivered == []
    && forall t :: 0 <= t < |s.threads| ==> s.threads[t] == Idle
  }

  lemma InvNext(s: Shared, s': Shared)
    requires Inv(s) && Next(s, s')
    ensures Inv(s') && |s'.threads| == |s.threads|
  {
    var t: nat, request :| t < |s.threads| && ThreadStep(s, s', t, request);
    match s.threads[t] {
      case Measured(Read(len), n) =>
        var a, b := Take(s.contents, n), Drop(s.contents, n);
        assert s.contents == a + b;
        assert s.delivered + (a + b) == (s.delivered + a) + b;
      case Measured(Write(bytes), n) =>
        var a := Take(bytes, n);
        assert s.delivered + (s.contents + a) == (s.delivered + s.contents) + a;
      case _ =>
    }
  }

  /** In every state of every interleaving of the threads, at most one is inside the ring buffer, no
      measurement is out of date when it is used, and the bytes delivered followed by the contents
      are the bytes accepted. */
  lemma {:induction false} Conservation(run: seq<Shared>)
    requires run != [] && Init(run[0])
    requires forall i :: 0 <= i < |run| - 1 ==> Next(run[i], run[i + 1])
    ensures forall i :: 0 <= i < |run| ==> Inv(run[i])
    decreases |run|
  {
    if |run| > 1 {
      var before := run[..|run| - 1];
      forall i | 0 <= i < |before| - 1 ensures Next(before[i], before[i + 1]) {
        assert Next(run[i], run[i + 1]);
      }
      Conservation(before);
      assert forall i :: 0 <= i < |before| ==> before[i] == run[i];
      assert Inv(before[|before| - 1]);
      InvNext(run[|run| - 2], run[|run| - 2 + 1]);
    }
  }
}
