// Pipes (pipe.c).  Each method is one stretch of pipewrite, piperead or pipeclose with
// p->lock held: from acquire, or from the return of sleep, to release or to the next
// sleep.  Readers and writers interleave as any sequence of calls; sleep and wakeup are
// atomic here because both change process states under ptable.lock.
module Pipe {
  import opened Common

  const PIPESIZE: nat := 512

  /** How a stretch ends: -1, asleep on the other side's counter, or done. */
  datatype Status = Error | Slept | Done

  lemma SlotOf(k: nat)
    ensures k % WORDMAX % PIPESIZE == k % PIPESIZE
  {
    assert k == k / WORDMAX * WORDMAX + k % WORDMAX;
    assert WORDMAX == 8388608 * PIPESIZE;
    assert k == (k / WORDMAX * 8388608) * PIPESIZE + k % WORDMAX;
    ModAdd(k / WORDMAX * 8388608, k % WORDMAX);
  }

  lemma ModAdd(q: nat, r: nat)
    ensures (q * PIPESIZE + r) % PIPESIZE == r % PIPESIZE
  {
    assert q * PIPESIZE + r == (q + r / PIPESIZE) * PIPESIZE + r % PIPESIZE;
  }

  lemma CounterNext(k: nat)
    ensures (k % WORDMAX + 1) % WORDMAX == (k + 1) % WORDMAX
  {
  }

  /** Counters that differ by less than their range compare like the numbers they stand for. */
  lemma CounterDiff(r: nat, w: nat, d: nat)
    requires r <= w <= r + PIPESIZE && d <= PIPESIZE
    ensures w % WORDMAX == (r % WORDMAX + d) % WORDMAX <==> w == r + d
  {
  }

  lemma SlotsApart(j: nat, k: nat)
    requires j < k < j + PIPESIZE
    ensures j % PIPESIZE != k % PIPESIZE
  {
  }

  class Pipe {
    const data: array<byte>
    var nread: nat
    var nwrite: nat
    var readopen: bool
    var writeopen: bool
    var writers: set<nat>           // processes SLEEPING on &p->nwrite
    var readers: set<nat>           // processes SLEEPING on &p->nread
    ghost var stored: seq<byte>     // everything ever put into the pipe
    ghost var delivered: seq<byte>  // everything ever taken out

    constructor ()
      ensures Valid() && ReadersOk() && stored == [] && delivered == [] && readopen && writeopen && fresh(data)
      ensures writers == {} && readers == {}
    {
      data := new byte[PIPESIZE](_ => 0);
      nread, nwrite := 0, 0;
      readopen, writeopen := true, true;
      writers, readers := {}, {};
      stored, delivered := [], [];
    }

    /** What was delivered is a prefix of what was stored; the ring holds the rest. */
    ghost predicate Fifo()
      reads this, data
    {
      && data.Length == PIPESIZE
      && delivered <= stored && |stored| - |delivered| <= PIPESIZE
      && nread == |delivered| % WORDMAX && nwrite == |stored| % WORDMAX
      && (forall k :: |delivered| <= k < |stored| ==> data[k % PIPESIZE] == stored[k])
    }

    /** A writer sleeps only on a full pipe that someone can still read. */
    ghost predicate WritersOk()
      reads this
    {
      writers != {} ==> |stored| == |delivered| + PIPESIZE && readopen
    }

    /** A reader sleeps only on an empty pipe that someone can still write. */
    ghost predicate ReadersOk()
      reads this
    {
      readers != {} ==> |stored| == |delivered| && writeopen
    }

    ghost predicate Valid()
      reads this, data
    {
      Fifo() && WritersOk()
    }

    method Store(b: byte)
      requires Fifo() && |stored| < |delivered| + PIPESIZE
      modifies this`nwrite, this`stored, data
      ensures Fifo() && stored == old(stored) + [b]
    {
      ghost var w := |stored|;
      SlotOf(w);
      CounterNext(w);
      forall k | |delivered| <= k < w ensures k % PIPESIZE != w % PIPESIZE {
        SlotsApart(k, w);
      }
      data[nwrite % PIPESIZE] := b;
      nwrite := (nwrite + 1) % WORDMAX;
      stored := stored + [b];
    }

    method Take() returns (b: byte)
      requires Fifo() && |delivered| < |stored|
      modifies this`nread, this`delivered
      ensures Fifo() && b == stored[|old(delivered)|] && delivered == old(delivered) + [b]
    {
      SlotOf(|delivered|);
      CounterNext(|delivered|);
      b := data[nread % PIPESIZE];
      nread := (nread + 1) % WORDMAX;
      delivered := delivered + [b];
    }

    /**
     * A stretch of pipewrite by process p, from byte i of addr on.  The bytes up to i' go into the
     * pipe in order.  Afterwards no reader sleeps on a filled pipe, unless readers slept before, p
     * was killed and there is more to write than the pipe holds: that return wakes nobody.
     */
    method Pipewrite(p: nat, addr: seq<byte>, i: nat, killed: bool) returns (st: Status, i': nat)
      requires Valid() && i <= |addr| && p !in writers
      modifies this`nwrite, this`stored, this`writers, this`readers, data
      ensures Valid() && i <= i' <= |addr| && stored == old(stored) + addr[i..i']
      ensures st.Done? <==> |old(stored)| + |addr| - i <= |delivered| + PIPESIZE
      ensures !st.Done? ==> |stored| == |delivered| + PIPESIZE && (st.Error? <==> !readopen || killed)
      ensures st.Done? ==> i' == |addr| && writers == old(writers) && readers == {}
      ensures st.Slept? ==> i' < |addr| && writers == old(writers) + {p} && readers == {}
      ensures st.Error? ==> i' < |addr| && writers == old(writers) && readers == old(readers)
      ensures old(ReadersOk()) && (!readopen ==> old(readers) == {}) ==>
                (ReadersOk() <==> !(old(readers) != {} && killed && |addr| - i > PIPESIZE))
    {
      i' := i;
      while i' < |addr|
        invariant Valid() && i <= i' <= |addr| && stored == old(stored) + addr[i..i']
        invariant writers == old(writers) && readers == old(readers)
      {
        CounterDiff(|delivered|, |stored|, PIPESIZE);
        if nwrite == (nread + PIPESIZE) % WORDMAX {
          if !readopen || killed {
            return Error, i';
          }
          readers := {};
          writers := writers + {p};
          return Slept, i';
        }
        assert writers == {};
        Store(addr[i']);
        i' := i' + 1;
      }
      readers := {};
      st := Done;
    }

    /**
     * A stretch of piperead by process p for n bytes: what it delivers is the oldest undelivered
     * part of what was stored, in order, as much as there is up to n.
     */
    method Piperead(p: nat, n: nat, killed: bool) returns (st: Status, addr: seq<byte>)
      requires Valid() && p !in readers
      modifies this`nread, this`delivered, this`writers, this`readers
      ensures Valid() && delivered == old(delivered) + addr
      ensures st.Done? ==>
                && |addr| == (if |stored| - |old(delivered)| < n then |stored| - |old(delivered)| else n)
                && addr == stored[|old(delivered)|..|old(delivered)| + |addr|]
                && writers == {} && readers == old(readers)
      ensures !st.Done? ==> addr == [] && |stored| == |delivered| && writeopen && writers == old(writers)
      ensures st.Slept? <==> |stored| == |old(delivered)| && writeopen && !killed
      ensures st.Error? <==> |stored| == |old(delivered)| && writeopen && killed
      ensures st.Slept? ==> readers == old(readers) + {p}
      ensures st.Error? ==> readers == old(readers)
      ensures old(ReadersOk()) ==> ReadersOk()
    {
      addr := [];
      CounterDiff(|delivered|, |stored|, 0);
      if nread == nwrite && writeopen {
        if killed {
          return Error, addr;
        }
        readers := readers + {p};
        return Slept, addr;
      }
      var i := 0;
      while i < n
        invariant Fifo() && i == |addr| <= n && writers == old(writers) && readers == old(readers)
        invariant delivered == old(delivered) + addr
        decreases n - i
      {
        CounterDiff(|delivered|, |stored|, 0);
        if nread == nwrite {
          break;
        }
        var b := Take();
        addr := addr + [b];
        i := i + 1;
      }
      writers := {};
      st := Done;
    }

    /** pipeclose of one end: whoever sleeps on the other is woken. */
    method Pipeclose(writable: bool) returns (free: bool)
      requires Valid()
      requires if writable then writers == {} else readers == {}
      modifies this`readopen, this`writeopen, this`writers, this`readers
      ensures Valid() && (old(ReadersOk()) ==> ReadersOk())
      ensures writeopen == (old(writeopen) && !writable) && readopen == (old(readopen) && writable)
      ensures writers == (if writable then old(writers) else {}) && readers == (if writable then {} else old(readers))
      ensures free == (!readopen && !writeopen)
    {
      if writable {
        writeopen := false;
        readers := {};
      } else {
        readopen := false;
        writers := {};
      }
      free := !readopen && !writeopen;
    }

    /** kill makes a sleeping process runnable. */
    method Kill(p: nat)
      requires Valid()
      modifies this`writers, this`readers
      ensures Valid() && (old(ReadersOk()) ==> ReadersOk())
      ensures writers == old(writers) - {p} && readers == old(readers) - {p}
    {
      writers := writers - {p};
      readers := readers - {p};
    }
  }

  /** A reader left asleep beside a full pipe: the writer that filled it had been killed. */
  method StrandedReader() returns (pipe: Pipe)
    ensures pipe.Valid() && pipe.readers == {1} && |pipe.stored| > |pipe.delivered|
  {
    pipe := new Pipe();
    var st, got := pipe.Piperead(1, 1, false);
    var zeros: seq<byte> := seq(PIPESIZE + 1, _ => 0);
    var st', i := pipe.Pipewrite(2, zeros, 0, true);
  }
}
