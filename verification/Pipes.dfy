/**
 kernel/fs/Pipe.c, reading and writing, over the sleep and wakeup of
 kernel/yield/Thread.c.  Kernel code runs without interruption between two sleeps, so
 a read or a write is cut at its sleeps into segments; every method here is one
 segment.  `sent` and `received` record all bytes that went in and came out.
 */
module Pipes {
  import opened Bytes

  const PIPESIZE: nat := 65536

  /** A thread outside the pipe, in pipeRead, or in pipeWrite with i bytes of `data` written; `asleep` until a
      wakeup makes it runnable. */
  datatype User = Outside | Reading(n: nat, asleep: bool) | Writing(data: seq<Byte>, i: nat, asleep: bool)

  datatype End = ReadEnd | WriteEnd

  /** A segment ends in a panic, at a sleep, or with the result of the call. */
  datatype Outcome<T> = Panic | Sleeps | Returns(value: T)

  // ---------- the ring ----------

  /** The bytes from nread to nwrite of the stream are in the ring. */
  ghost predicate InRing(ring: seq<Byte>, sent: seq<Byte>, nread: nat, nwrite: nat) {
    && |ring| == PIPESIZE && nread <= nwrite <= nread + PIPESIZE && |sent| == nwrite
    && forall k :: nread <= k < nwrite ==> ring[Slot(k)] == sent[k]
  }

  function Slot(k: nat): (r: nat)
    ensures r < PIPESIZE
  {
    k % PIPESIZE
  }

  lemma SlotsDiffer(j: nat, k: nat)
    requires j < k < j + PIPESIZE
    ensures Slot(j) != Slot(k)
  {
    var q, r := j / PIPESIZE, k / PIPESIZE;
    assert j == q * PIPESIZE + Slot(j) && k == r * PIPESIZE + Slot(k);
  }

  lemma PushByte(ring: seq<Byte>, sent: seq<Byte>, nread: nat, nwrite: nat, ch: Byte)
    requires InRing(ring, sent, nread, nwrite) && nwrite < nread + PIPESIZE
    ensures InRing(ring[Slot(nwrite) := ch], sent + [ch], nread, nwrite + 1)
  {
    hide Slot;
    forall k | nread <= k < nwrite ensures Slot(k) != Slot(nwrite) {
      SlotsDiffer(k, nwrite);
    }
  }

  // ---------- who is awake ----------

  predicate AsleepOn(u: User, e: End) {
    match e
    case ReadEnd => u.Reading? && u.asleep
    case WriteEnd => u.Writing? && u.asleep
  }

  function Awake(u: User): User {
    match u
    case Outside => u
    case Reading(n, _) => Reading(n, false)
    case Writing(d, i, _) => Writing(d, i, false)
  }

  /** The threads after wakeup on one end's channel. */
  function Woken(us: seq<User>, e: End): (r: seq<User>)
    ensures |r| == |us| && forall t :: 0 <= t < |us| ==> r[t] == (if AsleepOn(us[t], e) then Awake(us[t]) else us[t])
  {
    seq(|us|, t requires 0 <= t < |us| => if AsleepOn(us[t], e) then Awake(us[t]) else us[t])
  }

  class Pipe {
    const ring: array<Byte>
    var nread: nat
    var nwrite: nat
    var readopen: bool
    var writeopen: bool
    var users: seq<User>
    ghost var sent: seq<Byte>
    ghost var received: seq<Byte>

    /** The bytes received are the first nread bytes sent, and the ring has the others. */
    ghost predicate Stream()
      reads this, ring
    {
      ring.Length == PIPESIZE && InRing(ring[..], sent, nread, nwrite) && received == sent[..nread]
    }

    /** A reader sleeps only on an empty pipe that may still be written; a writer only on a full one that may still
        be read. */
    ghost predicate NobodyStranded()
      reads this
    {
      forall t :: 0 <= t < |users| ==>
        && (AsleepOn(users[t], ReadEnd) ==> nread == nwrite && writeopen)
        && (AsleepOn(users[t], WriteEnd) ==> nwrite == nread + PIPESIZE && readopen)
    }

    ghost predicate Valid()
      reads this, ring
    {
      Stream() && NobodyStranded() && forall t :: 0 <= t < |users| && users[t].Writing? ==> users[t].i < |users[t].data|
    }

    /** A reader and a writer never wait for each other. */
    lemma NoMutualWait(t: int, u: int)
      requires Valid() && 0 <= t < |users| && 0 <= u < |users|
      ensures !(AsleepOn(users[t], ReadEnd) && AsleepOn(users[u], WriteEnd))
    {
    }

    /** pipeNew's pipe, used by n threads. */
    constructor (n: nat)
      ensures Valid() && fresh(ring) && sent == received == [] && readopen && writeopen && users == seq(n, t => Outside)
    {
      ring := new Byte[PIPESIZE];
      nread, nwrite, readopen, writeopen := 0, 0, true, true;
      users := seq(n, t => Outside);
      sent, received := [], [];
    }

    /** wakeup: one pass over the threads. */
    method Wakeup(e: End)
      modifies this`users
      ensures users == Woken(old(users), e)
    {
      var t := 0;
      while t < |users|
        invariant 0 <= t <= |users| == |old(users)|
        invariant forall k :: 0 <= k < t ==> users[k] == Woken(old(users), e)[k]
        invariant forall k :: t <= k < |users| ==> users[k] == old(users)[k]
      {
        if AsleepOn(users[t], e) {
          users := users[t := Awake(users[t])];
        }
        t := t + 1;
      }
    }

    method PutByte(ch: Byte)
      requires Stream() && nwrite != nread + PIPESIZE
      modifies this`nwrite, this`sent, ring
      ensures Stream() && sent == old(sent) + [ch]
    {
      hide InRing;
      RingRoom(ring[..], sent, nread, nwrite);
      PushByte(ring[..], sent, nread, nwrite, ch);
      StillPrefix(sent, nread, ch);
      ghost var next := ring[..][Slot(nwrite) := ch];
      ring[Slot(nwrite)] := ch;
      assert ring[..] == next;
      sent := sent + [ch];
      nwrite := nwrite + 1;
    }

    /** The copying loop of pipeWrite: as many bytes as fit. */
    method Fill(data: seq<Byte>, from: nat) returns (i: nat)
      requires Stream() && from <= |data|
      modifies this`nwrite, this`sent, ring
      ensures Stream() && from <= i <= |data| && sent == old(sent) + data[from..i]
      ensures i < |data| ==> nwrite == nread + PIPESIZE
    {
      hide InRing;
      i := from;
      while i < |data| && nwrite != nread + PIPESIZE
        invariant from <= i <= |data| && Stream() && sent == old(sent) + data[from..i]
      {
        PutByte(data[i]);
        assert data[from..i] + [data[i]] == data[from..i + 1];
        i := i + 1;
      }
    }

    /** pipeWrite until it sleeps or ends: started with i == 0, or resumed after a wakeup. */
    method WriteSegment(t: int, data: seq<Byte>, from: nat) returns (r: Outcome<nat>)
      requires Valid() && 0 <= t < |users| && from <= |data|
      requires (users[t] == Outside && from == 0) || users[t] == Writing(data, from, false)
      modifies this, ring
      ensures r == Panic <==> data == [] || !old(readopen)
      ensures r == Panic ==> nread == old(nread) && nwrite == old(nwrite) && sent == old(sent)
      ensures r == Panic ==> users == if data == [] then Woken(old(users), ReadEnd) else old(users)
      ensures r != Panic ==>
                && Valid() && nread == old(nread) && received == old(received)
                && readopen == old(readopen) && writeopen == old(writeopen) && |users| == |old(users)|
                && (r == Sleeps ==> users[t].Writing?)
                && var i := if r == Sleeps then users[t].i else |data|;
                   && from <= i <= |data| && sent == old(sent) + data[from..i]
                   && users == Woken(old(users), ReadEnd)[t := if r == Sleeps then Writing(data, i, true) else Outside]
                   && (r == Sleeps ==> nwrite == nread + PIPESIZE) && (r.Returns? ==> r.value == |data|)
    {
      if from < |data| && !readopen {
        return Panic;
      }
      if data == [] {
        Wakeup(ReadEnd);
        return Panic;
      }
      var i := Fill(data, from);
      Wakeup(ReadEnd);
      if i < |data| {
        users := users[t := Writing(data, i, true)];
        r := Sleeps;
      } else {
        users := users[t := Outside];
        r := Returns(i);
      }
    }

    /** The copying loop of pipeRead: up to n bytes, as long as there are any. */
    method Drain(n: nat) returns (data: seq<Byte>)
      requires Stream()
      modifies this`nread, this`received
      ensures Stream() && nread == old(nread) + |data| && nread <= |sent| && data == sent[old(nread)..nread]
      ensures |data| <= n && (|data| < n ==> nread == nwrite)
    {
      data := [];
      while |data| < n && nread != nwrite
        invariant Stream() && old(nread) <= nread && data == sent[old(nread)..nread] && |data| <= n
      {
        data := data + [ring[Slot(nread)]];
        received := received + [ring[Slot(nread)]];
        nread := nread + 1;
      }
    }

    /** pipeRead until it sleeps or ends. */
    method ReadSegment(t: int, n: nat) returns (r: Outcome<seq<Byte>>)
      requires Valid() && 0 <= t < |users| && (users[t] == Outside || users[t] == Reading(n, false))
      modifies this
      ensures Valid() && sent == old(sent) && nwrite == old(nwrite) && readopen == old(readopen)
      ensures writeopen == old(writeopen)
      ensures r == Sleeps <==> old(nread) == old(nwrite) && writeopen
      ensures r == Sleeps ==> users == old(users)[t := Reading(n, true)] && received == old(received)
      ensures r != Sleeps ==>
                && r.Returns? && received == old(received) + r.value && |r.value| <= n
                && (|r.value| < n ==> received == sent) && users == Woken(old(users), WriteEnd)[t := Outside]
    {
      if nread == nwrite && writeopen {
        users := users[t := Reading(n, true)];
        return Sleeps;
      }
      var data := Drain(n);
      Wakeup(WriteEnd);
      users := users[t := Outside];
      r := Returns(data);
    }

    /** pipeClose; `gone` when the pipe goes back to the bitmap. */
    method Close(e: End) returns (gone: bool)
      requires Valid()
      modifies this`readopen, this`writeopen, this`users
      ensures Valid() && gone == (!readopen && !writeopen)
      ensures readopen == (old(readopen) && e != ReadEnd) && writeopen == (old(writeopen) && e != WriteEnd)
      ensures users == Woken(old(users), if e == WriteEnd then ReadEnd else WriteEnd)
    {
      if e == WriteEnd {
        writeopen := false;
        Wakeup(ReadEnd);
      } else {
        readopen := false;
        Wakeup(WriteEnd);
      }
      gone := !readopen && !writeopen;
    }
  }

  lemma RingRoom(ring: seq<Byte>, sent: seq<Byte>, nread: nat, nwrite: nat)
    requires InRing(ring, sent, nread, nwrite) && nwrite != nread + PIPESIZE
    ensures nread <= nwrite < nread + PIPESIZE && |sent| == nwrite
  {
  }

  lemma StillPrefix(sent: seq<Byte>, n: nat, ch: Byte)
    requires n <= |sent|
    ensures (sent + [ch])[..n] == sent[..n]
  {
  }
}
