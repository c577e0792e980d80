/**
 * Reading a byte stream that arrives in chunks (src/utils/tcp-helpers.cpp,
 * src/utils/queue.h): recv_func hands out exactly as many bytes as asked for and
 * pushes the rest of a chunk back to the front of the queue.
 */
module ChunkQueue {
  import opened Bytes

  function Flat(q: seq<seq<Byte>>): seq<Byte> {
    if q == [] then [] else q[0] + Flat(q[1..])
  }

  lemma {:induction false} FlatConcat(a: seq<seq<Byte>>, b: seq<seq<Byte>>)
    ensures Flat(a + b) == Flat(a) + Flat(b)
  {
    if a == [] {
      assert a + b == b;
    } else {
      FlatConcat(a[1..], b);
      assert (a + b)[1..] == a[1..] + b && (a + b)[0] == a[0];
      assert Flat(a + b) == a[0] + (Flat(a[1..]) + Flat(b));
    }
  }

  lemma FlatOne(t: seq<Byte>)
    ensures Flat([t]) == t
  {
  }

  /** What happens around one turn of the receive loop: is a stop flag up, and what does the producer push. */
  datatype Tick = Tick(stop: bool, pushed: seq<seq<Byte>>)

  /** All bytes the producer pushes, in order. */
  function Arrived(ticks: seq<Tick>): seq<Byte> {
    if ticks == [] then [] else Flat(ticks[0].pushed) + Arrived(ticks[1..])
  }

  lemma {:induction false} ArrivedConcat(a: seq<Tick>, b: seq<Tick>)
    ensures Arrived(a + b) == Arrived(a) + Arrived(b)
  {
    if a == [] {
      assert a + b == b;
    } else {
      ArrivedConcat(a[1..], b);
      assert (a + b)[1..] == a[1..] + b && (a + b)[0] == a[0];
      hide Flat;
      assert Arrived(a + b) == Flat(a[0].pushed) + (Arrived(a[1..]) + Arrived(b));
    }
  }

  /** template class queue. */
  class Deque {
    var q: seq<seq<Byte>>

    constructor ()
      ensures q == []
    {
      q := [];
    }

    method Push(t: seq<Byte>)
      modifies this
      ensures q == old(q) + [t] && Flat(q) == Flat(old(q)) + t
    {
      FlatConcat(q, [t]);
      FlatOne(t);
      q := q + [t];
    }

    /** pop with a timeout; None when nothing came. */
    method Pop() returns (r: Option<seq<Byte>>)
      modifies this
      ensures match r
              case None => q == old(q) == []
              case Some(t) => old(q) == [t] + q && Flat(old(q)) == t + Flat(q)
    {
      if q == [] {
        return None;
      }
      r := Some(q[0]);
      q := q[1..];
    }

    method Unpop(t: seq<Byte>)
      modifies this
      ensures q == [t] + old(q) && Flat(q) == t + Flat(old(q))
    {
      assert ([t] + q)[1..] == q;
      q := [t] + q;
    }
  }

  /** The producer's pushes during one turn. */
  method PushAll(incoming: Deque, chunks: seq<seq<Byte>>)
    modifies incoming
    ensures Flat(incoming.q) == old(Flat(incoming.q)) + Flat(chunks)
  {
    for i := 0 to |chunks|
      invariant Flat(incoming.q) == old(Flat(incoming.q)) + Flat(chunks[..i])
    {
      incoming.Push(chunks[i]);
      FlatConcat(chunks[..i], [chunks[i]]);
      FlatOne(chunks[i]);
      assert chunks[..i + 1] == chunks[..i] + [chunks[i]];
    }
    assert chunks[..|chunks|] == chunks;
  }

  /** One turn's pop: at most todo bytes of a chunk are used, the rest goes back to the front. */
  method TakeChunk(incoming: Deque, todo: nat) returns (part: seq<Byte>)
    modifies incoming
    ensures part + Flat(incoming.q) == old(Flat(incoming.q)) && |part| <= todo
  {
    hide Flat;
    part := [];
    var values := incoming.Pop();
    if values.Some? {
      var v := values.value;
      if |v| > todo {
        assert v == v[..todo] + v[todo..];
        incoming.Unpop(v[todo..]);
        part := v[..todo];
      } else {
        part := v;
      }
    }
  }

  lemma Regroup(got: seq<Byte>, part: seq<Byte>, left: seq<Byte>,
                before: seq<Byte>, more: seq<Byte>, start: seq<Byte>, came: seq<Byte>)
    requires part + left == before + more && got + before == start + came
    ensures (got + part) + left == start + (came + more)
  {
    assert (got + part) + left == got + (part + left) == (got + before) + more;
  }

  /**
   * recv_func. Chunk independence: what it returns, followed by what it leaves in
   * the queue, is what was there followed by what arrived; and it returns exactly
   * n bytes unless a stop flag ends it or nothing more happens.
   */
  method Recv(incoming: Deque, n: nat, ticks: seq<Tick>) returns (got: seq<Byte>, used: nat)
    modifies incoming
    ensures used <= |ticks| && |got| <= n
    ensures got + Flat(incoming.q) == old(Flat(incoming.q)) + Arrived(ticks[..used])
    ensures |got| < n ==> used == |ticks| || ticks[used].stop
    ensures forall i :: 0 <= i < used ==> !ticks[i].stop
  {
    got, used := [], 0;
    assert Arrived(ticks[..0]) == [];
    hide Flat, Arrived;
    while |got| < n && used < |ticks| && !ticks[used].stop
      invariant used <= |ticks| && |got| <= n
      invariant got + Flat(incoming.q) == old(Flat(incoming.q)) + Arrived(ticks[..used])
      invariant forall i :: 0 <= i < used ==> !ticks[i].stop
      decreases |ticks| - used
    {
      ghost var before := Flat(incoming.q);
      PushAll(incoming, ticks[used].pushed);
      var part := TakeChunk(incoming, n - |got|);
      Regroup(got, part, Flat(incoming.q), before, Flat(ticks[used].pushed),
              old(Flat(incoming.q)), Arrived(ticks[..used]));
      ArrivedSnoc(ticks, used);
      got := got + part;
      used := used + 1;
    }
  }

  lemma ArrivedSnoc(ticks: seq<Tick>, i: nat)
    requires i < |ticks|
    ensures Arrived(ticks[..i + 1]) == Arrived(ticks[..i]) + Flat(ticks[i].pushed)
  {
    assert ticks[..i + 1] == ticks[..i] + [ticks[i]];
    ArrivedConcat(ticks[..i], [ticks[i]]);
    assert [ticks[i]][1..] == [];
  }
}
