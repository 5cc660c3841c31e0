/** A circular descriptor ring of packet-buffer slots with a producer index
    (the next slot to fill) and a consumer index (the next slot to drain).
    One slot is always kept free, so a ring of N slots holds at most N - 1
    packets. In the NIC's transmit ring the driver produces and the NIC
    consumes (tx_drv / tx_nic); in the receive ring the roles are swapped
    (rx_nic / rx_drv). The capacity is the length of `slots`. */
module Ring {
  import opened Net

  datatype Ring = Ring(slots: seq<Option<Pkt>>, prod: nat, cons: nat)

  function Cap(r: Ring): nat
  {
    |r.slots|
  }

  /** Both indices lie inside the slot array. */
  predicate Indexed(r: Ring)
  {
    0 < Cap(r) && r.prod < Cap(r) && r.cons < Cap(r)
  }

  /** Forward distance from slot `from` to slot `to` around a ring of n slots. */
  function Dist(from: nat, to: nat, n: nat): nat
    requires from < n && to < n
  {
    if from <= to then to - from else to + n - from
  }

  /** Dafny's % agrees with C's here: every dividend below is non-negative. */
  lemma ModWrap(x: int, n: int)
    requires 0 < n && 0 <= x < 2 * n
    ensures x % n == if x < n then x else x - n
  {
    if x < n {
      assert x == 0 * n + x;
    } else {
      assert x == 1 * n + (x - n);
    }
  }

  /** The index after i: (i + 1) % N. */
  function Next(i: nat, n: nat): (j: nat)
    requires i < n
    ensures j < n
    ensures j == if i + 1 == n then 0 else i + 1
  {
    ModWrap(i + 1, n);
    (i + 1) % n
  }

  /** Occupied count, (prod - cons + N) % N. */
  function Count(r: Ring): (c: nat)
    requires Indexed(r)
    ensures c == Dist(r.cons, r.prod, Cap(r))
    ensures c < Cap(r)
  {
    ModWrap(r.prod - r.cons + Cap(r), Cap(r));
    (r.prod - r.cons + Cap(r)) % Cap(r)
  }

  predicate IsEmpty(r: Ring)
  {
    r.prod == r.cons
  }

  /** The producer is one slot behind the consumer: ((cons - (prod + 1) + N) % N == 0). */
  predicate IsFull(r: Ring)
    requires Indexed(r)
  {
    (r.cons - (r.prod + 1) + Cap(r)) % Cap(r) == 0
  }

  /** The empty and full tests are the count reaching its two extremes. */
  lemma EmptyFullIffCount(r: Ring)
    requires Indexed(r)
    ensures IsEmpty(r) <==> Count(r) == 0
    ensures IsFull(r) <==> Count(r) == Cap(r) - 1
  {
    ModWrap(r.cons - (r.prod + 1) + Cap(r), Cap(r));
  }

  /** The slot holding the k-th oldest packet. */
  function Pos(r: Ring, k: nat): (i: nat)
    requires Indexed(r) && k < Cap(r)
    ensures i < Cap(r)
    ensures Dist(r.cons, i, Cap(r)) == k
  {
    ModWrap(r.cons + k, Cap(r));
    (r.cons + k) % Cap(r)
  }

  /** A slot holds a packet exactly when it lies in the half-open range from
      the consumer index up to the producer index. */
  predicate Valid(r: Ring)
  {
    && Indexed(r)
    && forall i :: 0 <= i < Cap(r) ==> (r.slots[i].Some? <==> Dist(r.cons, i, Cap(r)) < Count(r))
  }

  /** The queue a valid ring represents, oldest packet first. */
  function Contents(r: Ring): (q: seq<Pkt>)
    requires Valid(r)
    ensures |q| == Count(r)
    ensures forall k :: 0 <= k < |q| ==> r.slots[Pos(r, k)] == Some(q[k])
  {
    seq(Count(r), k requires 0 <= k < Count(r) => r.slots[Pos(r, k)].value)
  }

  /** A ring of n slots, all empty, both indices 0. */
  function Empty(n: nat): (r: Ring)
    requires 0 < n
    ensures Valid(r) && Cap(r) == n && Contents(r) == []
    ensures forall i :: 0 <= i < n ==> r.slots[i] == None
  {
    Ring(seq(n, _ => None), 0, 0)
  }

  /** Advancing the consumer shortens the distance to every other slot by
      one and puts the slot it left at the far end. */
  lemma DistFromNext(c: nat, i: nat, n: nat)
    requires c < n && i < n
    ensures i != c ==> Dist(Next(c, n), i, n) == Dist(c, i, n) - 1
    ensures Dist(Next(c, n), c, n) == n - 1
  {
  }

  /** Advancing the producer of a ring that is not full lengthens the
      distance from the consumer by one. */
  lemma DistToNext(c: nat, p: nat, n: nat)
    requires c < n && p < n && Dist(c, p, n) < n - 1
    ensures Dist(c, Next(p, n), n) == Dist(c, p, n) + 1
  {
  }

  /** A valid ring whose count is 0 has every slot empty. */
  lemma NoneWhenEmpty(r: Ring)
    requires Valid(r) && Count(r) == 0
    ensures forall i :: 0 <= i < Cap(r) ==> r.slots[i] == None
  {
  }

  /** The ring Put builds: the packet stored at the producer index, which
      then advances. */
  lemma PutFacts(r: Ring, p: Pkt)
    requires Valid(r) && Count(r) < Cap(r) - 1
    ensures var r' := Ring(r.slots[r.prod := Some(p)], Next(r.prod, Cap(r)), r.cons);
      && Valid(r') && Count(r') == Count(r) + 1
      && Contents(r') == Contents(r) + [p]
  {
    var n := Cap(r);
    var r' := Ring(r.slots[r.prod := Some(p)], Next(r.prod, n), r.cons);
    DistToNext(r.cons, r.prod, n);
    assert Count(r') == Count(r) + 1;
    forall i | 0 <= i < n
      ensures r'.slots[i].Some? <==> Dist(r'.cons, i, n) < Count(r')
    {
      if i == r.prod {
        assert Dist(r.cons, i, n) == Count(r);
      }
    }
    assert Valid(r');
    forall k | 0 <= k < Count(r)
      ensures Contents(r')[k] == Contents(r)[k]
    {
      assert Pos(r', k) == Pos(r, k);
      assert Pos(r, k) != r.prod;
    }
    assert Pos(r', Count(r)) == r.prod;
  }

  /** The ring Take builds is valid and holds one packet fewer. */
  lemma TakeValid(r: Ring)
    requires Valid(r) && Count(r) > 0
    ensures var r' := Ring(r.slots[r.cons := None], r.prod, Next(r.cons, Cap(r)));
      Valid(r') && Count(r') == Count(r) - 1
  {
    var n := Cap(r);
    var r' := Ring(r.slots[r.cons := None], r.prod, Next(r.cons, n));
    DistFromNext(r.cons, r.prod, n);
    assert Count(r') == Count(r) - 1;
    forall i | 0 <= i < n
      ensures r'.slots[i].Some? <==> Dist(r'.cons, i, n) < Count(r')
    {
      DistFromNext(r.cons, i, n);
    }
  }

  /** After the consumer advances, the k-th oldest slot is the one that was
      (k + 1)-th oldest. */
  lemma PosAfterTake(r: Ring, r': Ring, k: nat)
    requires Indexed(r) && Indexed(r') && Cap(r') == Cap(r)
    requires r'.cons == Next(r.cons, Cap(r)) && k + 1 < Cap(r)
    ensures Pos(r', k) == Pos(r, k + 1)
  {
    var n := Cap(r);
    ModWrap(r.cons + k + 1, n);
    ModWrap(r'.cons + k, n);
  }

  /** The ring Take builds: the consumer slot cleared and the consumer
      index advanced. */
  lemma TakeFacts(r: Ring)
    requires Valid(r) && Count(r) > 0
    ensures r.slots[r.cons] == Some(Contents(r)[0])
    ensures var r' := Ring(r.slots[r.cons := None], r.prod, Next(r.cons, Cap(r)));
      && Valid(r') && Count(r') == Count(r) - 1
      && Contents(r') == Contents(r)[1..]
  {
    var r' := Ring(r.slots[r.cons := None], r.prod, Next(r.cons, Cap(r)));
    assert Pos(r, 0) == r.cons;
    TakeValid(r);
    forall k | 0 <= k < Count(r')
      ensures Contents(r')[k] == Contents(r)[k + 1]
    {
      PosAfterTake(r, r', k);
    }
  }

  /** Store a packet at the producer index and advance it. */
  function Put(r: Ring, p: Pkt): (r': Ring)
    requires Valid(r) && !IsFull(r)
    ensures Valid(r') && Cap(r') == Cap(r)
    ensures Contents(r') == Contents(r) + [p]
    ensures r'.cons == r.cons && r'.prod == Next(r.prod, Cap(r))
  {
    EmptyFullIffCount(r);
    PutFacts(r, p);
    Ring(r.slots[r.prod := Some(p)], Next(r.prod, Cap(r)), r.cons)
  }

  /** Take the packet at the consumer index, clear its slot and advance the index. */
  function Take(r: Ring): (res: (Pkt, Ring))
    requires Valid(r) && !IsEmpty(r)
    ensures Valid(res.1) && Cap(res.1) == Cap(r)
    ensures res.0 == Contents(r)[0]
    ensures Contents(res.1) == Contents(r)[1..]
    ensures res.1.prod == r.prod && res.1.cons == Next(r.cons, Cap(r))
    ensures res.1.slots == r.slots[r.cons := None]
  {
    EmptyFullIffCount(r);
    TakeFacts(r);
    (r.slots[r.cons].value, Ring(r.slots[r.cons := None], r.prod, Next(r.cons, Cap(r))))
  }

  /** Release every queued packet, oldest first, then reset both indices
      to 0, as nic_cleanup_buffers does for each ring. */
  method Drain(r: Ring) returns (r': Ring, freed: seq<Pkt>)
    requires Valid(r)
    ensures freed == Contents(r)
    ensures r' == Empty(Cap(r))
  {
    var pktsLeft := Count(r);
    var cur := r;
    freed := [];
    while pktsLeft > 0
      invariant Valid(cur) && Cap(cur) == Cap(r)
      invariant pktsLeft == Count(cur)
      invariant freed + Contents(cur) == Contents(r)
    {
      EmptyFullIffCount(cur);
      var q := Contents(cur);
      var (p, next) := Take(cur);
      assert q == [p] + Contents(next);
      freed := freed + [p];
      cur := next;
      pktsLeft := pktsLeft - 1;
    }
    NoneWhenEmpty(cur);
    assert cur.slots == Empty(Cap(r)).slots;
    r' := Ring(cur.slots, 0, 0);
  }
}
