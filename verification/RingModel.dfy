/**
 What the ring buffer means: an append-only log of accepted UIDs, a read position, and the
 set of log positions whose slot still holds an unreturned UID
 (src/buffer/ring-buffer.ts). The class RingBuffer refines it with two arrays.
 */
module RingModel {
  import JavaLong
  import opened Sequences

  const START_POINT: int := -1

  // size: number of slots; log: every UID ever accepted, at its sequence; cursor: last claimed sequence;
  // live: sequences put and not yet returned; issued: sequences returned, in the order of return
  datatype Ring = Ring(size: nat, log: seq<int>, cursor: int, live: set<int>, issued: seq<int>) {

    function Tail(): int {
      |log| - 1
    }

    // The distance `put` compares with size - 1.
    function Distance(): int {
      Tail() - (if cursor == START_POINT then 0 else cursor)
    }

    ghost predicate Valid() {
      && size > 0
      && START_POINT <= cursor <= Tail()
      && Distance() <= size - 1
      && (forall q :: q in live ==> InWindow(q) && 0 <= q)
      && (forall q :: 0 <= q <= Tail() ==> (q in live <==> q !in issued))
      && (forall q :: q in issued ==> 0 <= q <= Tail())
      && NoDuplicates(issued)
    }

    // The sequences that own a slot: the last `size` positions up to the tail.
    predicate InWindow(q: int) {
      Tail() - size < q <= Tail()
    }

    // The sequence that owns the slot with the index of q.
    function Occupant(q: int): int
      requires size > 0
    {
      Tail() - (Tail() - q) % size
    }

    predicate CanPut() {
      && Distance() != size - 1
      && Tail() + 1 - size !in live
    }

    function Put(uid: int): Ring {
      if CanPut() then this.(log := log + [uid], live := live + {Tail() + 1}) else this
    }

    predicate CanClaim() {
      cursor != Tail()
    }

    function Claim(): Ring {
      if CanClaim() then this.(cursor := cursor + 1) else this
    }

    // Reading and clearing the slot of sequence q: whatever lives there is returned.
    predicate CanFinish(q: int)
      requires size > 0
    {
      Occupant(q) in live
    }

    function Finish(q: int): Ring
      requires size > 0
    {
      if CanFinish(q) then this.(live := live - {Occupant(q)}, issued := issued + [Occupant(q)]) else this
    }

    // Room left before the distance guard stops `put`.
    function Free(): int {
      size - 1 - Distance()
    }

    // Nothing behind the cursor, except possibly the cursor's own slot, is still unread.
    ghost predicate NoneAbandoned() {
      forall q :: q in live ==> cursor <= q
    }

    // Every sequence after the cursor still waits to be taken.
    ghost predicate Intact() {
      forall q :: cursor < q <= Tail() ==> q in live
    }
  }

  function EmptyRing(size: nat): Ring {
    Ring(size, [], START_POINT, {}, [])
  }

  lemma EmptyRingValid(size: nat)
    requires size > 0
    ensures EmptyRing(size).Valid()
  {
  }

  // ----- slots: indices modulo the size -----

  lemma SameIndex(a: int, b: int, size: int)
    requires size > 0 && -size < a - b < size
    ensures a % size == b % size <==> a == b
  {
    if a % size == b % size {
      JavaLong.CongruentClose(a, b, size);
    }
  }

  lemma NextIndex(a: int, size: int)
    requires size > 0
    ensures (a + size) % size == a % size && (a - size) % size == a % size
  {
    JavaLong.ModWraps(a, 1, size);
    JavaLong.ModWraps(a, -1, size);
  }

  lemma OccupantIndex(r: Ring, q: int)
    requires r.size > 0
    ensures r.InWindow(r.Occupant(q)) && r.Occupant(q) % r.size == q % r.size
    ensures r.InWindow(q) ==> r.Occupant(q) == q
    ensures r.InWindow(q + r.size) ==> r.Occupant(q) == q + r.size
  {
    var n := r.size;
    var d := r.Tail() - q;
    assert r.Occupant(q) == q + (d / n) * n;
    JavaLong.ModWraps(q, d / n, n);
    if r.InWindow(q) {
      SameIndex(r.Occupant(q), q, n);
    }
    if r.InWindow(q + n) {
      NextIndex(q, n);
      SameIndex(r.Occupant(q), q + n, n);
    }
  }

  // ----- what every step keeps -----

  lemma PutValid(r: Ring, uid: int)
    requires r.Valid()
    ensures r.Put(uid).Valid()
    ensures r.CanPut() ==> r.Put(uid).Free() == r.Free() - 1
    ensures !r.CanPut() ==> r.Put(uid) == r
  {
  }

  lemma ClaimValid(r: Ring)
    requires r.Valid()
    ensures r.Claim().Valid()
  {
  }

  lemma FinishValid(r: Ring, q: int)
    requires r.Valid()
    ensures r.Finish(q).Valid()
    ensures r.CanFinish(q) ==> 0 <= r.Occupant(q) <= r.Tail()
  {
    var r' := r.Finish(q);
    if r.CanFinish(q) {
      var o := r.Occupant(q);
      forall p | 0 <= p <= r'.Tail() ensures p in r'.live <==> p !in r'.issued {
      }
    }
  }

  /**
   What the flag check is for: once the distance guard has passed, a put that skipped the flag check would keep
   every unread slot intact exactly when the flag is clear.
   */
  lemma FlagCheckIsExact(r: Ring)
    requires r.Valid() && r.Distance() != r.size - 1
    ensures r.CanPut() <==> forall q :: q in r.live ==> q % r.size != (r.Tail() + 1) % r.size
  {
    var t := r.Tail() + 1;
    NextIndex(t, r.size);
    forall q | q in r.live && q != t - r.size ensures q % r.size != t % r.size {
      SameIndex(q, t, r.size);
    }
  }

  lemma LiveFinish(r: Ring, q: int)
    requires r.size > 0 && r.InWindow(q) && q in r.live
    ensures r.CanFinish(q) && r.Finish(q) == r.(live := r.live - {q}, issued := r.issued + [q])
    ensures r.Occupant(q) == q
  {
    OccupantIndex(r, q);
  }

  /** Without abandoned claims the flag check never fires: `put` fails exactly at the distance bound. */
  lemma DistanceGuardSuffices(r: Ring)
    requires r.Valid() && r.NoneAbandoned() && r.cursor >= 0
    ensures r.CanPut() <==> r.Distance() != r.size - 1
  {
  }

  lemma DistanceGuardSufficesFresh(r: Ring)
    requires r.Valid() && r.cursor == START_POINT
    ensures r.CanPut() <==> r.Distance() != r.size - 1
  {
  }

  /** Capacity: at most size slots are in use, and at most size - 1 UIDs wait once the first take has happened. */
  lemma Capacity(r: Ring)
    requires r.Valid()
    ensures |r.live| <= r.size
    ensures r.Tail() - r.cursor <= if r.cursor == START_POINT then r.size else r.size - 1
    ensures r.Intact() && r.NoneAbandoned() && r.cursor !in r.live ==> |r.live| == r.Tail() - r.cursor
  {
    SetInRange(r.live, r.Tail() - r.size, r.Tail());
    if r.Intact() && r.NoneAbandoned() && r.cursor !in r.live {
      SetInRange(r.live, r.cursor, r.Tail());
    }
  }

  lemma SetInRange(s: set<int>, lo: int, hi: int)
    requires lo <= hi
    requires forall q :: q in s ==> lo < q <= hi
    ensures |s| <= hi - lo
    ensures (forall q :: lo < q <= hi ==> q in s) ==> |s| == hi - lo
    decreases hi - lo
  {
    if lo < hi {
      SetInRange(s - {hi}, lo, hi - 1);
    } else {
      assert forall q :: q !in s;
      assert s == {};
    }
  }
}
