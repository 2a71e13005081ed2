/**
 How the slot and flag arrays represent a ring (src/buffer/ring-buffer.ts).
 */
module Slots {
  import opened RingModel

  const CAN_PUT_FLAG := 0
  const CAN_TAKE_FLAG := 1

  // Every sequence of the window owns the slot of its index.
  ghost predicate Represents(r: Ring, slots: seq<int>, flags: seq<int>) {
    && r.size > 0 && |slots| == r.size && |flags| == r.size
    && forall q :: r.InWindow(q) ==>
         if q in r.live
         then flags[q % r.size] == CAN_TAKE_FLAG && 0 <= q < |r.log| && slots[q % r.size] == r.log[q]
         else flags[q % r.size] == CAN_PUT_FLAG
  }

  lemma EmptyRepresents(size: nat, slots: seq<int>, flags: seq<int>)
    requires size > 0 && |slots| == size && |flags| == size
    requires forall i :: 0 <= i < size ==> flags[i] == CAN_PUT_FLAG
    ensures Represents(EmptyRing(size), slots, flags)
  {
  }

  // The flag at the next tail tells whether the sequence one lap behind is still unread.
  lemma PutFlag(r: Ring, slots: seq<int>, flags: seq<int>)
    requires r.Valid() && Represents(r, slots, flags)
    ensures flags[(r.Tail() + 1) % r.size] == CAN_PUT_FLAG <==> r.Tail() + 1 - r.size !in r.live
  {
    NextIndex(r.Tail() + 1, r.size);
    assert r.InWindow(r.Tail() + 1 - r.size);
  }

  lemma PutRepresents(r: Ring, slots: seq<int>, flags: seq<int>, uid: int)
    requires r.Valid() && Represents(r, slots, flags) && r.CanPut()
    ensures var i := (r.Tail() + 1) % r.size;
            Represents(r.Put(uid), slots[i := uid], flags[i := CAN_TAKE_FLAG])
  {
    var t := r.Tail() + 1;
    forall q | r.Put(uid).InWindow(q) && q != t ensures q % r.size != t % r.size && r.InWindow(q) {
      SameIndex(q, t, r.size);
    }
  }

  // The slot of sequence q holds its occupant.
  lemma TakeFlag(r: Ring, slots: seq<int>, flags: seq<int>, q: int)
    requires r.Valid() && Represents(r, slots, flags)
    ensures flags[q % r.size] == CAN_TAKE_FLAG <==> r.CanFinish(q)
    ensures r.CanFinish(q) ==> 0 <= r.Occupant(q) < |r.log| && slots[q % r.size] == r.log[r.Occupant(q)]
  {
    OccupantIndex(r, q);
  }

  lemma FinishRepresents(r: Ring, slots: seq<int>, flags: seq<int>, q: int)
    requires r.Valid() && Represents(r, slots, flags) && r.CanFinish(q)
    ensures Represents(r.Finish(q), slots, flags[q % r.size := CAN_PUT_FLAG])
  {
    OccupantIndex(r, q);
    var o := r.Occupant(q);
    forall p | r.InWindow(p) && p != o ensures p % r.size != q % r.size {
      SameIndex(p, o, r.size);
    }
  }
}
