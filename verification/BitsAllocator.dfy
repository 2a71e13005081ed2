/**
 The 64-bit layout: sign | delta seconds | worker id | sequence
 (src/bits-allocator.ts and the decoding half of parseUID in
 src/impl/default-uid-generator.ts).
 */
module BitsAllocation {
  import opened JavaLong
  import opened Wrappers

  const TOTAL_BITS := 64
  const SIGN_BITS := 1

  datatype BitsAllocator = BitsAllocator(
    timestampBits: int, workerIdBits: int, sequenceBits: int,
    maxDeltaSeconds: int, maxWorkerId: int, maxSequence: int,
    timestampShift: int, workerIdShift: int)
  {
    // What the constructor builds for a worker and a sequence field that are not empty (see CreateLegal).
    ghost predicate Legal() {
      && timestampBits >= 0 && workerIdBits >= 1 && sequenceBits >= 1
      && timestampBits + workerIdBits + sequenceBits == 63
      && maxDeltaSeconds == Pow2(timestampBits) - 1
      && maxWorkerId == Pow2(workerIdBits) - 1
      && maxSequence == Pow2(sequenceBits) - 1
      && timestampShift == workerIdBits + sequenceBits
      && workerIdShift == sequenceBits
    }

    function Allocate(deltaSeconds: int, workerId: int, sequence: int): int {
      Or(Or(ShiftLeft(deltaSeconds, timestampShift), ShiftLeft(workerId, workerIdShift)), sequence)
    }

    // The three shift expressions of parseUID.
    function DecodeSequence(uid: int): int {
      UnsignedShiftRight(ShiftLeft(uid, TOTAL_BITS - sequenceBits), TOTAL_BITS - sequenceBits)
    }

    function DecodeWorkerId(uid: int): int {
      UnsignedShiftRight(ShiftLeft(uid, timestampBits + SIGN_BITS), TOTAL_BITS - workerIdBits)
    }

    function DecodeDeltaSeconds(uid: int): int {
      UnsignedShiftRight(uid, workerIdBits + sequenceBits)
    }

    // The number of distinguishable deltas, the sign bit included: 2^(timestampBits + 1).
    function DeltaSpan(): int {
      2 * (maxDeltaSeconds + 1)
    }

    // The fields in positional notation: the number a UID is the 64-bit truncation of.
    function Positional(deltaSeconds: int, workerId: int, sequence: int): int {
      (deltaSeconds * (maxWorkerId + 1) + workerId) * (maxSequence + 1) + sequence
    }

    // The delta a UID really carries: wrapped to the delta field and the sign bit.
    function Wrapped(deltaSeconds: int): int
      requires DeltaSpan() != 0
    {
      (deltaSeconds + maxDeltaSeconds + 1) % DeltaSpan() - maxDeltaSeconds - 1
    }

    // A delta the field and the sign bit can hold without wrapping.
    predicate FitsDelta(deltaSeconds: int) {
      -maxDeltaSeconds - 1 <= deltaSeconds <= maxDeltaSeconds
    }

    predicate InRange(workerId: int, sequence: int) {
      0 <= workerId <= maxWorkerId && 0 <= sequence <= maxSequence
    }
  }

  // The constructor: None where it raises 'allocate not enough 64 bits'.
  function Create(timestampBits: int, workerIdBits: int, sequenceBits: int): (r: Option<BitsAllocator>)
    ensures r.Some? <==> timestampBits + workerIdBits + sequenceBits == 63
  {
    if SIGN_BITS + timestampBits + workerIdBits + sequenceBits != TOTAL_BITS then None
    else Some(BitsAllocator(
      timestampBits, workerIdBits, sequenceBits,
      Not(ShiftLeft(-1, timestampBits)), Not(ShiftLeft(-1, workerIdBits)), Not(ShiftLeft(-1, sequenceBits)),
      workerIdBits + sequenceBits, sequenceBits))
  }

  // Widths are masked to six bits by the shift.
  lemma MaxOfWidth(bits: int)
    ensures Not(ShiftLeft(-1, bits)) == Pow2(ShiftDistance(bits)) - 1
    ensures 0 <= bits < 64 ==> ShiftDistance(bits) == bits
  {
    hide Pow2, Not, ShiftLeft;
    Pow2Bound(ShiftDistance(bits));
    ShiftedOnes(bits, Pow2(ShiftDistance(bits)));
  }

  lemma ShiftedOnes(bits: int, p: int)
    requires p == Pow2(ShiftDistance(bits)) && 1 <= p <= TWO_63
    ensures Not(ShiftLeft(-1, bits)) == p - 1
  {
    assert -1 * Pow2(ShiftDistance(bits)) == -p;
    ToLongIdentity(-p);
    ToLongIdentity(p - 1);
  }

  /** The masks the constructor computes for all the widths it accepts, negative ones included. */
  lemma CreateMasks(t: int, w: int, s: int)
    ensures Create(t, w, s).Some? <==> t + w + s == 63
    ensures Create(t, w, s).Some? ==>
      var a := Create(t, w, s).value;
      && a.maxDeltaSeconds == Pow2(t % 64) - 1 && a.maxWorkerId == Pow2(w % 64) - 1 && a.maxSequence == Pow2(s % 64) - 1
  {
    MaxOfWidth(t);
    MaxOfWidth(w);
    MaxOfWidth(s);
  }

  // The masks and shifts the constructor computes are those of the field widths.
  lemma CreateLegal(t: int, w: int, s: int)
    requires t >= 0 && w >= 0 && s >= 0 && t + w + s == 63
    ensures Create(t, w, s).Some? && (Create(t, w, s).value.Legal() <==> w >= 1 && s >= 1)
    ensures forall a: BitsAllocator ::
      a.Legal() && a.timestampBits == t && a.workerIdBits == w && a.sequenceBits == s ==> Create(t, w, s) == Some(a)
  {
    MaxOfWidth(t);
    MaxOfWidth(w);
    MaxOfWidth(s);
  }

  // The field sizes as plain numbers: they multiply to the whole word.
  lemma WordSplit(a: BitsAllocator)
    requires a.Legal()
    ensures a.maxSequence >= 1 && a.maxWorkerId >= 1 && a.maxDeltaSeconds >= 0
    ensures Pow2(a.timestampShift) == (a.maxWorkerId + 1) * (a.maxSequence + 1)
    ensures (a.maxDeltaSeconds + 1) * Pow2(a.timestampShift) == TWO_63
    ensures Pow2(64 - a.timestampShift) == a.DeltaSpan()
  {
    assert Pow2(a.timestampShift) == (a.maxWorkerId + 1) * (a.maxSequence + 1) by {
      Pow2Add(a.workerIdBits, a.sequenceBits);
    }
    assert (a.maxDeltaSeconds + 1) * Pow2(a.timestampShift) == TWO_63 by {
      Pow2Add(a.timestampBits, a.timestampShift);
      Pow2Is63();
    }
    assert Pow2(64 - a.timestampShift) == a.DeltaSpan() by {
      assert 64 - a.timestampShift == a.timestampBits + 1;
    }
    AtLeastTwo(a.workerIdBits);
    AtLeastTwo(a.sequenceBits);
  }

  lemma AtLeastTwo(k: nat)
    requires k >= 1
    ensures Pow2(k) >= 2
  {
  }

  lemma Pow2Is63()
    ensures Pow2(63) == TWO_63
  {
    Pow2Values();
  }

  // y units and a remainder stay below TWO_63 as y units alone do.
  lemma NoCarry(y: int, unit: int, units: int, low: int)
    requires unit >= 1 && units * unit == TWO_63 && 0 <= low < unit
    requires IsLong(y * unit)
    ensures IsLong(y * unit + low)
    ensures -units <= y < units
  {
    if y >= units {
      MulMonotone(units, y, unit);
    }
    if y <= -units - 1 {
      MulMonotone(y, -units - 1, unit);
      Distribute(-units, -1, 1, unit);
    }
    MulMonotone(y, units - 1, unit);
    Distribute(units, -1, 1, unit);
  }

  // OR-ing in a lower field never carries out of the word.
  lemma FieldsAdd(y: int, k: nat, low: int)
    requires k <= 63 && IsLong(y * Pow2(k)) && 0 <= low < Pow2(k)
    ensures Or(y * Pow2(k), low) == y * Pow2(k) + low
    ensures IsLong(y * Pow2(k) + low)
  {
    OrDisjoint(y, low, k);
    Pow2Add(63 - k, k);
    Pow2Is63();
    NoCarry(y, Pow2(k), Pow2(63 - k), low);
    ToLongIdentity(y * Pow2(k) + low);
  }

  // The worker field sits between the sequence field and the delta field.
  lemma WorkerField(a: BitsAllocator, w: int)
    requires a.Legal() && 0 <= w <= a.maxWorkerId
    ensures ShiftLeft(w, a.workerIdShift) == w * Pow2(a.sequenceBits)
    ensures 0 <= w * Pow2(a.sequenceBits) < Pow2(a.timestampShift)
  {
    var p := Pow2(a.sequenceBits);
    assert 0 <= w * p < Pow2(a.timestampShift) by {
      WordSplit(a);
      MulMonotone(w, a.maxWorkerId, p);
      MulMonotone(0, w, p);
      Distribute(a.maxWorkerId, 1, 1, p);
    }
    assert IsLong(w * p) by { Pow2Bound(a.timestampShift); }
    ToLongIdentity(w * p);
    assert ShiftDistance(a.workerIdShift) == a.sequenceBits;
  }

  // The delta field: a multiple of 2^timestampShift whose factor is the delta wrapped to its bits and the sign.
  lemma DeltaField(a: BitsAllocator, d: int) returns (y: int, wraps: int)
    requires a.Legal()
    ensures y == d + wraps * a.DeltaSpan()
    ensures -a.maxDeltaSeconds - 1 <= y <= a.maxDeltaSeconds
    ensures ShiftLeft(d, a.timestampShift) == y * Pow2(a.timestampShift)
    ensures IsLong(y * Pow2(a.timestampShift))
  {
    y, wraps := ToLongScaled(d, a.timestampShift);
    assert ShiftDistance(a.timestampShift) == a.timestampShift;
    WordSplit(a);
    NoCarry(y, Pow2(a.timestampShift), a.maxDeltaSeconds + 1, 0);
  }

  // What allocate computes, with the wrapped delta made explicit.
  lemma AllocateFields(a: BitsAllocator, d: int, w: int, s: int) returns (y: int, wraps: int)
    requires a.Legal() && a.InRange(w, s)
    ensures y == d + wraps * a.DeltaSpan()
    ensures -a.maxDeltaSeconds - 1 <= y <= a.maxDeltaSeconds
    ensures a.Allocate(d, w, s) == a.Positional(y, w, s)
    ensures IsLong(a.Positional(y, w, s))
  {
    y, wraps := DeltaField(a, d);
    WorkerField(a, w);
    FieldsAdd(y, a.timestampShift, w * Pow2(a.sequenceBits));
    HighFields(a, y, w);
    FieldsAdd(y * (a.maxWorkerId + 1) + w, a.sequenceBits, s);
  }

  lemma HighFields(a: BitsAllocator, y: int, w: int)
    requires a.Legal()
    ensures y * Pow2(a.timestampShift) + w * Pow2(a.sequenceBits)
            == (y * (a.maxWorkerId + 1) + w) * Pow2(a.sequenceBits)
  {
    WordSplit(a);
    Distribute(w, y, a.maxWorkerId + 1, Pow2(a.sequenceBits));
  }

  // ----- main results -----

  /** The UID is the 64-bit truncation of the three fields in positional notation. */
  lemma AllocateIsPositional(a: BitsAllocator, d: int, w: int, s: int)
    requires a.Legal() && a.InRange(w, s)
    ensures a.Allocate(d, w, s) == ToLong(a.Positional(d, w, s))
  {
    var y, wraps := AllocateFields(a, d, w, s);
    PositionalShift(a, d, wraps, w, s);
    ToLongUnique(a.Positional(d, w, s), a.Positional(y, w, s), -wraps);
  }

  // Moving the delta by whole spans moves the number by whole words.
  lemma PositionalShift(a: BitsAllocator, d: int, wraps: int, w: int, s: int)
    requires a.Legal()
    ensures a.Positional(d + wraps * a.DeltaSpan(), w, s) == a.Positional(d, w, s) + wraps * TWO_64
  {
    hide Pow2;
    var y := d + wraps * a.DeltaSpan();
    var unit := Pow2(a.timestampShift);
    assert a.DeltaSpan() * unit == TWO_64 by {
      WordSplit(a);
      assert a.DeltaSpan() * unit == 2 * ((a.maxDeltaSeconds + 1) * unit);
    }
    Distribute(d, wraps, a.DeltaSpan(), unit);
    HighFields(a, y, w);
    HighFields(a, d, w);
  }

  /**
   Decoding what was encoded gives the worker and sequence back, and the delta modulo its
   field and the sign bit: exactly the delta itself when it fits them.
   */
  lemma DecodeAllocate(a: BitsAllocator, d: int, w: int, s: int)
    requires a.Legal() && a.InRange(w, s)
    ensures var uid := a.Allocate(d, w, s);
            && a.DecodeSequence(uid) == s
            && a.DecodeWorkerId(uid) == w
            && a.DecodeDeltaSeconds(uid) == d % a.DeltaSpan()
    ensures a.DecodeDeltaSeconds(a.Allocate(d, w, s)) == d <==> 0 <= d < a.DeltaSpan()
  {
    var y, wraps := AllocateFields(a, d, w, s);
    DecodePositional(a, y, w, s);
    SpanMod(a, d, wraps);
    if d % a.DeltaSpan() == d {
      assert 0 <= d < a.DeltaSpan();
    }
  }

  lemma SpanMod(a: BitsAllocator, d: int, wraps: int)
    requires a.Legal()
    ensures a.DeltaSpan() > 0
    ensures (d + wraps * a.DeltaSpan()) % a.DeltaSpan() == d % a.DeltaSpan()
    ensures 0 <= d % a.DeltaSpan() < a.DeltaSpan()
    ensures 0 <= d < a.DeltaSpan() ==> d % a.DeltaSpan() == d
  {
    assert a.DeltaSpan() > 0 by { WordSplit(a); }
    ModWraps(d, wraps, a.DeltaSpan());
  }

  // Reading the digits of a number in positional notation.
  lemma Digits(high: int, base: int, low: int)
    requires base > 0 && 0 <= low < base
    ensures (high * base + low) % base == low && (high * base + low) / base == high
  {
    DivModUnique(high * base + low, base, high, low);
  }

  // The three shift expressions read the digits.
  lemma DecodeShifts(a: BitsAllocator, uid: int)
    requires a.Legal()
    ensures a.DecodeSequence(uid) == uid % (a.maxSequence + 1)
    ensures a.DecodeWorkerId(uid) == (uid % Pow2(a.timestampShift)) / (a.maxSequence + 1)
    ensures a.DecodeDeltaSeconds(uid) == (uid % TWO_64) / Pow2(a.timestampShift)
    ensures 0 <= a.DecodeDeltaSeconds(uid) < a.DeltaSpan()
  {
    LowField(uid, a.sequenceBits);
    MiddleField(uid, a.workerIdBits, a.sequenceBits);
    DeltaShift(a, uid);
  }

  lemma DeltaShift(a: BitsAllocator, uid: int)
    requires a.Legal()
    ensures a.DecodeDeltaSeconds(uid) == (uid % TWO_64) / Pow2(a.timestampShift)
    ensures 0 <= a.DecodeDeltaSeconds(uid) < a.DeltaSpan()
  {
    hide Pow2;
    var unit: int := Pow2(a.timestampShift);
    assert ShiftDistance(a.timestampShift) == a.timestampShift;
    assert a.DeltaSpan() * unit == TWO_64 && a.DeltaSpan() >= 1 by { SpansInWord(a, 1); WordSplit(a); }
    QuotientBound(uid % TWO_64, a.DeltaSpan(), unit);
    assert a.DeltaSpan() <= TWO_63 by { WordSplit(a); Pow2Bound(64 - a.timestampShift); }
    ToLongIdentity((uid % TWO_64) / unit);
  }

  lemma DecodePositional(a: BitsAllocator, y: int, w: int, s: int)
    requires a.Legal() && a.InRange(w, s)
    requires -a.maxDeltaSeconds - 1 <= y <= a.maxDeltaSeconds
    requires IsLong(a.Positional(y, w, s))
    ensures var uid := a.Positional(y, w, s);
            && a.DecodeSequence(uid) == s
            && a.DecodeWorkerId(uid) == w
            && a.DecodeDeltaSeconds(uid) == y % a.DeltaSpan()
  {
    DecodeShifts(a, a.Positional(y, w, s));
    SequenceDigit(a, y, w, s);
    WorkerDigit(a, y, w, s);
    UnsignedDelta(a, y, w, s);
  }

  lemma SequenceDigit(a: BitsAllocator, y: int, w: int, s: int)
    requires a.Legal() && a.InRange(w, s)
    ensures a.Positional(y, w, s) % (a.maxSequence + 1) == s
  {
    Digits(y * (a.maxWorkerId + 1) + w, a.maxSequence + 1, s);
  }

  lemma WorkerDigit(a: BitsAllocator, y: int, w: int, s: int)
    requires a.Legal() && a.InRange(w, s)
    ensures (a.Positional(y, w, s) % Pow2(a.timestampShift)) / (a.maxSequence + 1) == w
  {
    LowPart(a, y, w, s);
    Digits(w, a.maxSequence + 1, s);
  }

  // The delta, read from the unsigned number.
  lemma UnsignedDelta(a: BitsAllocator, y: int, w: int, s: int)
    requires a.Legal() && a.InRange(w, s)
    requires -a.maxDeltaSeconds - 1 <= y <= a.maxDeltaSeconds
    requires IsLong(a.Positional(y, w, s))
    ensures (a.Positional(y, w, s) % TWO_64) / Pow2(a.timestampShift) == y % a.DeltaSpan()
  {
    var uid := a.Positional(y, w, s);
    var wraps := if y < 0 then 1 else 0;
    PositionalShift(a, y, wraps, w, s);
    PositionalSign(a, y, w, s);
    DivModUnique(uid, TWO_64, -wraps, uid + wraps * TWO_64);
    LowPart(a, y + wraps * a.DeltaSpan(), w, s);
    SpanMod(a, y, wraps);
    SpanMod(a, y + wraps * a.DeltaSpan(), 0);
  }

  // The part below the delta field.
  lemma LowPart(a: BitsAllocator, y: int, w: int, s: int)
    requires a.Legal() && a.InRange(w, s)
    ensures var low := w * (a.maxSequence + 1) + s;
            && 0 <= low < Pow2(a.timestampShift)
            && a.Positional(y, w, s) == y * Pow2(a.timestampShift) + low
            && a.Positional(y, w, s) % Pow2(a.timestampShift) == low
            && a.Positional(y, w, s) / Pow2(a.timestampShift) == y
  {
    var low := w * (a.maxSequence + 1) + s;
    assert 0 <= low < Pow2(a.timestampShift) by {
      WordSplit(a);
      MulMonotone(w, a.maxWorkerId, a.maxSequence + 1);
      MulMonotone(0, w, a.maxSequence + 1);
      Distribute(a.maxWorkerId, 1, 1, a.maxSequence + 1);
    }
    HighFields(a, y, w);
    Digits(y, Pow2(a.timestampShift), low);
  }

  // Negative UIDs are those with a negative wrapped delta.
  lemma PositionalSign(a: BitsAllocator, y: int, w: int, s: int)
    requires a.Legal() && a.InRange(w, s)
    ensures a.Positional(y, w, s) < 0 <==> y < 0
  {
    LowPart(a, y, w, s);
    var unit := Pow2(a.timestampShift);
    if y < 0 {
      MulMonotone(y, -1, unit);
    } else {
      MulMonotone(0, y, unit);
    }
  }

  /** The highest bit is 0 exactly while the delta, modulo its span, fits the delta field. */
  lemma AllocateSign(a: BitsAllocator, d: int, w: int, s: int)
    requires a.Legal() && a.InRange(w, s)
    ensures a.Allocate(d, w, s) >= 0 <==> d % a.DeltaSpan() <= a.maxDeltaSeconds
  {
    var y, wraps := AllocateFields(a, d, w, s);
    PositionalSign(a, y, w, s);
    SpanMod(a, d, wraps);
    SpanMod(a, y, if y < 0 then 1 else 0);
    SpanMod(a, y + (if y < 0 then a.DeltaSpan() else 0), 0);
  }

  // The first delta beyond its field reaches the sign bit, in every layout and for every worker and sequence.
  lemma SignBitReached(a: BitsAllocator, w: int, s: int)
    requires a.Legal() && a.InRange(w, s)
    ensures a.Allocate(a.maxDeltaSeconds + 1, w, s) < 0
  {
    AllocateSign(a, a.maxDeltaSeconds + 1, w, s);
    WordSplit(a);
    SpanMod(a, a.maxDeltaSeconds + 1, 0);
  }

  /** Re-encoding the decoded fields of any number gives its low 64 bits back. */
  lemma AllocateDecode(a: BitsAllocator, uid: int)
    requires a.Legal()
    ensures a.InRange(a.DecodeWorkerId(uid), a.DecodeSequence(uid))
    ensures a.Allocate(a.DecodeDeltaSeconds(uid), a.DecodeWorkerId(uid), a.DecodeSequence(uid)) == ToLong(uid)
  {
    DecodeShifts(a, uid);
    Reassemble(a, uid, a.DecodeDeltaSeconds(uid), a.DecodeWorkerId(uid), a.DecodeSequence(uid));
  }

  lemma Reassemble(a: BitsAllocator, uid: int, d: int, w: int, s: int)
    requires a.Legal()
    requires d == (uid % TWO_64) / Pow2(a.timestampShift)
    requires w == (uid % Pow2(a.timestampShift)) / (a.maxSequence + 1)
    requires s == uid % (a.maxSequence + 1)
    ensures a.InRange(w, s) && a.Allocate(d, w, s) == ToLong(uid)
  {
    hide BitsAllocator.Allocate, ToLong, Pow2;
    var unit: int, base := Pow2(a.timestampShift), a.maxSequence + 1;
    assert base > 0 && unit == (a.maxWorkerId + 1) * base && a.maxWorkerId >= 1 by { WordSplit(a); }
    assert (uid % TWO_64) % unit == uid % unit by { ReducedWord(a, uid); }
    ReducedLow(uid, a.maxWorkerId + 1, base);
    QuotientBound(uid % unit, a.maxWorkerId + 1, base);
    HighFields(a, d, w);
    assert a.Positional(d, w, s) == uid % TWO_64 by {
      Quotients(uid % TWO_64, unit);
      Quotients(uid % unit, base);
    }
    AllocateIsPositional(a, d, w, s);
    LongOfUnsigned(uid);
  }

  lemma Quotients(x: int, m: int)
    requires m > 0
    ensures x == (x / m) * m + x % m
  {
  }

  lemma LongOfUnsigned(uid: int)
    ensures ToLong(uid % TWO_64) == ToLong(uid)
  {
  }

  lemma ReducedWord(a: BitsAllocator, uid: int)
    requires a.Legal()
    ensures (uid % TWO_64) % Pow2(a.timestampShift) == uid % Pow2(a.timestampShift)
  {
    Pow2Split(a.timestampShift);
    ModOfSum(uid % TWO_64, uid / TWO_64, Pow2(a.timestampShift), Pow2(64 - a.timestampShift));
  }

  lemma ReducedLow(u: int, n: int, base: int)
    requires n > 0 && base > 0
    ensures n * base > 0 && u % base == (u % (n * base)) % base
  {
    MulMonotone(1, n, base);
    var unit := n * base;
    assert unit == base * n;
    ModOfSum(u % unit, u / unit, base, n);
    assert u == u % unit + (u / unit) * unit;
  }

  // Lexicographic order on (delta, sequence).
  predicate Before(d: int, s: int, d': int, s': int) {
    d < d' || (d == d' && s < s')
  }

  /**
   UIDs of one worker are ordered as their wrapped deltas and sequences are, for all deltas; deltas that fit the delta
   field and sign, also before the epoch, are not wrapped.
   */
  lemma AllocateOrder(a: BitsAllocator, w: int, d: int, s: int, d': int, s': int)
    requires a.Legal() && a.InRange(w, s) && a.InRange(w, s')
    ensures a.DeltaSpan() > 0
    ensures a.Allocate(d, w, s) < a.Allocate(d', w, s') <==> Before(a.Wrapped(d), s, a.Wrapped(d'), s')
    ensures (a.FitsDelta(d) <==> a.Wrapped(d) == d) && (a.FitsDelta(d') <==> a.Wrapped(d') == d')
  {
    AllocateIsWrapped(a, d, w, s);
    AllocateIsWrapped(a, d', w, s');
    if Before(a.Wrapped(d), s, a.Wrapped(d'), s') {
      PositionalOrder(a, w, a.Wrapped(d), s, a.Wrapped(d'), s');
    } else if Before(a.Wrapped(d'), s', a.Wrapped(d), s) {
      PositionalOrder(a, w, a.Wrapped(d'), s', a.Wrapped(d), s);
    }
  }

  lemma AllocateIsWrapped(a: BitsAllocator, d: int, w: int, s: int)
    requires a.Legal() && a.InRange(w, s)
    ensures a.DeltaSpan() > 0
    ensures a.Allocate(d, w, s) == a.Positional(a.Wrapped(d), w, s)
    ensures a.FitsDelta(d) <==> a.Wrapped(d) == d
  {
    hide Pow2;
    var y, wraps := AllocateFields(a, d, w, s);
    SpanMod(a, d, wraps);
    WrapUnique(d, y, wraps, a.maxDeltaSeconds + 1);
    WrapIdentity(d, a.maxDeltaSeconds + 1);
  }

  lemma WrapUnique(d: int, y: int, wraps: int, half: int)
    requires half > 0 && y == d + wraps * (2 * half) && -half <= y < half
    ensures (d + half) % (2 * half) - half == y
  {
    DivModUnique(d + half, 2 * half, -wraps, y + half);
  }

  lemma WrapIdentity(d: int, half: int)
    requires half > 0
    ensures (d + half) % (2 * half) - half == d <==> -half <= d < half
  {
    if -half <= d < half {
      DivModUnique(d + half, 2 * half, 0, d + half);
    }
  }

  lemma PositionalOrder(a: BitsAllocator, w: int, d: int, s: int, d': int, s': int)
    requires a.Legal() && a.InRange(w, s) && a.InRange(w, s')
    requires Before(d, s, d', s')
    ensures a.Positional(d, w, s) < a.Positional(d', w, s')
  {
    LowPart(a, d, w, s);
    LowPart(a, d', w, s');
    var unit := Pow2(a.timestampShift);
    if d < d' {
      MulMonotone(d + 1, d', unit);
      Distribute(d, 1, 1, unit);
    }
  }

  /** Different fields give different UIDs, for any deltas less than a whole span apart. */
  lemma AllocateInjective(a: BitsAllocator, d: int, w: int, s: int, d': int, w': int, s': int)
    requires a.Legal() && a.InRange(w, s) && a.InRange(w', s')
    requires a.Allocate(d, w, s) == a.Allocate(d', w', s')
    ensures w == w' && s == s' && d % a.DeltaSpan() == d' % a.DeltaSpan()
    ensures -a.DeltaSpan() < d - d' < a.DeltaSpan() ==> d == d'
  {
    DecodeAllocate(a, d, w, s);
    DecodeAllocate(a, d', w', s');
    assert a.DeltaSpan() > 0 by { WordSplit(a); }
    if -a.DeltaSpan() < d - d' < a.DeltaSpan() {
      CongruentClose(d, d', a.DeltaSpan());
    }
  }

  /** Wrapping the delta to 64 bits first, as `subtract` does, changes nothing. */
  lemma AllocateWrappedDelta(a: BitsAllocator, d: int, w: int, s: int)
    requires a.Legal() && a.InRange(w, s)
    ensures a.Allocate(ToLong(d), w, s) == a.Allocate(d, w, s)
  {
    hide ToLong, BitsAllocator.Allocate, BitsAllocator.Positional, Pow2;
    var wraps := ToLongWraps(d);
    PositionalWords(a, d, wraps, w, s);
    AllocateIsPositional(a, ToLong(d), w, s);
    AllocateIsPositional(a, d, w, s);
    SameLong(a.Positional(d, w, s), wraps * Pow2(a.timestampShift));
  }

  lemma PositionalWords(a: BitsAllocator, d: int, wraps: int, w: int, s: int)
    requires a.Legal()
    ensures a.Positional(d + wraps * TWO_64, w, s)
            == a.Positional(d, w, s) + (wraps * Pow2(a.timestampShift)) * TWO_64
  {
    hide Pow2;
    var unit: int := Pow2(a.timestampShift);
    SpansInWord(a, wraps);
    PositionalShift(a, d, wraps * unit, w, s);
  }

  lemma SpansInWord(a: BitsAllocator, wraps: int)
    requires a.Legal()
    ensures (wraps * Pow2(a.timestampShift)) * a.DeltaSpan() == wraps * TWO_64
  {
    hide Pow2;
    var unit: int := Pow2(a.timestampShift);
    assert TWO_64 == unit * a.DeltaSpan() by { WordSplit(a); }
    Distribute(0, wraps, unit, a.DeltaSpan());
  }

  lemma SameLong(v: int, wraps: int)
    ensures ToLong(v + wraps * TWO_64) == ToLong(v)
  {
    var k := ToLongWraps(v);
    ToLongUnique(v + wraps * TWO_64, ToLong(v), wraps - k);
  }

  /** Within a second the UIDs are consecutive: adding the offset never carries into another field nor wraps. */
  lemma AllocateOffset(a: BitsAllocator, d: int, w: int, s: int)
    requires a.Legal() && a.InRange(w, s)
    ensures Add(a.Allocate(d, w, 0), s) == a.Allocate(d, w, s)
    ensures a.Allocate(d, w, s) == a.Allocate(d, w, 0) + s
  {
    hide Pow2, BitOr, ShiftLeft, Or;
    var y, wraps := AllocateFields(a, d, w, s);
    var y0, wraps0 := AllocateFields(a, d, w, 0);
    SpanMod(a, d, wraps);
    SpanMod(a, d, wraps0);
    CongruentClose(y, y0, a.DeltaSpan());
    ToLongIdentity(a.Positional(y, w, s));
  }

  // ----- which widths the decoding shifts work for -----

  // Decoding gives all three fields back.
  ghost predicate Recovers(a: BitsAllocator, d: int, w: int, s: int) {
    var uid := a.Allocate(d, w, s);
    a.DecodeDeltaSeconds(uid) == d && a.DecodeWorkerId(uid) == w && a.DecodeSequence(uid) == s
  }

  ghost predicate RecoversAll(a: BitsAllocator) {
    forall d, worker, sequence :: 0 <= d <= a.maxDeltaSeconds && a.InRange(worker, sequence) ==>
      Recovers(a, d, worker, sequence)
  }

  /**
   Over all widths that are not negative: decoding gives every triple of fields back if and only if neither the worker
   field nor the sequence field is empty. Their shift distance would be 64, which is masked to 0; an empty time field
   is read with the distance 63 and does no harm.
   */
  lemma RecoversExactly(t: nat, w: nat, s: nat)
    requires t + w + s == 63
    ensures Create(t, w, s).Some? && (RecoversAll(Create(t, w, s).value) <==> w >= 1 && s >= 1)
  {
    CreateLegal(t, w, s);
    var a := Create(t, w, s).value;
    if w >= 1 && s >= 1 {
      forall d, worker, sequence | 0 <= d <= a.maxDeltaSeconds && a.InRange(worker, sequence)
        ensures Recovers(a, d, worker, sequence)
      {
        WordSplit(a);
        DecodeAllocate(a, d, worker, sequence);
      }
    } else {
      var d, worker, sequence := NotRecovered(a, t, w, s);
      assert !Recovers(a, d, worker, sequence);
    }
  }

  lemma NotRecovered(a: BitsAllocator, t: nat, w: nat, s: nat) returns (d: int, worker: int, sequence: int)
    requires t + w + s == 63 && (w == 0 || s == 0) && Create(t, w, s) == Some(a)
    ensures 0 <= d <= a.maxDeltaSeconds && a.InRange(worker, sequence) && !Recovers(a, d, worker, sequence)
  {
    hide Recovers;
    if s >= 1 {
      d, worker, sequence := 0, 0, 1;
      WorkerNotRecovered(a, t, s);
    } else {
      d, worker, sequence := if w >= 1 then 0 else 1, if w >= 1 then 1 else 0, 0;
      SequenceNotRecovered(a, t, w);
    }
  }

  lemma WorkerNotRecovered(a: BitsAllocator, t: nat, s: nat)
    requires t + s == 63 && s >= 1 && Create(t, 0, s) == Some(a)
    ensures a.maxDeltaSeconds >= 0 && a.InRange(0, 1) && !Recovers(a, 0, 0, 1)
  {
    hide Not, ShiftLeft, UnsignedShiftRight, Or;
    CreateMasks(t, 0, s);
    AtLeastTwo(s);
    LowOne(s, s);
    LostWorker(t);
  }

  lemma SequenceNotRecovered(a: BitsAllocator, t: nat, w: nat)
    requires t + w == 63 && Create(t, w, 0) == Some(a)
    ensures var d, worker := if w >= 1 then 0 else 1, if w >= 1 then 1 else 0;
            d <= a.maxDeltaSeconds && a.InRange(worker, 0) && !Recovers(a, d, worker, 0)
  {
    hide Not, ShiftLeft, UnsignedShiftRight, Or;
    CreateMasks(t, w, 0);
    AtLeastTwo(if w >= 1 then w else t);
    var d, worker := if w >= 1 then 0 else 1, if w >= 1 then 1 else 0;
    UnitField(w, d, worker);
    LostSequence(1);
  }

  lemma ShiftedZero(k: int)
    ensures ShiftLeft(0, k) == 0
  {
    ToLongIdentity(0);
  }

  lemma OrZero(v: int)
    requires IsLong(v)
    ensures Or(v, 0) == v
  {
    assert Pow2(0) == 1;
    OrDisjoint(v, 0, 0);
    ToLongIdentity(v);
  }

  // The fields (0, 0, 1).
  lemma LowOne(timestampShift: int, workerIdShift: int)
    ensures Or(Or(ShiftLeft(0, timestampShift), ShiftLeft(0, workerIdShift)), 1) == 1
  {
    hide ShiftLeft, Or;
    ShiftedZero(timestampShift);
    ShiftedZero(workerIdShift);
    OrZero(0);
    ZeroOrOne();
  }

  lemma ZeroOrOne()
    ensures Or(0, 1) == 1
  {
    assert Pow2(1) == 2;
    OrDisjoint(0, 1, 1);
    ToLongIdentity(1);
  }

  // A one in the worker field of width w, or in the delta field where that is empty; the sequence field is empty.
  lemma UnitField(w: nat, d: int, worker: int)
    requires (d, worker) == if w >= 1 then (0, 1) else (1, 0)
    ensures Or(Or(ShiftLeft(d, w), ShiftLeft(worker, 0)), 0) == 1
  {
    hide Or;
    ToLongIdentity(1);
    ShiftedZero(w);
    ShiftedZero(0);
    assert Pow2(0) == 1 && ShiftLeft(1, 0) == 1;
    OrZero(1);
    ZeroOrOne();
  }

  // With an empty worker field the worker id of the UID 1 decodes to a number that is not 0.
  lemma LostWorker(t: nat)
    requires t <= 62
    ensures UnsignedShiftRight(ShiftLeft(1, t + 1), 64) != 0
  {
    var p: int := Pow2(t + 1);
    Pow2Bound(t + 1);
    assert ShiftDistance(t + 1) == t + 1 && 1 * p == p;
    NoShift(ToLong(p));
    LongOfSmall(p);
  }

  lemma LongOfSmall(p: int)
    requires 1 <= p <= TWO_63
    ensures ToLong(p) != 0
  {
  }

  // A distance of 64 does not shift.
  lemma NoShift(uid: int)
    requires IsLong(uid)
    ensures UnsignedShiftRight(uid, 64) == uid && ShiftLeft(uid, 64) == uid
  {
    assert ShiftDistance(64) == 0 && Pow2(0) == 1;
    ToLongIdentity(uid);
    LongOfUnsigned(uid);
  }

  // With an empty sequence field the whole UID is decoded as the sequence.
  lemma LostSequence(uid: int)
    requires IsLong(uid)
    ensures UnsignedShiftRight(ShiftLeft(uid, TOTAL_BITS), TOTAL_BITS) == uid
  {
    NoShift(uid);
  }
}
