/**
 * The W5500 socket buffers as the driver addresses them: a 16-bit offset
 * that every pointer update advances with uint16_t arithmetic, so reads
 * and writes wrap around at 2^16 (user/w5500/w5500.c).
 */
module Ring {
  import opened BitOps

  /** Size of the 16-bit offset space a socket buffer is addressed through. */
  const RING: nat := 0x1_0000

  /** `ptr += n` on a uint16_t pointer. */
  function AddPtr(p: u16, n: nat): (r: u16)
    ensures n < RING ==> Offset(p, r) == n
  {
    OffsetOfAdd(p, n);
    (p + n) % RING
  }

  /** How far `k` lies past `p`, going forward around the ring. */
  function Offset(p: u16, k: u16): nat
  {
    (k - p) % RING
  }

  lemma OffsetOfAdd(p: u16, n: nat)
    ensures n < RING ==> Offset(p, (p + n) % RING) == n
  {
    if n < RING {
      var k := (p + n) % RING;
      var q := (p + n) / RING;
      DivModUnique(p + n, RING, q, k);
      DivModUnique(k - p, RING, -q, n);
    }
  }

  /** Moving the start forward by n moves every offset back by n, modulo 2^16. */
  lemma OffsetShift(p: u16, n: nat, k: u16)
    requires n <= RING
    ensures Offset(p, k) >= n ==> Offset(AddPtr(p, n), k) == Offset(p, k) - n
    ensures Offset(p, k) < n ==> Offset(AddPtr(p, n), k) == Offset(p, k) - n + RING
  {
    var o := Offset(p, k);
    var q := (p + n) / RING;
    DivModUnique(p + n, RING, q, (p + n) % RING);
    var q' := (k - p) / RING;
    DivModUnique(k - p, RING, q', o);
    var x := k - AddPtr(p, n);
    assert x == o - n + (q + q') * RING;
    if o >= n {
      DivModUnique(x, RING, q + q', o - n);
    } else {
      DivModUnique(x, RING, q + q' - 1, o - n + RING);
    }
  }

  /** A buffer write of `data` starting at offset `at`, wrapping at 2^16. */
  function RingWrite(buf: seq<u8>, at: u16, data: seq<u8>): (r: seq<u8>)
    requires |buf| == RING && |data| <= RING
    ensures |r| == RING
    ensures forall i | 0 <= i < |data| :: r[AddPtr(at, i)] == data[i]
    ensures forall k | 0 <= k < RING && Offset(at, k) >= |data| :: r[k] == buf[k]
  {
    var r := seq(RING, (k: int) requires 0 <= k < RING =>
                 if Offset(at, k) < |data| then data[Offset(at, k)] else buf[k]);
    assert forall i | 0 <= i < |data| :: Offset(at, AddPtr(at, i)) == i;
    r
  }

  /** A buffer read of n bytes starting at offset `at`, wrapping at 2^16. */
  function RingRead(buf: seq<u8>, at: u16, n: nat): (r: seq<u8>)
    requires |buf| == RING
    ensures |r| == n
    ensures forall i | 0 <= i < n :: r[i] == buf[AddPtr(at, i)]
  {
    seq(n, (i: int) requires 0 <= i < n => buf[AddPtr(at, i)])
  }

  /** What was written is read back from the same place. */
  lemma ReadAfterWrite(buf: seq<u8>, at: u16, data: seq<u8>)
    requires |buf| == RING && |data| <= RING
    ensures RingRead(RingWrite(buf, at, data), at, |data|) == data
  {
  }

  /**
   * Two writes, the second starting where the first ended, are one write
   * of the concatenation: parts written one after the other sit
   * contiguously in the ring.
   */
  lemma {:induction false} WriteContiguous(buf: seq<u8>, p: u16, a: seq<u8>, b: seq<u8>)
    requires |buf| == RING && |a| + |b| <= RING
    ensures RingWrite(RingWrite(buf, p, a), AddPtr(p, |a|), b) == RingWrite(buf, p, a + b)
  {
    var lhs := RingWrite(RingWrite(buf, p, a), AddPtr(p, |a|), b);
    var rhs := RingWrite(buf, p, a + b);
    forall k | 0 <= k < RING
      ensures lhs[k] == rhs[k]
    {
      var o := Offset(p, k);
      OffsetShift(p, |a|, k);
      if o < |a| {
        assert (a + b)[o] == a[o];
      } else if o < |a| + |b| {
        assert (a + b)[o] == b[o - |a|];
      }
    }
  }

  /** Advancing by a then by b is advancing by a + b. */
  lemma AddPtrAdd(p: u16, a: nat, b: nat)
    ensures AddPtr(AddPtr(p, a), b) == AddPtr(p, a + b)
  {
    var q := (p + a) / RING;
    DivModUnique(p + a, RING, q, AddPtr(p, a));
    var q' := (AddPtr(p, a) + b) / RING;
    DivModUnique(AddPtr(p, a) + b, RING, q', AddPtr(AddPtr(p, a), b));
    DivModUnique(p + a + b, RING, q + q', AddPtr(AddPtr(p, a), b));
  }
}
