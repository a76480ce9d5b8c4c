/**
 * Keys of the red-black tree and the two comparisons the placement
 * policies use.
 *
 * `ngx_rbtree_key_t` is the platform's unsigned word (`ngx_uint_t`) and
 * `ngx_rbtree_key_int_t` the signed word of the same width (`ngx_int_t`).
 * This model fixes the width at 64 bits.
 */
module Keys {

  /** 2^64: the number of distinct key values. */
  const Modulus: int := 0x1_0000_0000_0000_0000
  /** 2^63: half the key range, the first value whose signed reading is negative. */
  const Half: int := 0x8000_0000_0000_0000

  /** An unsigned 64-bit word (`ngx_rbtree_key_t`). */
  newtype Key = k: int | 0 <= k < 0x1_0000_0000_0000_0000

  /** An unsigned byte (`u_char`). */
  newtype Byte = b: int | 0 <= b < 256

  /** Unsigned subtraction of C: the difference wraps around modulo 2^64. */
  function Sub(a: Key, b: Key): (r: Key)
    ensures (r as int - (a as int - b as int)) % Modulus == 0
    ensures a >= b ==> r as int == a as int - b as int
    ensures a < b ==> r as int == a as int - b as int + Modulus
  {
    ((a as int - b as int) % Modulus) as Key
  }

  /** The cast `(ngx_rbtree_key_int_t) w`: the same bits read as two's complement. */
  function Signed(w: Key): (r: int)
    ensures -Half <= r < Half
    ensures (r - w as int) % Modulus == 0
    ensures r < 0 <==> w as int >= Half
  {
    if w as int < Half then w as int else w as int - Modulus
  }

  /**
   * The timer comparison "a comes before b": the wrapped difference
   * `a - b`, read as signed, is negative.
   */
  predicate TimerLess(a: Key, b: Key)
  {
    Signed(Sub(a, b)) < 0
  }

  /**
   * The placement policy of a tree: the C tree stores a function pointer
   * (`ngx_rbtree_insert_pt`); the two routines the header declares are the
   * two variants.
   */
  datatype Policy = InsertValue | InsertTimerValue

  /**
   * The comparison a policy uses while descending: a new node goes to the
   * left of `temp` exactly when its key precedes `temp`'s key.
   */
  predicate Precedes(p: Policy, a: Key, b: Key)
  {
    match p
    case InsertValue => a < b
    case InsertTimerValue => TimerLess(a, b)
  }

  /**
   * Timer keys are "spread in a small range": all of them lie less than
   * half the key range above some base time. Plain keys need no window.
   */
  predicate InWindow(p: Policy, base: Key, k: Key)
  {
    p == InsertTimerValue ==> (Sub(k, base) as int) < Half
  }

  /** Where a key sits on the number line the policy orders by. */
  function Rank(p: Policy, base: Key, k: Key): (r: int)
    ensures InWindow(p, base, k) ==> 0 <= r < Modulus
    ensures p == InsertValue ==> r == k as int
    ensures p == InsertTimerValue ==> (r - (k as int - base as int)) % Modulus == 0
  {
    if p == InsertValue then k as int else Sub(k, base) as int
  }

  /**
   * Inside a window the policy's comparison is the order of ranks: so the
   * wrapped signed comparison is a strict total order on the keys of the
   * window, even across the point where the unsigned value wraps to zero.
   */
  lemma PrecedesIsRankOrder(p: Policy, base: Key, a: Key, b: Key)
    requires InWindow(p, base, a) && InWindow(p, base, b)
    ensures Precedes(p, a, b) <==> Rank(p, base, a) < Rank(p, base, b)
  {
    if p == InsertTimerValue {
      var oa, ob := Sub(a, base) as int, Sub(b, base) as int;
      // the offsets from base differ by exactly a - b, modulo 2^64
      assert oa - ob == a as int - b as int || oa - ob == a as int - b as int + Modulus
          || oa - ob == a as int - b as int - Modulus;
      var d := Sub(a, b) as int;
      if oa < ob {
        assert d == oa - ob + Modulus;
      } else {
        assert d == oa - ob;
      }
    }
  }

  /**
   * Without the window the timer comparison is not an order: two keys
   * exactly half the range apart each precede the other.
   */
  lemma TimerLessNeedsWindow()
    ensures TimerLess(0, Half as Key) && TimerLess(Half as Key, 0)
  {
  }

  /**
   * Keys just below the unsigned wrap point come before small keys under
   * the timer comparison and after them under the plain one.
   */
  lemma TimerOrderAcrossWrap()
    ensures TimerLess(0xFFFF_FFFF_FFFF_FFF0, 0xFFFF_FFFF_FFFF_FFF5)
    ensures TimerLess(0xFFFF_FFFF_FFFF_FFF5, 0x3)
    ensures TimerLess(0x3, 0x8)
    ensures !TimerLess(0x3, 0xFFFF_FFFF_FFFF_FFF5)
    ensures Precedes(InsertValue, 0x3, 0xFFFF_FFFF_FFFF_FFF5)
  {
  }
}
