/**
 * The frame cursor that each item's repeating timer advances:
 * `currentFrames[id] = ((currentFrames[id] ?? 0) + 1) % frames.count`.
 */
module Animation {
  import opened Wrappers

  /**
   * Swift's `%` on `Int` for a positive divisor. It truncates, so the
   * remainder takes the sign of the dividend (Dafny's `%` never is negative).
   */
  function SwiftRemainder(a: int, n: int): (r: int)
    requires n > 0
    ensures a >= 0 ==> 0 <= r < n && r == a % n
    ensures a < 0 ==> -n < r <= 0 && -r == (-a) % n
  {
    if a >= 0 then a % n else -((-a) % n)
  }

  /** The cursor after one tick over `count` frames, an absent cursor read as 0. */
  function NextCursor(cursor: Option<int>, count: nat): (r: int)
    requires count > 0
    ensures cursor.GetOr(0) >= -1 ==> 0 <= r < count
    ensures cursor.None? ==> r == 1 % count
    ensures cursor.Some? && 0 <= cursor.value < count ==>
      r == if cursor.value == count - 1 then 0 else cursor.value + 1
  {
    SwiftRemainder(cursor.GetOr(0) + 1, count)
  }

  /** The cursor after `k` ticks from `cursor`. */
  function CursorAfterTicks(cursor: int, count: nat, k: nat): int
    requires count > 0
    decreases k
  {
    if k == 0 then cursor else CursorAfterTicks(NextCursor(Some(cursor), count), count, k - 1)
  }

  /** From a cursor inside the frames, `k` ticks move it `k` places around the cycle. */
  lemma {:induction false} TicksAdvance(cursor: int, count: nat, k: nat)
    requires 0 <= cursor < count
    decreases k
    ensures CursorAfterTicks(cursor, count, k) == (cursor + k) % count
  {
    if k > 0 {
      var next := NextCursor(Some(cursor), count);
      TicksAdvance(next, count, k - 1);
      if cursor == count - 1 {
        assert next == 0;
        AddModulus(k - 1, count);
      } else {
        assert next == cursor + 1;
      }
    }
  }

  /** Adding the modulus does not change a remainder. */
  lemma AddModulus(x: nat, n: nat)
    requires n > 0
    ensures (x + n) % n == x % n
  {
    var q, r := x / n, x % n;
    assert x + n == (q + 1) * n + r;
    RemainderUnique(x + n, n, q + 1, r);
  }

  /** A quotient and remainder in range determine `%`. */
  lemma RemainderUnique(x: int, n: int, q: int, r: int)
    requires n > 0 && 0 <= r < n && x == q * n + r
    ensures x % n == r
  {
    var q', r' := x / n, x % n;
    assert (q - q') * n == r' - r;
    if q - q' >= 1 {
      MultipleAtLeast(q - q', n);
      assert false;
    } else if q' - q >= 1 {
      MultipleAtLeast(q' - q, n);
      assert false;
    }
  }

  lemma MultipleAtLeast(a: int, n: int)
    requires a >= 1 && n > 0
    ensures a * n >= n
  {
  }

  /** From the first frame, `count` ticks bring the cursor back to the first frame. */
  lemma CycleReturnsToFirstFrame(count: nat)
    requires count > 0
    ensures CursorAfterTicks(0, count, count) == 0
  {
    TicksAdvance(0, count, count);
  }

  /** Before `count` ticks the cursor has not yet come back: after `k < count` ticks it is `k`. */
  lemma CursorCountsTicks(count: nat, k: nat)
    requires k < count
    ensures CursorAfterTicks(0, count, k) == k
  {
    TicksAdvance(0, count, k);
  }
}
