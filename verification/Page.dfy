/** Page arithmetic and machine words shared by every component
    (kernel/include/kernel/page.h). */
module Page {

  const PAGE_SIZE: nat := 4096
  const ENTRIES: nat := 1024
  const LAST: nat := 1023
  const FRAMES: nat := 0x10_0000
  const LIMIT: nat := 0x1_0000_0000

  type byte = b: int | 0 <= b < 256
  type uint32 = x: int | 0 <= x < 0x1_0000_0000

  datatype Option<+T> = None | Some(value: T)

  /** NUM_PAGES(start, end) */
  function NumPages(start: nat, end: nat): nat
    requires start <= end
  {
    end / PAGE_SIZE - start / PAGE_SIZE + if end % PAGE_SIZE != 0 then 1 else 0
  }

  /** The interval [start, end) has a byte in the page numbered p. */
  ghost predicate Touches(start: nat, end: nat, p: nat) {
    start < end && start < (p + 1) * PAGE_SIZE && p * PAGE_SIZE < end
  }

  /** Page p is one of the n pages counted from the page of address start. */
  predicate InSpan(start: nat, n: nat, p: nat) {
    start / PAGE_SIZE <= p < start / PAGE_SIZE + n
  }

  /** NUM_PAGES counts exactly the pages an interval touches, unless the interval is empty
      and starts inside a page: then it counts that page although nothing is touched. */
  lemma NumPagesCountsTouchedPages(start: nat, end: nat)
    requires start <= end
    ensures (forall p: nat :: InSpan(start, NumPages(start, end), p) <==> Touches(start, end, p))
       <==> (start < end || start % PAGE_SIZE == 0)
  {
    if start == end && start % PAGE_SIZE != 0 {
      assert InSpan(start, NumPages(start, end), start / PAGE_SIZE);
      assert !Touches(start, end, start / PAGE_SIZE);
    }
  }

  /** Moving an interval by whole pages does not change its page count. */
  lemma NumPagesShift(start: nat, n: nat)
    requires start % PAGE_SIZE == 0
    ensures NumPages(start, start + n) == NumPages(0, n)
  {
  }

  /** The quotient and remainder of a division are determined by what they add up to. */
  lemma Quotient(v: nat, d: nat, q: nat, r: nat)
    requires v == d * q + r && r < d
    ensures v / d == q && v % d == r
  {
    var k := v / d;
    assert k < q ==> d * (k + 1) <= d * q;
    assert k > q ==> d * (q + 1) <= d * k;
  }
}
