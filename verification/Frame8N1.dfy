/** The 8N1 wire format shared by rtl/txuartlite.v and rtl/rxuartlite.v:
    a start bit, eight data bits least significant first, and a stop bit, each
    `clocks` system clocks long.  Time is counted from the first clock on which
    the start bit is on the line. */
module Frame8N1 {

  /** A byte as its bits, least significant bit first. */
  type Byte = s: seq<bool> | |s| == 8 witness [false, false, false, false, false, false, false, false]

  const ONES: Byte := [true, true, true, true, true, true, true, true]

  /** Both 24-bit baud counters wrap at this value. */
  const COUNTER_SPAN: nat := 0x100_0000

  function Up(n: nat): nat { (n + 1) % 0x100_0000 }

  function Down(n: nat): nat { (n - 1) % 0x100_0000 }

  /** The parameter range in which a bit time can be counted: the counters are
      loaded with clocks - 1 and tested against one. */
  predicate ValidBaud(clocks: nat) {
    2 <= clocks < COUNTER_SPAN
  }

  /** Which bit time clock p of a frame falls in: 0 is the start bit, 1..8 the
      data bits, 9 the stop bit. */
  function Slot(clocks: nat, p: nat): nat
    requires clocks > 0
    decreases p
  {
    if p < clocks then 0 else 1 + Slot(clocks, p - clocks)
  }

  /** Clocks left in the bit time that clock p falls in, not counting p. */
  function Left(clocks: nat, p: nat): (l: nat)
    requires clocks > 0
    ensures l < clocks
    decreases p
  {
    if p < clocks then clocks - 1 - p else Left(clocks, p - clocks)
  }

  /** One clock later: the same bit with one clock fewer left, or a fresh bit. */
  lemma {:induction false} SlotStep(clocks: nat, p: nat)
    requires clocks > 0
    ensures Left(clocks, p) > 0 ==> Slot(clocks, p + 1) == Slot(clocks, p) && Left(clocks, p + 1) == Left(clocks, p) - 1
    ensures Left(clocks, p) == 0 ==> Slot(clocks, p + 1) == Slot(clocks, p) + 1 && Left(clocks, p + 1) == clocks - 1
    decreases p
  {
    if p >= clocks {
      SlotStep(clocks, p - clocks);
    }
  }

  /** The first n bit times are the first n * clocks clocks. */
  lemma {:induction false} SlotBelow(clocks: nat, p: nat, n: nat)
    requires clocks > 0
    ensures Slot(clocks, p) < n <==> p < n * clocks
    decreases p
  {
    if p >= clocks && n > 0 {
      SlotBelow(clocks, p - clocks, n - 1);
      assert n * clocks == (n - 1) * clocks + clocks;
    }
  }

  /** The level a frame carrying b puts on the line at clock p; high before it and after it. */
  function Line(clocks: nat, b: Byte, p: int): bool
    requires clocks > 0
  {
    if p < 0 then true else Level(b, Slot(clocks, p))
  }

  /** The level of bit time k. */
  function Level(b: Byte, k: nat): bool {
    if k == 0 then false else if k <= 8 then b[k - 1] else true
  }
}
