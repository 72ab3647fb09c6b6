/** sw/host/flashdrvr.cpp: bringing a stretch of NOR flash to given contents.
    Programming can only clear bits; setting one means erasing its whole sector. */
module FlashDriver {

  type Byte = bv8

  /** Where the flash lies on the bus: SPIFLASH up to SPIFLASH + FLASHLEN. */
  const FLASH: nat := 0x100_0000
  const FLASH_END: nat := 0x200_0000

  /** SECTOROF and PAGEOF: masks clearing the low 16 and 8 bits. */
  function SectorOf(a: nat): (s: nat)
    ensures s <= a < s + 0x1_0000 && s % 0x1_0000 == 0
  {
    a - a % 0x1_0000
  }

  function PageOf(a: nat): (p: nat)
    ensures p <= a < p + 0x100 && p % 0x100 == 0
  {
    a - a % 0x100
  }

  /** Programming d over a cell holding c: bits can only be cleared. */
  function Program(c: Byte, d: Byte): Byte { c & d }

  /** Every bit that must be set already is, so programming d over c gives d. */
  predicate Covers(c: Byte, d: Byte) {
    Program(c, d) == d
  }

  /** The masks of a single bit. */
  predicate OneBit(m: Byte) {
    m in {0x01, 0x02, 0x04, 0x08, 0x10, 0x20, 0x40, 0x80}
  }

  predicate IsSet(c: Byte, m: Byte) {
    c & m != 0
  }

  /** A bit is set afterwards exactly when it was and is to be. */
  lemma ProgramBits(c: Byte, d: Byte, m: Byte)
    requires OneBit(m)
    ensures IsSet(Program(c, d), m) <==> IsSet(c, m) && IsSet(d, m)
  {
  }

  /** Programming alone will do exactly when no bit has to rise. */
  lemma CoversBits(c: Byte, d: Byte)
    ensures Covers(c, d) <==> forall m | OneBit(m) :: IsSet(d, m) ==> IsSet(c, m)
  {
    if forall m | OneBit(m) :: IsSet(d, m) ==> IsSet(c, m) {
      assert OneBit(0x01) && OneBit(0x02) && OneBit(0x04) && OneBit(0x08);
      assert OneBit(0x10) && OneBit(0x20) && OneBit(0x40) && OneBit(0x80);
    }
  }

  lemma BlankChangesNothing(c: Byte)
    ensures Program(c, 0xff) == c
  {
  }

  lemma ErasedCoversAll(d: Byte)
    ensures Covers(0xff, d)
  {
  }

  /** The request: data to go to addr, within the flash and in whole words. */
  predicate Valid(cells: seq<Byte>, addr: nat, data: seq<Byte>) {
    && |cells| == FLASH_END && FLASH <= addr && addr + |data| <= FLASH_END
    && addr % 4 == 0 && |data| % 4 == 0
  }

  predicate Wanted(addr: nat, data: seq<Byte>, a: int) {
    addr <= a < addr + |data|
  }

  predicate Holds(cells: seq<Byte>, addr: nat, data: seq<Byte>)
    requires addr + |data| <= |cells|
  {
    forall a | addr <= a < addr + |data| :: cells[a] == data[a - addr]
  }

  /** Some bit in sector s has to go from 0 to 1. */
  ghost predicate NeedsErase(cells: seq<Byte>, addr: nat, data: seq<Byte>, s: nat)
    requires Valid(cells, addr, data)
  {
    exists a :: Wanted(addr, data, a) && s <= a < s + 0x1_0000 && !Covers(cells[a], data[a - addr])
  }

  /** What the cell at a holds in the end. */
  ghost function Goal(cells: seq<Byte>, addr: nat, data: seq<Byte>, a: nat): Byte
    requires Valid(cells, addr, data) && a < |cells|
  {
    if Wanted(addr, data, a) then data[a - addr]
    else if NeedsErase(cells, addr, data, SectorOf(a)) then 0xff
    else cells[a]
  }

  class Flash {
    /** The cells by bus address; those below FLASH are not flash and are never touched. */
    const cells: array<Byte>

    constructor (cells: array<Byte>)
      ensures this.cells == cells
    {
      this.cells := cells;
    }

    /** erase_sector on an ideal device (the readback that follows finds all ones). */
    method EraseSector(s: nat)
      requires s % 0x1_0000 == 0 && s + 0x1_0000 <= cells.Length
      modifies cells
      ensures forall a | 0 <= a < cells.Length :: cells[a] == if s <= a < s + 0x1_0000 then 0xff else old(cells[a])
    {
      for i := 0 to 0x1_0000
        invariant forall a | 0 <= a < cells.Length :: cells[a] == if s <= a < s + i then 0xff else old(cells[a])
      {
        cells[s + i] := 0xff;
      }
    }

    /** page_program: skipped for a blank page, otherwise every cell is and-ed
        with its byte.  Verifying compares the cells with the data afterwards. */
    method PageProgram(addr: nat, data: seq<Byte>, verify: bool) returns (ok: bool)
      requires 0 < |data| <= 0x100 && addr + |data| <= cells.Length
      requires PageOf(addr) == PageOf(addr + |data| - 1)
      modifies cells
      ensures forall a | 0 <= a < cells.Length ::
                cells[a] == if Wanted(addr, data, a) then Program(old(cells[a]), data[a - addr]) else old(cells[a])
      ensures ok <==> !verify || Holds(cells[..], addr, data)
    {
      var empty := true;
      for i := 0 to |data|
        invariant empty <==> forall j | 0 <= j < i :: data[j] == 0xff
      {
        if data[i] != 0xff {
          empty := false;
        }
      }
      if empty {
        forall a | Wanted(addr, data, a)
          ensures cells[a] == Program(cells[a], data[a - addr])
        {
          BlankChangesNothing(cells[a]);
        }
      } else {
        WriteI(addr, data);
      }
      ok := true;
      if verify {
        ok := ReadBack(addr, data);
      }
    }

    /** The device's side of a page write. */
    method WriteI(addr: nat, data: seq<Byte>)
      requires addr + |data| <= cells.Length
      modifies cells
      ensures forall a | 0 <= a < cells.Length ::
                cells[a] == if Wanted(addr, data, a) then Program(old(cells[a]), data[a - addr]) else old(cells[a])
    {
      for i := 0 to |data|
        invariant forall a | 0 <= a < cells.Length ::
                    cells[a] == if addr <= a < addr + i then Program(old(cells[a]), data[a - addr]) else old(cells[a])
      {
        cells[addr + i] := Program(cells[addr + i], data[i]);
      }
    }

    method ReadBack(addr: nat, data: seq<Byte>) returns (same: bool)
      requires addr + |data| <= cells.Length
      ensures same <==> Holds(cells[..], addr, data)
    {
      for i := 0 to |data|
        invariant forall a | addr <= a < addr + i :: cells[a] == data[a - addr]
      {
        if cells[addr + i] != data[i] {
          return false;
        }
      }
      return true;
    }

    /** Look for the first word that differs and for a bit that cannot be
        programmed.  newv is left 0 when the sector's share already matches. */
    method Compare(base: nat, ln: nat, addr: nat, data: seq<Byte>) returns (needErase: bool, newv: nat)
      requires Valid(cells[..], addr, data) && addr <= base && base + ln <= addr + |data| && base % 4 == 0
      ensures needErase <==> exists a :: base <= a < base + ln && !Covers(cells[a], data[a - addr])
      ensures needErase ==> newv != 0
      ensures !needErase && newv == 0 ==> forall a | base <= a < base + ln :: cells[a] == data[a - addr]
      ensures !needErase && newv != 0 ==>
                && base <= newv < base + ln && newv % 4 == 0
                && forall a | base <= a < newv :: cells[a] == data[a - addr]
    {
      needErase, newv := false, 0;
      for i := 0 to ln
        invariant !needErase
        invariant forall a | base <= a < base + i :: Covers(cells[a], data[a - addr])
        invariant newv == 0 ==> forall a | base <= a < base + i :: cells[a] == data[a - addr]
        invariant newv != 0 ==>
                    && base <= newv < base + i && newv % 4 == 0
                    && forall a | base <= a < newv :: cells[a] == data[a - addr]
      {
        var sb, dp := cells[base + i], data[base + i - addr];
        if Program(sb, dp) != dp {
          assert !Covers(cells[base + i], data[base + i - addr]);
          return true, i - i % 4 + base;
        } else if sb != dp && newv == 0 {
          newv := i - i % 4 + base;
        }
      }
    }

    /** The page loop of write: from p0 to the end of the sector's share, one
        page_program per page, the first and last clipped. */
    method ProgramPages(p0: nat, s: nat, addr: nat, data: seq<Byte>, verify: bool) returns (ok: bool)
      requires Valid(cells[..], addr, data) && s % 0x1_0000 == 0 && s + 0x1_0000 <= FLASH_END
      requires addr <= p0 && s <= p0
      requires forall a | p0 <= a < addr + |data| && a < s + 0x1_0000 :: Covers(cells[a], data[a - addr])
      modifies cells
      ensures ok
      ensures forall a | 0 <= a < cells.Length ::
                cells[a] == if p0 <= a < addr + |data| && a < s + 0x1_0000 then data[a - addr] else old(cells[a])
    {
      var end := addr + |data|;
      var p := p0;
      while p < s + 0x1_0000 && p < end
        invariant p0 <= p && (p <= s + 0x1_0000 || p == p0)
        invariant forall a | 0 <= a < cells.Length ::
                    cells[a] == if p0 <= a < p && a < end && a < s + 0x1_0000 then data[a - addr] else old(cells[a])
        decreases end - p
      {
        var start, len := p, end - p;
        if PageOf(start + len - 1) != PageOf(start) {
          len := PageOf(start + 0x100) - start;
        }
        ClipStep(start, end, len, s);
        var done := PageProgram(start, data[p - addr..p - addr + len], verify);
        assert done by {
          assert Holds(cells[..], start, data[p - addr..p - addr + len]);
        }
        if !done {
          return false;
        }
        p := PageOf(p + 0x100);
      }
      ok := true;
    }

    /** One sector of write: read it, decide, erase if some bit must be set, program. */
    method WriteSector(s: nat, addr: nat, data: seq<Byte>, verify: bool) returns (ok: bool)
      requires Valid(cells[..], addr, data) && s % 0x1_0000 == 0 && s + 0x1_0000 <= FLASH_END
      requires s <= addr + |data| && addr < s + 0x1_0000
      modifies cells
      ensures ok
      ensures forall a | 0 <= a < cells.Length ::
                cells[a] == if s <= a < s + 0x1_0000 then Goal(old(cells[..]), addr, data, a) else old(cells[a])
    {
      var end := addr + |data|;
      var base := if addr > s then addr else s;
      var ln := (if end > s + 0x1_0000 then s + 0x1_0000 else end) - base;
      var needErase, newv := Compare(base, ln, addr, data);
      GoalInSector(cells[..], addr, data, s, needErase);
      if newv == 0 {
        return true;
      }
      if needErase {
        EraseSector(s);
        newv := if s < addr then addr else s;
        Erased(cells[..], newv, s, addr, data);
      }
      ok := ProgramPages(newv, s, addr, data, verify);
    }

    /** FLASHDRVR::write: afterwards every cell holds its goal, the requested ones
        their data, and a bystander changed (to all ones) only in a sector where
        a bit had to be set. */
    method Write(addr: nat, data: seq<Byte>, verify: bool) returns (ok: bool)
      requires Valid(cells[..], addr, data)
      modifies cells
      ensures ok
      ensures forall a | 0 <= a < cells.Length :: cells[a] == Goal(old(cells[..]), addr, data, a)
    {
      var s := SectorOf(addr);
      var stop := SectorOf(addr + |data| + 0xffff);
      GoalOutside(cells[..], addr, data);
      while s < stop
        invariant SectorOf(addr) <= s <= stop && s % 0x1_0000 == 0
        invariant forall a | 0 <= a < cells.Length ::
                    cells[a] == if a < s then Goal(old(cells[..]), addr, data, a) else old(cells[a])
      {
        SameGoals(old(cells[..]), cells[..], addr, data, s);
        var done := WriteSector(s, addr, data, verify);
        if !done {
          return false;
        }
        s := s + 0x1_0000;
      }
      ok := true;
    }
  }

  lemma {:induction false} Erased(cells: seq<Byte>, from: nat, s: nat, addr: nat, data: seq<Byte>)
    requires Valid(cells, addr, data) && addr <= from && s <= from && s + 0x1_0000 <= FLASH_END
    requires forall a | s <= a < s + 0x1_0000 :: cells[a] == 0xff
    ensures forall a | from <= a < addr + |data| && a < s + 0x1_0000 :: Covers(cells[a], data[a - addr])
  {
    forall a | from <= a < addr + |data| && a < s + 0x1_0000
      ensures Covers(cells[a], data[a - addr])
    {
      ErasedCoversAll(data[a - addr]);
    }
  }

  /** A clipped page write stays within one page, the sector and the data. */
  lemma {:induction false} ClipStep(start: nat, end: nat, len: int, s: nat)
    requires start < end && start < s + 0x1_0000 && s % 0x1_0000 == 0
    requires len == if PageOf(end - 1) != PageOf(start) then PageOf(start + 0x100) - start else end - start
    ensures 0 < len <= 0x100 && start + len <= end && start + len <= s + 0x1_0000
    ensures PageOf(start) == PageOf(start + len - 1)
    ensures start < PageOf(start + 0x100) <= s + 0x1_0000
    ensures start + len == PageOf(start + 0x100) || start + len == end <= PageOf(start + 0x100)
  {
    assert PageOf(start + 0x100) == PageOf(start) + 0x100;
  }

  /** Within a sector the goals depend only on whether that sector is erased. */
  lemma {:induction false} GoalInSector(cells: seq<Byte>, addr: nat, data: seq<Byte>, s: nat, needErase: bool)
    requires Valid(cells, addr, data) && s % 0x1_0000 == 0 && s + 0x1_0000 <= FLASH_END
    requires needErase <==> NeedsErase(cells, addr, data, s)
    ensures forall a | s <= a < s + 0x1_0000 ::
              Goal(cells, addr, data, a) ==
              if Wanted(addr, data, a) then data[a - addr] else if needErase then 0xff else cells[a]
  {
    forall a | s <= a < s + 0x1_0000
      ensures SectorOf(a) == s
    {
    }
  }

  /** Sectors the request does not touch keep their contents. */
  lemma {:induction false} GoalOutside(cells: seq<Byte>, addr: nat, data: seq<Byte>)
    requires Valid(cells, addr, data)
    ensures forall a | 0 <= a < |cells| && (a < SectorOf(addr) || SectorOf(addr + |data| + 0xffff) <= a) ::
              Goal(cells, addr, data, a) == cells[a]
  {
    forall a | 0 <= a < |cells| && (a < SectorOf(addr) || SectorOf(addr + |data| + 0xffff) <= a)
      ensures !Wanted(addr, data, a) && !NeedsErase(cells, addr, data, SectorOf(a))
    {
    }
  }

  /** A sector still untouched has the same goals as at the start. */
  lemma {:induction false} SameGoals(orig: seq<Byte>, cells: seq<Byte>, addr: nat, data: seq<Byte>, s: nat)
    requires Valid(orig, addr, data) && Valid(cells, addr, data) && s % 0x1_0000 == 0 && s + 0x1_0000 <= FLASH_END
    requires forall a | s <= a < |cells| :: cells[a] == orig[a]
    ensures forall a | s <= a < s + 0x1_0000 :: Goal(cells, addr, data, a) == Goal(orig, addr, data, a)
  {
    forall a | s <= a < s + 0x1_0000
      ensures Goal(cells, addr, data, a) == Goal(orig, addr, data, a)
    {
      assert SectorOf(a) == s;
      assert NeedsErase(cells, addr, data, s) <==> NeedsErase(orig, addr, data, s);
    }
  }

  /** Writing over a matching stretch, or only clearing bits, leaves every bystander alone. */
  lemma BystandersKept(cells: seq<Byte>, addr: nat, data: seq<Byte>, a: nat)
    requires Valid(cells, addr, data) && a < |cells| && !Wanted(addr, data, a)
    requires forall b | Wanted(addr, data, b) && SectorOf(b) == SectorOf(a) :: Covers(cells[b], data[b - addr])
    ensures Goal(cells, addr, data, a) == cells[a]
  {
  }

  /** Writing the same data again changes nothing. */
  lemma {:induction false} WriteIsIdempotent(cells: seq<Byte>, addr: nat, data: seq<Byte>, done: seq<Byte>)
    requires Valid(cells, addr, data) && |done| == |cells|
    requires forall a | 0 <= a < |cells| :: done[a] == Goal(cells, addr, data, a)
    ensures forall a | 0 <= a < |cells| :: Goal(done, addr, data, a) == done[a]
  {
    forall a | 0 <= a < |cells|
      ensures Goal(done, addr, data, a) == done[a]
    {
      if !Wanted(addr, data, a) {
        forall b | Wanted(addr, data, b) && SectorOf(b) == SectorOf(a)
          ensures Covers(done[b], data[b - addr])
        {
          assert done[b] == data[b - addr];
          AndSelf(data[b - addr]);
        }
        BystandersKept(done, addr, data, a);
      }
    }
  }

  lemma AndSelf(d: Byte)
    ensures Covers(d, d)
  {
  }

  /** In a request some bit of sector number s has to rise. */
  ghost predicate MustRise(cells: seq<Byte>, addr: nat, data: seq<Byte>, s: nat)
    requires Valid(cells, addr, data)
  {
    exists b, m | addr <= b < addr + |data| && b / 0x1_0000 == s && OneBit(m) ::
      IsSet(data[b - addr], m) && !IsSet(cells[b], m)
  }

  /** What the goals say, bit by bit: requested bytes hold their data, and another one
      all ones if a bit has to rise in its sector of 64 KB, and what it held if not. */
  lemma {:induction false} GoalMeans(cells: seq<Byte>, addr: nat, data: seq<Byte>, a: nat)
    requires Valid(cells, addr, data) && a < |cells|
    ensures Goal(cells, addr, data, a) ==
            if addr <= a < addr + |data| then data[a - addr]
            else if MustRise(cells, addr, data, a / 0x1_0000) then 0xff
            else cells[a]
  {
    var s := SectorOf(a);
    assert s == a / 0x1_0000 * 0x1_0000;
    forall b | addr <= b < addr + |data|
      ensures s <= b < s + 0x1_0000 <==> b / 0x1_0000 == a / 0x1_0000
    {
    }
    if NeedsErase(cells, addr, data, s) {
      var b :| Wanted(addr, data, b) && s <= b < s + 0x1_0000 && !Covers(cells[b], data[b - addr]);
      CoversBits(cells[b], data[b - addr]);
    }
    if MustRise(cells, addr, data, a / 0x1_0000) {
      var b, m :| addr <= b < addr + |data| && b / 0x1_0000 == a / 0x1_0000 && OneBit(m)
                  && IsSet(data[b - addr], m) && !IsSet(cells[b], m);
      CoversBits(cells[b], data[b - addr]);
    }
  }
}
