/** The descriptor bitmap of `src/socket.c`, refining a set of descriptors. */
module FdBitmap {

  const DEFAULT_FD_NUM: int := 3
  const MAX_FD_COUNT: int := 1024

  /** The bitmap's cells; a type of their own, so that no packet buffer is ever mistaken for the bitmap. */
  type uchar = b: bv8 | true

  /** The least descriptor from `from` on that is not in use, or -1. */
  function LowestFree(used: set<int>, from: int): (fd: int)
    requires 0 <= from <= MAX_FD_COUNT
    ensures fd == -1 <==> forall f | from <= f < MAX_FD_COUNT :: f in used
    ensures fd != -1 ==> from <= fd < MAX_FD_COUNT && fd !in used && forall f | from <= f < fd :: f in used
    decreases MAX_FD_COUNT - from
  {
    if from == MAX_FD_COUNT then -1
    else if from !in used then from
    else LowestFree(used, from + 1)
  }

  function Mask(i: int): bv8
    requires 0 <= i < 8
  {
    1 << i
  }

  lemma MaskValues()
    ensures Mask(0) == 1 && Mask(1) == 2 && Mask(2) == 4 && Mask(3) == 8
    ensures Mask(4) == 16 && Mask(5) == 32 && Mask(6) == 64 && Mask(7) == 128
  {
  }

  /** Setting or clearing one bit of a byte leaves the other seven as they were. */
  lemma OneBitOnly(b: bv8, i: int)
    requires 0 <= i < 8
    ensures (b | Mask(i)) & Mask(i) != 0
    ensures (b & !Mask(i)) & Mask(i) == 0
    ensures forall j | 0 <= j < 8 && j != i :: (b | Mask(i)) & Mask(j) == b & Mask(j)
    ensures forall j | 0 <= j < 8 && j != i :: (b & !Mask(i)) & Mask(j) == b & Mask(j)
  {
    assert Mask(0) == 1 && Mask(1) == 2 && Mask(2) == 4 && Mask(3) == 8;
    assert Mask(4) == 16 && Mask(5) == 32 && Mask(6) == 64 && Mask(7) == 128;
  }

  method Cleared(b: uchar, i: int) returns (cell: uchar)
    requires 0 <= i < 8
    ensures cell & Mask(i) == 0
    ensures forall j | 0 <= j < 8 && j != i :: cell & Mask(j) == b & Mask(j)
  {
    OneBitOnly(b, i);
    cell := b & !Mask(i);
  }

  class FdTable {
    const table: array<uchar>
    ghost var used: set<int>  // the descriptors whose bit is set

    ghost predicate Valid()
      reads this, table
    {
      && table.Length == 1024
      && forall fd :: fd in used <==> 0 <= fd < 8192 && IsSet(table[..], fd)
    }

    static predicate IsSet(bytes: seq<bv8>, fd: int)
      requires |bytes| == 1024 && 0 <= fd < 8192
    {
      bytes[fd / 8] & Mask(fd % 8) != 0
    }

    constructor ()
      ensures Valid() && fresh(table)
      ensures used == {}
    {
      table := new uchar[1024](_ => 0);
      used := {};
    }

    /** `hz_fd_table[fd / 8] |= (0x1 << (fd % 8))` */
    method SetBit(fd: int)
      requires Valid() && 0 <= fd < 8192
      modifies this`used, table
      ensures Valid() && used == old(used) + {fd}
    {
      ghost var was := table[..];
      OneBitOnly(table[fd / 8], fd % 8);
      table[fd / 8] := table[fd / 8] | Mask(fd % 8);
      used := used + {fd};
      OnlyThisBit(was, table[..], fd);
    }

    /** `hz_fd_table[fd / 8] &= ~(0x1 << (fd % 8))` */
    method ClearBit(fd: int)
      requires Valid() && 0 <= fd < 8192
      modifies this`used, table
      ensures Valid() && used == old(used) - {fd}
    {
      ghost var was := table[..];
      table[fd / 8] := Cleared(table[fd / 8], fd % 8);
      used := used - {fd};
      OnlyThisBit(was, table[..], fd);
    }

    /** Descriptor 8 b + i is bit i of byte b. */
    static lemma Layout(bytes: seq<uchar>, b: nat, i: nat)
      requires |bytes| == 1024 && b < 1024 && i < 8
      ensures IsSet(bytes, 8 * b + i) <==> bytes[b] & Mask(i) != 0
    {
    }

    static lemma OnlyThisBit(was: seq<bv8>, now: seq<bv8>, fd: int)
      requires |was| == |now| == 1024 && 0 <= fd < 8192
      requires forall k | 0 <= k < 1024 && k != fd / 8 :: now[k] == was[k]
      requires forall j | 0 <= j < 8 && j != fd % 8 :: now[fd / 8] & Mask(j) == was[fd / 8] & Mask(j)
      ensures forall f | 0 <= f < 8192 && f != fd :: IsSet(now, f) == IsSet(was, f)
    {
      forall f | 0 <= f < 8192 && f != fd
        ensures IsSet(now, f) == IsSet(was, f)
      {
        if f / 8 == fd / 8 {
          assert f % 8 != fd % 8;
        }
      }
    }

    /** `hz_get_fd_from_bitmap`: takes the least free descriptor in [3, 1024), or
        returns -1 and changes nothing exactly when all 1021 are taken. */
    method GetFdFromBitmap() returns (fd: int)
      requires Valid()
      modifies this`used, table
      ensures Valid()
      ensures fd == LowestFree(old(used), DEFAULT_FD_NUM)
      ensures used == if fd == -1 then old(used) else old(used) + {fd}
    {
      fd := DEFAULT_FD_NUM;
      while fd < MAX_FD_COUNT
        invariant DEFAULT_FD_NUM <= fd <= MAX_FD_COUNT
        invariant Valid() && used == old(used)
        invariant LowestFree(used, fd) == LowestFree(old(used), DEFAULT_FD_NUM)
      {
        if table[fd / 8] & Mask(fd % 8) == 0 {
          assert !IsSet(table[..], fd);
          SetBit(fd);
          return;
        }
        assert IsSet(table[..], fd);
        fd := fd + 1;
      }
      fd := -1;
    }

    /** `hz_reset_fd_about_bitmap`: clears that one bit, whatever it was. A descriptor too
        large for the table is refused. */
    method ResetFd(fd: int) returns (r: int)
      requires Valid()
      requires 0 <= fd
      modifies this`used, table
      ensures Valid()
      ensures r == if fd >= MAX_FD_COUNT then -1 else 0
      ensures used == if fd >= MAX_FD_COUNT then old(used) else old(used) - {fd}
    {
      if fd >= MAX_FD_COUNT {
        return -1;
      }
      ClearBit(fd);
      return 0;
    }
  }

  /** A descriptor given back is handed out again as soon as every lower one is taken. */
  lemma ResetMakesAllocatable(used: set<int>, fd: int)
    requires DEFAULT_FD_NUM <= fd < MAX_FD_COUNT
    ensures DEFAULT_FD_NUM <= LowestFree(used - {fd}, DEFAULT_FD_NUM) <= fd
    ensures LowestFree(used - {fd}, DEFAULT_FD_NUM) == fd <==>
              forall f | DEFAULT_FD_NUM <= f < fd :: f in used
  {
    var low := LowestFree(used - {fd}, DEFAULT_FD_NUM);
    assert fd !in used - {fd};
    if low == fd {
      forall f | DEFAULT_FD_NUM <= f < fd
        ensures f in used
      {
        assert f in used - {fd};
      }
    } else {
      assert low !in used - {fd};
      assert low !in used;
    }
  }
}
