/**
  The physical memory device (linux/tools/Access_Physical_Memory/dram.c): a byte sequence of whole pages, read
  one page at a time. Mapping a page and copying out of it always succeed here.
 */
module Dram {
  import opened Bits

  const PAGE_SIZE: nat := 4096

  /** Page numbers fit an int. */
  ghost predicate IsMemory(memory: seq<byte>) {
    |memory| % PAGE_SIZE == 0 && |memory| <= 0x8000_0000 * PAGE_SIZE
  }

  /** SEEK_SET, SEEK_CUR, SEEK_END, and anything else. */
  datatype Whence = Set | Cur | End | Unknown

  const EINVAL: int := 22

  /** Where a seek is to go; -1 for an unknown base. */
  function Target(fpos: int, size: int, offset: int, whence: Whence): int {
    match whence
    case Set => offset
    case Cur => fpos + offset
    case End => size + offset
    case Unknown => -1
  }

  /** Every place is reached from the start, from where the device is, and from its end, and by going there in two
      moves. */
  lemma ThreeWays(fpos: int, size: int, place: int, first: int)
    ensures Target(fpos, size, place, Set) == place
    ensures Target(fpos, size, place - fpos, Cur) == place
    ensures Target(fpos, size, place - size, End) == place
    ensures Target(Target(fpos, size, first, Cur), size, place - (fpos + first), Cur) == place
    ensures Target(fpos, size, place, Unknown) < 0
  {
  }

  class Device {
    const memory: seq<byte>
    var fpos: int

    constructor (memory: seq<byte>)
      ensures this.memory == memory && fpos == 0
    {
      this.memory := memory;
      fpos := 0;
    }

    ghost predicate Valid()
      reads this
    {
      IsMemory(memory) && 0 <= fpos <= |memory|
    }

    /** my_llseek moves to the target and returns it if it lies in the device or at its end, and otherwise
        moves nowhere. */
    method Llseek(offset: int, whence: Whence) returns (r: int)
      requires Valid()
      modifies this
      ensures Valid()
      ensures var t := Target(old(fpos), |memory|, offset, whence);
              if 0 <= t <= |memory| then r == t == fpos else r == -EINVAL && fpos == old(fpos)
    {
      var newpos := -1;
      match whence {
        case Set => newpos := offset;
        case Cur => newpos := fpos + offset;
        case End => newpos := |memory| + offset;
        case Unknown =>
      }
      if newpos < 0 || newpos > |memory| {
        return -EINVAL;
      }
      fpos := newpos;
      return newpos;
    }

    /** my_read into buf from index at on: the next bytes, up to count of them and to the end of their page;
        none only at the end of the device or when none are asked for. */
    method Read(buf: array<byte>, at: nat, count: nat) returns (n: nat)
      requires Valid() && at + count <= buf.Length
      modifies this, buf
      ensures Valid() && n <= count && fpos == old(fpos) + n
      ensures n == 0 <==> old(fpos) == |memory| || count == 0
      ensures n < count ==> fpos % PAGE_SIZE == 0
      ensures n > 0 ==> old(fpos) / PAGE_SIZE == (fpos - 1) / PAGE_SIZE
      ensures forall j | 0 <= j < buf.Length ::
                buf[j] == if at <= j < at + n then memory[old(fpos) + j - at] else old(buf[j])
    {
      if fpos >= |memory| {
        return 0;
      }
      var pageNumber, pageIndent := fpos / PAGE_SIZE, fpos % PAGE_SIZE;
      n := count;
      if pageIndent + n > PAGE_SIZE {
        n := PAGE_SIZE - pageIndent;
      }
      PageInMemory(|memory|, fpos);
      WithinPage(fpos, n);
      Memcpy(buf, at, memory, pageNumber * PAGE_SIZE + pageIndent, n);
      fpos := fpos + n;
    }
  }

  /** A page that starts in the device ends in it. */
  lemma PageInMemory(size: nat, pos: nat)
    requires size % PAGE_SIZE == 0 && pos < size
    ensures pos - pos % PAGE_SIZE + PAGE_SIZE <= size
  {
  }

  lemma WithinPage(pos: nat, n: nat)
    requires pos % PAGE_SIZE + n <= PAGE_SIZE
    ensures n > 0 ==> pos / PAGE_SIZE == (pos + n - 1) / PAGE_SIZE
    ensures pos % PAGE_SIZE + n == PAGE_SIZE ==> (pos + n) % PAGE_SIZE == 0
  {
  }
}
