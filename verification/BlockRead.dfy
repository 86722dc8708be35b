/** driver/block_dev.c, fs/ramdisk.c, fs/ramfs.c and fs/ofs.c: reading bytes of a file through
    512-byte blocks and device sectors of any size. */
module BlockRead {
  import opened Words

  const BLOCK: nat := 512       // SYSTEM_DEFAULT_SECTOR_SIZE
  const ENOMEM: int := 12

  /** What a read request leaves in a buffer that held `junk`: the sectors asked for, as far as
      the device reaches. */
  ghost predicate Transferred(disk: seq<Byte>, start: nat, buffer: seq<Byte>, junk: seq<Byte>) {
    && |buffer| == |junk|
    && forall i :: 0 <= i < |buffer| ==> buffer[i] == if start + i < |disk| then disk[start + i] else junk[i]
  }

  /** How many of `n` bytes from `start` on the device has. */
  function Reached(size: nat, start: nat, n: nat): nat {
    if start >= size then 0 else if start + n > size then size - start else n
  }

  /** ramdisk_request, and the promise of every driver's request function. */
  method Request(disk: seq<Byte>, ss: nat, sector: nat, nr: nat, junk: seq<Byte>) returns (buffer: seq<Byte>, ret: int)
    requires |junk| == nr * ss
    ensures Transferred(disk, sector * ss, buffer, junk) && ret == Reached(|disk|, sector * ss, nr * ss)
  {
    var start: nat := sector * ss;
    if start >= |disk| {
      return junk, 0;
    }
    var size := if start + nr * ss > |disk| then |disk| - start else nr * ss;
    buffer := disk[start..start + size] + junk[size..];
    ret := size;
  }

  method WholeSectors(total: nat, ss: nat) returns (rw: nat)
    requires 0 < ss
    ensures total <= rw * ss < total + ss && (total == 0 ==> rw == 0)
  {
    rw := total / ss;
    Quotient(total, ss);
    if total % ss != 0 {
      rw := rw + 1;
    }
  }

  /** How many sectors to read: enough for `total` bytes from `off` bytes into the first. */
  method Sectors(total: nat, ss: nat, off: nat) returns (rw: nat)
    requires 0 < ss && off < ss && total + 2 * ss <= WORD
    ensures off + total <= rw * ss || total == 0
    ensures rw * ss < total + 2 * ss
    ensures total == 0 ==> rw == 0
  {
    hide Sub32;
    rw := WholeSectors(total, ss);
    Short(rw, ss, off, total);
    if Sub32(rw * ss, off) < total {
      rw := rw + 1;
    }
  }

  lemma Quotient(x: nat, d: nat)
    requires d > 0
    ensures x == x / d * d + x % d && x % d < d && (x / d + 1) * d == x / d * d + d
    ensures x == 0 ==> x / d == 0
  {
    if x == 0 { DivModUnique(0, d, 0, 0); }
  }

  /** The unsigned comparison that decides on one more sector. */
  lemma Short(rw: nat, ss: nat, off: nat, total: nat)
    requires 0 < ss && off < ss && total <= rw * ss < total + ss && total + 2 * ss <= WORD
    requires total == 0 ==> rw == 0
    ensures Sub32(rw * ss, off) < total <==> total > 0 && rw * ss - off < total
    ensures (rw + 1) * ss == rw * ss + ss
  {
    if rw > 0 { MulSpread(0, rw, ss); }
  }

  /** block_read: `count` blocks from block `pos`, whatever the sector size. */
  method ReadBlocks(disk: seq<Byte>, ss: nat, pos: nat, count: nat, memory: bool, junk: seq<Byte>)
    returns (ret: int, buf: seq<Byte>)
    requires 0 < ss && BLOCK * (pos + count) + 2 * ss <= WORD && |junk| >= BLOCK * count + 2 * ss
    ensures memory <==> ret >= 0
    ensures !memory ==> ret == -ENOMEM
    ensures memory && BLOCK * (pos + count) <= |disk| ==> BLOCK * count <= ret
    ensures memory ==> ret < BLOCK * count + 2 * ss && ret <= |disk|
    ensures memory ==> |buf| == BLOCK * count
    ensures memory ==> forall i :: 0 <= i < |buf| && BLOCK * pos + i < |disk| ==> buf[i] == disk[BLOCK * pos + i]
  {
    var total: nat, first: nat := count * BLOCK, pos * BLOCK;
    Quotient(first, ss);
    var off: nat, sector: nat := first % ss, first / ss;
    var rw := Sectors(total, ss, off);
    if !memory {
      return -ENOMEM, [];
    }
    hide Transferred;
    var tmp, got := Request(disk, ss, sector, rw, junk[..rw * ss]);
    ret := got;
    if total == 0 {
      buf := [];
    } else {
      CopiedOut(disk, sector * ss, tmp, junk[..rw * ss], off, total);
      buf := tmp[off..off + total];
    }
  }

  lemma CopiedOut(disk: seq<Byte>, start: nat, tmp: seq<Byte>, junk: seq<Byte>, off: nat, total: nat)
    requires Transferred(disk, start, tmp, junk) && off + total <= |junk|
    ensures off + total <= |tmp|
    ensures var buf := tmp[off..off + total];
      forall i :: 0 <= i < |buf| && start + off + i < |disk| ==> buf[i] == disk[start + off + i]
  {
  }

  /** An open file: `size` bytes from block `start` of the device. */
  class File {
    const start: nat
    const size: nat
    var pos: nat

    ghost predicate Valid()
      reads this
    {
      pos <= size
    }

    /** The bytes of the file. */
    function Content(disk: seq<Byte>): seq<Byte>
      requires BLOCK * start + size <= |disk|
    {
      disk[BLOCK * start..BLOCK * start + size]
    }

    constructor (start: nat, size: nat)
      ensures Valid() && pos == 0 && this.start == start && this.size == size
    {
      this.start, this.size, pos := start, size, 0;
    }

    /** ramfs_read (start 0) and ofs_read with 512-byte blocks. */
    method Read(disk: seq<Byte>, ss: nat, len: nat, memory: bool, junk: seq<Byte>) returns (ret: int, buf: seq<Byte>)
      requires Valid() && BLOCK * start + size <= |disk| && 0 < ss && BLOCK * (start + 2) + size + len + 2 * ss <= WORD
      requires |junk| >= len + 2 * BLOCK + 2 * ss
      modifies this`pos
      ensures Valid()
      ensures ret < 0 <==> len > 0 && !memory
      ensures ret < 0 ==> ret == -ENOMEM && pos == old(pos)
      ensures ret >= 0 ==> ret == (if len < size - old(pos) then len else size - old(pos))
      ensures ret >= 0 ==> pos == old(pos) + ret && buf == Content(disk)[old(pos)..pos]
    {
      if len == 0 {
        return 0, [];
      }
      var n := if pos + len > size then size - pos else len;
      var at, block := pos % BLOCK, pos / BLOCK;
      var blocks := Sectors(n, BLOCK, at);
      var r, buff := ReadBlocks(disk, ss, block + start, blocks, memory, junk);
      if r < 0 {
        return r, [];
      }
      buf := if n == 0 then [] else buff[at..at + n];
      assert BLOCK * (block + start) + at == BLOCK * start + pos;
      forall i | 0 <= i < n
        ensures buf[i] == Content(disk)[pos + i]
      {
        assert buff[at + i] == disk[BLOCK * (block + start) + (at + i)];
      }
      assert buf == Content(disk)[pos..pos + n];
      pos := pos + n;
      ret := n;
    }

    /** Reads of any lengths, one after the other, deliver the file from where it stood. */
    method ReadAll(disk: seq<Byte>, ss: nat, lens: seq<nat>, junk: seq<Byte>) returns (all: seq<Byte>)
      requires Valid() && BLOCK * start + size <= |disk| && 0 < ss
      requires forall i :: 0 <= i < |lens| ==>
        BLOCK * (start + 2) + size + lens[i] + 2 * ss <= WORD && |junk| >= lens[i] + 2 * BLOCK + 2 * ss
      modifies this`pos
      ensures Valid() && old(pos) <= pos && all == Content(disk)[old(pos)..pos]
      ensures pos == if Total(lens) < size - old(pos) then old(pos) + Total(lens) else size
    {
      all := [];
      hide Total;
      assert lens[..0] == [];
      NoTotal();
      for i := 0 to |lens|
        invariant Valid() && old(pos) <= pos && all == Content(disk)[old(pos)..pos]
        invariant pos == if Total(lens[..i]) < size - old(pos) then old(pos) + Total(lens[..i]) else size
      {
        assert lens[..i + 1] == lens[..i] + [lens[i]];
        TotalStep(lens[..i], lens[i]);
        ghost var was := pos;
        var ret, buf := Read(disk, ss, lens[i], true, junk);
        assert Content(disk)[old(pos)..pos] == Content(disk)[old(pos)..was] + Content(disk)[was..pos];
        all := all + buf;
      }
      assert lens[..|lens|] == lens;
    }
  }

  function Total(lens: seq<nat>): nat {
    if lens == [] then 0 else Total(lens[..|lens| - 1]) + lens[|lens| - 1]
  }

  lemma NoTotal()
    ensures Total([]) == 0
  {
  }

  lemma TotalStep(lens: seq<nat>, n: nat)
    ensures Total(lens + [n]) == Total(lens) + n
  {
    assert (lens + [n])[..|lens|] == lens;
  }
}
