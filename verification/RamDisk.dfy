/**
 The RAM disk: a flat byte array behind a block interface.  `Blocks` is the
 simple view of it, one sequence of bytes for every block address.
 */
module RamDisk {
  import opened Basics
  import opened Bswap

  /** `a + b` on `uint32_t` operands. */
  function Add32(a: nat, b: nat): nat {
    (a + b) % TWO32
  }

  datatype State = Stop | Ready

  /**
   What a call does: it succeeds, it reports a failure, or it leaves the
   defined behaviour of the program by touching memory outside the storage.
   */
  datatype Outcome = Success | Failed | Fault

  type Block = seq<Byte>

  /** Block `k` of a flat storage with blocks of `bs` bytes. */
  function BlockAt(s: seq<Byte>, bs: nat, k: nat): (b: Block)
    requires (k + 1) * bs <= |s|
    ensures |b| == bs
  {
    MulStep(k, bs);
    s[k * bs..(k + 1) * bs]
  }

  /** A flat storage of `n` blocks as the sequence of its blocks. */
  function BlocksOf(s: seq<Byte>, bs: nat, n: nat): (d: seq<Block>)
    requires |s| == n * bs
    ensures |d| == n && forall k :: 0 <= k < n ==> |d[k]| == bs
  {
    seq(n, k requires 0 <= k < n => (MulOrder(k + 1, n, bs); BlockAt(s, bs, k)))
  }

  lemma MulStep(k: nat, bs: nat)
    ensures (k + 1) * bs == k * bs + bs
  {
  }

  lemma MulOrder(j: nat, k: nat, bs: nat)
    requires j <= k
    ensures j * bs <= k * bs
  {
  }

  /** Where block `j` is, against the blocks k..k+m-1. */
  lemma Offsets(j: nat, k: nat, m: nat, n: nat, bs: nat)
    requires j < n && k + m <= n
    ensures (j + 1) * bs == j * bs + bs <= n * bs && k * bs + m * bs <= n * bs
    ensures j < k ==> (j + 1) * bs <= k * bs
    ensures k <= j < k + m ==> j * bs == k * bs + (j - k) * bs && (j - k) * bs + bs == (j - k + 1) * bs <= m * bs
    ensures k + m <= j ==> k * bs + m * bs <= j * bs
  {
    MulStep(j, bs);
    MulOrder(j + 1, n, bs);
    MulSum(k, m, bs);
    MulOrder(k + m, n, bs);
    if j < k {
      MulOrder(j + 1, k, bs);
    } else if j < k + m {
      MulSum(k, j - k, bs);
      MulStep(j - k, bs);
      MulOrder(j - k + 1, m, bs);
    } else {
      MulOrder(k + m, j, bs);
    }
  }

  lemma BlockIs(s: seq<Byte>, bs: nat, n: nat, j: nat)
    requires |s| == n * bs && j < n
    ensures j * bs + bs <= |s| && BlocksOf(s, bs, n)[j] == s[j * bs..j * bs + bs]
  {
    MulStep(j, bs);
    MulOrder(j + 1, n, bs);
  }

  lemma BlockReplaced(s: seq<Byte>, bs: nat, n: nat, k: nat, m: nat, b: seq<Byte>, j: nat)
    requires |s| == n * bs && k + m <= n && |b| == m * bs && k * bs + m * bs <= n * bs && j < n
    ensures BlocksOf(Written(s, k * bs, b), bs, n)[j]
         == if k <= j < k + m then BlocksOf(b, bs, m)[j - k] else BlocksOf(s, bs, n)[j]
  {
    hide BlocksOf, Written;
    Offsets(j, k, m, n, bs);
    BlockIs(s, bs, n, j);
    BlockIs(Written(s, k * bs, b), bs, n, j);
    if k <= j < k + m {
      BlockIs(b, bs, m, j - k);
      WrittenInside(s, k * bs, b, j * bs, j * bs + bs);
    } else {
      WrittenOutside(s, k * bs, b, j * bs, j * bs + bs);
    }
  }

  /** Overwriting the bytes of blocks k..k+m-1 replaces those blocks and no other. */
  lemma BlocksReplaced(s: seq<Byte>, bs: nat, n: nat, k: nat, m: nat, b: seq<Byte>)
    requires |s| == n * bs && k + m <= n && |b| == m * bs && k * bs + m * bs <= n * bs
    ensures BlocksOf(Written(s, k * bs, b), bs, n) == Written(BlocksOf(s, bs, n), k, BlocksOf(b, bs, m))
  {
    hide BlocksOf;
    forall j | 0 <= j < n
      ensures BlocksOf(Written(s, k * bs, b), bs, n)[j] == Written(BlocksOf(s, bs, n), k, BlocksOf(b, bs, m))[j]
    {
      BlockReplaced(s, bs, n, k, m, b, j);
    }
  }

  /** Consecutive bytes are consecutive blocks. */
  lemma BlocksCopied(s: seq<Byte>, b: seq<Byte>, bs: nat, n: nat, k: nat, m: nat)
    requires |s| == n * bs && k + m <= n && |b| == m * bs
    requires k * bs + m * bs <= n * bs
    requires b == s[k * bs..k * bs + m * bs]
    ensures BlocksOf(b, bs, m) == BlocksOf(s, bs, n)[k..k + m]
  {
    hide BlocksOf;
    forall j | 0 <= j < m ensures BlocksOf(b, bs, m)[j] == BlocksOf(s, bs, n)[k + j] {
      BlockCopied(s, b, bs, n, k, m, j);
    }
  }

  lemma BlockCopied(s: seq<Byte>, b: seq<Byte>, bs: nat, n: nat, k: nat, m: nat, j: nat)
    requires |s| == n * bs && k + m <= n && |b| == m * bs && j < m
    requires k * bs + m * bs <= n * bs
    requires b == s[k * bs..k * bs + m * bs]
    ensures BlocksOf(b, bs, m)[j] == BlocksOf(s, bs, n)[k + j]
  {
    hide BlocksOf;
    MulSum(k, j, bs);
    BlockIs(b, bs, m, j);
    BlockIs(s, bs, n, k + j);
    SliceIs(s, b, k * bs, m * bs, j * bs, (k + j) * bs, bs);
  }

  lemma SliceIs(s: seq<Byte>, b: seq<Byte>, at: nat, len: nat, lo: nat, pos: nat, n: nat)
    requires at + len <= |s| && b == s[at..at + len] && pos == at + lo && lo + n <= len
    ensures b[lo..lo + n] == s[pos..pos + n]
  {
    SliceOfSlice(s, at, len, lo, n);
  }

  lemma SliceOfSlice(s: seq<Byte>, at: nat, len: nat, lo: nat, n: nat)
    requires at + len <= |s| && lo + n <= len
    ensures s[at..at + len][lo..lo + n] == s[at + lo..at + lo + n]
  {
    var t := s[at..at + len];
    var l, r := t[lo..lo + n], s[at + lo..at + lo + n];
    forall i | 0 <= i < n ensures l[i] == r[i] {
      assert l[i] == t[lo + i];
    }
  }

  lemma MulSum(j: nat, k: nat, bs: nat)
    ensures (j + k) * bs == j * bs + k * bs
  {
  }

  class Disk {
    var state: State
    var storage: array<Byte>
    var blkSize: nat
    var blkNum: nat
    var readonly: bool

    /** A started disk has a storage of blkNum blocks, in a 32-bit address space. */
    ghost predicate Valid()
      reads this
    {
      state == Ready && blkSize > 0 && storage.Length == blkNum * blkSize < TWO32
    }

    ghost function Blocks(): (d: seq<Block>)
      requires Valid()
      reads this, storage
      ensures |d| == blkNum && forall k :: 0 <= k < blkNum ==> |d[k]| == blkSize
    {
      BlocksOf(storage[..], blkSize, blkNum)
    }

    /** `ramdiskObjectInit` and `ramdiskStart`. */
    constructor (s: array<Byte>, blksize: nat, blknum: nat, ro: bool)
      requires blksize > 0 && s.Length == blknum * blksize < TWO32
      ensures Valid() && storage == s && blkSize == blksize && blkNum == blknum && readonly == ro
    {
      state, storage, blkSize, blkNum, readonly := Ready, s, blksize, blknum, ro;
    }

    /** The check of a request: the sum of two 32-bit numbers wraps around. */
    predicate Overflow(startblk: nat, n: nat)
      reads this
    {
      Add32(startblk, n) > blkNum
    }

    /** `is_protected` */
    predicate Protected()
      reads this
    {
      state != Ready || readonly
    }

    /** A started disk is protected exactly when it was started read-only. */
    lemma ProtectedIs()
      requires Valid()
      ensures Protected() <==> readonly
    {
    }

    /**
     The check lets a request through although it leaves the disk.  Only a sum
     that wraps around does that.
     */
    predicate WrapsAround(startblk: nat, n: nat)
      reads this
    {
      startblk + n >= TWO32 && startblk + n - TWO32 <= blkNum
    }

    lemma OverflowIs(startblk: nat, n: nat)
      requires Valid() && startblk < TWO32 && n < TWO32
      ensures Overflow(startblk, n) || WrapsAround(startblk, n) <==> startblk + n > blkNum
      ensures !(Overflow(startblk, n) && WrapsAround(startblk, n))
    {
      BlockCount();
    }

    lemma BlockCount()
      requires Valid()
      ensures blkNum < TWO32
    {
      MulOrder(1, blkSize, blkNum);
    }

    /** `read` of `n` blocks into the start of `buffer`. */
    method Read(startblk: nat, buffer: array<Byte>, n: nat) returns (r: Outcome)
      requires Valid() && startblk < TWO32 && n < TWO32
      requires n * blkSize <= buffer.Length < TWO32 && buffer != storage
      modifies buffer
      ensures r == Failed <==> Overflow(startblk, n)
      ensures r == Fault <==> WrapsAround(startblk, n)
      ensures r == Success ==>
                && startblk + n <= blkNum
                && BlocksOf(buffer[..n * blkSize], blkSize, n) == Blocks()[startblk..startblk + n]
      ensures r != Success ==> buffer[..] == old(buffer[..])
      ensures buffer[n * blkSize..] == old(buffer[n * blkSize..])
    {
      OverflowIs(startblk, n);
      if Overflow(startblk, n) {
        return Failed;
      }
      if startblk + n > blkNum {
        return Fault;
      }
      var from, len := startblk * blkSize, n * blkSize;
      MulSum(startblk, n, blkSize);
      MulOrder(startblk + n, blkNum, blkSize);
      var i := 0;
      while i < len
        invariant 0 <= i <= len
        invariant buffer[..i] == storage[from..from + i]
        invariant buffer[len..] == old(buffer[len..])
      {
        buffer[i] := storage[from + i];
        assert buffer[..i] == storage[from..from + i];
        i := i + 1;
      }
      assert storage[from..from + len] == storage[..][from..from + len];
      BlocksCopied(storage[..], buffer[..len], blkSize, blkNum, startblk, n);
      r := Success;
    }

    /** `write` of `n` blocks from the start of `buffer`.  The read-only flag is not consulted. */
    method Write(startblk: nat, buffer: array<Byte>, n: nat) returns (r: Outcome)
      requires Valid() && startblk < TWO32 && n < TWO32
      requires n * blkSize <= buffer.Length < TWO32 && buffer != storage
      modifies storage
      ensures r == Failed <==> Overflow(startblk, n)
      ensures r == Fault <==> WrapsAround(startblk, n)
      ensures r == Success ==>
                startblk + n <= blkNum
                && Blocks() == Written(old(Blocks()), startblk, BlocksOf(buffer[..n * blkSize], blkSize, n))
      ensures r != Success ==> Blocks() == old(Blocks())
    {
      OverflowIs(startblk, n);
      if Overflow(startblk, n) {
        return Failed;
      }
      if startblk + n > blkNum {
        return Fault;
      }
      ghost var before := storage[..];
      var to, len := startblk * blkSize, n * blkSize;
      MulSum(startblk, n, blkSize);
      MulOrder(startblk + n, blkNum, blkSize);
      CopyInto(buffer, to, len);
      BlocksReplaced(before, blkSize, blkNum, startblk, n, buffer[..len]);
      r := Success;
    }

    /** `memcpy` into the storage. */
    method CopyInto(buffer: array<Byte>, to: nat, len: nat)
      requires len <= buffer.Length && to + len <= storage.Length && buffer != storage
      modifies storage
      ensures storage[..] == Written(old(storage[..]), to, buffer[..len])
    {
      hide Written;
      ghost var before := storage[..];
      var i := 0;
      assert buffer[..0] == [];
      WrittenNone(before, to);
      while i < len
        invariant 0 <= i <= len
        invariant storage[..] == Written(before, to, buffer[..i])
      {
        WrittenNext(before, to, buffer[..i], buffer[i]);
        assert buffer[..i] + [buffer[i]] == buffer[..i + 1];
        storage[to + i] := buffer[i];
        i := i + 1;
      }
    }

    /** `connect`, `disconnect` and `ramdiskStop` only move the state; a stopped disk is not `Valid`. */
    method Disconnect()
      modifies this`state
      ensures state == Stop
    {
      if state != Stop {
        state := Stop;
      }
    }

    method Connect()
      modifies this`state
      ensures state == Ready
    {
      if state == Stop {
        state := Ready;
      }
    }
  }
}
