/** src/kernel/memory-mangement/physical-memory-manager.c: page frames as bits of 32-bit words, refining a
    finite set of used frames. */
module PhysicalMemory {
  import opened Machine

  /** The answer of a failed allocation, `(uint32_t)(-1)`. */
  const FAILED: nat := 0xFFFF_FFFF

  // ---- bits ----

  predicate Bit(w: bv32, k: bv6)
    requires k < 32
  {
    (w >> k) & 1 == 1
  }

  /** Position of bit `i` within its word. */
  function Offset(i: nat): (r: bv6)
    ensures r < 32
  {
    (i % 32) as bv6
  }

  lemma OffsetValue(i: nat)
    ensures Offset(i) as int == i % 32
  {
  }

  function WithBit(w: bv32, k: bv6): bv32
    requires k < 32
  {
    w | (1 << k)
  }

  function WithoutBit(w: bv32, k: bv6): bv32
    requires k < 32
  {
    w & !(1 << k)
  }

  lemma BitSet(w: bv32, j: bv6, k: bv6)
    requires j < 32 && k < 32
    ensures Bit(WithBit(w, j), k) <==> j == k || Bit(w, k)
  {
  }

  lemma BitCleared(w: bv32, j: bv6, k: bv6)
    requires j < 32 && k < 32
    ensures Bit(WithoutBit(w, j), k) <==> j != k && Bit(w, k)
  {
  }

  lemma SameBit(i: nat, j: nat)
    ensures i / 32 == j / 32 && Offset(i) == Offset(j) <==> i == j
  {
    if i / 32 == j / 32 && Offset(i) == Offset(j) {
      hide Offset;
      OffsetValue(i);
      OffsetValue(j);
      assert i == i / 32 * 32 + i % 32 && j == j / 32 * 32 + j % 32;
    }
  }

  /** Frame `i` is taken in the bitmap `words`. */
  predicate TakenIn(words: seq<bv32>, i: nat)
    requires i / 32 < |words|
  {
    Bit(words[i / 32], Offset(i))
  }

  ghost function UsedIn(words: seq<bv32>): set<nat> {
    set i: nat | i < 32 * |words| && TakenIn(words, i)
  }

  /** The effect on frame `k` of replacing the word that holds frame `i`. */
  lemma OneWordChanged(words: seq<bv32>, v: bv32, i: nat, k: nat, on: bool)
    requires i / 32 < |words| && k / 32 < |words|
    requires Bit(v, Offset(k)) <==> if Offset(i) == Offset(k) then on else Bit(words[i / 32], Offset(k))
    ensures TakenIn(words[i / 32 := v], k) <==> if i == k then on else TakenIn(words, k)
  {
    hide Bit, Offset;
    SameBit(i, k);
  }

  lemma SetOneAt(words: seq<bv32>, i: nat, k: nat)
    requires i / 32 < |words| && k / 32 < |words|
    ensures TakenIn(words[i / 32 := WithBit(words[i / 32], Offset(i))], k) <==> k == i || TakenIn(words, k)
  {
    hide Bit, Offset, TakenIn, WithBit, WithoutBit;
    BitSet(words[i / 32], Offset(i), Offset(k));
    OneWordChanged(words, WithBit(words[i / 32], Offset(i)), i, k, true);
  }

  lemma ClearOneAt(words: seq<bv32>, i: nat, k: nat)
    requires i / 32 < |words| && k / 32 < |words|
    ensures TakenIn(words[i / 32 := WithoutBit(words[i / 32], Offset(i))], k) <==> k != i && TakenIn(words, k)
  {
    hide Bit, Offset, TakenIn, WithBit, WithoutBit;
    BitCleared(words[i / 32], Offset(i), Offset(k));
    OneWordChanged(words, WithoutBit(words[i / 32], Offset(i)), i, k, false);
  }

  /** Setting or clearing one bit adds or removes exactly that frame. */
  lemma SetOne(words: seq<bv32>, i: nat)
    requires i / 32 < |words|
    ensures UsedIn(words[i / 32 := WithBit(words[i / 32], Offset(i))]) == UsedIn(words) + {i}
  {
    hide TakenIn, Offset, WithBit, WithoutBit;
    forall k: nat | k < 32 * |words|
      ensures TakenIn(words[i / 32 := WithBit(words[i / 32], Offset(i))], k) <==> k == i || TakenIn(words, k)
    {
      SetOneAt(words, i, k);
    }
  }

  lemma ClearOne(words: seq<bv32>, i: nat)
    requires i / 32 < |words|
    ensures UsedIn(words[i / 32 := WithoutBit(words[i / 32], Offset(i))]) == UsedIn(words) - {i}
  {
    hide TakenIn, Offset, WithBit, WithoutBit;
    forall k: nat | k < 32 * |words|
      ensures TakenIn(words[i / 32 := WithoutBit(words[i / 32], Offset(i))], k) <==> k != i && TakenIn(words, k)
    {
      ClearOneAt(words, i, k);
    }
  }

  /** The word with the value 2^k. */
  function Two(k: bv6): bv32
    requires k < 32
  {
    if k == 0 then 1 else 2 * Two(k - 1)
  }

  lemma {:induction false} TwoIsShift(k: bv6)
    requires k < 32
    ensures Two(k) == 1 << k
  {
    if k == 0 {
    } else {
      TwoIsShift(k - 1);
      ShiftOnce(k - 1, k);
    }
  }

  lemma ShiftOnce(j: bv6, k: bv6)
    requires j < 31 && k == j + 1
    ensures 2 * (1 as bv32 << j) == 1 as bv32 << k
  {
  }

  lemma BitMask(w: bv32, k: bv6)
    requires k < 32
    ensures Bit(w, k) <==> w & (1 << k) != 0
  {
  }

  /** Frame `i` is used exactly when word i / 32 has the bit with the value 2^(i mod 32). */
  lemma UsedIff(words: seq<bv32>, i: nat, k: bv6)
    requires i / 32 < |words| && k < 32 && k as int == i % 32
    ensures i in UsedIn(words) <==> words[i / 32] & Two(k) != 0
  {
    hide Bit;
    OffsetValue(i);
    assert Offset(i) == k;
    TwoIsShift(k);
    BitMask(words[i / 32], k);
  }

  // ---- the allocator on sets ----

  /** The least frame from `i` on that is not used, or `blocks`. */
  function LeastFree(used: set<nat>, blocks: nat, i: nat): (r: nat)
    requires i <= blocks
    ensures i <= r <= blocks
    ensures r < blocks ==> r !in used
    ensures forall k :: i <= k < r ==> k in used
    decreases blocks - i
  {
    if i == blocks || i !in used then i else LeastFree(used, blocks, i + 1)
  }

  class PhysicalMemoryManager {
    const words: array<bv32>
    var blockUsed: int
    var failed: bool

    function Blocks(): nat {
      32 * words.Length
    }

    ghost function Used(): set<nat>
      reads words
    {
      UsedIn(words[..])
    }

    /** `physical_memory_manager_init` for a memory of `memorySize` bytes. */
    constructor (memorySize: nat)
      requires memorySize < WORD
      ensures fresh(words) && words.Length == memorySize / PAGE / 32
      ensures Used() == {} && blockUsed == 0 && !failed
    {
      words := new bv32[memorySize / PAGE / 32](_ => 0);
      blockUsed, failed := 0, false;
      new;
      forall i: nat | i < 32 * words.Length
        ensures !TakenIn(words[..], i)
      {
        ZeroBit(Offset(i));
      }
    }

    static lemma ZeroBit(k: bv6)
      requires k < 32
      ensures !Bit(0, k)
    {
    }

    method FirstFree() returns (found: bool, out: nat)
      ensures var r := LeastFree(Used(), Blocks(), 0);
              found == (r < Blocks()) && (found ==> out == r)
    {
      var i := 0;
      out := 0;
      while i < Blocks()
        invariant 0 <= i <= Blocks()
        invariant LeastFree(Used(), Blocks(), i) == LeastFree(Used(), Blocks(), 0)
      {
        if !Bit(words[i / 32], Offset(i)) {
          assert !TakenIn(words[..], i);
          return true, i;
        }
        assert TakenIn(words[..], i);
        i := i + 1;
      }
      found := false;
    }

    /** Takes the least free frame, or fails exactly when every frame is used. */
    method AllocateBlock() returns (r: nat)
      modifies words, this`blockUsed
      ensures var free := LeastFree(old(Used()), Blocks(), 0);
              if free < Blocks()
              then r == free && Used() == old(Used()) + {r} && blockUsed == (old(blockUsed) + 1) % WORD
              else r == FAILED && Used() == old(Used()) && blockUsed == old(blockUsed)
    {
      var found, free := FirstFree();
      if found {
        SetOne(words[..], free);
        ghost var next := words[..][free / 32 := WithBit(words[free / 32], Offset(free))];
        words[free / 32] := WithBit(words[free / 32], Offset(free));
        assert words[..] == next;
        blockUsed := (blockUsed + 1) % WORD;
        return free;
      }
      return FAILED;
    }

    method FreeBlock(block: nat)
      requires block < Blocks()
      modifies words, this`blockUsed
      ensures Used() == old(Used()) - {block} && blockUsed == (old(blockUsed) - 1) % WORD
    {
      ClearOne(words[..], block);
      ghost var next := words[..][block / 32 := WithoutBit(words[block / 32], Offset(block))];
      words[block / 32] := WithoutBit(words[block / 32], Offset(block));
      assert words[..] == next;
      blockUsed := (blockUsed - 1) % WORD;
    }

    /** `physical_memory_manager_is_valid_block`. */
    predicate IsValidBlock(block: nat) {
      block / 32 < words.Length
    }

    /** A failed allocation never passes the validity check, whatever the memory size. */
    lemma FailedIsInvalid(memorySize: nat)
      requires memorySize < WORD && words.Length == memorySize / PAGE / 32
      ensures !IsValidBlock(FAILED) && forall i: nat :: i < Blocks() ==> IsValidBlock(i)
    {
    }
  }

  /** Freeing a frame that was just allocated restores the bitmap word for word. */
  lemma FreeUndoesAllocate(words: seq<bv32>, i: nat)
    requires i / 32 < |words| && !TakenIn(words, i)
    ensures var taken := words[i / 32 := WithBit(words[i / 32], Offset(i))];
            taken[i / 32 := WithoutBit(taken[i / 32], Offset(i))] == words
  {
    ClearOfSet(words[i / 32], Offset(i));
  }

  lemma ClearOfSet(w: bv32, k: bv6)
    requires k < 32 && !Bit(w, k)
    ensures WithoutBit(WithBit(w, k), k) == w
  {
  }
}
