/** Where the blocks of a file lie: `_file_lba` of src/udfread.c. */
module FileMap {
  import opened Bytes
  import opened Records

  /** An extent whose blocks are read from the disc; every other extent reads as zeros. */
  predicate Recorded(ad: LongAd) { ad.extentType == EXTENT_NORMAL && ad.lba != 0 }

  /** Address of block `j` of an extent. */
  function AdLba(ad: LongAd, base: u32, j: nat): int {
    if Recorded(ad) then Wrap32(base + ad.lba + j) else 0
  }

  function AdBlocks(ad: LongAd, base: u32): (s: seq<int>)
    ensures |s| == BlocksFor(ad.length)
    ensures forall j :: 0 <= j < |s| ==> s[j] == AdLba(ad, base, j)
  {
    seq(BlocksFor(ad.length), j requires 0 <= j => AdLba(ad, base, j))
  }

  /** The file's blocks laid end to end: absolute address of each, 0 where nothing is recorded. */
  function BlockMap(ads: seq<LongAd>, base: u32): seq<int> {
    if ads == [] then [] else AdBlocks(ads[0], base) + BlockMap(ads[1..], base)
  }

  /** Address of block `b`; 0 also past the last descriptor. */
  function LbaOf(ads: seq<LongAd>, base: u32, b: nat): int {
    var m := BlockMap(ads, base);
    if b < |m| then m[b] else 0
  }

  lemma {:induction false} BlockMapSplit(ads: seq<LongAd>, base: u32, i: nat)
    requires i < |ads|
    ensures BlockMap(ads[..i + 1], base) == BlockMap(ads[..i], base) + AdBlocks(ads[i], base)
    ensures BlockMap(ads[..i + 1], base) <= BlockMap(ads, base)
  {
    if i == 0 {
      assert ads[..1][1..] == [];
      assert ads[..1] == [ads[0]];
    } else {
      BlockMapSplit(ads[1..], base, i - 1);
      assert ads[..i + 1][1..] == ads[1..][..i];
      assert ads[..i][1..] == ads[1..][..i - 1];
    }
  }

  /** A block is mapped by the descriptor whose share of the map it falls into. */
  lemma {:induction false} LbaInside(ads: seq<LongAd>, base: u32, i: nat, b: nat)
    requires i < |ads|
    requires |BlockMap(ads[..i], base)| <= b < |BlockMap(ads[..i + 1], base)|
    ensures LbaOf(ads, base, b) == AdLba(ads[i], base, b - |BlockMap(ads[..i], base)|)
  {
    BlockMapSplit(ads, base, i);
    assert BlockMap(ads, base)[b] == BlockMap(ads[..i + 1], base)[b];
  }

  ghost predicate EndsExtentAt(ads: seq<LongAd>, base: u32, b: nat, run: nat, i: nat)
    requires i < |ads|
  {
    |BlockMap(ads[..i], base)| <= b < |BlockMap(ads[..i + 1], base)| == b + run
  }

  /** `b + run` ends the descriptor that holds block `b`. */
  ghost predicate EndsExtent(ads: seq<LongAd>, base: u32, b: nat, run: nat) {
    exists i :: 0 <= i < |ads| && EndsExtentAt(ads, base, b, run, i)
  }

  /** `_file_lba`: the address of a file block and the number of blocks from it
      to the end of its extent (meaningful when the address is not 0). */
  method FileLba(ads: seq<LongAd>, base: u32, fileBlock: u32) returns (lba: u32, run: nat)
    ensures lba == LbaOf(ads, base, fileBlock)
    ensures lba != 0 ==> 1 <= run <= 0x8_0000 && EndsExtent(ads, base, fileBlock, run)
  {
    var rest: int := fileBlock;
    for i := 0 to |ads|
      invariant rest + |BlockMap(ads[..i], base)| == fileBlock
      invariant rest >= 0
    {
      BlockMapSplit(ads, base, i);
      var adSize := (ads[i].length + 2047) / 2048;
      if rest < adSize {
        LbaInside(ads, base, i, fileBlock);
        if ads[i].extentType != EXTENT_NORMAL { return 0, 0; }
        if ads[i].lba == 0 { return 0, 0; }
        run := adSize - rest;
        lba := Wrap32(base + ads[i].lba + rest);
        assert EndsExtentAt(ads, base, fileBlock, run, i);
        return;
      }
      rest := rest - adSize;
    }
    assert ads[..|ads|] == ads;
    return 0, 0;
  }

  /** Only the first block of a recorded extent may have an address sum that is 0 in 32 bits. */
  ghost predicate NoZeroInside(ads: seq<LongAd>, base: u32) {
    forall i, j :: 0 <= i < |ads| && Recorded(ads[i]) && 0 < j < BlocksFor(ads[i].length) ==>
      AdLba(ads[i], base, j) != 0
  }

  /** A run of blocks has the addresses that its blocks have one by one. */
  ghost predicate RunAgrees(ads: seq<LongAd>, base: u32, b: nat, run: nat) {
    LbaOf(ads, base, b) + run <= TWO_32
    && forall k :: b <= k < b + run ==> LbaOf(ads, base, k) == LbaOf(ads, base, b) + (k - b)
  }

  lemma {:induction false} AddressesCount(ad: LongAd, base: u32, j: nat, n: nat)
    requires Recorded(ad) && AdLba(ad, base, j) != 0
    requires forall k :: j < k <= j + n ==> AdLba(ad, base, k) != 0
    ensures AdLba(ad, base, j + n) == AdLba(ad, base, j) + n < TWO_32
  {
    if n > 0 { AddressesCount(ad, base, j, n - 1); }
  }

  /** A mapped block and the blocks after it in its extent are consecutive on the disc. */
  lemma {:induction false} ExtentIsConsecutive(ads: seq<LongAd>, base: u32, b: nat, run: nat)
    requires NoZeroInside(ads, base) && LbaOf(ads, base, b) != 0 && EndsExtent(ads, base, b, run)
    ensures RunAgrees(ads, base, b, run)
  {
    var i :| 0 <= i < |ads| && EndsExtentAt(ads, base, b, run, i);
    var start := |BlockMap(ads[..i], base)|;
    BlockMapSplit(ads, base, i);
    LbaInside(ads, base, i, b);
    forall k | b <= k < b + run
      ensures LbaOf(ads, base, k) == LbaOf(ads, base, b) + (k - b) < TWO_32
    {
      LbaInside(ads, base, i, k);
      AddressesCount(ads[i], base, b - start, k - b);
    }
    assert LbaOf(ads, base, b + run - 1) < TWO_32;
  }

  /** If a block inside an extent has address 0, the run from the block before it disagrees. */
  lemma ZeroInsideDisagrees(ads: seq<LongAd>, base: u32, i: nat, j: nat)
    requires i < |ads| && Recorded(ads[i]) && 0 < j < BlocksFor(ads[i].length) && AdLba(ads[i], base, j) == 0
    ensures var b := |BlockMap(ads[..i], base)| + j - 1;
            var run := BlocksFor(ads[i].length) - (j - 1);
            LbaOf(ads, base, b) != 0 && EndsExtent(ads, base, b, run) && !RunAgrees(ads, base, b, run)
  {
    var start := |BlockMap(ads[..i], base)|;
    BlockMapSplit(ads, base, i);
    LbaInside(ads, base, i, start + j - 1);
    LbaInside(ads, base, i, start + j);
    assert EndsExtentAt(ads, base, start + j - 1, BlocksFor(ads[i].length) - (j - 1), i);
  }

  /** Every run that `_file_lba` can report agrees with its single blocks. */
  ghost predicate AllRunsAgree(ads: seq<LongAd>, base: u32) {
    forall b: nat, run: nat :: LbaOf(ads, base, b) != 0 && EndsExtent(ads, base, b, run) ==>
      RunAgrees(ads, base, b, run)
  }

  /** Reading in runs is the same as reading block by block exactly if no address sum
      inside an extent wraps to 0. */
  lemma {:induction false} RunsAgreeIff(ads: seq<LongAd>, base: u32)
    ensures AllRunsAgree(ads, base) <==> NoZeroInside(ads, base)
  {
    if NoZeroInside(ads, base) {
      forall b: nat, run: nat | LbaOf(ads, base, b) != 0 && EndsExtent(ads, base, b, run)
        ensures RunAgrees(ads, base, b, run)
      {
        ExtentIsConsecutive(ads, base, b, run);
      }
    } else {
      var i, j :| 0 <= i < |ads| && Recorded(ads[i]) && 0 < j < BlocksFor(ads[i].length) && AdLba(ads[i], base, j) == 0;
      ZeroInsideDisagrees(ads, base, i, j);
    }
  }

  /** A file for which they differ: block 1 wraps to address 0 and is taken for a hole,
      while the run from block 0 covers it. */
  lemma WrappedBlockLooksLikeAHole()
    ensures var ads := [LongAd(0xFFFF_FFFE, 4096, 0, EXTENT_NORMAL)];
            && LbaOf(ads, 1, 0) == 0xFFFF_FFFF && LbaOf(ads, 1, 1) == 0
            && EndsExtent(ads, 1, 0, 2) && !RunAgrees(ads, 1, 0, 2)
  {
    var ads := [LongAd(0xFFFF_FFFE, 4096, 0, EXTENT_NORMAL)];
    assert ads[1..] == [] && ads[..0] == [] && ads[..1] == ads;
    assert BlockMap([], 1) == [];
    assert BlockMap(ads, 1) == AdBlocks(ads[0], 1);
    assert EndsExtentAt(ads, 1, 0, 2, 0);
  }
}
