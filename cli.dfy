/** The console front end: the name it saves to and the percentage its `urlretrieve`
    progress hook prints. */
module Cli {
  import opened Common
  import Naming

  /** The CLI's name for the saved file: no separator, every other title character kept
      in place, then `.mp3`; the same name the GUI builds. */
  function FileName(title: string): (r: string)
    ensures '/' !in r
    ensures |r| == |title| + |Naming.AudioExtension|
    ensures EndsWith(r, Naming.AudioExtension)
    ensures forall i :: 0 <= i < |title| ==> r[i] == (if title[i] == '/' then '_' else title[i])
    ensures r == Naming.FileName(title)
  {
    Naming.FileNameRule(title);
    Naming.Replace(title, '/', '_') + Naming.AudioExtension
  }

  /** The hook's estimate of the bytes received after `blockNum` blocks. */
  function Downloaded(blockNum: nat, blockSize: nat): nat
  {
    blockNum * blockSize
  }

  /** On the call for the last block the estimate reaches the total and overshoots it by
      less than one block; on the call before it, the estimate is still short of the total. */
  lemma LastBlockOvershoot(totalSize: nat, blockSize: nat)
    requires totalSize > 0 && blockSize > 0
    ensures var last := (totalSize + blockSize - 1) / blockSize;
            last > 0 &&
            totalSize <= Downloaded(last, blockSize) < totalSize + blockSize &&
            Downloaded(last - 1, blockSize) < totalSize
  {
    var a := totalSize + blockSize - 1;
    var last := a / blockSize;
    assert last * blockSize <= a < last * blockSize + blockSize;
    assert (last - 1) * blockSize == last * blockSize - blockSize;
  }

  /** `min(downloaded / total_size * 100, 100)` in exact arithmetic; `None` is the division by
      zero a total of 0 raises. */
  function Percent(blockNum: nat, blockSize: nat, totalSize: int): (r: Option<real>)
    ensures r.None? <==> totalSize == 0
    ensures r.Some? ==> r.value <= 100.0
  {
    if totalSize == 0 then None
    else
      var exact := (Downloaded(blockNum, blockSize) as real) / (totalSize as real) * 100.0;
      Some(if exact <= 100.0 then exact else 100.0)
  }

  lemma RealDivMono(a: real, b: real, t: real)
    requires a <= b && t > 0.0
    ensures a / t <= b / t
  {
    assert b / t - a / t == (b - a) / t;
  }

  /** Once the estimate reaches a positive total the hook prints exactly 100. */
  lemma PercentFull(blockNum: nat, blockSize: nat, totalSize: int)
    requires 0 < totalSize <= Downloaded(blockNum, blockSize)
    ensures Percent(blockNum, blockSize, totalSize) == Some(100.0)
  {
    var d, t := Downloaded(blockNum, blockSize) as real, totalSize as real;
    RealDivMono(t, d, t);
    assert t / t == 1.0;
  }

  /** For a fixed block size and a positive total the printed percentage never decreases. */
  lemma PercentMonotone(n1: nat, n2: nat, blockSize: nat, totalSize: int)
    requires n1 <= n2 && totalSize > 0
    ensures Percent(n1, blockSize, totalSize).value <= Percent(n2, blockSize, totalSize).value
  {
    assert Downloaded(n1, blockSize) <= Downloaded(n2, blockSize) by {
      assert n2 * blockSize == n1 * blockSize + (n2 - n1) * blockSize;
    }
    RealDivMono(Downloaded(n1, blockSize) as real, Downloaded(n2, blockSize) as real, totalSize as real);
  }

  /** Only the upper clamp exists: a negative total (an unknown size) gives a percentage
      that is never positive, and below zero as soon as a byte is counted. */
  lemma NegativeTotalUnguarded(blockNum: nat, blockSize: nat, totalSize: int)
    requires totalSize < 0
    ensures Percent(blockNum, blockSize, totalSize).value <= 0.0
    ensures Downloaded(blockNum, blockSize) > 0 ==> Percent(blockNum, blockSize, totalSize).value < 0.0
  {
    var d, t := Downloaded(blockNum, blockSize) as real, totalSize as real;
    assert d / t == -(d / -t);
    if d > 0.0 {
      assert d / -t > 0.0;
    }
  }
}
