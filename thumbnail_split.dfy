/**
 * The static work partitioning of multiprocess_thumbnail_generation.py: the
 * list of image files is cut into one contiguous slice per processor, each
 * of at most `images_per_process` files, and each slice goes to one worker.
 */
module ThumbnailSplit {

  /**
   * images_per_process: the image count divided by the processor count,
   * rounded down, plus one. It is the least chunk size for which
   * `processorCount` chunks hold every image.
   */
  function ImagesPerProcess(imageCount: nat, processorCount: nat): (k: nat)
    requires processorCount >= 1
    ensures k >= 1
    ensures processorCount * k > imageCount
    ensures processorCount * (k - 1) <= imageCount
  {
    imageCount / processorCount + 1
  }

  /** A slice bound as Python clamps it: an index past the end means the end. */
  function Clamp(x: nat, n: nat): (c: nat)
  {
    if x <= n then x else n
  }

  /**
   * Reference definition of worker i's share: the files whose positions lie
   * in [i*k, (i+1)*k), as far as they exist.
   */
  function Chunk<T>(files: seq<T>, k: nat, i: nat): (c: seq<T>)
  {
    assert i * k <= (i + 1) * k;
    files[Clamp(i * k, |files|)..Clamp((i + 1) * k, |files|)]
  }

  /** The partition the splitting loop is meant to produce: one chunk per processor. */
  function Split<T>(files: seq<T>, processorCount: nat): (ss: seq<seq<T>>)
    requires processorCount >= 1
  {
    var k := ImagesPerProcess(|files|, processorCount);
    seq(processorCount, i requires 0 <= i < processorCount => Chunk(files, k, i))
  }

  /** The subsets laid end to end, in worker order. */
  function Flatten<T>(subsets: seq<seq<T>>): (r: seq<T>)
  {
    if subsets == [] then [] else Flatten(subsets[..|subsets| - 1]) + subsets[|subsets| - 1]
  }

  /**
   * The loop of `__main__` that hands each of `processorCount` processes its
   * image_file_subset; the list it builds stands for the subsets passed to
   * the spawned processes, in spawn order.
   */
  method SplitWork<T>(imageFiles: seq<T>, processorCount: nat) returns (subsets: seq<seq<T>>)
    requires processorCount >= 1
    ensures subsets == Split(imageFiles, processorCount)
    ensures |subsets| == processorCount
    ensures Flatten(subsets) == imageFiles
    ensures forall i :: 0 <= i < |subsets| ==> |subsets[i]| <= ImagesPerProcess(|imageFiles|, processorCount)
  {
    var imagesPerProcess := ImagesPerProcess(|imageFiles|, processorCount);
    subsets := [];
    for i := 0 to processorCount
      invariant subsets == Split(imageFiles, processorCount)[..i]
    {
      var imageFileSubset;
      if (i + 1) * imagesPerProcess > |imageFiles| {
        imageFileSubset := imageFiles[Clamp(i * imagesPerProcess, |imageFiles|)..];
      } else {
        imageFileSubset := imageFiles[i * imagesPerProcess..(i + 1) * imagesPerProcess];
      }
      assert i * imagesPerProcess <= (i + 1) * imagesPerProcess;
      assert imageFileSubset == Chunk(imageFiles, imagesPerProcess, i);
      subsets := subsets + [imageFileSubset];
    }
    FlattenSplit(imageFiles, processorCount);
    forall i | 0 <= i < |subsets|
      ensures |subsets[i]| <= imagesPerProcess
    {
      ChunkAtMostK(imageFiles, processorCount, i);
    }
  }

  /** No chunk is longer than images_per_process. */
  lemma ChunkAtMostK<T>(files: seq<T>, processorCount: nat, i: nat)
    requires processorCount >= 1 && i < processorCount
    ensures |Split(files, processorCount)[i]| <= ImagesPerProcess(|files|, processorCount)
  {
    var k := ImagesPerProcess(|files|, processorCount);
    assert (i + 1) * k == i * k + k;
  }

  /** The first i chunks of size k, laid end to end, are the files before position i*k. */
  lemma {:induction false} FlattenPrefix<T>(files: seq<T>, k: nat, ss: seq<seq<T>>, i: nat)
    requires i <= |ss|
    requires forall j :: 0 <= j < |ss| ==> ss[j] == Chunk(files, k, j)
    ensures Flatten(ss[..i]) == files[..Clamp(i * k, |files|)]
  {
    if i > 0 {
      FlattenPrefix(files, k, ss, i - 1);
      var lo, hi := (i - 1) * k, i * k;
      assert hi == lo + k;
      assert ss[..i][..i - 1] == ss[..i - 1];
      assert ss[i - 1] == files[Clamp(lo, |files|)..Clamp(hi, |files|)];
      assert Flatten(ss[..i]) == Flatten(ss[..i - 1]) + ss[i - 1];
      assert files[..Clamp(lo, |files|)] + files[Clamp(lo, |files|)..Clamp(hi, |files|)]
          == files[..Clamp(hi, |files|)];
    }
  }

  /** Every file goes to exactly one worker, in order: the chunks concatenate back to the list. */
  lemma FlattenSplit<T>(files: seq<T>, processorCount: nat)
    requires processorCount >= 1
    ensures Flatten(Split(files, processorCount)) == files
  {
    var ss := Split(files, processorCount);
    var k := ImagesPerProcess(|files|, processorCount);
    FlattenPrefix(files, k, ss, processorCount);
    assert ss[..processorCount] == ss;
  }

  /** Position j of the file list falls in worker v's slice [v*k, (v+1)*k). */
  predicate Owns(n: nat, k: nat, v: nat, j: nat)
  {
    Clamp(v * k, n) <= j < Clamp((v + 1) * k, n)
  }

  /**
   * Every position j of the file list is handed to exactly one worker, the
   * worker j / k, which holds that file at offset j - (j / k) * k of its subset.
   */
  lemma ImageOwner<T>(files: seq<T>, processorCount: nat, j: nat)
    requires processorCount >= 1 && j < |files|
    ensures var k := ImagesPerProcess(|files|, processorCount);
      && j / k < processorCount
      && (forall v :: 0 <= v < processorCount ==> (Owns(|files|, k, v, j) <==> v == j / k))
      && Split(files, processorCount)[j / k][j - (j / k) * k] == files[j]
  {
    var n, k := |files|, ImagesPerProcess(|files|, processorCount);
    var w := j / k;
    DivBounds(j, k);
    if w >= processorCount {
      MulMonotone(w, processorCount, k);
    }
    var lo, hi := w * k, (w + 1) * k;
    forall v | 0 <= v < processorCount
      ensures Owns(n, k, v, j) <==> v == w
    {
      var vlo, vhi := v * k, (v + 1) * k;
      if v < w {
        MulMonotone(w, v + 1, k);
        assert vhi <= lo;
      } else if v > w {
        MulMonotone(v, w + 1, k);
        assert vlo >= hi;
      }
      OwnsBetween(n, k, v, j, vlo, vhi);
    }
    ChunkAt(files, k, w, lo, hi);
    assert Split(files, processorCount)[w] == files[lo..Clamp(hi, n)];
  }

  /** Ownership of position j, with worker v's two bounds named. */
  lemma OwnsBetween(n: nat, k: nat, v: nat, j: nat, lo: nat, hi: nat)
    requires lo == v * k && hi == (v + 1) * k && j < n
    ensures Owns(n, k, v, j) <==> lo <= j < hi
  {
  }

  /**
   * With at least one file, the chunk `last` = (n-1)/k holds the last file:
   * every chunk before it is full, it is non-empty and runs to the end of the
   * list, and every chunk after it is empty.
   */
  lemma ChunkShape<T>(files: seq<T>, processorCount: nat, i: nat)
    requires processorCount >= 1 && |files| > 0 && i < processorCount
    ensures var k := ImagesPerProcess(|files|, processorCount);
      var last := (|files| - 1) / k;
      var chunk := Split(files, processorCount)[i];
      && last < processorCount
      && (i < last ==> |chunk| == k)
      && (i == last ==> |chunk| >= 1 && chunk == files[last * k..])
      && (i > last ==> chunk == [])
  {
    var n, k := |files|, ImagesPerProcess(|files|, processorCount);
    var last := (n - 1) / k;
    DivBounds(n - 1, k);
    if last >= processorCount {
      MulMonotone(last, processorCount, k);
    }
    var lo, hi, lastLo := i * k, (i + 1) * k, last * k;
    assert hi == lo + k;
    assert lastLo <= n - 1 < lastLo + k;
    if i < last {
      MulMonotone(last, i + 1, k);
      assert hi <= lastLo;
    } else if i > last {
      MulMonotone(i, last + 1, k);
      assert lo >= lastLo + k;
    }
    assert Split(files, processorCount)[i] == Chunk(files, k, i);
    SliceShape(files, k, i, last, lo, hi, lastLo);
  }

  /** The shape of one chunk, from linear facts about its bounds. */
  lemma SliceShape<T>(files: seq<T>, k: nat, i: nat, last: nat, lo: nat, hi: nat, lastLo: nat)
    requires lo == i * k && hi == (i + 1) * k && lastLo == last * k
    requires hi == lo + k && lastLo <= |files| - 1 < lastLo + k
    requires i < last ==> hi <= lastLo
    requires i == last ==> lo == lastLo
    requires i > last ==> lo >= lastLo + k
    ensures i < last ==> |Chunk(files, k, i)| == k
    ensures i == last ==> |Chunk(files, k, i)| >= 1 && Chunk(files, k, i) == files[lastLo..]
    ensures i > last ==> Chunk(files, k, i) == []
  {
    ChunkAt(files, k, i, lo, hi);
  }

  /** Worker i's chunk, with its two bounds named. */
  lemma ChunkAt<T>(files: seq<T>, k: nat, i: nat, lo: nat, hi: nat)
    requires lo == i * k && hi == (i + 1) * k && lo <= hi
    ensures Chunk(files, k, i) == files[Clamp(lo, |files|)..Clamp(hi, |files|)]
  {
  }

  lemma DivBounds(j: nat, k: nat)
    requires k >= 1
    ensures (j / k) * k <= j < (j / k + 1) * k
  {
    assert j == k * (j / k) + j % k;
  }

  lemma MulMonotone(a: nat, b: nat, k: nat)
    requires b <= a
    ensures b * k <= a * k
  {
  }
}
