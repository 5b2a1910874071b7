# Work splitting and factorial workloads of concurrent-programming-python

The repository is a set of teaching scripts about Python threads and processes.
Almost all of it is about spawning, joining, locks, pipes and queues. This project
models the sequential logic that those scripts hand to their workers:

- **Static work partitioning** (`multiprocess_thumbnail_generation.py`). A list of
  `n` image files is split across `processor_count` processes. Each process gets
  at most `images_per_process = n / processor_count + 1` files; the processes after
  the one holding the last file get fewer or none. Process `i` gets the slice
  `image_files[i*k:(i+1)*k]`, and the slice is clamped to the end of the list.
  Module `ThumbnailSplit` (`thumbnail_split.dfy`) has three parts:
  - `SplitWork` is the splitting loop of `__main__`, taken out of it. It builds
    the list of subsets, one per process, in spawn order.
  - `Split` and `Chunk` give the partition that loop is proved against.
  - Lemmas prove that every file goes to exactly one worker, in order, and that
    no chunk is longer than `images_per_process`.
- **CPU-bound workloads.** Two scripts compute factorials with an accumulator loop:
  - `cpu_bound_operation.py`, modelled in module `CpuBound`, computes `number!`.
  - `multiprocessing_multithreading_comparison.py`, modelled in module
    `MultiprocessingComparison`, loops over `range(1, number)` and so computes
    `(number-1)!`.

  Both methods are proved against the recursive `Factorial.Fact`.

Python's integers are unbounded, so Dafny's `int` and `nat` model them exactly.
Python lists are modelled as `seq`. A Python slice is a copy. Likewise a `seq` is
a value that no operation can change. So splitting leaves the file list unchanged
by construction, and no lemma is needed for it.

## Model

| member | source | states |
|---|---|---|
| ThumbnailSplit.ImagesPerProcess | multiprocess_thumbnail_generation.py:53 | for at least one processor the chunk size is at least 1, `processor_count` chunks of it exceed the image count, and it is the least size that does (`p*(k-1) <= n`) |
| ThumbnailSplit.SplitWork | multiprocess_thumbnail_generation.py:58-69 | the loop yields exactly `processor_count` subsets; subset `i` is the slice `[i*k, (i+1)*k)` clamped to the list, the Python branch included (the tail `files[i*k:]` when `(i+1)*k > n`); the subsets concatenate back to the input list; none is longer than `k` |
| ThumbnailSplit.ChunkAtMostK | multiprocess_thumbnail_generation.py:61-66 | every subset has at most `images_per_process` files |
| ThumbnailSplit.FlattenSplit | multiprocess_thumbnail_generation.py:53-66 | concatenating subsets `0..p-1` in order gives back the file list: no file is lost, duplicated or reordered |
| ThumbnailSplit.FlattenPrefix | multiprocess_thumbnail_generation.py:60-66 | the first `i` subsets together are exactly the files before position `min(i*k, n)` |
| ThumbnailSplit.ImageOwner | multiprocess_thumbnail_generation.py:53-66 | each file position `j` lies in the slice of exactly one worker, `j / k`, which is below `processor_count`, and that worker's subset holds the file at offset `j - (j/k)*k` |
| ThumbnailSplit.ChunkShape | multiprocess_thumbnail_generation.py:61-66 | with `n >= 1`, take the worker `(n-1)/k` that holds the last file. It is below `processor_count`. Every subset before it has exactly `k` files. Its own subset is non-empty and is the tail from `last*k`. Every subset after it is empty |
| Factorial.Fact | cpu_bound_operation.py:12-16 | the reference factorial `1*2*...*n` is never below 1 |
| Factorial.FactRecurrence | cpu_bound_operation.py:14-15 | `(n+1)! == (n+1) * n!`, the step each iteration of the accumulator loop takes |
| Factorial.FactMultiple | cpu_bound_operation.py:14-15 | for every `d` in `1..n`, `n!` is `d` times some natural number |
| Factorial.FactDivisible | cpu_bound_operation.py:14-15 | every integer in `1..n` divides `n!` with remainder 0 |
| Factorial.FactIncreasing | multiprocessing_multithreading_comparison.py:24-25 | `(n-1)! < n!` for `n >= 2`, so dropping the last factor changes the result |
| CpuBound.CalculateFactorial | cpu_bound_operation.py:12-16 | the result is `number!` for `number >= 0`. It is 1 when `number <= 0`, because the range is empty. It is always at least 1. Every integer in `1..number` divides it. The loop invariant is that after the iteration with value `n` the accumulator is `n!` |
| MultiprocessingComparison.CompareWithCpuBound | multiprocessing_multithreading_comparison.py:21-26 | for every `number >= 1`, this script's `calculate_factorial(number)` returns what `cpu_bound_operation.calculate_factorial(number - 1)` returns (cpu_bound_operation.py:12-16) |
| MultiprocessingComparison.CalculateFactorial | multiprocessing_multithreading_comparison.py:21-26 | the result is `(number-1)!` for `number >= 1`, the product of `range(1, number)`. It is 1 for every `number <= 2`. It is always at least 1. For `number >= 2` it is strictly smaller than `number!`. The loop invariant is that after the iteration with value `i`, `fact` is `i!` |

## Findings

| source | as written | input that shows it | evidently intended | confidence | as-written member | corrected member |
|---|---|---|---|---|---|---|
| multiprocessing_multithreading_comparison.py:24 | `for i in range(1, number)` multiplies `1..number-1`, giving `(number-1)!` | `number = 3` gives 2, not `3! = 6` | `calculate_factorial(number)` returns `number!`, like the function of the same name in cpu_bound_operation.py:12-16 | medium: the script uses the value only as CPU load, so the difference has no visible effect; not executed | MultiprocessingComparison.CalculateFactorial (its `number >= 2 ==> fact < Fact(number)` clause, via Factorial.FactIncreasing) | CpuBound.CalculateFactorial |

## Left out

- Process and thread spawning, `start`/`join`, and the `multiprocessing.Process` per
  subset. `SplitWork` returns the subsets in the order the processes would receive them.
- `create_thumbnail`, PIL image work, `glob`, `os.path` name derivation and the
  `os.unlink` cleanup. These are file and image I/O.
- `multiprocessing.cpu_count()` becomes the parameter `processorCount`. It is at
  least 1, which is the only precondition the split needs.
- ThumbnailSplit.ImagesPerProcess: `(int)(len(image_files) / processor_count)` is a
  float division followed by truncation. The model uses integer floor division.
  The two agree for non-negative counts below 2^53.
- The `print` of the process name and PID at multiprocessing_multithreading_comparison.py:22,
  all other output, `argparse`, and the `time.time()` timing, which uses floats.
- The other scripts (locks, shared `Value`/`Array`, pipes, queues, producer/consumer,
  worker pools, network downloads). They show concurrency primitives and have no
  sequential core.
- The producer/consumer and message-passing scripts. producer_consumer_pattern.py
  hands items over through a bare list with `threading.Event`, and
  producer_consumer_queue.py and message_passing_with_queue.py use the library
  `queue.Queue` and `multiprocessing.Queue`. Their behaviour is the library's
  synchronisation, so none of them is modelled.
