# Verification model of sysmon

sysmon is a terminal monitor for Linux. This project models, in Dafny 4.11, the parts of it in which
numbers can go wrong, and proves what a user may rely on when reading them:

* the **block I/O latency tracker**: two tracepoint handlers that run on many CPUs and match the issue
  of a request to its completion through a bounded hash map with lossy keys (`Buckets`, `Tracker`); the
  histogram they add to while the program reads it and zeroes it slot by slot, without a lock (`Race`,
  `Loader`);
  its rendering (`Render`); and the whole path of a latency from the tracepoint to the screen (`Pipeline`);
* the **sampling loop** and its rates: unsigned 64-bit counters that wrap, joins of two samples by name,
  and what the displayed percentages and rates add up to over any number of ticks (`Cpu`, `Net`,
  `Monitor`, with `Join`, `Reals` and `Words` underneath);
* the **parsers** for /proc/stat, /proc/net/dev, /proc/meminfo and /proc/diskstats (`ProcStat`, `ProcNet`,
  `ProcMem`, `ProcDisk`, over the Go string functions in `Text` and the kernel's device names in
  `Devices`), and the unit scaling (`Units`).

`dafny verify dfyconfig.toml` checks everything.

## How the model reads the code

* The tracker is a transition system over runs of issues and completions with a monotone clock. Each
  handler is one atomic step; every map operation is atomic; updating a present key always succeeds, and
  inserting a new one into a full map fails and changes nothing. A request carries the time it was really
  issued, so "its own latency" means something even when the tracker never saw the issue. The key is
  kept as an abstract value; only `Buckets.PackKey` and the lemmas about it look at its bits.
* `Race` takes the histogram at the grain of single map operations: every interleaving of increments with
  the loop's lookups and puts is a run, including lookups that miss or fail and puts that fail. The class
  `Loader.Collector` performs the loops of the loader in any environment: what other CPUs do before each
  operation, and how the operation ends, are given as `Loader.Turn`s. It records the run.
* 64-bit arithmetic is written out (`Words`). Where the source divides floating-point numbers the model
  divides exact reals.
* What a run says about one histogram slot (how many samples landed, were displayed, lost, or are in no
  display so far) is defined from the run alone; the ledger `Race.Book` serves the proofs, and counts repeats and wraps.
* `Pipeline` runs both together: handlers, the increments they still owe, and the loop, interleaved at
  will. A handler is one step up to its increment, which lands at any later time.
* A block device is a disk of one of the kernel's naming families (`Devices.Disk`), or a numbered partition
  of one. The family decides the name, and whether the disk is virtual: whether other devices or memory
  carry out its I/O. Only a disk of an unlisted family has to be told to be virtual.
* A /proc file is a sequence of lines, a line a sequence of Unicode characters.

## Where the code and its comments differ

* `internal/ebpf/block_latency.c:53-55` says that aliasing gives a missed sample rather than incorrect data.
  The first completion on a shared key is measured from the later issue, so a latency is recorded that no
  request had: `Tracker.AliasingRecordsAFalseLatency`, and `Tracker.AttachRecordsAFalseLatency` for a request
  that was in flight at attach. `Tracker.NoFalseSampleIff` says exactly when the promise is kept. What
  holds for all runs is `Tracker.AliasingUnderReports`, and over a whole run `Tracker.AliasingOnlyHides`.
* Every bucket label gives an upper bound, but the last bucket is open-ended: `Buckets.LabelIffBucket`, with
  an example in `Buckets.LastLabelCanBeWrong`.
* `internal/stats/cpu.go:119-120` asks for samples in matching order; the code joins by name, and order is
  irrelevant for unique names: `Cpu.PercentsIgnoreOrder`. Because its subtractions are unsigned, a
  percentage is in range only under the condition of `Cpu.PercentInRangeIff`, and
  `Cpu.PercentCanLeaveRange` is a sample pair that violates it.
* `internal/stats/disk.go:49-50` and `:105-106` promise whole disks only, without partitions or virtual
  devices. `ProcDisk.NoDoubleCountingIff` says for which families of devices that is so. MD arrays and
  compressed RAM disks are returned beside what carries out their I/O (`ProcDisk.MdArrayIsDoubled`), and
  eMMC partitions beside their card (`ProcDisk.EmmcPartitionsAreKept`). Optical drives are physical and
  dropped.

## Model

| member | source | states |
|---|---|---|
| Buckets.BucketFor | internal/ebpf/block_latency.c:64-96 | the ladder of comparisons computes, for every u64, the right-shift count (bit length) capped at 23 |
| Buckets.BucketMonotone | internal/ebpf/block_latency.c:61-96 | a longer latency never lands in a lower bucket |
| Buckets.LabelIffBucket | internal/ebpf/loader.go:156-165 | for every nanosecond latency and bucket: the label's bounds contain it iff it is counted in that bucket and is below 2^23 microseconds |
| Buckets.ReachesBucketIff | internal/ebpf/block_latency.c:64-96 | a latency lands in bucket b or above iff it is at least 2^(b-1) microseconds |
| Buckets.SaturatesIff | internal/ebpf/block_latency.c:17-20 | the last bucket receives exactly the latencies from 2^22 microseconds up, without upper bound |
| Buckets.LastLabelCanBeWrong | internal/ebpf/loader.go:158-165 | a latency counted in the last bucket although its label excludes it |
| Buckets.PackKeyIff | internal/ebpf/block_latency.c:48-59 | two keys are equal iff the devices are equal and the sectors agree in their low 32 bits |
| Buckets.PackKeyRecovers | internal/ebpf/block_latency.c:56-59 | the device and the low sector bits can be read back from a key |
| Buckets.LowIsMod | internal/ebpf/block_latency.c:58 | masking the sector is reducing it modulo 2^32 |
| Tracker.BlockLatency.TraceRqIssue | internal/ebpf/block_latency.c:102-109 | the handler leaves both maps as the run extended by this issue says |
| Tracker.BlockLatency.TraceRqComplete | internal/ebpf/block_latency.c:114-132 | the handler leaves both maps as the run extended by this completion says, with or without a matching issue |
| Tracker.EntryIsLastTouch | internal/ebpf/block_latency.c:102-123 | in every run, an entry of start_times is the issue that was the last event on its key |
| Tracker.ClockInvariant | internal/ebpf/block_latency.c:104-106 | in every run with a monotone clock no stored timestamp lies in the future, so the u64 subtraction never wraps |
| Tracker.AliasingUnderReports | internal/ebpf/block_latency.c:53-58 | with any key collisions and a full map, a recorded latency is the time since the last issue on the key, and never above the request's true latency |
| Tracker.AliasingOnlyHides | internal/ebpf/block_latency.c:53-55 | over every run, with collisions and a full map: at every threshold at most as many samples reach it as true latencies do |
| Tracker.NoTailIsOverstated | internal/ebpf/block_latency.c:124-129 | so no tail of the recorded histogram is heavier than the true one |
| Tracker.NoFalseSampleIff | internal/ebpf/block_latency.c:53-55 | in every timed run, for every completing request, issued in it or before attach: the sample is missing or right iff the last event on the key is not an accepted issue at another time |
| Tracker.ExactSampleIff | internal/ebpf/block_latency.c:102-132 | for every such completion: the request's own latency is recorded iff the last event on the key was an accepted issue bearing the request's own timestamp |
| Tracker.ExactSampleIffLeftAlone | internal/ebpf/block_latency.c:53-58 | for a request issued in the run, when the clock tells issues on a key apart, that is so iff the map accepted the request's issue and no other event touched the key in between |
| Tracker.AliasingRecordsAFalseLatency | internal/ebpf/block_latency.c:53-55 | a run of two aliasing requests in which the only recorded latency belongs to neither |
| Tracker.AttachRecordsAFalseLatency | internal/ebpf/block_latency.c:53-55 | a request in flight at attach is recorded with a latency that is not its own |
| Tracker.IssueAccounting | internal/ebpf/block_latency.c:30-35 | in every run: issues = recorded samples + overwritten entries + refused inserts + entries left, and never more than 10240 entries |
| Tracker.FewKeysNeverRefused | internal/ebpf/block_latency.c:30-35 | as long as the requests seen have at most 10240 different keys, no insert is refused |
| Tracker.RefusedIff | internal/ebpf/block_latency.c:107 | an issue leaves no entry iff its key is new and the map holds exactly 10240 entries |
| Tracker.HistogramCountsRecorded | internal/ebpf/block_latency.c:124-129 | each slot is the number of recorded latencies of its bucket, modulo 2^64 |
| Tracker.OrderlyRunsTrack | internal/ebpf/block_latency.c:26-35 | without collisions and overflow the lossy bounded map holds exactly the requests in flight since attach, with their issue times |
| Tracker.OrderlyRunsAreExact | internal/ebpf/block_latency.c:111-132 | in such runs the recorded latencies are the list of the completed requests' own latencies; requests from before attach contribute nothing |
| Tracker.HistogramIsExact | internal/ebpf/block_latency.c:8-14 | in such runs bucket b counts the completed requests whose own latency falls in b |
| Tracker.OrderlyWhenApart | internal/ebpf/block_latency.c:26-59 | every run of at most 10240 requests, issued once and completed at most once, no two of which agree in device and low sector bits, is such a run |
| Tracker.CausalWhenOnceEach | internal/ebpf/block_latency.c:102-132 | and the bounds for all runs apply to it, with requests in flight at attach |
| Race.Conservation | internal/ebpf/loader.go:80-111 | in every interleaving, at every moment, whatever fails: landed + displayed again = displayed + wrapped off + lost + in no display so far |
| Race.ConservationInTick | internal/ebpf/loader.go:80-111 | when no Put failed and fewer than 2^64 samples landed, at every moment: landed = displayed + lost + in no display so far |
| Race.ConservationBetweenTicks | cmd/sysmon/main.go:123-129 | under the same assumptions, between ticks: landed = displayed + lost + still in the map |
| Race.NeverOverReports | cmd/sysmon/main.go:123-129 | when no Put failed, no single sample is displayed twice, and the displays add up to no more than landed |
| Race.LossIs | internal/ebpf/loader.go:84-106 | over every run, whatever fails: what is lost from a bucket is exactly what landed between a tick's lookup of it and its Put, plus what was in no display at a Put after a missed lookup or a failed read |
| Race.WindowOpened | internal/ebpf/loader.go:83-97 | when a read has got past a bucket or succeeded, the run contains this tick's lookup of it, and the window holds what landed since |
| Race.LossIsTheRaceWindow | internal/ebpf/loader.go:84-106 | whenever a reset follows a successful read, the run contains this tick's lookup of the bucket; if it found the slot, the Put loses exactly the samples that landed after it, and if it missed, all that were in no display |
| Race.BlindResetLosesTheSlot | cmd/sysmon/main.go:127-128 | after a failed read, or a lookup that missed, the reset still happens, and loses all that the slot holds |
| Race.SnapshotSound | internal/ebpf/loader.go:72-99 | each count of a read racing with increments lies between what the slot held at the start and at the end of the read |
| Race.SnapshotTotals | internal/ebpf/loader.go:72-99 | and so does the total of the read |
| Race.QuietRead | internal/ebpf/loader.go:80-99 | lookups that nothing disturbs read exactly what the map holds, slot by slot, and the last one hands it to the display |
| Race.QuietReset | internal/ebpf/loader.go:103-111 | puts that nothing disturbs leave every slot zero |
| Loader.Collector.Interference | internal/ebpf/block_latency.c:127-129 | any increments by other CPUs, which the loop cannot hold off |
| Loader.Collector.ReadHistogram | internal/ebpf/loader.go:80-99 | in every environment: performs its lookups in order up to the first that fails other than by a missing key; returns labelled counts for all slots iff none does; and if all slots are found the counts are a bounded snapshot |
| Loader.Collector.ResetHistogram | internal/ebpf/loader.go:103-111 | in every environment: zeroes the slots in order up to the first failing Put, and succeeds iff none fails |
| Loader.Collector.Tick | cmd/sysmon/main.go:123-129 | reads and resets ignoring errors, and hands on labelled counts iff the read succeeded; conservation holds after every tick |
| Pipeline.HandlersRun | internal/ebpf/block_latency.c:102-132 | in every run of the whole system start_times is what the handlers' events alone make it |
| Pipeline.LoopRuns | internal/ebpf/loader.go:80-111 | and the histogram and the loop are in the state that the landed increments and the loop's operations alone lead to |
| Pipeline.SamplesLand | internal/ebpf/block_latency.c:124-129 | in every run of the whole system each sample taken has landed in its bucket or is about to |
| Pipeline.StepsHappen | internal/ebpf/block_latency.c:127-129 | at every moment a handler can run and the loop can carry out any operation, and an increment that is owed can land, adding 1 to its slot and to no other |
| Pipeline.EverySampleCanLand | internal/ebpf/block_latency.c:127-129 | from every state landings alone lead to one in which nothing is owed |
| Pipeline.QuietDisplayIsExact | internal/ebpf/loader.go:72-111 | whatever the handlers saw, once their increments have landed an undisturbed read displays exactly the samples taken, bucket by bucket, and the reset leaves nothing behind |
| Pipeline.OrderlyDisplayIsExact | internal/ebpf/block_latency.c:8-14 | and in orderly runs these are the requests' own latencies |
| Pipeline.EverySampleIsAccountedFor | cmd/sysmon/main.go:123-132 | in every run of the whole system, at every moment, whatever collides, overflows or fails: samples taken for b = displayed + lost + in no display so far + about to land, apart from repeats and wraps |
| Pipeline.EveryLatencyIsAccountedFor | cmd/sysmon/main.go:123-132 | when the handlers saw an orderly run and no Put failed, these are the requests' own latencies |
| Pipeline.EveryIssueIsAccountedFor | internal/ebpf/block_latency.c:102-132 | one account for the whole program, at every moment of a run without failing Puts: issues seen = displayed, lost, undisplayed and landing samples of all buckets + entries left + overwritten + refused |
| Pipeline.DisplaysNeverOverstate | internal/ebpf/block_latency.c:53-55 | end to end, with collisions, a full map, races and failing reads, as long as no Put fails: the displays together never show more requests in bucket b and above than truly took that long |
| Render.RenderASCII | internal/ebpf/loader.go:124-154 | reports "no I/O" iff the u64 total is 0; otherwise one row per nonempty bucket, in order, with its label and count, a bar of 30 cells in proportion to the true maximum, rounded down, and its share of the total |
| Render.EveryBarFits | internal/ebpf/loader.go:138-151 | no repeat count is negative, and a bar is full iff its bucket has the maximum |
| Render.PercentagesSumTo100Iff | internal/ebpf/loader.go:127-145 | the displayed percentages add up to 100 iff the u64 total did not wrap |
| Join.ByNameIsLast | internal/stats/cpu.go:123-127 | the lookup table holds, for exactly the names present, the last entry of each |
| Join.JoinedUsesLast | internal/stats/cpu.go:129-151 | a joined result has exactly the names of both samples and uses the last entry of each |
| Join.JoinedIgnoresOrder | internal/stats/net.go:96-128 | with unique names a joined result does not depend on the order of the samples |
| Cpu.CPUPercent | internal/stats/cpu.go:121-152 | the loops compute the join by name of the two samples under the per-CPU percentage |
| Cpu.PercentedNames | internal/stats/cpu.go:123-148 | exactly the names on the lines of both samples get a percentage |
| Cpu.PercentOfLast | internal/stats/cpu.go:125-148 | it compares the last line of the name in the one sample with the last in the other |
| Cpu.PercentsIgnoreOrder | internal/stats/cpu.go:118-152 | with unique CPU names the percentages do not depend on the order of the lines |
| Cpu.PercentIsTrueShare | internal/stats/cpu.go:33-45 | for true counters reported modulo 2^64 the percentage is the true busy share, in 0 to 100, however often fields or sums wrapped, if fewer than 2^64 jiffies passed |
| Cpu.PercentInRangeIff | internal/stats/cpu.go:139-148 | for sums below 2^64, monotone or not, the exact condition under which the percentage lies in 0 to 100 |
| Cpu.PercentCanLeaveRange | internal/stats/cpu.go:139-142 | a pair of samples, iowait falling, whose percentage is out of range |
| Cpu.AggregateBetweenCores | internal/stats/cpu.go:15-18 | the aggregate line's percentage lies between the smallest and the largest core percentage, for any number of cores |
| Net.ComputeNetThroughput | internal/stats/net.go:95-129 | the loops compute the join by interface under the per-second rates, and nothing for a non-positive elapsed time |
| Net.ThroughputsIgnoreOrder | internal/stats/net.go:95-129 | with unique interface names the rates do not depend on the order of the lines |
| Net.RatedInterfaces | internal/stats/net.go:93-113 | with positive elapsed time exactly the interfaces of both samples get a rate, otherwise none |
| Net.RateOfLast | internal/stats/net.go:97-125 | a rate compares the last entry of the interface in the one sample with the last in the other |
| Net.RateIsGrowth | internal/stats/net.go:108-125 | for both directions: the growth of the counter per second, and 0 when it fell |
| Net.MovedIs | internal/stats/net.go:110-118 | over any number of readings, credited bytes are exactly the end-to-end growth plus all falls |
| Net.MovedAtLeast | internal/stats/net.go:110-118 | credited bytes are at least the end-to-end growth of a counter, and equal to it iff the counter never fell |
| Monitor.Run | cmd/sysmon/main.go:80-137 | for any number of ticks, report k compares sample k+1 with sample k; the first failed reading ends the loop |
| Monitor.CpuReportsTelescope | cmd/sysmon/main.go:117-135 | over a run the percentages weighted by their intervals add up to exactly the busy time between first and last sample |
| Monitor.NetReportsTelescope | cmd/sysmon/main.go:117-135 | over a run the rates times their intervals amount to exactly the counter's growth plus all its falls, and so to its growth iff it never fell |
| Text.ParseUintIff | internal/stats/cpu.go:84 | a field is read as n iff it is the decimal notation of n, perhaps with leading zeros, for every n below 2^64; all else is an error |
| ProcStat.ParseCPUTimes | internal/stats/cpu.go:61-116 | fails iff some line starts with "cpu", has at least 8 fields, and one after the first is no decimal notation of a u64; else the rows of the cpu lines in order |
| ProcStat.ParserInvertsKernelFormat | internal/stats/cpu.go:69-108 | printing CPU times with 7 columns or more in any spacing, among lines that do not start with "cpu" or are short, and parsing gives them back in order; missing columns are zero, surplus ones ignored |
| ProcNet.ParseNetIO | internal/stats/net.go:37-85 | never fails; the rows of the readable lines after two headers, in order |
| ProcNet.ParserInvertsKernelFormat | internal/stats/net.go:47-77 | printing interface counters in the kernel's format after any two lines, among lines without a colon, with fewer than ten columns or a bad number, and parsing gives them back in order |
| ProcMem.ParseMemInfo | internal/stats/mem.go:75-122 | fails iff a line with one of the seven keys carries no u64; else each field is the last such value or 0, with the estimate of available memory |
| ProcMem.OrderIsIrrelevant | internal/stats/mem.go:86-109 | with unique keys neither success nor the fields depend on the order of the lines |
| ProcMem.FallbackIsEstimate | internal/stats/mem.go:115-119 | available memory is replaced iff it is 0, by free + buffers + cached modulo 2^64, and nothing else changes |
| ProcMem.BadIff | internal/stats/mem.go:88-107 | a line is an error iff it starts with one of the seven keys and a colon and no u64, with blanks and perhaps the unit kB, is all that follows |
| ProcMem.ValueIff | internal/stats/mem.go:98-104 | the value on a line is n iff what follows the colon is a notation of n between blanks, perhaps with the unit kB |
| ProcMem.ParserInvertsKernelFormat | internal/stats/mem.go:77-109 | a file whose last lines for the seven keys of the kernel say what a MemInfo holds, absent keys meaning 0, is parsed to that MemInfo |
| ProcMem.KernelLineParses | internal/stats/mem.go:88-104 | a field line with any blanks and the unit kB is read back |
| ProcMem.MemInfo.UsedKB | internal/stats/mem.go:40-45 | used + available = total when that makes sense, and otherwise used is 0 |
| ProcMem.MemInfo.SwapUsedKB | internal/stats/mem.go:56-61 | used + free = total when that makes sense, and otherwise used is 0 |
| ProcDisk.ParseDiskIO | internal/stats/disk.go:61-103 | the rows of the readable whole-disk lines, in order |
| ProcDisk.PartitionKeptIff | internal/stats/disk.go:105-127 | for every disk, a partition named by the kernel's rule is kept iff its disk is kept and is not sd, vd, xvd or an NVMe namespace ending in a digit |
| ProcDisk.FamilyIsKept | internal/stats/disk.go:107-127 | for the disks of every family: dropped iff an optical drive, loop device, RAM disk or device-mapper node; partitions are told apart iff the disk is sd, vd, xvd or nvme |
| ProcDisk.SampleDevices | internal/stats/disk.go:105-127 | the verdicts on the devices of the repository's sample file |
| ProcDisk.NoDoubleCountingIff | internal/stats/disk.go:49-103 | for every file of devices of any families among unreadable lines: the parser returns exactly the physical whole disks, in order, iff there is no MD array, compressed RAM disk or other unlisted virtual disk, no optical drive, and no partition of an MD, zram, eMMC, network block or unlisted disk |
| ProcDisk.UsualFilesAreRight | internal/stats/disk.go:105-126 | any file of sd, vd, xvd and nvme disks with any partitions, and of loop, RAM and device-mapper devices, gives exactly the disks, and their sector sum |
| ProcDisk.EveryListHasAFile | internal/stats/disk.go:69-96 | every list of devices is shown by some file, in the columns that the parser reads |
| ProcDisk.DoubleCountedSectors | internal/stats/disk.go:105-106 | for every such file: sectors returned + those of optical drives = sectors of the physical disks + those of the doubled families and partitions |
| ProcDisk.DroppedFamily | internal/stats/disk.go:109-112 | loop devices, RAM disks, device-mapper nodes and optical drives are dropped |
| ProcDisk.DefaultFamily | internal/stats/disk.go:124-126 | MD arrays, compressed RAM disks, network block devices and eMMC cards are kept, with their partitions |
| ProcDisk.MdArrayIsDoubled | internal/stats/disk.go:105-106 | there is a file for which the promise fails: a mirror of two disks counts every sector three times |
| ProcDisk.EmmcPartitionsAreKept | internal/stats/disk.go:124-126 | a partition for which the promise fails |
| Units.HumanBytes | cmd/sysmon/main.go:225-240 | for every u64 the loop ends without overflow at the binary unit, K for 2^10 up to E for 2^60, whose size is at most the count and more than a 1024th of it |
| Units.UnitIsMonotone | cmd/sysmon/main.go:233-239 | the unit is determined by the count, and never shrinks as it grows |
| Units.HumanKB | cmd/sysmon/main.go:220-222 | below 2^54 kilobytes the count of bytes in binary units, above it that count modulo 2^64 |
| Units.HumanKBExactIff | cmd/sysmon/main.go:220-222 | the multiplication by 1024 is exact iff the argument is below 2^54 |
| Units.BarFits | cmd/sysmon/main.go:204-217 | no repeat count of the bar is negative for any percentage; the bar of 20 cells is in proportion, rounded down, and monotone |

## Left out

- Loading, attaching and closing the BPF programs, the BTF check and the generated bindings: foreign calls with little logic of their own.
- Interleavings inside one handler: a handler is one atomic step in `Tracker`; only its final increment is separated from it, in `Race` and `Pipeline`.
- Disks whose names start like one of the filter's own families but are not made by the kernel's rule for it ("sdX", "nvme-p"): the kernel has none. `ProcDisk.PartitionKeptIff` covers any name.
- Kernel map internals (element reuse after a delete, RCU, preallocation): each map operation is atomic.
- Race.ConservationInTick: assumes, like Race.ConservationBetweenTicks, that no Put failed and that fewer than 2^64 samples landed; `Race.Conservation` covers both cases with the terms `again` and `over`.
- Race.SnapshotSound: speaks of reads whose lookups all found their slot; a lookup that misses displays 0 whatever the slot holds.
- Pipeline.EveryIssueIsAccountedFor: assumes, like Pipeline.EveryLatencyIsAccountedFor, that no Put failed and that the run has fewer than 2^64 steps; `Pipeline.EverySampleIsAccountedFor` assumes neither.
- Tracker.ExactSampleIffLeftAlone: speaks of requests whose issue is in the run, and assumes that no later issue on the same key got the very same nanosecond timestamp, for then the two requests cannot be told apart by the recorded number; `Tracker.ExactSampleIff` is the statement without that assumption.
- Monitor.Run: memory and disk-usage readings and the rendering of a report are not part of a sample; their errors are, as readings that did not succeed. The histogram's part of a tick is Loader.Collector.Tick.
- IEEE rounding of percentages, rates and bar widths: exact reals instead.
- Files, statfs and the line-length limit of the scanner: the input is a sequence of lines. Bytes that are not valid UTF-8 are not modelled.
- Render.RenderASCII and Units.HumanBytes: the numbers and widths are modelled, not the printf formatting of the line.
- The usage percentages of memory, disks and file systems and the sector-to-byte conversions: one division or multiplication each.
- Terminal control, signals, flags and tickers: input and output.
