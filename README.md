# Resource utilisation monitor: hourly bucketing and sample accumulation

The monitor samples host memory and CPU utilisation once per cycle. It keeps every
sample in three parallel lists and redraws two charts from the whole history each
cycle. This project models the two parts of that program that are pure logic:

- **The accumulator** (`collect_data`). A generator holds a list of timestamps,
  a list of memory readings and a list of CPU readings. Each step appends one
  entry to each list and yields the three lists. It is modelled as the class
  `Collection.Collector` with three `seq` fields. The clock and host readings are
  parameters of `Next`.
- **The hourly bucketing and averaging** (`create_hourly_graph`, before any
  plotting). One loop walks the samples. An hour not yet in the memory
  dictionary is inserted into both dictionaries with an empty list. The
  sample's memory and CPU readings are then appended under its hour. Two dict
  comprehensions then reduce each list to `sum / len`. The loop is the method
  `HourlyUsage.GroupByHour`, proved equal to the reference definition
  `Grouped`. The comprehensions are the function `Averages`. The whole
  computation is `HourlyAverages`. The dictionary operations the loop uses are
  `Put` (`d[h] = v`) and `AppendTo` (`d[h].append(x)`).

Data model:

- A timestamp is `Timestamp(day, hour)`. Only `hour` (0..23) is read, so samples
  from different days in the same hour share a bucket (`DayIgnored`).
- Readings are `real`, so `sum / len` is exact.
- A Python dict is `HourDict(keys, entries)`. `keys` is the insertion order,
  which is the order `.keys()` and `.values()` hand to the plot. `entries` is a
  `map`.

The reference definitions are defined over the sequence of hours:

- `FirstAppearance`: each hour once, in the order it first occurs.
- `Indices`: the increasing indices of one hour's samples.
- `Bucket`: the readings at those indices.
- `Grouped`: the key order plus one bucket per hour that occurs.

The hourly chart's hours are in insertion order, the order in which each hour
first appears in the history (resouce_Utilization.py:84-86, 99, 105). They are
not sorted by hour. `FirstAppearanceOrder` proves this order.

`Monitor.RunCycles` models the data flow of a finite number of cycles of `main`:
take a sample, then recompute the averages. It shows that the accumulator's
equal-length invariant meets the grouping's precondition.

## Model

| member | source | states |
|---|---|---|
| `Collection.Collector.constructor` | resouce_Utilization.py:18-20 | the generator starts with three empty, parallel lists |
| `Collection.Collector.Next` | resouce_Utilization.py:22-35 | one step appends exactly one entry to each of the three lists, keeps every earlier entry, keeps the lists of equal length, and yields the three lists |
| `Monitor.RunCycles` | resouce_Utilization.py:120-131 | after k cycles the three yielded lists are the k samples' timestamps, memory and CPU readings in order (all of length k), and the averages computed from them are the per-hour means of the whole history |
| `Usage.ProjectionsGrow` | resouce_Utilization.py:25-33 | one more sample extends the timestamp, memory and CPU projections of the history by that sample's fields |
| `HourlyUsage.GroupByHour` | resouce_Utilization.py:78-88 | the loop's two dictionaries equal the reference grouping of the memory and the CPU readings by hour, and they have the same key order and key set; it requires both reading lists to be at least as long as the timestamp list, because the loop indexes them at every timestamp index |
| `HourlyUsage.PutThenAppend` | resouce_Utilization.py:84-88 | assigning an empty list to a missing hour (`Put`, modelling `d[h] = v`) and then appending (`AppendTo`, modelling `d[h].append(x)`) gives that hour's old list, taken as empty if missing, plus the new reading; a new hour goes at the end of the key order |
| `HourlyUsage.InsertThenAppend` | resouce_Utilization.py:83-88 | one loop iteration on one dictionary turns the grouping of the first i samples into the grouping of the first i+1 |
| `HourlyUsage.SameKeys` | resouce_Utilization.py:84-86 | the memory and CPU dictionaries get the same keys in the same order, whatever the readings |
| `HourlyUsage.GroupedStep` | resouce_Utilization.py:83-88 | adding one sample to the history changes the grouping only at that sample's hour: its reading is appended to that hour's bucket, and the hour is added at the end of the key order if it was absent |
| `HourlyUsage.GroupedKeys` | resouce_Utilization.py:78-88 | the grouping's keys are distinct and are exactly the hours that occur in the history; hours with no sample are absent |
| `HourlyUsage.FirstAppearanceMembers` | resouce_Utilization.py:84-86 | an hour is a key if and only if it occurs in the history |
| `HourlyUsage.FirstAppearanceDistinct` | resouce_Utilization.py:84-86 | no hour is inserted twice |
| `HourlyUsage.FirstIndex` | resouce_Utilization.py:84-86 | names the index at which an hour first occurs: that index holds the hour and no earlier index does |
| `HourlyUsage.FirstAppearanceOrder` | resouce_Utilization.py:84-86 | of two keys, the earlier in key order first occurs earlier in the history; this is the order the averages are plotted in |
| `HourlyUsage.Indices` | resouce_Utilization.py:82-88 | the indices of one hour's samples, each a valid index of a sample of that hour, in strictly increasing order |
| `HourlyUsage.IndicesExact` | resouce_Utilization.py:82-88 | an index is listed for hour H if and only if the sample at that index was taken in hour H |
| `HourlyUsage.IndicesCount` | resouce_Utilization.py:82-88 | hour H lists as many indices as there are samples in hour H |
| `HourlyUsage.BucketSize` | resouce_Utilization.py:84-88 | a bucket's length is the number of samples of its hour, whatever the readings; so the memory and CPU buckets of an hour are equally long |
| `HourlyUsage.BucketOrder` | resouce_Utilization.py:82-88 | one strictly increasing list of indices, covering every sample of the hour and only those, gives for each position of the bucket the index of the sample whose reading sits there: the bucket is that hour's readings in original index order |
| `HourlyUsage.BucketStep` | resouce_Utilization.py:87-88 | a new sample adds its reading at the end of its own hour's bucket and leaves every other bucket unchanged |
| `HourlyUsage.BucketAbsent` | resouce_Utilization.py:84-86 | an hour with no sample has an empty bucket |
| `HourlyUsage.BucketsSnocKeys` | resouce_Utilization.py:84-86 | after one more sample the hours with a bucket are the earlier ones plus the new sample's hour |
| `HourlyUsage.BucketsSnoc` | resouce_Utilization.py:84-88 | after one more sample the buckets are the earlier ones with the new reading appended to its hour's bucket |
| `HourlyUsage.BucketNonEmpty` | resouce_Utilization.py:84-92 | the bucket of an hour that occurs in the history is not empty |
| `HourlyUsage.PartitionSize` | resouce_Utilization.py:82-88 | the buckets partition the history: their lengths add up to the number of samples |
| `HourlyUsage.DayIgnored` | resouce_Utilization.py:83 | two histories whose samples have the same hours group identically, whatever their calendar days |
| `HourlyUsage.Averages` | resouce_Utilization.py:91-92 | the averaging comprehension keeps the dictionary's key order and key set |
| `HourlyUsage.GroupedNonEmpty` | resouce_Utilization.py:84-92 | every bucket of a grouping is non-empty, so `sum(values) / len(values)` never divides by zero |
| `HourlyUsage.AveragesOfGrouped` | resouce_Utilization.py:84-92 | averaging the grouping gives, for exactly the hours that occur and in first-appearance order, the mean of exactly that hour's readings (`Mean`, modelling `sum(values) / len(values)` with `Sum` adding from the first reading to the last) |
| `HourlyUsage.SumBounds` | resouce_Utilization.py:91-92 | a sum of n readings within [lo, hi] lies within [n*lo, n*hi] |
| `HourlyUsage.MeanBounds` | resouce_Utilization.py:91-92 | a mean lies within any bounds its readings lie within |
| `HourlyUsage.AveragesWithinBounds` | resouce_Utilization.py:91-92 | when every reading lies within [lo, hi] (0 to 100 for percentages), every hourly average does too |
| `HourlyUsage.TwoSamplesGrouped` | resouce_Utilization.py:82-88 | two samples of one hour form one bucket holding both readings in order |
| `HourlyUsage.MeanOfTwo` | resouce_Utilization.py:91-92 | the mean of two readings is half their sum |
| `HourlyUsage.AveragesOfOne` | resouce_Utilization.py:91-92 | averaging a one-key dictionary gives that key the mean of its bucket |
| `HourlyUsage.TwoSamplesOneHour` | resouce_Utilization.py:87-92 | two samples in hour H with memory 50 and 60 and CPU 10 and 20 give averages {H: 55} and {H: 15} |
| `HourlyUsage.HourlyAverages` | resouce_Utilization.py:78-92 | the two average dictionaries hold, for exactly the hours that occur, the mean of exactly that hour's readings. Their keys are in first-appearance order and agree. An empty history gives two empty dictionaries |

## Left out

- Host queries: `psutil.virtual_memory()`, `psutil.cpu_percent()` and `datetime.datetime.now()` are foreign calls. Their results are the parameters of `Collector.Next` and the samples given to `RunCycles`.
- `save_data` is not modelled. It is file I/O, and its line format depends on how Python formats datetimes and floats. So the data-file round trip is not stated.
- `create_graph` and the plotting half of `create_hourly_graph` are not modelled. They are matplotlib calls. The model stops at the two average dictionaries, whose key order is what `.keys()` and `.values()` would pass to the plot.
- `main` is modelled only in part. `os.makedirs`, `time.sleep(INTERVAL)`, the infinite loop and the `KeyboardInterrupt` handler are process lifecycle and I/O. `RunCycles` covers a finite number of cycles without them.
- Floating point: `sum / len` is exact `real` division. IEEE rounding is not modelled.
- Aliasing: the generator yields the same three list objects on every step, and later steps grow them. The model yields values instead. `main` rebinds its names after every `next`, so it sees no difference.
- Fields of a timestamp finer than the hour (minutes, seconds) are not kept, because nothing in the core reads them.
- `GroupByHour` requires the reading lists to be at least as long as the timestamp list. With shorter lists the source raises `IndexError`, which no caller handles. The accumulator never produces shorter lists.
