/** Hour-of-day bucketing and averaging of a sample history. */
module HourlyUsage {
  import opened Usage

  /** An insertion-ordered dictionary keyed by hour: `keys` lists the keys in the
      order they were first inserted (the order `.keys()`, `.values()` and
      `.items()` visit them), `entries` maps each key to its value. */
  datatype HourDict<V> = HourDict(keys: seq<Hour>, entries: map<Hour, V>)

  /** No hour occurs twice. */
  predicate Distinct(s: seq<Hour>)
  {
    forall i, j :: 0 <= i < j < |s| ==> s[i] != s[j]
  }

  /** The hour of each timestamp, in order: what the grouping loop reads. */
  function HoursOf(timeData: seq<Timestamp>): seq<Hour>
  {
    seq(|timeData|, i requires 0 <= i < |timeData| => timeData[i].hour)
  }

  // ------------------------------------------------------------------------
  // Key order: the order in which each hour is first seen

  /** The hours of `hours`, each once, in the order of their first occurrence. */
  function FirstAppearance(hours: seq<Hour>): seq<Hour>
    decreases |hours|
  {
    if |hours| == 0 then []
    else
      var earlier := FirstAppearance(hours[..|hours| - 1]);
      if hours[|hours| - 1] in hours[..|hours| - 1] then earlier else earlier + [hours[|hours| - 1]]
  }

  /** The index at which `h` first occurs in `hours`. */
  function FirstIndex(hours: seq<Hour>, h: Hour): (r: nat)
    requires h in hours
    ensures r < |hours| && hours[r] == h && h !in hours[..r]
    decreases |hours|
  {
    var earlier := hours[..|hours| - 1];
    if h in earlier then
      var r := FirstIndex(earlier, h);
      assert earlier[..r] == hours[..r];
      r
    else
      assert hours == earlier + [hours[|hours| - 1]];
      |hours| - 1
  }

  /** Every hour of the input is a key and every key is an hour of the input. */
  lemma {:induction false} FirstAppearanceMembers(hours: seq<Hour>)
    ensures forall h :: h in FirstAppearance(hours) <==> h in hours
    decreases |hours|
  {
    if |hours| > 0 {
      var earlier := hours[..|hours| - 1];
      FirstAppearanceMembers(earlier);
      assert hours == earlier + [hours[|hours| - 1]];
    }
  }

  /** No key is listed twice. */
  lemma {:induction false} FirstAppearanceDistinct(hours: seq<Hour>)
    ensures Distinct(FirstAppearance(hours))
    decreases |hours|
  {
    if |hours| > 0 {
      var earlier := hours[..|hours| - 1];
      FirstAppearanceDistinct(earlier);
      FirstAppearanceMembers(earlier);
    }
  }

  /** Keys are listed in the order of their first occurrence in the input. */
  lemma {:induction false} FirstAppearanceOrder(hours: seq<Hour>, j: nat, k: nat)
    requires j < k < |FirstAppearance(hours)|
    ensures FirstAppearance(hours)[j] in hours && FirstAppearance(hours)[k] in hours
    ensures FirstIndex(hours, FirstAppearance(hours)[j]) < FirstIndex(hours, FirstAppearance(hours)[k])
    decreases |hours|
  {
    var earlier := hours[..|hours| - 1];
    var last := hours[|hours| - 1];
    var keys, keys' := FirstAppearance(hours), FirstAppearance(earlier);
    FirstAppearanceMembers(hours);
    FirstAppearanceMembers(earlier);
    assert keys[j] in keys && keys[k] in keys;
    if last in earlier {
      FirstAppearanceOrder(earlier, j, k);
    } else if k < |keys'| {
      assert keys[j] == keys'[j] && keys[k] == keys'[k];
      FirstAppearanceOrder(earlier, j, k);
    } else {
      assert keys[k] == last;
      assert keys[j] == keys'[j] && keys'[j] in keys';
      assert FirstIndex(hours, keys[j]) == FirstIndex(earlier, keys[j]) < |earlier|;
    }
  }

  // ------------------------------------------------------------------------
  // Buckets: the values of one hour's samples, in index order

  /** The indices of the samples taken in hour `h`, in increasing order. */
  function Indices(hours: seq<Hour>, h: Hour): (r: seq<nat>)
    ensures forall k :: 0 <= k < |r| ==> r[k] < |hours| && hours[r[k]] == h
    ensures forall a, b :: 0 <= a < b < |r| ==> r[a] < r[b]
    decreases |hours|
  {
    if |hours| == 0 then []
    else
      var earlier := Indices(hours[..|hours| - 1], h);
      if hours[|hours| - 1] == h then earlier + [|hours| - 1] else earlier
  }

  /** Every sample of hour `h`, and only those, has its index listed. */
  lemma {:induction false} IndicesExact(hours: seq<Hour>, h: Hour)
    ensures forall i: nat :: i in Indices(hours, h) <==> i < |hours| && hours[i] == h
    decreases |hours|
  {
    if |hours| > 0 {
      var earlier := hours[..|hours| - 1];
      IndicesExact(earlier, h);
      forall i: nat | i < |hours| && hours[i] == h
        ensures i in Indices(hours, h)
      {
        if i < |earlier| {
          assert earlier[i] == h;
        }
      }
    }
  }

  /** There are as many listed indices as occurrences of `h`. */
  lemma {:induction false} IndicesCount(hours: seq<Hour>, h: Hour)
    ensures |Indices(hours, h)| == multiset(hours)[h]
    decreases |hours|
  {
    if |hours| > 0 {
      var earlier := hours[..|hours| - 1];
      IndicesCount(earlier, h);
      assert hours == earlier + [hours[|hours| - 1]];
    }
  }

  /** The bucket of hour `h`: the readings of that hour's samples, in index order. */
  function Bucket(hours: seq<Hour>, values: seq<real>, h: Hour): seq<real>
    requires |values| >= |hours|
  {
    var idx := Indices(hours, h);
    seq(|idx|, k requires 0 <= k < |idx| => values[idx[k]])
  }

  /** A bucket holds one reading per sample of its hour; memory and CPU buckets,
      read from lists of the same length, are therefore equally long. */
  lemma BucketSize(hours: seq<Hour>, values: seq<real>, h: Hour)
    requires |values| >= |hours|
    ensures |Bucket(hours, values, h)| == multiset(hours)[h]
  {
    IndicesCount(hours, h);
  }

  /** Each bucket's readings are exactly those taken in its hour, in their original
      order: one increasing list of indices, covering every sample of the hour,
      gives the position in the history of each reading of the bucket. */
  lemma BucketOrder(hours: seq<Hour>, values: seq<real>, h: Hour)
    requires |values| >= |hours|
    ensures exists idx: seq<nat> ::
      && |idx| == |Bucket(hours, values, h)|
      && (forall a, b :: 0 <= a < b < |idx| ==> idx[a] < idx[b])
      && (forall k :: 0 <= k < |idx| ==>
            idx[k] < |hours| && hours[idx[k]] == h && Bucket(hours, values, h)[k] == values[idx[k]])
      && (forall i: nat :: i < |hours| && hours[i] == h ==> i in idx)
  {
    var idx := Indices(hours, h);
    IndicesExact(hours, h);
    assert forall k :: 0 <= k < |idx| ==> Bucket(hours, values, h)[k] == values[idx[k]];
  }

  /** The bucket of an hour that occurs in the input is not empty. */
  lemma BucketNonEmpty(hours: seq<Hour>, values: seq<real>, h: Hour)
    requires |values| >= |hours|
    requires h in hours
    ensures |Bucket(hours, values, h)| > 0
  {
    var i :| 0 <= i < |hours| && hours[i] == h;
    IndicesExact(hours, h);
    assert i in Indices(hours, h);
  }

  /** Appending one sample adds its reading to its own hour's bucket and leaves the others. */
  lemma BucketStep(hours: seq<Hour>, values: seq<real>, h: Hour)
    requires 0 < |hours| <= |values|
    ensures Bucket(hours, values, h) ==
      Bucket(hours[..|hours| - 1], values, h)
      + (if hours[|hours| - 1] == h then [values[|hours| - 1]] else [])
  {
    var earlier := hours[..|hours| - 1];
    var idx, idx' := Indices(hours, h), Indices(earlier, h);
    var b, b' := Bucket(hours, values, h), Bucket(earlier, values, h);
    if hours[|hours| - 1] == h {
      assert idx == idx' + [|hours| - 1];
      assert b == b' + [values[|hours| - 1]];
    } else {
      assert idx == idx';
    }
  }

  // ------------------------------------------------------------------------
  // The grouped dictionaries

  /** The bucket of every hour that occurs in the history. */
  function Buckets(hours: seq<Hour>, values: seq<real>): map<Hour, seq<real>>
    requires |values| >= |hours|
  {
    map h | h in hours :: Bucket(hours, values, h)
  }

  /** The dictionary the grouping loop builds from one list of readings: its keys
      in first-appearance order, each mapped to its bucket. */
  function Grouped(hours: seq<Hour>, values: seq<real>): HourDict<seq<real>>
    requires |values| >= |hours|
  {
    HourDict(FirstAppearance(hours), Buckets(hours, values))
  }

  /** The keys are distinct, are exactly the hours that occur in the input, and
      agree with the dictionary's key set; hours without samples are absent. */
  lemma GroupedKeys(hours: seq<Hour>, values: seq<real>)
    requires |values| >= |hours|
    ensures Distinct(Grouped(hours, values).keys)
    ensures forall h :: h in Grouped(hours, values).keys <==> h in hours
    ensures forall h :: h in Grouped(hours, values).entries <==> h in hours
  {
    FirstAppearanceDistinct(hours);
    FirstAppearanceMembers(hours);
  }

  /** The grouping's keys, their order included, do not depend on the readings. */
  lemma SameKeys(hours: seq<Hour>, values: seq<real>, values': seq<real>)
    requires |values| >= |hours| && |values'| >= |hours|
    ensures Grouped(hours, values).keys == Grouped(hours, values').keys
    ensures Grouped(hours, values).entries.Keys == Grouped(hours, values').entries.Keys
  {
  }

  /** The bucket of an hour that does not occur is empty. */
  lemma BucketAbsent(hours: seq<Hour>, values: seq<real>, h: Hour)
    requires |values| >= |hours| && h !in hours
    ensures Bucket(hours, values, h) == []
  {
    IndicesExact(hours, h);
    if |Indices(hours, h)| > 0 {
      assert Indices(hours, h)[0] in Indices(hours, h);
    }
  }

  /** The hours that have a bucket after one more sample: those before, and the new sample's. */
  lemma BucketsSnocKeys(hours: seq<Hour>, values: seq<real>)
    requires 0 < |hours| <= |values|
    ensures Buckets(hours, values).Keys == Buckets(hours[..|hours| - 1], values).Keys + {hours[|hours| - 1]}
  {
    var earlier := hours[..|hours| - 1];
    assert hours == earlier + [hours[|hours| - 1]];
    assert forall g :: g in hours <==> g in earlier || g == hours[|hours| - 1];
  }

  /** Appending a sample appends its reading to its hour's bucket, creating the
      bucket if the hour is new, and leaves every other bucket as it was. */
  lemma BucketsSnoc(hours: seq<Hour>, values: seq<real>)
    requires 0 < |hours| <= |values|
    ensures var earlier, h := hours[..|hours| - 1], hours[|hours| - 1];
      Buckets(hours, values) == Buckets(earlier, values)[h := Bucket(earlier, values, h) + [values[|hours| - 1]]]
  {
    var earlier, h := hours[..|hours| - 1], hours[|hours| - 1];
    var before, after := Buckets(earlier, values), Buckets(hours, values);
    var expected := before[h := Bucket(earlier, values, h) + [values[|hours| - 1]]];
    BucketsSnocKeys(hours, values);
    forall g | g in after
      ensures after[g] == expected[g]
    {
      BucketStep(hours, values, g);
    }
  }

  /** One iteration of the grouping loop: the sample's hour is inserted with an
      empty bucket when it is not yet a key (at the end of the key order), and the
      sample's reading is then appended to that hour's bucket. */
  lemma GroupedStep(hours: seq<Hour>, values: seq<real>, i: nat)
    requires i < |hours| <= |values|
    ensures var before, after, h := Grouped(hours[..i], values), Grouped(hours[..i + 1], values), hours[i];
      && after.keys == (if h in before.entries then before.keys else before.keys + [h])
      && after.entries == before.entries[h := (if h in before.entries then before.entries[h] else []) + [values[i]]]
  {
    var grown := hours[..i + 1];
    assert grown[..i] == hours[..i];
    BucketsSnoc(grown, values);
    if hours[i] !in hours[..i] {
      BucketAbsent(hours[..i], values, hours[i]);
    }
  }

  /** The total number of readings held by the buckets of `keys`. */
  function SumLengths(keys: seq<Hour>, entries: map<Hour, seq<real>>): nat
    requires forall k :: k in keys ==> k in entries
    decreases |keys|
  {
    if |keys| == 0 then 0
    else
      assert forall k :: k in keys[..|keys| - 1] ==> k in keys;
      SumLengths(keys[..|keys| - 1], entries) + |entries[keys[|keys| - 1]]|
  }

  /** The total depends only on the bucket lengths of the keys listed. */
  lemma {:induction false} SumLengthsFrame(keys: seq<Hour>, m: map<Hour, seq<real>>, m': map<Hour, seq<real>>)
    requires forall k :: k in keys ==> k in m && k in m' && |m[k]| == |m'[k]|
    ensures SumLengths(keys, m) == SumLengths(keys, m')
    decreases |keys|
  {
    if |keys| > 0 {
      assert forall k :: k in keys[..|keys| - 1] ==> k in keys;
      SumLengthsFrame(keys[..|keys| - 1], m, m');
    }
  }

  /** Growing one listed bucket by one reading grows the total by one. */
  lemma {:induction false} SumLengthsGrow(keys: seq<Hour>, m: map<Hour, seq<real>>, h: Hour, x: real)
    requires forall k :: k in keys ==> k in m
    requires Distinct(keys) && h in keys
    ensures SumLengths(keys, m[h := m[h] + [x]]) == SumLengths(keys, m) + 1
    decreases |keys|
  {
    var earlier := keys[..|keys| - 1];
    var m' := m[h := m[h] + [x]];
    assert forall k :: k in earlier ==> k in keys;
    if keys[|keys| - 1] == h {
      assert h !in earlier;
      SumLengthsFrame(earlier, m, m');
    } else {
      assert keys == earlier + [keys[|keys| - 1]];
      assert Distinct(earlier);
      SumLengthsGrow(earlier, m, h, x);
    }
  }

  /** The buckets partition the input: together they hold one reading per sample. */
  lemma {:induction false} PartitionSize(hours: seq<Hour>, values: seq<real>)
    requires |values| >= |hours|
    ensures forall k :: k in Grouped(hours, values).keys ==> k in Grouped(hours, values).entries
    ensures SumLengths(Grouped(hours, values).keys, Grouped(hours, values).entries) == |hours|
    decreases |hours|
  {
    GroupedKeys(hours, values);
    if |hours| > 0 {
      var i := |hours| - 1;
      var prefix := hours[..i];
      assert hours[..i + 1] == hours;
      PartitionSize(prefix, values);
      GroupedKeys(prefix, values);
      GroupedStep(hours, values, i);
      var before, after, h := Grouped(prefix, values), Grouped(hours, values), hours[i];
      if h in before.entries {
        SumLengthsGrow(before.keys, before.entries, h, values[i]);
      } else {
        var keys := before.keys + [h];
        assert keys[..|keys| - 1] == before.keys;
        SumLengthsFrame(before.keys, before.entries, after.entries);
      }
    }
  }

  /** The groupings of two histories with the same hours are the same: the
      calendar day of a timestamp plays no part. */
  lemma DayIgnored(t: seq<Timestamp>, t': seq<Timestamp>, values: seq<real>)
    requires |t| == |t'| && |values| >= |t|
    requires forall i :: 0 <= i < |t| ==> t[i].hour == t'[i].hour
    ensures Grouped(HoursOf(t), values) == Grouped(HoursOf(t'), values)
  {
    assert HoursOf(t) == HoursOf(t');
  }

  /** `d[h] = v`: a new key goes at the end of the key order, an existing key keeps its place. */
  function Put<V>(d: HourDict<V>, h: Hour, v: V): HourDict<V>
  {
    HourDict(if h in d.entries then d.keys else d.keys + [h], d.entries[h := v])
  }

  /** `d[h].append(x)` on a dictionary of lists. */
  function AppendTo(d: HourDict<seq<real>>, h: Hour, x: real): HourDict<seq<real>>
    requires h in d.entries
  {
    d.(entries := d.entries[h := d.entries[h] + [x]])
  }

  /** Putting an empty list under an absent key and appending to it appends to the
      list the key has, taken as empty when the key is absent. */
  lemma PutThenAppend(d: HourDict<seq<real>>, h: Hour, x: real, after: HourDict<seq<real>>)
    requires after.keys == (if h in d.entries then d.keys else d.keys + [h])
    requires after.entries == d.entries[h := (if h in d.entries then d.entries[h] else []) + [x]]
    ensures var inserted := if h in d.entries then d else Put(d, h, []);
      h in inserted.entries && AppendTo(inserted, h, x) == after
  {
    var empty: seq<real> := [];
    if h !in d.entries {
      assert empty + [x] == [x];
      assert d.entries[h := empty][h := empty + [x]] == d.entries[h := empty + [x]];
    }
  }

  /** One iteration of the grouping loop on one dictionary: when the sample's
      hour is absent it is inserted with an empty list, then the sample's reading
      is appended under it. The result is the grouping of one more sample. */
  lemma InsertThenAppend(hours: seq<Hour>, values: seq<real>, i: nat, d: HourDict<seq<real>>)
    requires i < |hours| <= |values|
    requires d == Grouped(hours[..i], values)
    ensures var inserted := if hours[i] in d.entries then d else Put(d, hours[i], []);
      && hours[i] in inserted.entries
      && AppendTo(inserted, hours[i], values[i]) == Grouped(hours[..i + 1], values)
  {
    GroupedStep(hours, values, i);
    PutThenAppend(d, hours[i], values[i], Grouped(hours[..i + 1], values));
  }

  /** The grouping loop of the hourly chart. One pass over the samples builds two
      insertion-ordered dictionaries, hour to memory readings and hour to CPU
      readings: an hour not yet present in the memory dictionary is inserted into
      both with an empty list, and the sample's readings are then appended. */
  method GroupByHour(timeData: seq<Timestamp>, memoryUsage: seq<real>, cpuUsage: seq<real>)
    returns (hourlyMemory: HourDict<seq<real>>, hourlyCpu: HourDict<seq<real>>)
    requires |memoryUsage| >= |timeData| && |cpuUsage| >= |timeData|
    ensures hourlyMemory == Grouped(HoursOf(timeData), memoryUsage)
    ensures hourlyCpu == Grouped(HoursOf(timeData), cpuUsage)
    ensures hourlyMemory.keys == hourlyCpu.keys && hourlyMemory.entries.Keys == hourlyCpu.entries.Keys
  {
    ghost var hours := HoursOf(timeData);
    hourlyMemory := HourDict([], map[]);
    hourlyCpu := HourDict([], map[]);
    var i := 0;
    while i < |timeData|
      invariant 0 <= i <= |timeData|
      invariant hourlyMemory == Grouped(hours[..i], memoryUsage)
      invariant hourlyCpu == Grouped(hours[..i], cpuUsage)
    {
      var hour := timeData[i].hour;
      assert hour == hours[i];
      SameKeys(hours[..i], memoryUsage, cpuUsage);
      InsertThenAppend(hours, memoryUsage, i, hourlyMemory);
      InsertThenAppend(hours, cpuUsage, i, hourlyCpu);
      if hour !in hourlyMemory.entries {
        hourlyMemory := Put(hourlyMemory, hour, []);
        hourlyCpu := Put(hourlyCpu, hour, []);
      }
      hourlyMemory := AppendTo(hourlyMemory, hour, memoryUsage[i]);
      hourlyCpu := AppendTo(hourlyCpu, hour, cpuUsage[i]);
      i := i + 1;
    }
    assert hours[..i] == hours;
    SameKeys(hours, memoryUsage, cpuUsage);
  }

  // ------------------------------------------------------------------------
  // Averages

  /** The sum of the readings, added from the first to the last. */
  function Sum(s: seq<real>): real
    decreases |s|
  {
    if |s| == 0 then 0.0 else Sum(s[..|s| - 1]) + s[|s| - 1]
  }

  /** The arithmetic mean of a non-empty list: its sum divided by its length. */
  function Mean(s: seq<real>): real
    requires |s| > 0
  {
    Sum(s) / |s| as real
  }

  /** Every bucket holds at least one reading, so no average divides by zero. */
  predicate NonEmptyBuckets(d: HourDict<seq<real>>)
  {
    forall h :: h in d.entries ==> |d.entries[h]| > 0
  }

  /** The averaging comprehension: each bucket reduced to its mean, visiting the
      keys in the dictionary's own order, so the result keeps that order. */
  function Averages(d: HourDict<seq<real>>): (r: HourDict<real>)
    requires NonEmptyBuckets(d)
    ensures r.keys == d.keys && r.entries.Keys == d.entries.Keys
  {
    HourDict(d.keys, map h | h in d.entries :: Mean(d.entries[h]))
  }

  /** `avg` holds, for each hour of the samples and no other, the mean of exactly
      that hour's readings, with the hours in first-appearance order. */
  ghost predicate IsHourlyMean(hours: seq<Hour>, values: seq<real>, avg: HourDict<real>)
    requires |values| >= |hours|
  {
    && avg.keys == FirstAppearance(hours)
    && (forall h :: h in avg.entries <==> h in hours)
    && (forall h :: h in avg.entries ==>
          |Bucket(hours, values, h)| > 0 && avg.entries[h] == Mean(Bucket(hours, values, h)))
  }

  /** Every bucket of a grouping is non-empty. */
  lemma GroupedNonEmpty(hours: seq<Hour>, values: seq<real>)
    requires |values| >= |hours|
    ensures NonEmptyBuckets(Grouped(hours, values))
  {
    forall h | h in Grouped(hours, values).entries
      ensures |Grouped(hours, values).entries[h]| > 0
    {
      BucketNonEmpty(hours, values, h);
    }
  }

  /** Averaging a grouping gives each hour the mean of exactly its own readings. */
  lemma AveragesOfGrouped(hours: seq<Hour>, values: seq<real>)
    requires |values| >= |hours|
    ensures NonEmptyBuckets(Grouped(hours, values))
    ensures IsHourlyMean(hours, values, Averages(Grouped(hours, values)))
  {
    GroupedNonEmpty(hours, values);
  }

  /** Sums of readings between `lo` and `hi`. */
  lemma {:induction false} SumBounds(s: seq<real>, lo: real, hi: real)
    requires forall i :: 0 <= i < |s| ==> lo <= s[i] <= hi
    ensures |s| as real * lo <= Sum(s) <= |s| as real * hi
    decreases |s|
  {
    if |s| > 0 {
      var n := |s| as real;
      SumBounds(s[..|s| - 1], lo, hi);
      assert |s[..|s| - 1]| as real == n - 1.0;
      assert Sum(s) == Sum(s[..|s| - 1]) + s[|s| - 1];
      assert n * lo == (n - 1.0) * lo + lo;
      assert n * hi == (n - 1.0) * hi + hi;
    }
  }

  /** A mean lies between the smallest and the largest bound of its readings. */
  lemma MeanBounds(s: seq<real>, lo: real, hi: real)
    requires |s| > 0
    requires forall i :: 0 <= i < |s| ==> lo <= s[i] <= hi
    ensures lo <= Mean(s) <= hi
  {
    SumBounds(s, lo, hi);
    var n := |s| as real;
    assert Mean(s) - lo == (Sum(s) - n * lo) / n;
    assert hi - Mean(s) == (n * hi - Sum(s)) / n;
  }

  /** When every reading is within [lo, hi] (a percentage, say), so is every hourly average. */
  lemma AveragesWithinBounds(hours: seq<Hour>, values: seq<real>, lo: real, hi: real)
    requires |values| >= |hours|
    requires forall i :: 0 <= i < |hours| ==> lo <= values[i] <= hi
    ensures NonEmptyBuckets(Grouped(hours, values))
    ensures forall h :: h in Averages(Grouped(hours, values)).entries ==>
              lo <= Averages(Grouped(hours, values)).entries[h] <= hi
  {
    GroupedNonEmpty(hours, values);
    forall h | h in Grouped(hours, values).entries
      ensures lo <= Mean(Bucket(hours, values, h)) <= hi
    {
      var b := Bucket(hours, values, h);
      forall k | 0 <= k < |b| ensures lo <= b[k] <= hi {
        assert b[k] == values[Indices(hours, h)[k]];
      }
      MeanBounds(b, lo, hi);
    }
  }

  /** Two samples of one hour form a single bucket holding both readings. */
  lemma TwoSamplesGrouped(t: Timestamp, t': Timestamp, values: seq<real>)
    requires t.hour == t'.hour && |values| == 2
    ensures Grouped(HoursOf([t, t']), values) == HourDict([t.hour], map[t.hour := values])
  {
    var h := t.hour;
    var hours := HoursOf([t, t']);
    assert hours == [h, h];
    assert hours[..1] == [h] && [h][..0] == [];
    assert FirstAppearance([h]) == [h];
    assert Indices([h], h) == [0];
    assert Indices(hours, h) == [0, 1];
    assert Bucket(hours, values, h) == values;
    assert (map g | g in hours :: Bucket(hours, values, g)) == map[h := values];
  }

  /** The mean of two readings is half their sum. */
  lemma MeanOfTwo(x: real, y: real)
    ensures Mean([x, y]) == (x + y) / 2.0
  {
    assert [x, y][..1] == [x] && [x][..0] == [];
    assert Sum([x]) == x;
    assert Sum([x, y]) == x + y;
  }

  /** Averaging a dictionary with one key averages that key's bucket. */
  lemma AveragesOfOne(h: Hour, s: seq<real>)
    requires |s| > 0
    ensures NonEmptyBuckets(HourDict([h], map[h := s]))
    ensures Averages(HourDict([h], map[h := s])) == HourDict([h], map[h := Mean(s)])
  {
    var d := HourDict([h], map[h := s]);
    assert (map g | g in d.entries :: Mean(d.entries[g])) == map[h := Mean(s)];
  }

  /** Two samples in one hour with memory 50 and 60 and CPU 10 and 20 average to 55 and 15. */
  lemma TwoSamplesOneHour(t: Timestamp, t': Timestamp)
    requires t.hour == t'.hour
    ensures var hours := HoursOf([t, t']);
      && NonEmptyBuckets(Grouped(hours, [50.0, 60.0]))
      && NonEmptyBuckets(Grouped(hours, [10.0, 20.0]))
      && Averages(Grouped(hours, [50.0, 60.0])) == HourDict([t.hour], map[t.hour := 55.0])
      && Averages(Grouped(hours, [10.0, 20.0])) == HourDict([t.hour], map[t.hour := 15.0])
  {
    TwoSamplesGrouped(t, t', [50.0, 60.0]);
    TwoSamplesGrouped(t, t', [10.0, 20.0]);
    MeanOfTwo(50.0, 60.0);
    MeanOfTwo(10.0, 20.0);
    AveragesOfOne(t.hour, [50.0, 60.0]);
    AveragesOfOne(t.hour, [10.0, 20.0]);
  }

  /** The data of the hourly chart: readings grouped by hour of day, then each
      group averaged. The two results have the same keys in the same order. An
      empty history gives two empty dictionaries. */
  method HourlyAverages(timeData: seq<Timestamp>, memoryUsage: seq<real>, cpuUsage: seq<real>)
    returns (memoryAvg: HourDict<real>, cpuAvg: HourDict<real>)
    requires |memoryUsage| >= |timeData| && |cpuUsage| >= |timeData|
    ensures IsHourlyMean(HoursOf(timeData), memoryUsage, memoryAvg)
    ensures IsHourlyMean(HoursOf(timeData), cpuUsage, cpuAvg)
    ensures memoryAvg.keys == cpuAvg.keys
    ensures |timeData| == 0 ==> memoryAvg == HourDict([], map[]) && cpuAvg == HourDict([], map[])
  {
    var hourlyMemory, hourlyCpu := GroupByHour(timeData, memoryUsage, cpuUsage);
    AveragesOfGrouped(HoursOf(timeData), memoryUsage);
    AveragesOfGrouped(HoursOf(timeData), cpuUsage);
    memoryAvg := Averages(hourlyMemory);
    cpuAvg := Averages(hourlyCpu);
  }
}
