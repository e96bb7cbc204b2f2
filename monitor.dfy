/** The data flow of the monitor's main loop over a finite number of cycles:
    sample, accumulate, then recompute the hourly averages from the whole history. */
module Monitor {
  import opened Usage
  import opened Collection
  import opened HourlyUsage

  /** Runs one cycle per given sample: the collector takes the sample and yields
      its three lists, and the hourly averages are recomputed from them. After k
      cycles each list holds the k readings in order, and the averages are those
      of the whole history. With no cycle run, the averages are those of an
      empty history. */
  method RunCycles(samples: seq<Sample>)
    returns (timeData: seq<Timestamp>, memoryUsage: seq<real>, cpuUsage: seq<real>,
             memoryAvg: HourDict<real>, cpuAvg: HourDict<real>)
    ensures |timeData| == |memoryUsage| == |cpuUsage| == |samples|
    ensures timeData == Times(samples)
    ensures memoryUsage == MemoryReadings(samples) && cpuUsage == CpuReadings(samples)
    ensures IsHourlyMean(HoursOf(timeData), memoryUsage, memoryAvg)
    ensures IsHourlyMean(HoursOf(timeData), cpuUsage, cpuAvg)
    ensures memoryAvg.keys == cpuAvg.keys
  {
    var collector := new Collector();
    timeData, memoryUsage, cpuUsage := [], [], [];
    memoryAvg, cpuAvg := HourDict([], map[]), HourDict([], map[]);
    var i := 0;
    while i < |samples|
      invariant 0 <= i <= |samples|
      invariant fresh(collector) && collector.Valid()
      invariant timeData == collector.timeData == Times(samples[..i])
      invariant memoryUsage == collector.memoryUsage == MemoryReadings(samples[..i])
      invariant cpuUsage == collector.cpuUsage == CpuReadings(samples[..i])
      invariant IsHourlyMean(HoursOf(timeData), memoryUsage, memoryAvg)
      invariant IsHourlyMean(HoursOf(timeData), cpuUsage, cpuAvg)
      invariant memoryAvg.keys == cpuAvg.keys
    {
      var sample := samples[i];
      timeData, memoryUsage, cpuUsage := collector.Next(sample.time, sample.memoryPercent, sample.cpuPercent);
      memoryAvg, cpuAvg := HourlyAverages(timeData, memoryUsage, cpuUsage);
      ProjectionsGrow(samples, i);
      i := i + 1;
    }
    assert samples[..i] == samples;
  }
}
