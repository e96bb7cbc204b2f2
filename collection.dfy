/** The sampling generator: three parallel lists that grow by one entry per step. */
module Collection {
  import opened Usage

  /** The state a running `collect_data` generator keeps: the list of timestamps,
      the list of memory readings and the list of CPU readings. Entry i of each
      list belongs to the i-th sample. */
  class Collector {
    var timeData: seq<Timestamp>
    var memoryUsage: seq<real>
    var cpuUsage: seq<real>

    /** The three lists stay parallel: they always have the same length. */
    ghost predicate Valid()
      reads this
    {
      |timeData| == |memoryUsage| == |cpuUsage|
    }

    /** The history the lists hold, one sample per index. */
    ghost function History(): (h: seq<Sample>)
      reads this
      requires Valid()
      ensures |h| == |timeData|
    {
      seq(|timeData|, i reads this requires 0 <= i < |timeData| && Valid() =>
        Sample(timeData[i], memoryUsage[i], cpuUsage[i]))
    }

    /** The generator before its first step: three empty lists. */
    constructor ()
      ensures Valid()
      ensures timeData == [] && memoryUsage == [] && cpuUsage == []
      ensures History() == []
    {
      timeData, memoryUsage, cpuUsage := [], [], [];
    }

    /** One step of the generator. The clock reading and the two host readings are
        given as parameters; each is appended to its own list, and the three lists
        are then yielded. Earlier entries are left as they were. */
    method Next(currentTime: Timestamp, memoryPercent: real, cpuPercent: real)
      returns (times: seq<Timestamp>, memory: seq<real>, cpu: seq<real>)
      requires Valid()
      modifies this
      ensures Valid()
      ensures timeData == old(timeData) + [currentTime]
      ensures memoryUsage == old(memoryUsage) + [memoryPercent]
      ensures cpuUsage == old(cpuUsage) + [cpuPercent]
      ensures History() == old(History()) + [Sample(currentTime, memoryPercent, cpuPercent)]
      ensures times == timeData && memory == memoryUsage && cpu == cpuUsage
    {
      timeData := timeData + [currentTime];
      memoryUsage := memoryUsage + [memoryPercent];
      cpuUsage := cpuUsage + [cpuPercent];
      times, memory, cpu := timeData, memoryUsage, cpuUsage;
    }
  }
}
