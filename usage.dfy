/** The values the resource monitor records: one timestamp and two utilisation
    readings per sample. */
module Usage {

  /** An hour of the day, as a `datetime` timestamp reports it in its `hour` field. */
  type Hour = h: int | 0 <= h < 24

  /** A timestamp taken from the host clock. The hourly bucketing reads only the
      hour of the day; the calendar day is kept so that it is visible that samples
      of different days but the same hour land in one bucket. Finer fields
      (minutes, seconds) are read by nothing in the model and are not kept. */
  datatype Timestamp = Timestamp(day: int, hour: Hour)

  /** One observation: when it was taken, the memory and the CPU utilisation in percent. */
  datatype Sample = Sample(time: Timestamp, memoryPercent: real, cpuPercent: real)

  /** The timestamps of a history of samples, in order. */
  function Times(samples: seq<Sample>): seq<Timestamp>
  {
    seq(|samples|, i requires 0 <= i < |samples| => samples[i].time)
  }

  /** The memory readings of a history of samples, in order. */
  function MemoryReadings(samples: seq<Sample>): seq<real>
  {
    seq(|samples|, i requires 0 <= i < |samples| => samples[i].memoryPercent)
  }

  /** The CPU readings of a history of samples, in order. */
  function CpuReadings(samples: seq<Sample>): seq<real>
  {
    seq(|samples|, i requires 0 <= i < |samples| => samples[i].cpuPercent)
  }

  /** Taking one more sample extends each projection by that sample's field. */
  lemma ProjectionsGrow(samples: seq<Sample>, i: nat)
    requires i < |samples|
    ensures Times(samples[..i + 1]) == Times(samples[..i]) + [samples[i].time]
    ensures MemoryReadings(samples[..i + 1]) == MemoryReadings(samples[..i]) + [samples[i].memoryPercent]
    ensures CpuReadings(samples[..i + 1]) == CpuReadings(samples[..i]) + [samples[i].cpuPercent]
  {
    assert samples[..i + 1] == samples[..i] + [samples[i]];
  }
}
