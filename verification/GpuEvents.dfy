/** The events of the normalised GPU model that several stores exchange (gpu/types.go). */
module GpuEvents {
  import opened Machine

  /** A vendor correlation, qualified by the process that produced it. */
  datatype Correlation = Correlation(backend: string, pid: uint32, value: string)
  {
    predicate Present() { value != "" }
  }

  datatype Queue = Queue(backend: string, queueID: string)

  /** The label names the profiler derives, each its own constructor, and any other. */
  datatype LabelName =
    | GpuPid | GpuQueue | GpuDevice | GpuCorrelation | GpuJoin | GpuAmbiguous | GpuGraphRefused
    | GpuSerialized | GpuSamplePeriod
    | GpuStall | GpuPc | GpuPcAttrib | GpuSrcStatus | GpuSrcFile | GpuSrcLine | GpuSrcFunc
    | Other(name: string)

  type Labels = map<LabelName, string>

  /** Tags are the producer's own labels, under any name it likes. */
  datatype LaunchContext = LaunchContext(pid: uint32, cpuStack: seq<string>, samplePeriod: uint32,
                                         tags: Labels)

  datatype Launch = Launch(correlation: Correlation, queue: Queue, kernelName: string,
                           timeNs: uint64, context: LaunchContext)

  datatype Exec = Exec(correlation: Correlation, queue: Queue, kernelName: string,
                       startNs: uint64, endNs: uint64)

  /** One program-counter sample. Its module names the device binary; its correlation
      may be absent, but still names the process. */
  datatype PcSample = PcSample(correlation: Correlation, moduleBackend: string, crc: uint64,
                               functionIndex: uint32, timeNs: uint64, pcOffset: uint64,
                               stallReason: string, count: uint64)
}
