/**
 * The part of ffprobe's JSON record that the core reads
 * (ffmpeg_progress/types.py).  Both top-level keys are optional; a stream
 * always carries its average frame rate; the format may lack a duration.
 */
module ProbeTypes {
  import opened Wrappers

  /** An `avg_frame_rate` string of the form "num/den". */
  datatype FrameRate = FrameRate(num: int, den: int)

  datatype ProbeStream = ProbeStream(avgFrameRate: FrameRate)

  /** `duration` already converted by float(); None when the key is absent. */
  datatype ProbeFormat = ProbeFormat(duration: Option<real>)

  /** None for a top-level key that is absent. */
  datatype Probe = Probe(streams: Option<seq<ProbeStream>>, format: Option<ProbeFormat>)
}
