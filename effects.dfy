/**
 * The observable effects of `start` and `display`, in the order they
 * happen; a run of the model is judged by the trace of these it leaves.
 */
module Effects {

  /** The four arguments of one on_message call. */
  datatype Sample = Sample(percent: real, frames: int, totalFrames: int, elapsed: real)

  datatype Effect =
    | CreateTemp(fd: int, path: string)                  // mkstemp
    | Launch(input: string, output: string, statsPath: string)  // ffmpeg_func(...)
    | Sleep(seconds: real)                                // sleep(...)
    | Display(totalFrames: int, fd: int, pid: int)        // display(...) is entered
    | Message(sample: Sample)                             // on_message(...)
    | Close(fd: int)                                      // os.close(vstats_fd)
    | Done                                                // on_done()
}
