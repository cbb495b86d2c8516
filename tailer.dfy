/**
 * The reverse scan `display` uses to read the last line of the statistics
 * log (ffmpeg_progress/lib.py:96-105).  The log is the byte sequence the
 * file holds at the moment of the poll.  The scan seeks to size - 2, reads
 * one byte at a time walking backward until it reads a newline, then reads
 * the bytes between that newline and the final byte of the file.
 */
module Tailer {
  import opened Wrappers
  import opened Exceptions
  import opened TextOps

  /** What one tail attempt yields: skip this poll, the bytes of the last line, or an escaping exception. */
  datatype Tail = NotReady | Line(text: seq<byte>) | Failed(builtin: Builtin)

  /** The largest index below bound holding a newline. */
  function LastNewlineBefore(s: seq<byte>, bound: nat): (r: Option<nat>)
    requires bound <= |s|
    ensures r.Some? ==> r.value < bound && s[r.value] == NEWLINE
    ensures r.Some? ==> forall k :: r.value < k < bound ==> s[k] != NEWLINE
    ensures r.None? ==> forall k :: 0 <= k < bound ==> s[k] != NEWLINE
    decreases bound
  {
    if bound == 0 then None
    else if s[bound - 1] == NEWLINE then Some(bound - 1)
    else LastNewlineBefore(s, bound - 1)
  }

  /**
   * The outcome of the scan.  Fewer than two bytes make the first seek fail
   * (caught: skip); a newline just before the final byte leaves pos_start
   * unset (skip); no newline further back makes the backward seek go below
   * offset 0 (OSError, not caught).
   */
  function TailSpec(s: seq<byte>): (t: Tail)
    ensures t.NotReady? <==> |s| < 2 || s[|s| - 2] == NEWLINE
    ensures t.Failed? ==> t.builtin == OSError
  {
    if |s| < 2 || s[|s| - 2] == NEWLINE then NotReady
    else
      match LastNewlineBefore(s, |s| - 2)
      case None => Failed(OSError)
      case Some(p) => Line(s[p + 1..|s| - 1])
  }

  /**
   * The scan itself.  bytesRead counts what the os.read calls return: one
   * byte per step of the backward walk, then the line.  On success that is
   * 2 * (|s| - 2 - p) + 1 for the newline at p, whatever precedes p.
   */
  method TailLastLine(s: seq<byte>) returns (t: Tail, bytesRead: nat)
    ensures t == TailSpec(s)
    ensures |s| < 2 ==> bytesRead == 0
    ensures 2 <= |s| && s[|s| - 2] == NEWLINE ==> bytesRead == 1
    ensures t.Failed? ==> bytesRead == |s| - 1
    ensures t.Line? ==> var p := LastNewlineBefore(s, |s| - 2).value;
                        bytesRead == 2 * (|s| - 2 - p) + 1
  {
    if |s| < 2 {
      return NotReady, 0;
    }
    var posEnd := |s| - 2;
    var pos := posEnd;
    var posStart: Option<nat> := None;
    bytesRead := 0;
    while true
      invariant 0 <= pos <= posEnd
      invariant forall k :: pos < k <= posEnd ==> s[k] != NEWLINE
      invariant posStart == if pos == posEnd then None else Some(pos)
      invariant bytesRead == posEnd - pos
      decreases pos
    {
      var b := s[pos];
      bytesRead := bytesRead + 1;
      if b == NEWLINE {
        break;
      }
      if pos == 0 {
        return Failed(OSError), bytesRead;
      }
      pos := pos - 1;
      posStart := Some(pos);
    }
    if posStart.None? {
      return NotReady, bytesRead;
    }
    assert LastNewlineBefore(s, |s| - 2) == Some(pos) by {
      LastNewlineUnique(s, |s| - 2, pos);
    }
    var line := s[pos + 1..posEnd + 1];
    bytesRead := bytesRead + (posEnd - pos);
    t := Line(line);
  }

  lemma {:induction false} LastNewlineUnique(s: seq<byte>, bound: nat, p: nat)
    requires p < bound <= |s| && s[p] == NEWLINE
    requires forall k :: p < k < bound ==> s[k] != NEWLINE
    ensures LastNewlineBefore(s, bound) == Some(p)
  {
    var r := LastNewlineBefore(s, bound);
    assert r.Some?;
  }

  /** The line a successful tail returns contains no newline. */
  lemma {:induction false} TailLineHasNoNewline(s: seq<byte>)
    requires TailSpec(s).Line?
    ensures NEWLINE !in TailSpec(s).text
  {
    var p := LastNewlineBefore(s, |s| - 2).value;
    var line := s[p + 1..|s| - 1];
    assert TailSpec(s) == Line(line);
    forall k | 0 <= k < |line|
      ensures line[k] != NEWLINE
    {
      assert line[k] == s[p + 1 + k];
    }
  }

  /**
   * The most recent complete line is what the tail returns: for a log that
   * ends in a newline-terminated line preceded by a newline, the result is
   * that line, whatever comes before it.
   */
  lemma {:induction false} TailOfCompleteLine(older: seq<byte>, line: seq<byte>)
    requires line != [] && NEWLINE !in line
    ensures TailSpec(older + [NEWLINE] + line + [NEWLINE]) == Line(line)
  {
    var s := older + [NEWLINE] + line + [NEWLINE];
    var p := |older|;
    assert s[|s| - 2] == line[|line| - 1];
    forall k | p < k < |s| - 2
      ensures s[k] != NEWLINE
    {
      assert s[k] == line[k - p - 1];
    }
    LastNewlineUnique(s, |s| - 2, p);
    assert s[p + 1..|s| - 1] == line;
  }

  /**
   * Older lines do not matter: once the log holds a newline before its last
   * line, prepending any bytes leaves the tail unchanged.  Together with the
   * byte count of TailLastLine, the work of a poll does not grow with the log.
   */
  lemma {:induction false} TailIgnoresOlderBytes(older: seq<byte>, s: seq<byte>)
    requires 2 <= |s| && LastNewlineBefore(s, |s| - 2).Some?
    ensures TailSpec(older + s) == TailSpec(s)
    ensures LastNewlineBefore(older + s, |older + s| - 2) ==
              Some(|older| + LastNewlineBefore(s, |s| - 2).value)
  {
    var p := LastNewlineBefore(s, |s| - 2).value;
    var t := older + s;
    assert LastNewlineBefore(t, |t| - 2) == Some(|older| + p) by {
      assert t[|older| + p] == s[p];
      forall k | |older| + p < k < |t| - 2
        ensures t[k] != NEWLINE
      {
        assert t[k] == s[k - |older|];
      }
      LastNewlineUnique(t, |t| - 2, |older| + p);
    }
    assert t[|t| - 2] == s[|s| - 2];
    assert t[|older| + p + 1..|t| - 1] == s[p + 1..|s| - 1];
  }
}
