/**
 * `default_on_message` (ffmpeg_progress/utils.py:6-31): a 22-character bar
 * built in place, and the line written to standard output.
 *
 * The bar is a list of characters, '|', twenty spaces and '|'.  Cells 1 up
 * to to_fill are overwritten with FILL, where to_fill is
 * round(20 * fr_cnt / total_frames), or 1 when that rounds to 0.  Python's
 * list indexing applies: a to_fill of 23 or more makes the loop of lines
 * 25-26 raise IndexError at cell 22, and a to_fill of 22 makes the last
 * assignment raise it.  A negative to_fill leaves the loop empty; the last
 * assignment then counts from the end, and raises below -22.
 */
module Utils {
  import opened Wrappers
  import opened Exceptions
  import opened TextOps

  const FILL: char := '░'
  const BAR_WIDTH: int := 22

  /** Cell i of list('|' + (20 * ' ') + '|'). */
  function InitialCell(i: int): char
  {
    if i == 0 || i == BAR_WIDTH - 1 then '|' else ' '
  }

  /** The list the bar starts as is '|', twenty spaces and '|'. */
  lemma InitialBarCells()
    ensures forall i :: 0 <= i < BAR_WIDTH ==> ("|" + seq(20, _ => ' ') + "|")[i] == InitialCell(i)
  {
  }

  /**
   * round(n / d) for an exact quotient: the nearest integer, ties to the
   * even one, as Python's round() does.  Whatever the sign of d, q * d is
   * within half of |d| from n, and on a tie q is even.
   */
  function RoundHalfEven(n: int, d: int): (q: int)
    requires d != 0
    ensures d > 0 ==> -d <= 2 * (n - q * d) <= d
    ensures d < 0 ==> d <= 2 * (n - q * d) <= -d
    ensures 2 * (n - q * d) == d || 2 * (n - q * d) == -d ==> q % 2 == 0
    decreases if d < 0 then 1 else 0
  {
    if d < 0 then
      var q := RoundHalfEven(-n, -d);
      NegatedRemainder(n, d, q);
      q
    else
      var q := n / d;
      var r := n % d;
      assert n - q * d == r && n - (q + 1) * d == r - d by {
        assert n == q * d + r;
        assert (q + 1) * d == q * d + d;
      }
      if 2 * r < d then q
      else if 2 * r > d then q + 1
      else if q % 2 == 0 then q
      else q + 1
  }

  /** Negating both operands negates the remainder left by q. */
  lemma NegatedRemainder(n: int, d: int, q: int)
    ensures -n - q * -d == -(n - q * d)
  {
    assert q * -d == -(q * d);
  }

  lemma MulMonotone(a: int, b: int, d: int)
    requires a <= b && d > 0
    ensures a * d <= b * d
  {
  }

  /**
   * int(round((fr_cnt / total_frames) * 20)) or 1: never 0, and at least 1
   * for a frame count that is not negative.
   */
  function ToFill(frames: int, total: int): (toFill: int)
    requires total != 0
    ensures toFill != 0
    ensures frames >= 0 && total > 0 ==> toFill >= 1
  {
    var t := RoundHalfEven(20 * frames, total);
    assert frames >= 0 && total > 0 ==> t >= 0 by {
      if frames >= 0 && total > 0 && t < 0 {
        MulMonotone(t, -1, total);
        assert false;
      }
    }
    if t == 0 then 1 else t
  }

  /** While 0 <= fr_cnt <= total_frames the bar fills between one and twenty cells. */
  lemma ToFillBounds(frames: int, total: int)
    requires 0 <= frames <= total && total > 0
    ensures 1 <= ToFill(frames, total) <= 20
  {
    var t := RoundHalfEven(20 * frames, total);
    if t > 20 {
      MulMonotone(21, t, total);
      MulMonotone(frames, total, 20);
      assert false;
    }
    if t < 0 {
      MulMonotone(t, -1, total);
      assert false;
    }
  }

  /** The cell the final assignment writes: Python's index for to_fill. */
  function LastCell(toFill: int): int
  {
    if toFill < 0 then BAR_WIDTH + toFill else toFill
  }

  /** Cell i after the loop of lines 25-26 and the assignment of line 27. */
  function BarCell(toFill: int, i: int): char
  {
    if 1 <= i < toFill || i == LastCell(toFill) then FILL else InitialCell(i)
  }

  /** The bar the source builds for a given to_fill, or the IndexError it raises. */
  function BarSpec(toFill: int): (r: Result<string, Builtin>)
    ensures r.Failure? <==> toFill >= BAR_WIDTH || toFill < -BAR_WIDTH
    ensures r.Success? ==> |r.value| == BAR_WIDTH
  {
    if toFill >= BAR_WIDTH || toFill < -BAR_WIDTH then Failure(IndexError)
    else Success(seq(BAR_WIDTH, i => BarCell(toFill, i)))
  }

  /**
   * Lines 23-28: the bar as a 22-cell array filled in place, or the
   * exception the arithmetic or the indexing raises.
   */
  method RenderBar(frames: int, total: int) returns (r: Result<string, Builtin>)
    ensures total == 0 ==> r == Failure(ZeroDivisionError)
    ensures total != 0 ==> r == BarSpec(ToFill(frames, total))
  {
    if total == 0 {
      return Failure(ZeroDivisionError);
    }
    var toFill := ToFill(frames, total);
    var bar := new char[BAR_WIDTH](InitialCell);
    var x := 1;
    while x < toFill
      invariant 1 <= x <= BAR_WIDTH && (x <= toFill || x == 1)
      invariant forall i :: 0 <= i < BAR_WIDTH ==> bar[i] == if 1 <= i < x then FILL else InitialCell(i)
    {
      if x == BAR_WIDTH {
        return Failure(IndexError);
      }
      bar[x] := FILL;
      x := x + 1;
    }
    var last := LastCell(toFill);
    if last < 0 || last >= BAR_WIDTH {
      return Failure(IndexError);
    }
    bar[last] := FILL;
    assert forall i :: 0 <= i < BAR_WIDTH ==> bar[i] == BarCell(toFill, i);
    assert bar[..] == seq(BAR_WIDTH, i => BarCell(toFill, i));
    r := Success(bar[..]);
  }

  /**
   * For 0 <= fr_cnt <= total_frames the bar is well formed: both '|' survive,
   * cells 1..to_fill are FILL and the rest stay blank.
   */
  lemma BarWithinBounds(frames: int, total: int)
    requires 0 <= frames <= total && total > 0
    ensures var t := ToFill(frames, total);
            var r := BarSpec(t);
            && r.Success?
            && r.value[0] == '|' && r.value[BAR_WIDTH - 1] == '|'
            && (forall i :: 1 <= i <= t ==> r.value[i] == FILL)
            && (forall i :: t < i < BAR_WIDTH - 1 ==> r.value[i] == ' ')
  {
    ToFillBounds(frames, total);
  }

  /** test_default_on_message: 500 of 1000 frames fill ten cells. */
  lemma HalfwayBar()
    ensures BarSpec(ToFill(500, 1000)) == Success("|" + seq(10, _ => FILL) + seq(10, _ => ' ') + "|")
  {
    assert RoundHalfEven(10000, 1000) == 10;
    var expected := "|" + seq(10, _ => FILL) + seq(10, _ => ' ') + "|";
    forall i | 0 <= i < BAR_WIDTH
      ensures BarCell(10, i) == expected[i]
    {
      if i == 0 {
      } else if i <= 10 {
        assert expected[i] == FILL;
      } else if i < 21 {
        assert expected[i] == ' ';
      }
    }
    assert seq(BAR_WIDTH, i => BarCell(10, i)) == expected;
  }

  /**
   * display passes fr_cnt to the callback as read from the log, and the
   * estimate of total_frames can fall short of what ffmpeg writes.  At
   * twice total_frames, to_fill is 40: the loop of lines 25-26 reaches cell
   * 22 and raises IndexError before line 27 runs.
   */
  lemma OverfullBarRaises()
    ensures ToFill(2000, 1000) == 40
    ensures BarSpec(ToFill(2000, 1000)) == Failure(IndexError)
  {
    assert RoundHalfEven(40000, 1000) == 40;
  }

  /** Between 1.025 and 1.075 times total_frames, to_fill is 21 and the closing '|' is overwritten. */
  lemma OverfullBarLosesEdge()
    ensures ToFill(1050, 1000) == 21
    ensures BarSpec(ToFill(1050, 1000)).Success? && BarSpec(ToFill(1050, 1000)).value[BAR_WIDTH - 1] == FILL
  {
    assert RoundHalfEven(21000, 1000) == 21;
  }

  /**
   * A count that is not negative fills past the bar exactly from
   * fr_cnt >= 1.075 * total_frames on: round() reaches 22 at 21.5, a tie that
   * goes to the even 22.
   */
  lemma OvershootThreshold(frames: int, total: int)
    requires frames >= 0 && total > 0
    ensures ToFill(frames, total) >= BAR_WIDTH <==> 40 * frames >= 43 * total
  {
    var t := RoundHalfEven(20 * frames, total);
    if t >= 22 {
      MulMonotone(22, t, total);
    } else {
      MulMonotone(t, 21, total);
      if t <= 20 {
        MulMonotone(t, 20, total);
      }
    }
  }

  /**
   * The exception default_on_message raises, or None when it writes its
   * line: ZeroDivisionError for a zero total_frames, IndexError when to_fill
   * falls outside the bar, which for a count that is not negative happens
   * exactly from 1.075 * total_frames on.
   */
  function DefaultRaises(frames: int, total: int): (r: Option<Builtin>)
    ensures r == Some(ZeroDivisionError) <==> total == 0
    ensures r.Some? && total != 0 ==> r == Some(IndexError)
    ensures frames >= 0 && total > 0 ==> (r.Some? <==> 40 * frames >= 43 * total)
  {
    if total == 0 then Some(ZeroDivisionError)
    else
      var fails := BarSpec(ToFill(frames, total)).Failure?;
      assert frames >= 0 && total > 0 ==> (fails <==> 40 * frames >= 43 * total) by {
        if frames >= 0 && total > 0 {
          OvershootThreshold(frames, total);
        }
      }
      if fails then Some(IndexError) else None
  }

  /** to_fill capped at the twenty cells between the two '|'. */
  function CappedToFill(frames: int, total: int): (toFill: int)
    requires total > 0
    ensures frames >= 0 ==> 1 <= toFill <= 20
    ensures toFill <= ToFill(frames, total)
  {
    var t := ToFill(frames, total);
    if t > 20 then 20 else t
  }

  /**
   * With the cap the bar is well formed for every frame count display can
   * pass, including counts beyond total_frames; below the estimate the cap
   * changes nothing.
   */
  lemma CappedBarWellFormed(frames: int, total: int)
    requires frames >= 0 && total > 0
    ensures var t := CappedToFill(frames, total);
            var r := BarSpec(t);
            && 1 <= t <= 20
            && (frames <= total ==> t == ToFill(frames, total))
            && r.Success?
            && r.value[0] == '|' && r.value[BAR_WIDTH - 1] == '|'
            && (forall i :: 1 <= i <= t ==> r.value[i] == FILL)
            && (forall i :: t < i < BAR_WIDTH - 1 ==> r.value[i] == ' ')
  {
    if frames <= total {
      ToFillBounds(frames, total);
    }
  }

  /** "<fr_cnt> / <total_frames> frames;", as '{fr_cnt:d} / {total_frames:d} frames;' writes it. */
  function FramesText(frames: int, total: int): string
  {
    Decimal(frames) + " / " + Decimal(total) + " frames;"
  }

  predicate Ascii(s: string)
  {
    forall k :: 0 <= k < |s| ==> s[k] as int < 128
  }

  lemma {:induction false} AsciiBytesAppend(a: string, b: string)
    requires Ascii(a) && Ascii(b)
    ensures Ascii(a + b) && AsciiBytes(a + b) == AsciiBytes(a) + AsciiBytes(b)
  {
    assert forall k :: 0 <= k < |a + b| ==> (a + b)[k] == if k < |a| then a[k] else b[k - |a|];
  }

  /** The ":d" format writes ASCII with no whitespace. */
  lemma {:induction false} DecimalIsOneField(n: int)
    ensures Ascii(Decimal(n)) && AsciiBytes(Decimal(n)) != [] && NoSpace(AsciiBytes(Decimal(n)))
  {
    var d := Decimal(n);
    assert forall k :: 0 <= k < |d| ==> d[k] == '-' || '0' <= d[k] <= '9';
  }

  /** The bytes of "frames;". */
  const FRAMES_WORD: seq<byte> := [102, 114, 97, 109, 101, 115, 59]

  lemma {:induction false} JoinFour(a: seq<byte>, b: seq<byte>, c: seq<byte>, d: seq<byte>)
    ensures Join([a, b, c, d]) == a + [32] + b + [32] + c + [32] + d
  {
    var fields := [a, b, c, d];
    assert fields[1..] == [b, c, d] && fields[2..] == [c, d] && fields[3..] == [d];
    assert Join([d]) == d;
    assert Join([c, d]) == c + [32] + d;
    assert Join([b, c, d]) == b + [32] + (c + [32] + d);
  }

  lemma {:induction false} FramesTextBytes(frames: int, total: int)
    ensures Ascii(FramesText(frames, total))
    ensures AsciiBytes(FramesText(frames, total)) ==
            AsciiBytes(Decimal(frames)) + [32] + [47] + [32] + AsciiBytes(Decimal(total)) + [32] + FRAMES_WORD
  {
    var a := Decimal(frames);
    var c := Decimal(total);
    DecimalIsOneField(frames);
    DecimalIsOneField(total);
    AsciiBytesAppend(a, " / ");
    AsciiBytesAppend(a + " / ", c);
    SeparatorBytes();
    AsciiBytesAppend(a + " / " + c, " frames;");
  }

  lemma SeparatorBytes()
    ensures Ascii(" / ") && AsciiBytes(" / ") == [32, 47, 32]
    ensures Ascii(" frames;") && AsciiBytes(" frames;") == [32] + FRAMES_WORD
  {
  }

  /** The frames text is four single-spaced fields: fr_cnt, "/", total_frames and "frames;". */
  lemma {:induction false} FramesTextFields(frames: int, total: int)
    ensures Ascii(FramesText(frames, total))
    ensures var fields := [AsciiBytes(Decimal(frames)), [47], AsciiBytes(Decimal(total)), FRAMES_WORD];
            ProperFields(fields) && AsciiBytes(FramesText(frames, total)) == Join(fields)
  {
    DecimalIsOneField(frames);
    DecimalIsOneField(total);
    FramesTextBytes(frames, total);
    JoinFour(AsciiBytes(Decimal(frames)), [47], AsciiBytes(Decimal(total)), FRAMES_WORD);
  }

  /**
   * The frame counts can be read back from the message: split on
   * whitespace, "<fr_cnt> / <total_frames> frames;" has four fields, and
   * int() of the first and the third gives fr_cnt and total_frames.
   */
  lemma {:induction false} FramesTextReadsBack(frames: int, total: int)
    ensures Ascii(FramesText(frames, total))
    ensures var fields := Split(AsciiBytes(FramesText(frames, total)));
            |fields| == 4 && ParseInt(fields[0]) == Some(frames) && ParseInt(fields[2]) == Some(total)
  {
    FramesTextFields(frames, total);
    SplitJoin([AsciiBytes(Decimal(frames)), [47], AsciiBytes(Decimal(total)), FRAMES_WORD]);
    DecimalRoundTrip(frames);
    DecimalRoundTrip(total);
  }

  /**
   * Lines 29-30 without the two float fields, which are given already
   * formatted: percentText for '{percent:5.1f}', elapsedText for '{elapsed:.2f}'.
   */
  function StatusLine(bar: string, percentText: string, frames: int, total: int, elapsedText: string): (line: string)
    ensures |line| > |bar| + 1 && line[0] == '\r' && line[1..|bar| + 1] == bar
  {
    "\r" + bar + "  " + percentText + "%   " + FramesText(frames, total) + "   elapsed time: " + elapsedText + " seconds"
  }

  /** default_on_message: the status line written, or the exception raised before the write. */
  method DefaultOnMessage(percentText: string, frames: int, total: int, elapsedText: string)
    returns (r: Result<string, Builtin>)
    ensures total == 0 ==> r == Failure(ZeroDivisionError)
    ensures total != 0 && BarSpec(ToFill(frames, total)).Failure? ==> r == Failure(IndexError)
    ensures total != 0 && BarSpec(ToFill(frames, total)).Success? ==>
              r == Success(StatusLine(BarSpec(ToFill(frames, total)).value, percentText, frames, total, elapsedText))
    ensures r.Failure? <==> DefaultRaises(frames, total).Some?
    ensures r.Failure? ==> DefaultRaises(frames, total) == Some(r.error)
  {
    var bar := RenderBar(frames, total);
    if bar.Failure? {
      return Failure(bar.error);
    }
    r := Success(StatusLine(bar.value, percentText, frames, total, elapsedText));
  }
}
