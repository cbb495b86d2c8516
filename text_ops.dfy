/**
 * Byte-level models of the Python built-ins the polling loop applies to a
 * line of the statistics log (str.strip(), re.split(r'\s+', ...), int(...))
 * and of the ":d" format the default renderer uses.
 */
module TextOps {
  import opened Wrappers

  newtype byte = x: int | 0 <= x < 256

  /** LINESEP_BYTES on Linux, the only supported platform. */
  const NEWLINE: byte := 10
  const PLUS: byte := 43
  const MINUS: byte := 45
  const UNDERSCORE: byte := 95

  /**
   * ASCII bytes for which str.isspace() holds and which `\s` matches: tab,
   * line feed, vertical tab, form feed, carriage return, the information
   * separators 0x1c-0x1f, and space.
   */
  predicate IsSpace(b: byte)
  {
    9 <= b <= 13 || 28 <= b <= 32
  }

  predicate AllSpace(s: seq<byte>)
  {
    forall k :: 0 <= k < |s| ==> IsSpace(s[k])
  }

  predicate NoSpace(s: seq<byte>)
  {
    forall k :: 0 <= k < |s| ==> !IsSpace(s[k])
  }

  /** Length of the longest all-whitespace prefix of s. */
  function LeadingSpaces(s: seq<byte>): (n: nat)
    ensures n <= |s| && AllSpace(s[..n])
    ensures n < |s| ==> !IsSpace(s[n])
  {
    if s == [] || !IsSpace(s[0]) then 0
    else
      var m := LeadingSpaces(s[1..]);
      assert forall k :: 1 <= k < m + 1 ==> s[k] == s[1..][k - 1];
      1 + m
  }

  /** Length of the longest all-whitespace suffix of s. */
  function TrailingSpaces(s: seq<byte>): (n: nat)
    ensures n <= |s| && AllSpace(s[|s| - n..])
    ensures n < |s| ==> !IsSpace(s[|s| - n - 1])
  {
    if s == [] || !IsSpace(s[|s| - 1]) then 0
    else
      var m := TrailingSpaces(s[..|s| - 1]);
      assert forall k :: |s| - 1 - m <= k < |s| - 1 ==> s[k] == s[..|s| - 1][k];
      1 + m
  }

  /**
   * str.strip(): the result has no whitespace at either end and keeps only
   * bytes of s; StripRemovesOnlyEdges says what it drops.
   */
  function Strip(s: seq<byte>): (r: seq<byte>)
    ensures r == [] || (!IsSpace(r[0]) && !IsSpace(r[|r| - 1]))

  {
    var i := LeadingSpaces(s);
    var t := s[i..];
    var n := TrailingSpaces(t);
    var r := t[..|t| - n];
    assert r == s[i..i + |r|];
    assert s[i + |r|..] == t[|t| - n..];
    r
  }

  /** A text with no whitespace at either end is its own strip. */
  lemma {:induction false} StripOfTrimmed(s: seq<byte>)
    requires s == [] || (!IsSpace(s[0]) && !IsSpace(s[|s| - 1]))
    ensures Strip(s) == s
  {
    assert LeadingSpaces(s) == 0;
    assert s[0..] == s;
    assert TrailingSpaces(s) == 0;
    assert s[..|s| - 0] == s;
  }

  /** Strip drops whitespace at the two ends of s and nothing else. */
  lemma {:induction false} StripRemovesOnlyEdges(s: seq<byte>)
    ensures var r := Strip(s);
            var i := LeadingSpaces(s);
            i + |r| <= |s| && r == s[i..i + |r|] && AllSpace(s[..i]) && AllSpace(s[i + |r|..])
  {
    var r := Strip(s);
    var i := LeadingSpaces(s);
    var t := s[i..];
    var n := TrailingSpaces(t);
    assert r == t[..|t| - n];
    assert r == s[i..i + |r|] by {
      assert t[..|t| - n] == s[i..i + (|t| - n)];
    }
    assert AllSpace(s[i + |r|..]) by {
      assert s[i + |r|..] == t[|t| - n..];
    }
  }

  /** Strip introduces no byte: a byte absent from s is absent from Strip(s). */
  lemma {:induction false} StripAddsNothing(s: seq<byte>, b: byte)
    requires b !in s
    ensures b !in Strip(s)
  {
    var r := Strip(s);
    StripRemovesOnlyEdges(s);
    var i := LeadingSpaces(s);
    forall k | 0 <= k < |r|
      ensures r[k] != b
    {
      assert r[k] == s[i + k];
    }
  }

  /** Index of the first whitespace byte of s, or |s| when there is none. */
  function FirstSpace(s: seq<byte>): (i: nat)
    ensures i <= |s| && NoSpace(s[..i])
    ensures i < |s| ==> IsSpace(s[i])
  {
    if s == [] || IsSpace(s[0]) then 0
    else
      var m := FirstSpace(s[1..]);
      assert forall k :: 1 <= k < m + 1 ==> s[k] == s[1..][k - 1];
      1 + m
  }

  /**
   * re.split(r'\s+', s): the pieces between maximal runs of whitespace, with
   * an empty piece at an end where s begins or ends with whitespace.
   */
  function Split(s: seq<byte>): (fields: seq<seq<byte>>)
    ensures |fields| >= 1
    ensures forall f :: f in fields ==> NoSpace(f)
    decreases |s|
  {
    var i := FirstSpace(s);
    if i == |s| then
      assert s[..i] == s;
      [s]
    else
      var rest := s[i..];
      [s[..i]] + Split(rest[LeadingSpaces(rest)..])
  }

  /** A text without whitespace is a single field. */
  lemma {:induction false} SplitNoSpace(w: seq<byte>)
    requires NoSpace(w)
    ensures Split(w) == [w]
  {
    assert FirstSpace(w) == |w|;
  }

  /** FirstSpace finds the first whitespace byte: the index j it is at. */
  lemma {:induction false} FirstSpaceAt(s: seq<byte>, j: nat)
    requires j < |s| && NoSpace(s[..j]) && IsSpace(s[j])
    ensures FirstSpace(s) == j
    decreases j
  {
    if j > 0 {
      assert s[..j][0] == s[0];
      assert s[1..][..j - 1] == s[1..j] && s[1..][j - 1] == s[j];
      assert forall k :: 0 <= k < j - 1 ==> s[1..j][k] == s[..j][k + 1];
      FirstSpaceAt(s[1..], j - 1);
    }
  }

  /** LeadingSpaces counts the whitespace run at the front: n when that run is n bytes long. */
  lemma {:induction false} LeadingSpacesAre(s: seq<byte>, n: nat)
    requires n <= |s| && AllSpace(s[..n]) && (n < |s| ==> !IsSpace(s[n]))
    ensures LeadingSpaces(s) == n
    decreases n
  {
    if n > 0 {
      assert s[..n][0] == s[0];
      assert s[1..][..n - 1] == s[1..n];
      assert forall k :: 0 <= k < n - 1 ==> s[1..n][k] == s[..n][k + 1];
      if n < |s| {
        assert s[1..][n - 1] == s[n];
      }
      LeadingSpacesAre(s[1..], n - 1);
    }
  }

  /** TrailingSpaces counts the whitespace run at the end: n when that run is n bytes long. */
  lemma {:induction false} TrailingSpacesAre(s: seq<byte>, n: nat)
    requires n <= |s| && AllSpace(s[|s| - n..]) && (n < |s| ==> !IsSpace(s[|s| - n - 1]))
    ensures TrailingSpaces(s) == n
    decreases n
  {
    if n > 0 {
      var init := s[..|s| - 1];
      assert s[|s| - n..][n - 1] == s[|s| - 1];
      assert init[|init| - (n - 1)..] == s[|s| - n..][..n - 1];
      if n < |s| {
        assert init[|init| - (n - 1) - 1] == s[|s| - n - 1];
      }
      TrailingSpacesAre(init, n - 1);
    }
  }

  /** A field, a run of whitespace, and a text that starts with a non-space byte. */
  lemma {:induction false} SplitRun(w: seq<byte>, run: seq<byte>, rest: seq<byte>)
    requires NoSpace(w) && run != [] && AllSpace(run) && rest != [] && !IsSpace(rest[0])
    ensures Split(w + run + rest) == [w] + Split(rest)
  {
    var s := w + run + rest;
    assert s[..|w|] == w && s[|w|] == run[0];
    FirstSpaceAt(s, |w|);
    var tail := s[|w|..];
    assert tail == run + rest;
    assert tail[..|run|] == run && tail[|run|] == rest[0];
    LeadingSpacesAre(tail, |run|);
    assert tail[|run|..] == rest;
  }

  function Concat(fields: seq<seq<byte>>): seq<byte>
  {
    if fields == [] then [] else fields[0] + Concat(fields[1..])
  }

  /** s with every whitespace byte dropped: the reference for Split. */
  function RemoveSpaces(s: seq<byte>): seq<byte>
  {
    if s == [] then []
    else (if IsSpace(s[0]) then [] else [s[0]]) + RemoveSpaces(s[1..])
  }

  lemma {:induction false} RemoveSpacesAppend(a: seq<byte>, b: seq<byte>)
    ensures RemoveSpaces(a + b) == RemoveSpaces(a) + RemoveSpaces(b)
  {
    if a != [] {
      assert (a + b)[1..] == a[1..] + b;
      RemoveSpacesAppend(a[1..], b);
    } else {
      assert a + b == b;
    }
  }

  lemma {:induction false} RemoveSpacesOfNoSpace(s: seq<byte>)
    requires NoSpace(s)
    ensures RemoveSpaces(s) == s
  {
    if s != [] {
      RemoveSpacesOfNoSpace(s[1..]);
    }
  }

  lemma {:induction false} RemoveSpacesOfAllSpace(s: seq<byte>)
    requires AllSpace(s)
    ensures RemoveSpaces(s) == []
  {
    if s != [] {
      RemoveSpacesOfAllSpace(s[1..]);
    }
  }

  lemma {:induction false} ConcatCons(x: seq<byte>, xs: seq<seq<byte>>)
    ensures Concat([x] + xs) == x + Concat(xs)
  {
    assert ([x] + xs)[1..] == xs;
  }

  /** A word, then a run of whitespace, then the rest: only the word and the rest keep bytes. */
  lemma {:induction false} RemoveSpacesAroundRun(w: seq<byte>, run: seq<byte>, tail: seq<byte>)
    requires NoSpace(w) && AllSpace(run)
    ensures RemoveSpaces(w + (run + tail)) == w + RemoveSpaces(tail)
  {
    RemoveSpacesAppend(w, run + tail);
    RemoveSpacesAppend(run, tail);
    RemoveSpacesOfNoSpace(w);
    RemoveSpacesOfAllSpace(run);
  }

  /** Split loses nothing but whitespace: its fields, joined, are s without its whitespace. */
  lemma {:induction false} SplitKeepsNonSpace(s: seq<byte>)
    ensures Concat(Split(s)) == RemoveSpaces(s)
    decreases |s|
  {
    var i := FirstSpace(s);
    if i == |s| {
      assert s[..i] == s;
      RemoveSpacesOfNoSpace(s);
      ConcatCons(s, []);
    } else {
      var rest := s[i..];
      var n := LeadingSpaces(rest);
      var tail := rest[n..];
      assert Split(s) == [s[..i]] + Split(tail);
      assert |tail| < |s|;
      SplitKeepsNonSpace(tail);
      ConcatCons(s[..i], Split(tail));
      assert s == s[..i] + (rest[..n] + tail);
      RemoveSpacesAroundRun(s[..i], rest[..n], tail);
    }
  }

  /**
   * Fields written out with a run of whitespace between neighbours:
   * seps[k] stands between fields[k] and fields[k + 1].
   */
  function JoinRuns(fields: seq<seq<byte>>, seps: seq<seq<byte>>): seq<byte>
    requires fields != [] && |seps| == |fields| - 1
  {
    if |fields| == 1 then fields[0] else fields[0] + seps[0] + JoinRuns(fields[1..], seps[1..])
  }

  /** Fields written out with a single space between neighbours. */
  function Join(fields: seq<seq<byte>>): seq<byte>
    requires fields != []
  {
    if |fields| == 1 then fields[0] else fields[0] + [32] + Join(fields[1..])
  }

  /** Non-empty fields without whitespace. */
  predicate ProperFields(fields: seq<seq<byte>>)
  {
    fields != [] && forall k :: 0 <= k < |fields| ==> fields[k] != [] && NoSpace(fields[k])
  }

  /** One non-empty run of whitespace between each two neighbouring fields. */
  predicate Separators(fields: seq<seq<byte>>, seps: seq<seq<byte>>)
  {
    |seps| == |fields| - 1 && forall k :: 0 <= k < |seps| ==> seps[k] != [] && AllSpace(seps[k])
  }

  /** The single-spaced join is the join whose every separator is one space. */
  lemma {:induction false} JoinSingleSpaced(fields: seq<seq<byte>>)
    requires fields != []
    ensures Separators(fields, seq(|fields| - 1, _ => [32]))
    ensures Join(fields) == JoinRuns(fields, seq(|fields| - 1, _ => [32]))
    decreases |fields|
  {
    var seps: seq<seq<byte>> := seq(|fields| - 1, _ => [32]);
    if |fields| > 1 {
      JoinSingleSpaced(fields[1..]);
      assert seps[1..] == seq(|fields[1..]| - 1, _ => [32]);
      assert seps[0] == [32];
    }
  }

  lemma {:induction false} JoinRunsTail(fields: seq<seq<byte>>, seps: seq<seq<byte>>)
    requires ProperFields(fields) && Separators(fields, seps) && |fields| > 1
    ensures ProperFields(fields[1..]) && Separators(fields[1..], seps[1..]) && NoSpace(fields[0])
    ensures seps[0] != [] && AllSpace(seps[0])
    ensures JoinRuns(fields, seps) == fields[0] + seps[0] + JoinRuns(fields[1..], seps[1..])
  {
    var rest := fields[1..];
    forall k | 0 <= k < |rest|
      ensures rest[k] != [] && NoSpace(rest[k])
    {
      assert rest[k] == fields[k + 1];
    }
    forall k | 0 <= k < |seps| - 1
      ensures seps[1..][k] != [] && AllSpace(seps[1..][k])
    {
      assert seps[1..][k] == seps[k + 1];
    }
  }

  /** A join of proper fields neither starts nor ends with whitespace. */
  lemma {:induction false} JoinTrimmed(fields: seq<seq<byte>>, seps: seq<seq<byte>>)
    requires ProperFields(fields) && Separators(fields, seps)
    ensures var s := JoinRuns(fields, seps);
            s != [] && !IsSpace(s[0]) && !IsSpace(s[|s| - 1])
    decreases |fields|
  {
    if |fields| > 1 {
      JoinRunsTail(fields, seps);
      JoinTrimmed(fields[1..], seps[1..]);
    }
  }

  /** A byte that occurs in no field and in no separator does not occur in their join. */
  lemma {:induction false} JoinAvoids(fields: seq<seq<byte>>, seps: seq<seq<byte>>, b: byte)
    requires fields != [] && |seps| == |fields| - 1
    requires forall k :: 0 <= k < |fields| ==> b !in fields[k]
    requires forall k :: 0 <= k < |seps| ==> b !in seps[k]
    ensures b !in JoinRuns(fields, seps)
    decreases |fields|
  {
    if |fields| > 1 {
      assert forall k :: 0 <= k < |fields| - 1 ==> fields[1..][k] == fields[k + 1];
      assert forall k :: 0 <= k < |seps| - 1 ==> seps[1..][k] == seps[k + 1];
      JoinAvoids(fields[1..], seps[1..], b);
    }
  }

  /**
   * Split undoes JoinRuns: re.split(r'\s+') recovers the fields of a line
   * whatever runs of whitespace separate them.
   */
  lemma {:induction false} SplitJoinRuns(fields: seq<seq<byte>>, seps: seq<seq<byte>>)
    requires ProperFields(fields) && Separators(fields, seps)
    ensures Split(JoinRuns(fields, seps)) == fields
    decreases |fields|
  {
    if |fields| == 1 {
      SplitNoSpace(fields[0]);
    } else {
      var rest := fields[1..];
      JoinRunsTail(fields, seps);
      SplitJoinRuns(rest, seps[1..]);
      JoinTrimmed(rest, seps[1..]);
      SplitRun(fields[0], seps[0], JoinRuns(rest, seps[1..]));
      assert [fields[0]] + rest == fields;
    }
  }

  /** In particular Split recovers the fields of a single-spaced line. */
  lemma {:induction false} SplitJoin(fields: seq<seq<byte>>)
    requires ProperFields(fields)
    ensures Split(Join(fields)) == fields
  {
    JoinSingleSpaced(fields);
    SplitJoinRuns(fields, seq(|fields| - 1, _ => [32]));
  }

  /** strip() of a trimmed, non-empty text padded with whitespace at both ends gives back that text. */
  lemma {:induction false} StripPadded(lead: seq<byte>, core: seq<byte>, trail: seq<byte>)
    requires AllSpace(lead) && AllSpace(trail)
    requires core != [] && !IsSpace(core[0]) && !IsSpace(core[|core| - 1])
    ensures Strip(lead + core + trail) == core
  {
    var s := lead + core + trail;
    assert s[..|lead|] == lead && s[|lead|] == core[0];
    LeadingSpacesAre(s, |lead|);
    var t := s[|lead|..];
    assert t == core + trail;
    assert t[|t| - |trail|..] == trail && t[|t| - |trail| - 1] == core[|core| - 1];
    TrailingSpacesAre(t, |trail|);
    assert t[..|t| - |trail|] == core;
  }

  /** On a stripped, non-empty line every field Split returns is non-empty. */
  lemma {:induction false} SplitStrippedFieldsNonEmpty(s: seq<byte>)
    requires s != [] && !IsSpace(s[0]) && !IsSpace(s[|s| - 1])
    ensures forall f :: f in Split(s) ==> f != []
    decreases |s|
  {
    var i := FirstSpace(s);
    if i < |s| {
      var rest := s[i..];
      var n := LeadingSpaces(rest);
      var tail := rest[n..];
      assert rest[|rest| - 1] == s[|s| - 1];
      assert n < |rest|;
      assert tail[|tail| - 1] == s[|s| - 1];
      SplitStrippedFieldsNonEmpty(tail);
      assert Split(s) == [s[..i]] + Split(tail);
    }
  }

  predicate IsDigit(b: byte)
  {
    48 <= b <= 57
  }

  /** Digits as int() accepts them: at least one digit, single underscores only between digits. */
  predicate WellFormedDigits(s: seq<byte>)
  {
    && |s| > 0
    && IsDigit(s[0])
    && IsDigit(s[|s| - 1])
    && (forall k :: 0 <= k < |s| ==> IsDigit(s[k]) || s[k] == UNDERSCORE)
    && (forall k :: 0 <= k < |s| - 1 && s[k] == UNDERSCORE ==> IsDigit(s[k + 1]))
  }

  /** The number the decimal digits of s denote, underscores skipped. */
  function DigitsValue(s: seq<byte>): nat
  {
    if s == [] then 0
    else if IsDigit(s[|s| - 1]) then 10 * DigitsValue(s[..|s| - 1]) + (s[|s| - 1] - 48) as int
    else DigitsValue(s[..|s| - 1])
  }

  /** int(field) for a field without whitespace; None where int() raises ValueError. */
  function ParseInt(s: seq<byte>): (r: Option<int>)
    ensures r.Some? ==> |s| > 0 && IsDigit(s[|s| - 1])
    ensures r.Some? && r.value < 0 ==> s[0] == MINUS
  {
    if |s| > 0 && s[0] == MINUS && WellFormedDigits(s[1..]) then Some(-(DigitsValue(s[1..]) as int))
    else if |s| > 0 && s[0] == PLUS && WellFormedDigits(s[1..]) then Some(DigitsValue(s[1..]))
    else if WellFormedDigits(s) then Some(DigitsValue(s))
    else None
  }

  function DigitChar(d: nat): char
    requires d < 10
  {
    (48 + d) as char
  }

  /** The ":d" format of a natural number: decimal digits without leading zeros. */
  function DecimalDigits(n: nat): (s: string)
    ensures |s| >= 1 && forall k :: 0 <= k < |s| ==> '0' <= s[k] <= '9'
    ensures s[0] == '0' <==> n == 0
  {
    if n < 10 then [DigitChar(n)] else DecimalDigits(n / 10) + [DigitChar(n % 10)]
  }

  /** The ":d" format of an integer. */
  function Decimal(n: int): (s: string)
    ensures |s| >= 1 && (s[0] == '-' <==> n < 0)
    ensures forall k :: 1 <= k < |s| ==> '0' <= s[k] <= '9'
  {
    if n < 0 then "-" + DecimalDigits(-n) else DecimalDigits(n)
  }

  /** The ASCII encoding of a string whose characters are all ASCII. */
  function AsciiBytes(s: string): (r: seq<byte>)
    requires forall k :: 0 <= k < |s| ==> s[k] as int < 128
    ensures |r| == |s|
  {
    seq(|s|, k requires 0 <= k < |s| => s[k] as int as byte)
  }

  lemma {:induction false} DecimalDigitsParse(n: nat)
    ensures WellFormedDigits(AsciiBytes(DecimalDigits(n)))
    ensures DigitsValue(AsciiBytes(DecimalDigits(n))) == n
  {
    var b := AsciiBytes(DecimalDigits(n));
    if n >= 10 {
      DecimalDigitsParse(n / 10);
      var p := AsciiBytes(DecimalDigits(n / 10));
      assert b == p + [(48 + n % 10) as byte];
      assert b[..|b| - 1] == p;
    }
  }

  /** A count written with the ":d" format is read back by int() as the same count. */
  lemma {:induction false} DecimalRoundTrip(n: int)
    ensures ParseInt(AsciiBytes(Decimal(n))) == Some(n)
  {
    if n < 0 {
      DecimalDigitsParse(-n);
      var b := AsciiBytes(Decimal(n));
      assert b[0] == MINUS;
      assert b[1..] == AsciiBytes(DecimalDigits(-n));
    } else {
      DecimalDigitsParse(n);
    }
  }
}
