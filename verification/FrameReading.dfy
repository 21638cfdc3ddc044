/**
The newline-framed reader. Its input arrives in chunks cut at arbitrary places; the frames it yields
are proved to depend only on the concatenated stream.
*/
module FrameReading {
  import opened Wrappers
  import opened Bytes

  const NEWLINE: Byte := 10
  const CARRIAGE_RETURN: Byte := 13

  datatype Frame = Data(bytes: seq<Byte>) | TooLarge

  // -- lines of a stream ----------------------------------------------------------------------

  datatype Line = Line(raw: seq<Byte>, terminated: bool)

  ghost function LineBytes(l: Line): seq<Byte> {
    l.raw + if l.terminated then [NEWLINE] else []
  }

  ghost function Joined(lines: seq<Line>): seq<Byte> {
    if lines == [] then [] else LineBytes(lines[0]) + Joined(lines[1..])
  }

  /** No line contains a newline; only the last one may lack its terminator, and then it is not empty. */
  ghost predicate WellFormed(lines: seq<Line>) {
    forall i :: 0 <= i < |lines| ==>
      && NEWLINE !in lines[i].raw
      && (!lines[i].terminated ==> i == |lines| - 1 && lines[i].raw != [])
  }

  /** The frame of one line: the size test is on the raw line, and a return is cut only before a newline. */
  function FrameOf(l: Line, maximum: nat): Frame {
    if |l.raw| > maximum then TooLarge
    else if l.terminated && l.raw != [] && l.raw[|l.raw| - 1] == CARRIAGE_RETURN then Data(l.raw[..|l.raw| - 1])
    else Data(l.raw)
  }

  function NewlineAt(s: seq<Byte>): (p: nat)
    ensures p <= |s| && NEWLINE !in s[..p]
    ensures p < |s| ==> s[p] == NEWLINE
  {
    if s == [] then 0
    else if s[0] == NEWLINE then 0
    else
      var p := NewlineAt(s[1..]);
      assert s[..p + 1] == [s[0]] + s[1..][..p];
      p + 1
  }

  lemma {:induction false} NewlineAtUnique(raw: seq<Byte>, rest: seq<Byte>)
    requires NEWLINE !in raw && (rest == [] || rest[0] == NEWLINE)
    ensures NewlineAt(raw + rest) == |raw|
  {
    if raw == [] {
      assert raw + rest == rest;
    } else {
      NewlineAtUnique(raw[1..], rest);
      assert (raw + rest)[1..] == raw[1..] + rest;
    }
  }

  function FirstLine(s: seq<Byte>): Line
    requires s != []
  {
    var p := NewlineAt(s);
    Line(s[..p], p < |s|)
  }

  function AfterFirstLine(s: seq<Byte>): (rest: seq<Byte>)
    requires s != []
    ensures |rest| < |s|
  {
    var p := NewlineAt(s);
    if p < |s| then s[p + 1..] else []
  }

  function Lines(s: seq<Byte>): seq<Line>
    decreases |s|
  {
    if s == [] then [] else [FirstLine(s)] + Lines(AfterFirstLine(s))
  }

  lemma FirstLineFacts(s: seq<Byte>)
    requires s != []
    ensures LineBytes(FirstLine(s)) + AfterFirstLine(s) == s
    ensures NEWLINE !in FirstLine(s).raw
    ensures !FirstLine(s).terminated ==> FirstLine(s).raw != [] && AfterFirstLine(s) == []
  {
  }

  /** The stream begins with a terminated line. */
  lemma FirstLineTerminated(raw: seq<Byte>, rest: seq<Byte>)
    requires NEWLINE !in raw
    ensures FirstLine(raw + ([NEWLINE] + rest)) == Line(raw, true)
    ensures AfterFirstLine(raw + ([NEWLINE] + rest)) == rest
  {
    NewlineAtUnique(raw, [NEWLINE] + rest);
  }

  /** The stream is one unterminated line. */
  lemma FirstLineUnterminated(raw: seq<Byte>)
    requires NEWLINE !in raw && raw != []
    ensures FirstLine(raw) == Line(raw, false) && AfterFirstLine(raw) == []
  {
    assert raw + [] == raw;
    NewlineAtUnique(raw, []);
  }

  /** Any line in front of a rest is read off as the first line. */
  lemma FirstLineOf(first: Line, rest: seq<Byte>)
    requires NEWLINE !in first.raw && (!first.terminated ==> first.raw != [] && rest == [])
    ensures LineBytes(first) + rest != []
    ensures FirstLine(LineBytes(first) + rest) == first && AfterFirstLine(LineBytes(first) + rest) == rest
  {
    if first.terminated {
      FirstLineTerminated(first.raw, rest);
      assert LineBytes(first) + rest == first.raw + ([NEWLINE] + rest);
    } else {
      FirstLineUnterminated(first.raw);
      assert LineBytes(first) + rest == first.raw;
    }
  }

  lemma WellFormedCons(first: Line, tail: seq<Line>)
    ensures WellFormed([first] + tail) <==>
      && NEWLINE !in first.raw && (!first.terminated ==> first.raw != [] && tail == [])
      && WellFormed(tail)
  {
    var lines := [first] + tail;
    assert forall i :: 0 <= i < |tail| ==> tail[i] == lines[i + 1];
    if WellFormed(lines) {
      assert lines[0] == first;
    }
  }

  /** Splitting loses nothing and yields well-formed lines. */
  lemma {:induction false} LinesRejoin(s: seq<Byte>)
    ensures WellFormed(Lines(s)) && Joined(Lines(s)) == s
    decreases |s|
  {
    if s == [] {
    } else {
      var first, rest := FirstLine(s), AfterFirstLine(s);
      FirstLineFacts(s);
      LinesRejoin(rest);
      WellFormedCons(first, Lines(rest));
      assert ([first] + Lines(rest))[1..] == Lines(rest);
    }
  }

  /** There is no other well-formed way to cut a stream into lines. */
  lemma {:induction false} LinesUnique(lines: seq<Line>)
    requires WellFormed(lines)
    ensures Lines(Joined(lines)) == lines
  {
    if lines == [] {
    } else {
      var first, tail := lines[0], lines[1..];
      assert lines == [first] + tail;
      WellFormedCons(first, tail);
      LinesUnique(tail);
      FirstLineOf(first, Joined(tail));
    }
  }

  /**
  What becomes of a line of a stream: the line feed goes, one carriage return before it goes too, an
  unterminated line keeps its bytes, and a line is too large exactly when what stands before the line
  feed, carriage return included, exceeds the maximum.
  */
  lemma FrameLaws(x: seq<Byte>, rest: seq<Byte>, maximum: nat)
    requires 10 !in x
    ensures FrameOf(FirstLine(x + [13, 10] + rest), maximum) == if |x| + 1 <= maximum then Data(x) else TooLarge
    ensures x == [] || x[|x| - 1] != 13 ==>
      FrameOf(FirstLine(x + [10] + rest), maximum) == if |x| <= maximum then Data(x) else TooLarge
    ensures x != [] ==> FrameOf(FirstLine(x), maximum) == if |x| <= maximum then Data(x) else TooLarge
  {
    assert x + [13, 10] + rest == (x + [13]) + ([10] + rest);
    FirstLineTerminated(x + [13], rest);
    assert x + [10] + rest == x + ([10] + rest);
    FirstLineTerminated(x, rest);
    if x != [] { FirstLineUnterminated(x); }
  }

  function Frames(lines: seq<Line>, maximum: nat): seq<Frame> {
    seq(|lines|, i requires 0 <= i < |lines| => FrameOf(lines[i], maximum))
  }

  // -- the reader -----------------------------------------------------------------------------

  ghost function Flatten(chunks: seq<seq<Byte>>): seq<Byte> {
    if chunks == [] then [] else chunks[0] + Flatten(chunks[1..])
  }

  /** Moving a payload from the stream to the bytes seen keeps the whole. */
  lemma ChunkTaken(whole: seq<Byte>, seen: seq<Byte>, buffer: seq<Byte>, n: nat, rest: seq<Byte>)
    requires n <= |buffer| && whole == seen + (buffer + rest)
    ensures whole == (seen + buffer[..n]) + (buffer + rest)[n..]
    ensures n < |buffer| ==> whole == (seen + buffer[..n]) + ([buffer[n]] + (buffer + rest)[n + 1..])
  {
  }

  /** No frame has more than `n` bytes. */
  ghost predicate NoneLarger(frames: seq<Frame>, n: nat) {
    forall i :: 0 <= i < |frames| ==> frames[i].Data? ==> |frames[i].bytes| <= n
  }

  lemma OneMoreFrame(frames: seq<Frame>, m: nat, frame: Frame, n: nat)
    requires NoneLarger(frames, m) && m <= n && (frame.Data? ==> |frame.bytes| <= n)
    ensures NoneLarger(frames + [frame], n)
  {
  }

  class FrameReader {
    /** What is left of the buffer, then the reads that will refill it; a read of nothing is the end. */
    var chunks: seq<seq<Byte>>
    const maximum: nat

    ghost predicate Valid()
      reads this
    {
      forall i :: 0 <= i < |chunks| ==> chunks[i] != []
    }

    ghost function Stream(): seq<Byte>
      reads this
    {
      Flatten(chunks)
    }

    constructor (chunks: seq<seq<Byte>>, maximum: nat)
      requires forall i :: 0 <= i < |chunks| ==> chunks[i] != []
      ensures Valid() && Stream() == Flatten(chunks) && this.maximum == maximum
    {
      this.chunks := chunks;
      this.maximum := maximum;
    }

    /** Drop `n` bytes from the buffer. */
    method Consume(n: nat)
      requires Valid() && chunks != [] && n <= |chunks[0]|
      modifies this
      ensures Valid() && Stream() == old(Stream())[n..]
    {
      assert Flatten(chunks)[n..] == chunks[0][n..] + Flatten(chunks[1..]);
      if n == |chunks[0]| {
        chunks := chunks[1..];
      } else {
        var rest := [chunks[0][n..]] + chunks[1..];
        assert rest[1..] == chunks[1..];
        chunks := rest;
      }
    }

    /** Add a payload to the frame under construction, or give the frame up as too large. */
    method Accumulate(held: seq<Byte>, over: bool, payload: seq<Byte>, ghost seen: seq<Byte>)
      returns (output: seq<Byte>, tooLarge: bool)
      requires Holds(held, over, seen)
      ensures Holds(output, tooLarge, seen + payload)
    {
      output, tooLarge := held, over;
      if !tooLarge {
        if |output| + |payload| > maximum {
          output := [];
          tooLarge := true;
        } else {
          output := output + payload;
        }
      }
    }

    /** What is held of the bytes `seen` so far: all of them up to the maximum, and nothing beyond it. */
    ghost predicate Holds(output: seq<Byte>, tooLarge: bool, seen: seq<Byte>) {
      && |output| <= maximum
      && if tooLarge then output == [] && |seen| > maximum else output == seen
    }

    /** The frame of a line that ended with a newline. */
    method Terminated(output: seq<Byte>, tooLarge: bool, ghost seen: seq<Byte>) returns (frame: Frame)
      requires Holds(output, tooLarge, seen)
      ensures frame == FrameOf(Line(seen, true), maximum)
      ensures frame.Data? ==> |frame.bytes| <= |output|
    {
      if tooLarge {
        return TooLarge;
      }
      if output != [] && output[|output| - 1] == CARRIAGE_RETURN {
        return Data(output[..|output| - 1]);
      }
      return Data(output);
    }

    /** One frame; `peak` is the most bytes that were held for it at any moment. */
    method Next() returns (frame: Option<Frame>, ghost peak: nat)
      requires Valid()
      modifies this
      ensures Valid()
      ensures peak <= maximum && (frame.Some? && frame.value.Data? ==> |frame.value.bytes| <= peak)
      ensures old(Stream()) == [] ==> frame == None && Stream() == []
      ensures old(Stream()) != [] ==>
        && frame == Some(FrameOf(FirstLine(old(Stream())), maximum))
        && Stream() == AfterFirstLine(old(Stream()))
    {
      var output: seq<Byte>, tooLarge := [], false;
      ghost var whole, seen: seq<Byte> := Stream(), [];
      peak := 0;
      while true
        invariant Valid() && whole == seen + Stream() && NEWLINE !in seen
        invariant Holds(output, tooLarge, seen)
        invariant |output| <= peak <= maximum
        decreases |Stream()|
      {
        if chunks == [] {
          assert whole == seen;
          if output == [] && !tooLarge {
            return None, peak;
          }
          FirstLineUnterminated(seen);
          return Some(if tooLarge then TooLarge else Data(output)), peak;
        }
        var available := chunks[0];
        var payload := NewlineAt(available);
        ghost var before := seen;
        output, tooLarge := Accumulate(output, tooLarge, available[..payload], seen);
        peak := if |output| > peak then |output| else peak;
        seen := seen + available[..payload];
        ChunkTaken(whole, before, available, payload, Flatten(chunks[1..]));
        if payload < |available| {
          Consume(payload + 1);
          FirstLineTerminated(seen, Stream());
          var line := Terminated(output, tooLarge, seen);
          return Some(line), peak;
        }
        Consume(payload);
      }
    }

    /** Read until the end, as the connection loop does. */
    method ReadAll() returns (frames: seq<Frame>, ghost peak: nat)
      requires Valid()
      modifies this
      ensures peak <= maximum && NoneLarger(frames, peak)
      ensures frames == Frames(Lines(old(Stream())), maximum)
    {
      frames, peak := [], 0;
      ghost var done: seq<Line> := [];
      while true
        invariant Valid()
        invariant Lines(old(Stream())) == done + Lines(Stream())
        invariant frames == Frames(done, maximum) && peak <= maximum
        invariant NoneLarger(frames, peak)
        decreases |Stream()|
      {
        ghost var rest := Stream();
        var frame, held := Next();
        ghost var before := peak;
        peak := if held > peak then held else peak;
        if frame.None? {
          assert done + Lines(rest) == done;
          return;
        }
        LinesCons(rest);
        AppendLine(done, FirstLine(rest), Lines(Stream()), maximum);
        OneMoreFrame(frames, before, frame.value, peak);
        frames := frames + [frame.value];
        done := done + [FirstLine(rest)];
      }
    }
  }

  lemma AppendLine(done: seq<Line>, line: Line, rest: seq<Line>, maximum: nat)
    ensures done + ([line] + rest) == (done + [line]) + rest
    ensures Frames(done + [line], maximum) == Frames(done, maximum) + [FrameOf(line, maximum)]
  {
  }

  lemma LinesCons(s: seq<Byte>)
    requires s != []
    ensures Lines(s) == [FirstLine(s)] + Lines(AfterFirstLine(s))
  {
  }
}
