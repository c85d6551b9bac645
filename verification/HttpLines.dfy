/**
 Lines read from a socket through a buffer (`backend/src/http.rs`).

 The peer's bytes are one fixed sequence; how they arrive is not. Each fill hands over some
 non-empty part of what is still to come, may be interrupted, and may find the deadline past.
 */
module HttpLines {
  import opened Bits

  /** `BufReader::with_capacity(8 * 1024, stream)`. */
  const BUFFER_CAPACITY: nat := 0x2000

  const LF: byte := 0x0A
  const CR: byte := 0x0D

  /** What a read meets after the last byte. */
  datatype Ending = Eof | Stalled | Broken

  /** `HttpError`: a status to answer with, or 0 to close the connection without one. */
  type Status = nat

  const CLOSE: Status := 0
  const BAD_REQUEST: Status := 400
  const TIMEOUT: Status := 408
  const TOO_LARGE: Status := 413
  const HEADER_TOO_LARGE: Status := 431

  function TimedOut(started: bool): Status {
    if started then TIMEOUT else CLOSE
  }

  /** A read of `value` that leaves `rest` to be read, or a failure. */
  datatype Outcome<+T> = Read(value: T, rest: seq<byte>) | Failed(status: Status)

  /** An addition of machine words, shown not to wrap. */
  function WordSum(a: nat, b: nat): nat
    requires a + b < TWO_64
  {
    a + b
  }

  /** The position of the first line feed, or the length. */
  function LineFeedAt(s: seq<byte>): (i: nat)
    ensures i <= |s| && (i < |s| ==> s[i] == LF)
    ensures forall k | 0 <= k < i :: s[k] != LF
  {
    if s == [] || s[0] == LF then 0 else 1 + LineFeedAt(s[1..])
  }

  /** How a read ends when the bytes run out inside something. */
  function RunsOut(ending: Ending, started: bool): Status {
    if ending == Stalled then TimedOut(started) else CLOSE
  }

  /**
   The line at the head of the stream: with its line feed, empty at a clean end, or the error.
   Nothing here says how the bytes arrive.
   */
  function NextLine(s: seq<byte>, ending: Ending, used: nat, max: nat, started: bool): (r: Outcome<seq<byte>>)
    ensures r.Read? ==> s == r.value + r.rest
    ensures r.Read? && r.value != [] ==> used + |r.value| <= max && LineFeedAt(r.value) == |r.value| - 1
  {
    var i := LineFeedAt(s);
    if s != [] && used + (if i < |s| then i + 1 else |s|) > max then Failed(HEADER_TOO_LARGE)
    else if i < |s| then
      assert s[..i + 1][..i] == s[..i];
      LineFeedIn(s[..i + 1], i);
      Read(s[..i + 1], s[i + 1..])
    else if s == [] && ending == Eof then Read([], [])
    else Failed(RunsOut(ending, started))
  }

  lemma LineFeedIn(s: seq<byte>, i: nat)
    requires i < |s| && s[i] == LF && forall k | 0 <= k < i :: s[k] != LF
    ensures LineFeedAt(s) == i
  {
  }

  lemma NoLineFeed(s: seq<byte>)
    requires forall k | 0 <= k < |s| :: s[k] != LF
    ensures LineFeedAt(s) == |s|
  {
  }

  /** `read_exact`. */
  function NextBytes(s: seq<byte>, ending: Ending, n: nat): Outcome<seq<byte>> {
    if n <= |s| then Read(s[..n], s[n..]) else Failed(RunsOut(ending, true))
  }

  datatype Fill = Chunk(bytes: seq<byte>) | Interrupted | LateRead | BadRead

  class BufReader {
    /** What the peer has sent or will send and nobody has consumed; the first `buffered` are here. */
    var stream: seq<byte>
    var buffered: nat
    const ending: Ending
    /** How many more waits fit before the deadline. */
    var patience: nat

    predicate Valid()
      reads this
    {
      buffered <= |stream| && buffered <= BUFFER_CAPACITY
    }

    constructor (stream: seq<byte>, ending: Ending, patience: nat)
      ensures Valid() && this.stream == stream && this.ending == ending && this.patience == patience
    {
      this.stream := stream;
      this.buffered := 0;
      this.ending := ending;
      this.patience := patience;
    }

    /** `arm_read_timeout`: fails once the deadline is past. */
    method Arm() returns (ok: bool)
      requires Valid()
      modifies this`patience
      ensures Valid()
      ensures ok ==> patience < old(patience)
    {
      ok := patience > 0;
      if ok {
        patience := patience - 1;
      }
    }

    /** `fill_buf`. */
    method FillBuf() returns (r: Fill)
      requires Valid()
      modifies this`buffered
      ensures Valid()
      ensures r.Chunk? ==> r.bytes == stream[..buffered]
      ensures r.Chunk? && r.bytes == [] ==> stream == [] && ending == Eof
      ensures r.BadRead? ==> stream == [] && ending == Broken
    {
      if buffered == 0 {
        if * {
          return Interrupted;
        }
        if * {
          return LateRead;
        }
        if stream == [] {
          match ending {
            case Eof => return Chunk([]);
            case Stalled => return LateRead;
            case Broken => return BadRead;
          }
        }
        var n: nat :| 0 < n <= |stream| && n <= BUFFER_CAPACITY;
        buffered := n;
      }
      r := Chunk(stream[..buffered]);
    }

    /** `consume`. */
    method Consume(n: nat)
      requires Valid() && n <= buffered
      modifies this`stream, this`buffered
      ensures Valid() && stream == old(stream)[n..]
    {
      stream := stream[n..];
      buffered := buffered - n;
    }

    /** `read_exact_timed`. */
    method ReadExactTimed(n: nat) returns (r: Outcome<seq<byte>>)
      requires Valid()
      modifies this
      ensures Valid()
      ensures r == NextBytes(old(stream), ending, n) || r == Failed(408)
      ensures r.Read? ==> stream == r.rest
    {
      var ok := Arm();
      if !ok {
        return Failed(TimedOut(true));
      }
      if * {
        return Failed(TimedOut(true));
      }
      if n > |stream| {
        return Failed(RunsOut(ending, true));
      }
      var bytes := stream[..n];
      stream := stream[n..];
      var left: nat :| left <= |stream| && left <= BUFFER_CAPACITY;
      buffered := left;
      r := Read(bytes, stream);
    }

    /** One turn of the loop in `read_line_limited`: the chunk up to its line feed, if it has one. */
    method TakeFrom(chunk: seq<byte>, buf: seq<byte>, used: nat, max: nat, ghost s: seq<byte>, ghost started: bool)
      returns (line: seq<byte>, full: bool, done: bool)
      requires Valid() && chunk == stream[..buffered] && chunk != []
      requires s == buf + stream && LineFeedAt(buf) == |buf|
      requires used + |buf| <= max && max + BUFFER_CAPACITY < TWO_64
      modifies this`stream, this`buffered
      ensures Valid()
      ensures full ==> NextLine(s, ending, used, max, started) == Failed(HEADER_TOO_LARGE)
      ensures !full ==> s == line + stream && used + |line| <= max
      ensures !full && done ==> NextLine(s, ending, used, max, started) == Read(line, stream)
      ensures !full && !done ==> LineFeedAt(line) == |line|
    {
      hide NextLine, LineFeedAt;
      var i := LineFeedAt(chunk);
      var take := if i < |chunk| then i + 1 else |chunk|;
      ChunkTaken(s, ending, used, max, started, buf, chunk, take);
      line, full, done := buf + chunk[..take], WordSum(WordSum(used, |buf|), take) > max, i < |chunk|;
      if !full {
        Consume(take);
        assert s[|line|..] == stream;
      }
    }

    /**
     `read_line_limited`, with the running count of bytes used. Unless the deadline passes,
     the outcome is a function of the stream alone, and no sum of sizes wraps.
     */
    method ReadLineLimited(used: nat, max: nat, started: bool) returns (r: Outcome<seq<byte>>, used': nat)
      requires Valid() && used <= max && max + BUFFER_CAPACITY < TWO_64
      modifies this
      ensures Valid()
      ensures r == NextLine(old(stream), ending, used, max, started) || r == Failed(if started then 408 else 0)
      ensures r.Read? ==> stream == r.rest && used' == used + |r.value| <= max
      ensures r.Failed? ==> used' == used
    {
      hide NextLine, LineFeedAt;
      used' := used;
      var buf: seq<byte> := [];
      NoLineFeed(buf);
      ghost var s := stream;
      while true
        invariant Valid()
        invariant s == buf + stream && LineFeedAt(buf) == |buf|
        invariant used + |buf| <= max
        decreases patience
      {
        var ok := Arm();
        if !ok {
          return Failed(TimedOut(started)), used;
        }
        var fill := FillBuf();
        if fill.Chunk? {
          var chunk := fill.bytes;
          if chunk == [] {
            AtTheEnd(s, ending, used, max, started);
            return if buf == [] then Read([], []) else Failed(CLOSE), used;
          }
          var line, full, done := TakeFrom(chunk, buf, used, max, s, started);
          if full {
            return Failed(HEADER_TOO_LARGE), used;
          }
          buf := line;
          if done {
            return Read(buf, stream), WordSum(used, |buf|);
          }
        } else if fill.LateRead? {
          return Failed(TimedOut(started)), used;
        } else if fill.BadRead? {
          AtTheEnd(s, ending, used, max, started);
          return Failed(CLOSE), used;
        }
      }
    }
  }

  lemma AtTheEnd(s: seq<byte>, ending: Ending, used: nat, max: nat, started: bool)
    requires LineFeedAt(s) == |s| && (s != [] ==> used + |s| <= max)
    ensures NextLine(s, ending, used, max, started)
            == if s == [] && ending == Eof then Read([], []) else Failed(RunsOut(ending, started))
  {
  }

  /** What a chunk after the part already copied decides about the line. */
  lemma ChunkTaken(s: seq<byte>, ending: Ending, used: nat, max: nat, started: bool,
                   buf: seq<byte>, chunk: seq<byte>, take: nat)
    requires buf + chunk <= s && LineFeedAt(buf) == |buf| && chunk != []
    requires take == if LineFeedAt(chunk) < |chunk| then LineFeedAt(chunk) + 1 else |chunk|
    ensures var i, r, line := LineFeedAt(chunk), NextLine(s, ending, used, max, started), buf + chunk[..take];
            && s == line + s[|line|..]
            && (used + |line| > max ==> r == Failed(HEADER_TOO_LARGE))
            && (used + |line| <= max && i < |chunk| ==> r == Read(line, s[|line|..]))
            && (i == |chunk| ==> LineFeedAt(line) == |line|)
  {
    var i := LineFeedAt(chunk);
    FirstLineFeed(s, buf, chunk);
    assert chunk[..take] <= chunk;
    if i < |chunk| {
      assert s[..|buf| + i + 1] == buf + chunk[..take];
    } else {
      assert buf + chunk[..take] == buf + chunk;
      NoLineFeed(buf + chunk);
    }
  }

  lemma FirstLineFeed(s: seq<byte>, buf: seq<byte>, chunk: seq<byte>)
    requires buf + chunk <= s && LineFeedAt(buf) == |buf|
    ensures var i := LineFeedAt(chunk);
            if i < |chunk| then LineFeedAt(s) == |buf| + i
            else LineFeedAt(s) >= |buf| + |chunk| && forall k | 0 <= k < |buf + chunk| :: (buf + chunk)[k] != LF
  {
    hide LineFeedAt;
    var i := LineFeedAt(chunk);
    forall k | 0 <= k < |buf| + i
      ensures s[k] != LF
    {
      assert s[k] == (buf + chunk)[k];
    }
    if i < |chunk| {
      assert s[|buf| + i] == (buf + chunk)[|buf| + i];
      LineFeedIn(s, |buf| + i);
    }
  }

  // ---- Line ends ----

  /** `trim_eol`. */
  method TrimEol(line: seq<byte>) returns (text: seq<byte>)
    ensures text == Trimmed(line)
  {
    var end := |line|;
    if end > 0 && line[end - 1] == LF {
      end := end - 1;
    }
    if end > 0 && line[end - 1] == CR {
      end := end - 1;
    }
    text := line[..end];
  }

  function Trimmed(line: seq<byte>): seq<byte> {
    WithoutLast(WithoutLast(line, LF), CR)
  }

  function WithoutLast(s: seq<byte>, c: byte): seq<byte> {
    if s != [] && s[|s| - 1] == c then s[..|s| - 1] else s
  }

  lemma LastComesOff(s: seq<byte>, c: byte)
    ensures WithoutLast(s + [c], c) == s
  {
    assert (s + [c])[..|s|] == s;
  }

  /** Both line ends come off, and nothing of a line that does not itself end in a carriage return. */
  lemma TrimmedLine(text: seq<byte>)
    requires text == [] || text[|text| - 1] != CR
    ensures Trimmed(text + [CR, LF]) == text && Trimmed(text + [LF]) == text
  {
    assert WithoutLast(text, CR) == text;
    assert text + [CR, LF] == (text + [CR]) + [LF];
    hide WithoutLast;
    LastComesOff(text + [CR], LF);
    LastComesOff(text, CR);
    LastComesOff(text, LF);
  }
}
