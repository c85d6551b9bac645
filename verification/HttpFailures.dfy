/** Which bodies the chunked decoder turns down, and with which status (`backend/src/http.rs`). */
module HttpFailures {
  import opened Bits
  import opened Outcomes
  import opened HttpLines
  import opened HttpChunked

  // ---- What goes wrong ----

  /** More than `room` bytes come without a line end. */
  predicate Overlong(s: seq<byte>, room: nat) {
    |s| > room && LF !in s[..room]
  }

  /** The bytes run out before the line does. */
  predicate Cut(s: seq<byte>, room: nat) {
    |s| <= room && LF !in s
  }

  /** Too late, or gone. */
  predicate IsCut(ending: Ending, st: Status) {
    st == if ending == Stalled then 408 else 0
  }

  /** No line of at most `room` bytes can be read. */
  predicate LineBreaks(s: seq<byte>, ending: Ending, room: nat, st: Status) {
    (Overlong(s, room) && st == 431) || (Cut(s, room) && IsCut(ending, st))
  }

  /** After some trailers, no further line can be read. */
  ghost predicate TrailersBreak(s: seq<byte>, ending: Ending, room: nat, st: Status) {
    exists ts, rest ::
      && AreTrailers(ts) && s == TrailersText(ts) + rest && |TrailersText(ts)| <= room
      && LineBreaks(rest, ending, room - |TrailersText(ts)|, st)
  }

  /** What goes wrong after a chunk's size: in the trailers, over the limit, cut short, or without its line end. */
  ghost predicate SizeBreaks(size: nat, s: seq<byte>, ending: Ending, maxBody: nat, room: nat, len: nat, st: Status) {
    if size == 0 then TrailersBreak(s, ending, room, st)
    else if len + size > maxBody then st == 413
    else if |s| < size + 2 then IsCut(ending, st)
    else st == 400 && s[size..size + 2] != [CR, LF]
  }

  /** The line announces no size, or what it announces goes wrong. */
  ghost predicate AfterLine(line: seq<byte>, s: seq<byte>, ending: Ending, maxBody: nat, room: nat, len: nat,
                            st: Status) {
    || (st == 400 && forall l, size :: IsSize(l, size) ==> SizeText(l) != line)
    || exists l, size ::
         IsSize(l, size) && SizeText(l) == line && SizeBreaks(size, s, ending, maxBody, room, len, st)
  }

  /** With `len` bytes decoded, no chunk can be read. */
  ghost predicate ChunkBreaks(s: seq<byte>, ending: Ending, maxBody: nat, room: nat, len: nat, st: Status) {
    || LineBreaks(s, ending, 1024, st)
    || exists line, rest ::
         s == line + rest && IsLine(line) && |line| <= 1024 && AfterLine(line, rest, ending, maxBody, room, len, st)
  }

  /** After some whole chunks within the limit, no further chunk can be read. */
  ghost predicate Breaks(s: seq<byte>, ending: Ending, maxBody: nat, room: nat, len: nat, st: Status) {
    exists fs, rest ::
      && AreFrames(fs) && s == FramesText(fs) + rest && len + |Body(fs)| <= maxBody
      && ChunkBreaks(rest, ending, maxBody, room, len + |Body(fs)|, st)
  }

  // ---- And that this is what the decoder answers ----

  lemma {:induction false} NoFeed(s: seq<byte>)
    ensures LineFeedAt(s) == |s| <==> LF !in s
  {
    if LineFeedAt(s) == |s| {
      assert forall k | 0 <= k < |s| :: s[k] != LF;
    } else {
      assert s[LineFeedAt(s)] == LF;
    }
    hide LineFeedAt;
  }

  lemma FeedWithin(s: seq<byte>, room: nat)
    ensures room < |s| ==> (LineFeedAt(s) >= room <==> LF !in s[..room])
  {
    if room < |s| {
      if LineFeedAt(s) < room {
        assert s[..room][LineFeedAt(s)] == LF;
      } else {
        assert forall k | 0 <= k < room :: s[..room][k] == s[k];
      }
    }
    hide LineFeedAt;
  }

  /** How a line fails, once the request has started and before. */
  lemma LineFailsIff(s: seq<byte>, ending: Ending, used: nat, max: nat, started: bool, st: Status)
    requires used <= max
    ensures NextLine(s, ending, used, max, started) == Failed(st)
       <==> || (Overlong(s, max - used) && st == 431)
            || (Cut(s, max - used) && !(s == [] && ending == Eof)
                && st == if started && ending == Stalled then 408 else 0)
  {
    hide LineFeedAt;
    NoFeed(s);
    FeedWithin(s, max - used);
  }

  /** A line that is read does not break. */
  lemma ReadIsWhole(s: seq<byte>, line: seq<byte>, rest: seq<byte>, ending: Ending, room: nat, st: Status)
    requires s == line + rest && IsLine(line) && |line| <= room
    ensures !LineBreaks(s, ending, room, st)
  {
    var k := |line| - 1;
    assert line[k] == LF && s[k] == LF;
    if |s| > room {
      assert s[..room][k] == LF;
    }
    hide LineFeedAt;
  }

  /** A line is read, or it breaks. */
  lemma LineCases(s: seq<byte>, ending: Ending, used: nat, max: nat, st: Status)
    requires used <= max
    ensures var got := NextLine(s, ending, used, max, true);
            && (got.Read? && got.value != [] ==>
                  !LineBreaks(s, ending, max - used, st)
                  && IsLine(got.value) && used + |got.value| <= max && s == got.value + got.rest)
            && (got.Failed? ==> (LineBreaks(s, ending, max - used, st) <==> st == got.status))
            && (got.Read? && got.value == [] ==> (LineBreaks(s, ending, max - used, st) <==> st == 0))
  {
    var got := NextLine(s, ending, used, max, true);
    if got.Read? && got.value != [] {
      ReadIsWhole(s, got.value, got.rest, ending, max - used, st);
    } else if got.Read? {
      NothingRead(s, ending, used, max);
    } else {
      LineFailsIff(s, ending, used, max, true, st);
      LineFailsIff(s, ending, used, max, true, got.status);
    }
    hide NextLine, LineFeedAt;
  }

  lemma NothingRead(s: seq<byte>, ending: Ending, used: nat, max: nat)
    ensures var got := NextLine(s, ending, used, max, true);
            got.Read? && got.value == [] ==> s == [] && ending == Eof
  {
    hide LineFeedAt;
  }

  lemma TrailerPart(ts: seq<Trailer>, rest: seq<byte>)
    requires ts != []
    ensures TrailersText(ts) + rest == TrailerText(ts[0]) + (TrailersText(ts[1..]) + rest)
    ensures |TrailersText(ts)| == |TrailerText(ts[0])| + |TrailersText(ts[1..])|
  {
    hide TrailerText;
  }

  lemma TrailerLine(ts: seq<Trailer>)
    requires AreTrailers(ts) && ts != []
    ensures AreTrailers(ts[1..])
    ensures IsLine(TrailerText(ts[0])) && Trimmed(TrailerText(ts[0])) != []
  {
    ContentLine(ts[0].content, ts[0].crlf);
    TextOf(ts[0]);
    hide TrailerText, Trimmed, IsLine, IsContent, LineEnd;
  }

  lemma {:induction false} BrokenTrailersFail(ts: seq<Trailer>, rest: seq<byte>, ending: Ending, lim: Limits,
                                              used: nat, out: seq<byte>, st: Status)
    requires AreTrailers(ts) && used + |TrailersText(ts)| <= lim.maxHeader
    requires LineBreaks(rest, ending, lim.maxHeader - used - |TrailersText(ts)|, st)
    ensures Trailers(TrailersText(ts) + rest, ending, lim, used, out) == Failed(st)
    decreases |ts|
  {
    hide NextLine, LineBreaks, TrailerText, IsLine, Trimmed, IsContent;
    if ts == [] {
      assert TrailersText(ts) + rest == rest;
      LineCases(rest, ending, used, lim.maxHeader, st);
    } else {
      TrailerPart(ts, rest);
      TrailerLine(ts);
      var line, tail := TrailerText(ts[0]), TrailersText(ts[1..]) + rest;
      assert line != [] by { NotEmpty(line); }
      LineThenRest(line, tail, ending, used, lim.maxHeader);
      BrokenTrailersFail(ts[1..], rest, ending, lim, used + |line|, out, st);
    }
  }

  lemma NotEmpty(line: seq<byte>)
    requires IsLine(line)
    ensures line != []
  {
  }

  lemma {:induction false} FailedTrailersBreak(s: seq<byte>, ending: Ending, lim: Limits, used: nat, out: seq<byte>)
    requires used <= lim.maxHeader && Trailers(s, ending, lim, used, out).Failed?
    ensures TrailersBreak(s, ending, lim.maxHeader - used, Trailers(s, ending, lim, used, out).status)
    decreases |s|
  {
    hide NextLine, LineBreaks, TrailerText, Trimmed, IsContent, LineEnd, IsLine;
    var st := Trailers(s, ending, lim, used, out).status;
    var got := NextLine(s, ending, used, lim.maxHeader, true);
    LineCases(s, ending, used, lim.maxHeader, st);
    if got.Failed? || got.value == [] {
      assert TrailersText([]) + s == s && AreTrailers([]);
    } else {
      var crlf := LineContent(got.value);
      FailedTrailersBreak(got.rest, ending, lim, used + |got.value|, out);
      var more, rest :|
        && AreTrailers(more) && got.rest == TrailersText(more) + rest
        && |TrailersText(more)| <= lim.maxHeader - used - |got.value|
        && LineBreaks(rest, ending, lim.maxHeader - used - |got.value| - |TrailersText(more)|, st);
      var t := Trailer(Trimmed(got.value), crlf);
      TextOf(t);
      MoreTrailers(t, more, rest);
      assert s == TrailersText([t] + more) + rest;
    }
  }

  lemma TextOf(t: Trailer)
    ensures TrailerText(t) == t.content + LineEnd(t.crlf)
  {
  }

  lemma MoreTrailers(t: Trailer, more: seq<Trailer>, rest: seq<byte>)
    requires AreTrailers(more) && t.content != [] && IsContent(t.content, t.crlf)
    ensures AreTrailers([t] + more) && TrailersText([t] + more) + rest == TrailerText(t) + (TrailersText(more) + rest)
    ensures |TrailersText([t] + more)| == |TrailerText(t)| + |TrailersText(more)|
  {
    hide TrailerText, IsContent;
    assert ([t] + more)[1..] == more;
  }

  lemma TrailersFailIff(s: seq<byte>, ending: Ending, lim: Limits, used: nat, out: seq<byte>, st: Status)
    requires used <= lim.maxHeader
    ensures Trailers(s, ending, lim, used, out) == Failed(st) <==> TrailersBreak(s, ending, lim.maxHeader - used, st)
  {
    hide Trailers, LineBreaks, AreTrailers, TrailersText;
    if Trailers(s, ending, lim, used, out).Failed? {
      FailedTrailersBreak(s, ending, lim, used, out);
    }
    if TrailersBreak(s, ending, lim.maxHeader - used, st) {
      var ts, rest :|
        && AreTrailers(ts) && s == TrailersText(ts) + rest && |TrailersText(ts)| <= lim.maxHeader - used
        && LineBreaks(rest, ending, lim.maxHeader - used - |TrailersText(ts)|, st);
      BrokenTrailersFail(ts, rest, ending, lim, used, out, st);
    }
  }

  /** After the size: the decoder fails with `st`, unless the chunk is whole. */
  lemma DataCases(s: seq<byte>, ending: Ending, size: nat, st: Status)
    ensures ChunkData(s, ending, size) == Failed(st)
       <==> if |s| < size + 2 then IsCut(ending, st) else st == 400 && s[size..size + 2] != [CR, LF]
    ensures ChunkData(s, ending, size).Read? <==> |s| >= size + 2 && s[size..size + 2] == [CR, LF]
  {
    if |s| >= size {
      assert |s| >= size + 2 ==> s[size..][..2] == s[size..size + 2];
    }
  }

  /** What the decoder does with a line and what follows it. */
  lemma LineDecides(line: seq<byte>, s: seq<byte>, ending: Ending, lim: Limits, used: nat, out: seq<byte>, st: Status)
    requires IsLine(line) && |line| <= 1024 && used <= lim.maxHeader && |out| <= lim.maxBody
    requires AfterLine(line, s, ending, lim.maxBody, lim.maxHeader - used, |out|, st)
    ensures Chunked(line + s, ending, lim, used, out) == Failed(st)
  {
    hide NextLine, ChunkData, Trailers, TrailersBreak, SizeOf, IsSize, SizeText;
    NotEmpty(line);
    LineThenRest(line, s, ending, 0, MAX_CHUNK_LINE);
    hide IsLine;
    if l, size :| IsSize(l, size) && SizeText(l) == line
                  && SizeBreaks(size, s, ending, lim.maxBody, lim.maxHeader - used, |out|, st) {
      SizeReads(l, size);
      TrailersFailIff(s, ending, lim, used, out, st);
      DataCases(s, ending, size, st);
    } else if SizeOf(line).Some? {
      var l := SizeOnly(line);
      assert false;
    }
  }

  lemma BrokenChunkFails(s: seq<byte>, ending: Ending, lim: Limits, used: nat, out: seq<byte>, st: Status)
    requires used <= lim.maxHeader && |out| <= lim.maxBody
    requires ChunkBreaks(s, ending, lim.maxBody, lim.maxHeader - used, |out|, st)
    ensures Chunked(s, ending, lim, used, out) == Failed(st)
  {
    hide NextLine, ChunkData, Trailers, SizeOf, LineBreaks, AfterLine, IsLine;
    if LineBreaks(s, ending, 1024, st) {
      LineCases(s, ending, 0, 1024, st);
    } else {
      var line, rest :| s == line + rest && IsLine(line) && |line| <= 1024
                        && AfterLine(line, rest, ending, lim.maxBody, lim.maxHeader - used, |out|, st);
      LineDecides(line, rest, ending, lim, used, out, st);
    }
  }

  lemma {:induction false} FailedBreaks(s: seq<byte>, ending: Ending, lim: Limits, used: nat, out: seq<byte>)
    requires used <= lim.maxHeader && |out| <= lim.maxBody && Chunked(s, ending, lim, used, out).Failed?
    ensures Breaks(s, ending, lim.maxBody, lim.maxHeader - used, |out|, Chunked(s, ending, lim, used, out).status)
    decreases |s|
  {
    hide NextLine, ChunkData, Trailers, TrailersBreak, SizeOf, IsSize, SizeText, LineBreaks, IsLine;
    var st, room := Chunked(s, ending, lim, used, out).status, lim.maxHeader - used;
    var got := NextLine(s, ending, 0, MAX_CHUNK_LINE, true);
    LineCases(s, ending, 0, 1024, st);
    if got.Failed? || got.value == [] {
      BreaksHere(s, ending, lim.maxBody, room, |out|, st);
    } else {
      var line, rest := got.value, got.rest;
      if SizeOf(line).None? {
        NoSize(line);
        assert AfterLine(line, rest, ending, lim.maxBody, room, |out|, st);
        BreaksHere(s, ending, lim.maxBody, room, |out|, st);
      } else {
        var size := SizeOf(line).value;
        var l := SizeOnly(line);
        TrailersFailIff(rest, ending, lim, used, out, st);
        DataCases(rest, ending, size, st);
        if size == 0 || |out| + size > lim.maxBody || ChunkData(rest, ending, size).Failed? {
          assert SizeBreaks(size, rest, ending, lim.maxBody, room, |out|, st);
          assert AfterLine(line, rest, ending, lim.maxBody, room, |out|, st);
          BreaksHere(s, ending, lim.maxBody, room, |out|, st);
        } else {
          var data := ChunkData(rest, ending, size);
          DataOnly(rest, ending, size);
          FailedBreaks(data.rest, ending, lim, used, out + data.value);
          MoreFrames(Frame(l, data.value), data.rest, ending, lim.maxBody, room, |out|, st);
        }
      }
    }
  }

  lemma BreaksHere(s: seq<byte>, ending: Ending, maxBody: nat, room: nat, len: nat, st: Status)
    requires ChunkBreaks(s, ending, maxBody, room, len, st) && len <= maxBody
    ensures Breaks(s, ending, maxBody, room, len, st)
  {
    hide ChunkBreaks;
    assert FramesText([]) + s == s && AreFrames([]) && Body([]) == [];
  }

  lemma NoSize(line: seq<byte>)
    requires SizeOf(line).None?
    ensures forall l, size :: IsSize(l, size) ==> SizeText(l) != line
  {
    forall l, size | IsSize(l, size)
      ensures SizeText(l) != line
    {
      SizeReads(l, size);
    }
    hide SizeOf, IsSize, SizeText;
  }

  lemma MoreFrames(f: Frame, s: seq<byte>, ending: Ending, maxBody: nat, room: nat, len: nat, st: Status)
    requires IsFrame(f) && Breaks(s, ending, maxBody, room, len + |f.data|, st)
    ensures Breaks(SizeText(f.line) + (f.data + [CR, LF] + s), ending, maxBody, room, len, st)
  {
    hide IsFrame, ChunkBreaks, SizeText;
    var fs, rest :|
      && AreFrames(fs) && s == FramesText(fs) + rest && len + |f.data| + |Body(fs)| <= maxBody
      && ChunkBreaks(rest, ending, maxBody, room, len + |f.data| + |Body(fs)|, st);
    AddFrame(f, fs, rest);
    assert |Body([f] + fs)| == |f.data| + |Body(fs)|;
    hide AreFrames, FramesText, Body;
  }

  /**
   A body is refused with a status if and only if it breaks in the way the status stands for, after
   some whole chunks: 413 over the body limit, 431 for an overlong line, 400 for a line that announces
   no size or a chunk without its line end, and 408 or none when the bytes run out.
   */
  lemma FailsIff(s: seq<byte>, ending: Ending, lim: Limits, used: nat, st: Status)
    requires used <= lim.maxHeader
    ensures Chunked(s, ending, lim, used, []) == Failed(st)
       <==> Breaks(s, ending, lim.maxBody, lim.maxHeader - used, 0, st)
  {
    hide Chunked, ChunkBreaks, AreFrames, FramesText, Body;
    if Chunked(s, ending, lim, used, []).Failed? {
      FailedBreaks(s, ending, lim, used, []);
    }
    if Breaks(s, ending, lim.maxBody, lim.maxHeader - used, 0, st) {
      var fs, rest :|
        && AreFrames(fs) && s == FramesText(fs) + rest && 0 + |Body(fs)| <= lim.maxBody
        && ChunkBreaks(rest, ending, lim.maxBody, lim.maxHeader - used, 0 + |Body(fs)|, st);
      FramesDecode(fs, rest, ending, lim, used, []);
      assert [] + Body(fs) == Body(fs);
      BrokenChunkFails(rest, ending, lim, used, Body(fs), st);
    }
  }
}
