/** The chunked transfer coding (`backend/src/http.rs`; RFC 7230, section 4.1). */
module HttpChunked {
  import opened Bits
  import opened Outcomes
  import opened Utf8
  import opened HttpLines

  const MAX_CHUNK_LINE: nat := 1024
  const SEMICOLON: byte := 0x3B
  const PLUS: int := 0x2B

  // ---- The size on a chunk's first line ----

  /** A run of hexadecimal digits, folded from the front. */
  function HexNumber(t: Text): Option<nat> {
    if t == [] then Some(0)
    else
      match (HexNumber(t[..|t| - 1]), HexValue(t[|t| - 1]))
      case (Some(v), Some(d)) => Some(16 * v + d)
      case _ => None
  }

  /** `usize::from_str_radix(t, 16)`: an optional plus sign, at least one digit, and no overflow. */
  function HexSize(t: Text): (n: Option<nat>)
    ensures n.Some? ==> n.value < TWO_64
  {
    var digits := if |t| > 1 && t[0] == PLUS then t[1..] else t;
    if digits == [] then None
    else
      match HexNumber(digits)
      case None => None
      case Some(v) => if v < TWO_64 then Some(v) else None
  }

  function SemicolonAt(s: seq<byte>): (i: nat)
    ensures i <= |s|
  {
    if s == [] || s[0] == SEMICOLON then 0 else 1 + SemicolonAt(s[1..])
  }

  /** The size a chunk's first line announces, its extension cut off. */
  function SizeOf(line: seq<byte>): Option<nat> {
    var head := Trimmed(line);
    match FromUtf8(head[..SemicolonAt(head)])
    case None => None
    case Some(t) => HexSize(TrimStart(TrimEnd(t)))
  }

  // ---- What the decoder computes, as a function of the stream ----

  /** The limits of one request: header bytes in all, and body bytes. */
  datatype Limits = Limits(maxHeader: nat, maxBody: nat)

  function Trailers(s: seq<byte>, ending: Ending, lim: Limits, used: nat, out: seq<byte>): (r: Outcome<seq<byte>>)
    ensures r.Read? ==> r.value == out
    decreases |s|
  {
    match NextLine(s, ending, used, lim.maxHeader, true)
    case Failed(st) => Failed(st)
    case Read(line, rest) =>
      if line == [] then Failed(CLOSE)
      else if Trimmed(line) == [] then Read(out, rest)
      else Trailers(rest, ending, lim, used + |line|, out)
  }

  /** One chunk's data and the line end after it. */
  function ChunkData(s: seq<byte>, ending: Ending, size: nat): Outcome<seq<byte>> {
    match NextBytes(s, ending, size)
    case Failed(st) => Failed(st)
    case Read(data, rest) =>
      match NextBytes(rest, ending, 2)
      case Failed(st) => Failed(st)
      case Read(crlf, rest') => if crlf == [CR, LF] then Read(data, rest') else Failed(BAD_REQUEST)
  }

  function Chunked(s: seq<byte>, ending: Ending, lim: Limits, used: nat, out: seq<byte>): (r: Outcome<seq<byte>>)
    requires |out| <= lim.maxBody
    ensures r.Read? ==> |r.value| <= lim.maxBody
    decreases |s|
  {
    match NextLine(s, ending, 0, MAX_CHUNK_LINE, true)
    case Failed(st) => Failed(st)
    case Read(line, rest) =>
      if line == [] then Failed(CLOSE)
      else
        match SizeOf(line)
        case None => Failed(BAD_REQUEST)
        case Some(size) =>
          if size == 0 then Trailers(rest, ending, lim, used, out)
          else if |out| + size > lim.maxBody then Failed(TOO_LARGE)
          else
            match ChunkData(rest, ending, size)
            case Failed(st) => Failed(st)
            case Read(data, rest') => Chunked(rest', ending, lim, used, out + data)
  }

  // ---- The decoder ----

  /** The trailer loop of `read_chunked`. */
  method ReadTrailers(reader: BufReader, lim: Limits, used: nat, out: seq<byte>) returns (r: Outcome<seq<byte>>)
    requires reader.Valid() && used <= lim.maxHeader && lim.maxHeader + BUFFER_CAPACITY < TWO_64
    modifies reader
    ensures reader.Valid()
    ensures r == Trailers(old(reader.stream), reader.ending, lim, used, out) || r == Failed(TIMEOUT)
    ensures r.Read? ==> reader.stream == r.rest
  {
    hide NextLine, Trimmed;
    var total: nat := used;
    while true
      invariant reader.Valid() && total <= lim.maxHeader
      invariant Trailers(reader.stream, reader.ending, lim, total, out)
             == Trailers(old(reader.stream), reader.ending, lim, used, out)
      decreases |reader.stream|
    {
      var got, total' := reader.ReadLineLimited(total, lim.maxHeader, true);
      if got.Failed? {
        return Failed(got.status);
      }
      if got.value == [] {
        return Failed(CLOSE);
      }
      var text := TrimEol(got.value);
      if text == [] {
        return Read(out, reader.stream);
      }
      total := total';
    }
  }

  method ReadData(reader: BufReader, size: nat) returns (r: Outcome<seq<byte>>)
    requires reader.Valid()
    modifies reader
    ensures reader.Valid()
    ensures r == ChunkData(old(reader.stream), reader.ending, size) || r == Failed(TIMEOUT)
    ensures r.Read? ==> reader.stream == r.rest
  {
    var data := reader.ReadExactTimed(size);
    if data.Failed? {
      return Failed(data.status);
    }
    var crlf := reader.ReadExactTimed(2);
    if crlf.Failed? {
      return Failed(crlf.status);
    }
    if crlf.value != [CR, LF] {
      return Failed(BAD_REQUEST);
    }
    return Read(data.value, reader.stream);
  }

  /** `read_chunked`. Unless the deadline passes, the outcome is a function of the stream alone. */
  method ReadChunked(reader: BufReader, lim: Limits, used: nat) returns (r: Outcome<seq<byte>>)
    requires reader.Valid() && used <= lim.maxHeader && lim.maxHeader + BUFFER_CAPACITY < TWO_64 && lim.maxBody < TWO_64
    modifies reader
    ensures reader.Valid()
    ensures r == Chunked(old(reader.stream), reader.ending, lim, used, []) || r == Failed(408)
    ensures r.Read? ==> |r.value| <= lim.maxBody && reader.stream == r.rest
  {
    var out: seq<byte> := [];
    while true
      invariant reader.Valid() && |out| <= lim.maxBody
      invariant Chunked(reader.stream, reader.ending, lim, used, out)
             == Chunked(old(reader.stream), reader.ending, lim, used, [])
      decreases |reader.stream|
    {
      var got, _ := reader.ReadLineLimited(0, MAX_CHUNK_LINE, true);
      if got.Failed? {
        return Failed(got.status);
      }
      if got.value == [] {
        return Failed(CLOSE);
      }
      var size := SizeOf(got.value);
      if size.None? {
        return Failed(BAD_REQUEST);
      }
      if size.value == 0 {
        r := ReadTrailers(reader, lim, used, out);
        return;
      }
      if size.value > lim.maxBody {
        return Failed(TOO_LARGE);
      }
      var end := CheckedAdd(|out|, size.value);
      if end.None? || end.value > lim.maxBody {
        return Failed(TOO_LARGE);
      }
      var data := ReadData(reader, size.value);
      if data.Failed? {
        return Failed(data.status);
      }
      out := out + data.value;
    }
  }

  /** `usize::checked_add`. */
  function CheckedAdd(a: nat, b: nat): Option<nat> {
    if a + b < TWO_64 then Some(a + b) else None
  }

  // ---- The messages it accepts ----

  /**
   A chunk's first line: digits, perhaps with a plus sign, between white space, then perhaps an
   extension, then the line end.
   */
  datatype SizeLine = SizeLine(lead: Text, plus: bool, digits: Text, trail: Text, ext: seq<byte>, crlf: bool)

  function LineEnd(crlf: bool): seq<byte> {
    if crlf then [CR, LF] else [LF]
  }

  function Number(l: SizeLine): Text {
    (if l.plus then [PLUS] else []) + l.digits
  }

  function Field(l: SizeLine): Text {
    l.lead + Number(l) + l.trail
  }

  function SizeText(l: SizeLine): seq<byte> {
    Bytes(Field(l)) + l.ext + LineEnd(l.crlf)
  }

  function Pow16(k: nat): nat {
    if k == 0 then 1 else 16 * Pow16(k - 1)
  }

  predicate AreDigits(t: Text) {
    forall i | 0 <= i < |t| :: HexValue(t[i]).Some?
  }

  /** What digits stand for by their places. */
  function PlaceValue(t: Text): nat
    requires AreDigits(t)
  {
    if t == [] then 0 else HexValue(t[0]).value * Pow16(|t| - 1) + PlaceValue(t[1..])
  }

  predicate AllWhite(t: Text) {
    forall i | 0 <= i < |t| :: IsWhite(t[i])
  }

  /** A line feed at the end and nowhere before. */
  predicate IsLine(line: seq<byte>) {
    line != [] && LineFeedAt(line) == |line| - 1
  }

  /** What stands before the line end; before a bare line feed it does not end in a carriage return. */
  predicate IsContent(content: seq<byte>, crlf: bool) {
    LF !in content && (!crlf && content != [] ==> content[|content| - 1] != CR)
  }

  /** The line announces `size`, by the place values of its digits. */
  predicate IsSize(l: SizeLine, size: nat) {
    && l.digits != [] && AreDigits(l.digits) && PlaceValue(l.digits) == size < TWO_64
    && AllWhite(l.lead) && AllWhite(l.trail) && (l.ext != [] ==> l.ext[0] == SEMICOLON)
    && IsContent(Bytes(Field(l)) + l.ext, l.crlf) && |SizeText(l)| <= MAX_CHUNK_LINE
  }

  /** As section 4.1 of RFC 7230 has it: no white space, no sign, and a carriage return. */
  predicate Strict(l: SizeLine) {
    l.lead == [] && !l.plus && l.trail == [] && l.crlf
  }

  /** A chunk. */
  datatype Frame = Frame(line: SizeLine, data: seq<byte>)

  datatype Trailer = Trailer(content: seq<byte>, crlf: bool)

  /** Chunks, the last-chunk line, trailers, and the blank line that ends them. */
  datatype Message = Message(frames: seq<Frame>, last: SizeLine, trailers: seq<Trailer>, crlf: bool)

  predicate IsFrame(f: Frame) {
    f.data != [] && IsSize(f.line, |f.data|)
  }

  function FrameText(f: Frame): seq<byte> {
    SizeText(f.line) + (f.data + [CR, LF])
  }

  function FramesText(fs: seq<Frame>): seq<byte> {
    if fs == [] then [] else FrameText(fs[0]) + FramesText(fs[1..])
  }

  function Body(fs: seq<Frame>): seq<byte> {
    if fs == [] then [] else fs[0].data + Body(fs[1..])
  }

  function TrailerText(t: Trailer): seq<byte> {
    t.content + LineEnd(t.crlf)
  }

  function TrailersText(ts: seq<Trailer>): seq<byte> {
    if ts == [] then [] else TrailerText(ts[0]) + TrailersText(ts[1..])
  }

  predicate AreTrailers(ts: seq<Trailer>) {
    ts != [] ==> ts[0].content != [] && IsContent(ts[0].content, ts[0].crlf) && AreTrailers(ts[1..])
  }

  predicate AreFrames(fs: seq<Frame>) {
    fs != [] ==> IsFrame(fs[0]) && AreFrames(fs[1..])
  }

  function MessageText(m: Message): seq<byte> {
    FramesText(m.frames) + (SizeText(m.last) + (TrailersText(m.trailers) + LineEnd(m.crlf)))
  }

  /** `*chunk last-chunk trailer-part CRLF` within the limits. */
  predicate IsMessage(m: Message, lim: Limits, used: nat) {
    && AreFrames(m.frames) && |Body(m.frames)| <= lim.maxBody
    && IsSize(m.last, 0) && AreTrailers(m.trailers)
    && used + |TrailersText(m.trailers)| + |LineEnd(m.crlf)| <= lim.maxHeader
  }

  // ---- Lines ----

  /** A line end comes off a content, and nothing else does. */
  lemma ContentLine(content: seq<byte>, crlf: bool)
    requires IsContent(content, crlf)
    ensures IsLine(content + LineEnd(crlf)) && Trimmed(content + LineEnd(crlf)) == content
  {
    var line := content + LineEnd(crlf);
    LineFeedIn(line, |line| - 1);
    LastComesOff(content + (if crlf then [CR] else []), LF);
    assert line == content + (if crlf then [CR] else []) + [LF];
    if crlf {
      LastComesOff(content, CR);
    }
    hide LineFeedAt;
  }

  /** Every line is a content and a line end. */
  lemma LineContent(line: seq<byte>) returns (crlf: bool)
    requires IsLine(line)
    ensures IsContent(Trimmed(line), crlf) && line == Trimmed(line) + LineEnd(crlf)
  {
    var head := line[..|line| - 1];
    assert line == head + [LF];
    crlf := head != [] && head[|head| - 1] == CR;
    assert forall k | 0 <= k < |head| :: head[k] == line[k];
    if crlf {
      assert head == head[..|head| - 1] + [CR];
    }
  }

  // ---- Size lines ----

  lemma {:induction false} BytesOfMore(a: Text, b: Text)
    ensures Bytes(a + b) == Bytes(a) + Bytes(b)
  {
    hide Encode;
    if a == [] {
      assert a + b == b;
    } else {
      assert (a + b)[1..] == a[1..] + b;
      BytesOfMore(a[1..], b);
    }
  }

  /** No semicolon hides in characters that are not one. */
  lemma {:induction false} NoSemicolon(t: Text)
    requires forall i | 0 <= i < |t| :: t[i] != SEMICOLON
    ensures SEMICOLON !in Bytes(t)
  {
    if t != [] {
      NoSemicolon(t[1..]);
    }
  }

  lemma {:induction false} SemicolonAfter(head: seq<byte>, ext: seq<byte>)
    requires SEMICOLON !in head && (ext != [] ==> ext[0] == SEMICOLON)
    ensures SemicolonAt(head + ext) == |head|
  {
    if head == [] {
      assert head + ext == ext;
    } else {
      assert (head + ext)[1..] == head[1..] + ext;
      SemicolonAfter(head[1..], ext);
    }
  }

  lemma {:induction false} SemicolonFirst(s: seq<byte>)
    ensures SEMICOLON !in s[..SemicolonAt(s)]
    ensures s[SemicolonAt(s)..] != [] ==> s[SemicolonAt(s)..][0] == SEMICOLON
  {
    if s != [] && s[0] != SEMICOLON {
      SemicolonFirst(s[1..]);
      assert s[..SemicolonAt(s)] == [s[0]] + s[1..][..SemicolonAt(s[1..])];
    }
  }

  lemma {:induction false} EndComesOff(t: Text, white: Text)
    requires AllWhite(white) && t != [] && !IsWhite(t[|t| - 1])
    ensures TrimEnd(t + white) == t
  {
    hide IsWhite;
    if white == [] {
      assert t + white == t;
    } else {
      var n := |white| - 1;
      assert (t + white)[..|t + white| - 1] == t + white[..n];
      EndComesOff(t, white[..n]);
    }
  }

  lemma {:induction false} StartComesOff(white: Text, t: Text)
    requires AllWhite(white) && t != [] && !IsWhite(t[0])
    ensures TrimStart(white + t) == t
  {
    hide IsWhite;
    if white == [] {
      assert white + t == t;
    } else {
      assert (white + t)[1..] == white[1..] + t;
      StartComesOff(white[1..], t);
    }
  }

  lemma {:induction false} EndIsWhite(t: Text)
    ensures TrimEnd(t) <= t && AllWhite(t[|TrimEnd(t)|..])
  {
    hide IsWhite;
    if t != [] && IsWhite(t[|t| - 1]) {
      EndIsWhite(t[..|t| - 1]);
      var n := |TrimEnd(t)|;
      assert t[n..] == t[..|t| - 1][n..] + [t[|t| - 1]];
    }
  }

  lemma {:induction false} StartIsWhite(t: Text)
    ensures |TrimStart(t)| <= |t| && t[|t| - |TrimStart(t)|..] == TrimStart(t)
    ensures AllWhite(t[..|t| - |TrimStart(t)|])
  {
    hide IsWhite;
    if t != [] && IsWhite(t[0]) {
      StartIsWhite(t[1..]);
      var n := |t| - |TrimStart(t)|;
      assert t[n..] == t[1..][n - 1..] && t[..n] == [t[0]] + t[1..][..n - 1];
    }
  }

  lemma {:induction false} LastPlace(t: Text)
    requires t != [] && AreDigits(t)
    ensures PlaceValue(t) == 16 * PlaceValue(t[..|t| - 1]) + HexValue(t[|t| - 1]).value
  {
    hide HexValue;
    var n := |t| - 1;
    if n == 0 {
      assert t[1..] == [] && t[..n] == [] && Pow16(0) == 1;
    } else {
      LastPlace(t[1..]);
      assert t[1..][..n - 1] == t[..n][1..];
      var d := HexValue(t[0]).value;
      assert d * Pow16(n) == d * (16 * Pow16(n - 1)) == 16 * (d * Pow16(n - 1));
    }
  }

  /** Folding digits from the front gives their place value. */
  lemma {:induction false} FoldIsPlaceValue(t: Text)
    ensures HexNumber(t).Some? <==> AreDigits(t)
    ensures AreDigits(t) ==> HexNumber(t) == Some(PlaceValue(t))
  {
    if t != [] {
      FoldIsPlaceValue(t[..|t| - 1]);
      if AreDigits(t) {
        LastPlace(t);
      } else if AreDigits(t[..|t| - 1]) {
        assert HexValue(t[|t| - 1]).None?;
      }
    }
    hide HexValue;
  }

  lemma DigitIsNoOther(c: Scalar)
    requires HexValue(c).Some?
    ensures !IsWhite(c) && c != PLUS && c != SEMICOLON
  {
  }

  lemma NumberReads(l: SizeLine)
    requires l.digits != [] && AreDigits(l.digits)
    ensures HexSize(Number(l)) == if PlaceValue(l.digits) < TWO_64 then Some(PlaceValue(l.digits)) else None
  {
    DigitIsNoOther(l.digits[0]);
    FoldIsPlaceValue(l.digits);
    hide AreDigits, PlaceValue, HexNumber, HexValue, IsWhite;
    assert if l.plus then Number(l)[1..] == l.digits else Number(l) == l.digits;
  }

  lemma NumberIsBare(l: SizeLine)
    requires l.digits != [] && AreDigits(l.digits)
    ensures !IsWhite(Number(l)[0]) && !IsWhite(Number(l)[|Number(l)| - 1])
  {
    DigitIsNoOther(l.digits[0]);
    DigitIsNoOther(l.digits[|l.digits| - 1]);
    hide AreDigits, HexValue;
  }

  lemma FieldReads(l: SizeLine)
    requires l.digits != [] && AreDigits(l.digits) && AllWhite(l.lead) && AllWhite(l.trail)
    ensures TrimStart(TrimEnd(Field(l))) == Number(l)
  {
    NumberIsBare(l);
    EndComesOff(l.lead + Number(l), l.trail);
    StartComesOff(l.lead, Number(l));
    hide TrimStart, TrimEnd;
  }

  lemma FieldHasNoSemicolon(l: SizeLine)
    requires AreDigits(l.digits) && AllWhite(l.lead) && AllWhite(l.trail)
    ensures forall i | 0 <= i < |Field(l)| :: Field(l)[i] != SEMICOLON
  {
    forall c | c in Field(l)
      ensures c != SEMICOLON
    {
      assert c in l.lead || c == PLUS || c in l.digits || c in l.trail;
    }
  }

  /** A size line reads as the size it announces. */
  lemma SizeReads(l: SizeLine, size: nat)
    requires IsSize(l, size)
    ensures IsLine(SizeText(l)) && SizeOf(SizeText(l)) == Some(size)
  {
    var head := Bytes(Field(l));
    ContentLine(head + l.ext, l.crlf);
    FieldReads(l);
    FieldHasNoSemicolon(l);
    NoSemicolon(Field(l));
    SemicolonAfter(head, l.ext);
    assert (head + l.ext)[..|head|] == head;
    FromBytes(Field(l));
    NumberReads(l);
    hide FromUtf8, Bytes, Field, Number, TrimStart, TrimEnd, HexSize, PlaceValue, AreDigits, Trimmed, LineFeedAt,
         SemicolonAt;
  }

  lemma NumberOnly(number: Text) returns (plus: bool, digits: Text)
    requires HexSize(number).Some?
    ensures digits != [] && AreDigits(digits) && HexSize(number) == Some(PlaceValue(digits))
    ensures number == (if plus then [PLUS] else []) + digits
  {
    plus := |number| > 1 && number[0] == PLUS;
    digits := if plus then number[1..] else number;
    FoldIsPlaceValue(digits);
    hide AreDigits, PlaceValue, HexNumber;
  }

  lemma FieldOnly(t: Text) returns (lead: Text, plus: bool, digits: Text, trail: Text)
    requires HexSize(TrimStart(TrimEnd(t))).Some?
    ensures digits != [] && AreDigits(digits) && HexSize(TrimStart(TrimEnd(t))) == Some(PlaceValue(digits))
    ensures AllWhite(lead) && AllWhite(trail) && t == lead + ((if plus then [PLUS] else []) + digits) + trail
  {
    var front := TrimEnd(t);
    var number := TrimStart(front);
    EndIsWhite(t);
    StartIsWhite(front);
    hide TrimStart, TrimEnd, HexSize, PlaceValue, AreDigits, AllWhite;
    plus, digits := NumberOnly(number);
    lead, trail := front[..|front| - |number|], t[|front|..];
    assert lead + number == front && front + trail == t;
  }

  /** Every line that reads as a size is a size line. */
  lemma SizeOnly(line: seq<byte>) returns (l: SizeLine)
    requires IsLine(line) && |line| <= MAX_CHUNK_LINE && SizeOf(line).Some?
    ensures IsSize(l, SizeOf(line).value) && SizeText(l) == line
  {
    hide TrimStart, TrimEnd, PlaceValue, AreDigits, AllWhite, HexSize, IsLine, LineEnd, Trimmed, IsContent, FromUtf8,
         Bytes;
    var crlf := LineContent(line);
    var content := Trimmed(line);
    var k := SemicolonAt(content);
    SemicolonFirst(content);
    BytesFrom(content[..k]);
    var lead, plus, digits, trail := FieldOnly(FromUtf8(content[..k]).value);
    l := SizeLine(lead, plus, digits, trail, content[k..], crlf);
    assert content[..k] + content[k..] == content;
    hide SemicolonAt, Field, Number;
    assert Bytes(Field(l)) + l.ext == content by {
      assert Field(l) == FromUtf8(content[..k]).value by {
        FieldIs(l);
      }
    }
  }

  lemma FieldIs(l: SizeLine)
    ensures Field(l) == l.lead + ((if l.plus then [PLUS] else []) + l.digits) + l.trail
  {
  }

  /**
   The size lines of section 4.1 of RFC 7230: one or more hexadecimal digits in either case, leading
   zeros included, and any extension. Each that fits announces the place value of its digits.
   */
  lemma StrictSizeLine(digits: Text, ext: seq<byte>)
    requires digits != [] && AreDigits(digits) && PlaceValue(digits) < TWO_64
    requires (ext != [] ==> ext[0] == SEMICOLON) && LF !in ext && |digits| + |ext| + 2 <= MAX_CHUNK_LINE
    ensures var l := SizeLine([], false, digits, [], ext, true);
            Strict(l) && IsSize(l, PlaceValue(digits)) && SizeText(l) == digits + ext + [CR, LF]
  {
    var l := SizeLine([], false, digits, [], ext, true);
    assert Number(l) == digits && Field(l) == digits;
    DigitBytes(digits);
    hide PlaceValue, AreDigits, Bytes;
    assert LF !in digits + ext;
  }

  lemma {:induction false} DigitBytes(t: Text)
    requires AreDigits(t)
    ensures Bytes(t) == t && LF !in t
  {
    if t != [] {
      assert HexValue(t[0]).Some?;
      DigitBytes(t[1..]);
      assert t == [t[0]] + t[1..];
    }
  }

  // ---- Every message decodes ----

  lemma LineThenRest(line: seq<byte>, rest: seq<byte>, ending: Ending, used: nat, max: nat)
    requires IsLine(line) && used + |line| <= max
    ensures NextLine(line + rest, ending, used, max, true) == Read(line, rest)
  {
    var s := line + rest;
    assert forall k | 0 <= k < |line| :: s[k] == line[k];
    LineFeedIn(s, |line| - 1);
    assert s[..|line|] == line && s[|line|..] == rest;
  }

  lemma DataThenRest(data: seq<byte>, rest: seq<byte>, ending: Ending)
    ensures ChunkData(data + [CR, LF] + rest, ending, |data|) == Read(data, rest)
  {
    var s := data + [CR, LF] + rest;
    assert s[..|data|] == data && s[|data|..] == [CR, LF] + rest;
    assert ([CR, LF] + rest)[..2] == [CR, LF] && ([CR, LF] + rest)[2..] == rest;
  }

  lemma {:induction false} TrailersDecode(ts: seq<Trailer>, crlf: bool, rest: seq<byte>, ending: Ending,
                                          lim: Limits, used: nat, out: seq<byte>)
    requires AreTrailers(ts) && used + |TrailersText(ts)| + |LineEnd(crlf)| <= lim.maxHeader
    ensures Trailers(TrailersText(ts) + LineEnd(crlf) + rest, ending, lim, used, out) == Read(out, rest)
    decreases |ts|
  {
    hide NextLine, Trimmed, IsContent, LineEnd, IsLine;
    if ts == [] {
      BlankLine(crlf);
      assert TrailersText(ts) + LineEnd(crlf) + rest == LineEnd(crlf) + rest;
      LineThenRest(LineEnd(crlf), rest, ending, used, lim.maxHeader);
    } else {
      var line := TrailerText(ts[0]);
      var tail := TrailersText(ts[1..]) + LineEnd(crlf) + rest;
      assert TrailersText(ts) + LineEnd(crlf) + rest == line + tail;
      ContentLine(ts[0].content, ts[0].crlf);
      LineThenRest(line, tail, ending, used, lim.maxHeader);
      TrailersDecode(ts[1..], crlf, rest, ending, lim, used + |line|, out);
    }
  }

  lemma BlankLine(crlf: bool)
    ensures IsLine(LineEnd(crlf)) && Trimmed(LineEnd(crlf)) == [] && LineEnd(crlf) != []
  {
    ContentLine([], crlf);
    assert [] + LineEnd(crlf) == LineEnd(crlf);
    hide LineEnd;
  }

  lemma FrameFirst(f: Frame, text: seq<byte>, tail: seq<byte>)
    ensures FrameText(f) + text + tail == SizeText(f.line) + (f.data + [CR, LF] + (text + tail))
  {
    hide SizeText;
  }

  lemma {:induction false} FramesDecode(fs: seq<Frame>, tail: seq<byte>, ending: Ending, lim: Limits, used: nat,
                                        out: seq<byte>)
    requires AreFrames(fs) && |out| + |Body(fs)| <= lim.maxBody
    ensures Chunked(FramesText(fs) + tail, ending, lim, used, out) == Chunked(tail, ending, lim, used, out + Body(fs))
    decreases |fs|
  {
    hide NextLine, SizeOf, ChunkData, SizeText, IsSize, IsLine, FrameText;
    if fs == [] {
      assert FramesText(fs) + tail == tail && out + Body(fs) == out;
    } else {
      var f := fs[0];
      var more := FramesText(fs[1..]) + tail;
      SizeReads(f.line, |f.data|);
      SizeFits(f.line, |f.data|);
      FrameFirst(f, FramesText(fs[1..]), tail);
      LineThenRest(SizeText(f.line), f.data + [CR, LF] + more, ending, 0, MAX_CHUNK_LINE);
      DataThenRest(f.data, more, ending);
      FramesDecode(fs[1..], tail, ending, lim, used, out + f.data);
      assert out + f.data + Body(fs[1..]) == out + Body(fs);
    }
  }

  lemma SizeFits(l: SizeLine, size: nat)
    requires IsSize(l, size)
    ensures 0 < |SizeText(l)| <= MAX_CHUNK_LINE
  {
  }

  lemma MessageFirst(m: Message, rest: seq<byte>)
    ensures MessageText(m) + rest
         == FramesText(m.frames) + (SizeText(m.last) + (TrailersText(m.trailers) + LineEnd(m.crlf) + rest))
  {
    hide FramesText, SizeText, TrailersText, LineEnd;
  }

  /** Every message within the limits decodes to its chunks' data, and nothing after it is consumed. */
  lemma MessageDecodes(m: Message, rest: seq<byte>, ending: Ending, lim: Limits, used: nat)
    requires IsMessage(m, lim, used)
    ensures Chunked(MessageText(m) + rest, ending, lim, used, []) == Read(Body(m.frames), rest)
  {
    var tail := TrailersText(m.trailers) + LineEnd(m.crlf) + rest;
    SizeReads(m.last, 0);
    SizeFits(m.last, 0);
    MessageFirst(m, rest);
    hide SizeText, IsSize, IsLine, SizeOf, NextLine, FramesText, AreFrames, TrailersText, AreTrailers, LineEnd,
         Trailers, MessageText;
    FramesDecode(m.frames, SizeText(m.last) + tail, ending, lim, used, []);
    assert [] + Body(m.frames) == Body(m.frames);
    LineThenRest(SizeText(m.last), tail, ending, 0, MAX_CHUNK_LINE);
    TrailersDecode(m.trailers, m.crlf, rest, ending, lim, used, Body(m.frames));
  }

  // ---- And it accepts nothing else ----

  lemma {:induction false} TrailersOnly(s: seq<byte>, ending: Ending, lim: Limits, used: nat, out: seq<byte>)
    returns (ts: seq<Trailer>, crlf: bool)
    requires Trailers(s, ending, lim, used, out).Read?
    ensures AreTrailers(ts) && used + |TrailersText(ts)| + |LineEnd(crlf)| <= lim.maxHeader
    ensures s == TrailersText(ts) + LineEnd(crlf) + Trailers(s, ending, lim, used, out).rest
    decreases |s|
  {
    hide NextLine, Trimmed, LineFeedAt, IsContent, LineEnd;
    var got := NextLine(s, ending, used, lim.maxHeader, true);
    var line := got.value;
    var end := LineContent(line);
    if Trimmed(line) == [] {
      ts, crlf := [], end;
      assert [] + LineEnd(crlf) == LineEnd(crlf) && TrailersText(ts) + LineEnd(crlf) == LineEnd(crlf);
    } else {
      var more;
      more, crlf := TrailersOnly(got.rest, ending, lim, used + |line|, out);
      var t := Trailer(Trimmed(line), end);
      ts := [t] + more;
      TrailerFirst(t, more, LineEnd(crlf), Trailers(s, ending, lim, used, out).rest);
    }
  }

  lemma TrailerFirst(t: Trailer, more: seq<Trailer>, blank: seq<byte>, rest: seq<byte>)
    ensures TrailersText([t] + more) + blank + rest == TrailerText(t) + (TrailersText(more) + blank + rest)
    ensures |TrailersText([t] + more)| == |TrailerText(t)| + |TrailersText(more)|
    ensures ([t] + more)[1..] == more
  {
    hide TrailerText;
    assert ([t] + more)[1..] == more;
  }

  lemma DataOnly(s: seq<byte>, ending: Ending, size: nat)
    requires ChunkData(s, ending, size).Read?
    ensures var r := ChunkData(s, ending, size);
            |r.value| == size && s == r.value + [CR, LF] + r.rest
  {
    var rest := s[size..];
    assert s == s[..size] + rest && rest == rest[..2] + rest[2..];
  }

  lemma AddFrame(f: Frame, fs: seq<Frame>, tail: seq<byte>)
    requires IsFrame(f) && AreFrames(fs)
    ensures AreFrames([f] + fs) && Body([f] + fs) == f.data + Body(fs)
    ensures FramesText([f] + fs) + tail == SizeText(f.line) + (f.data + [CR, LF] + (FramesText(fs) + tail))
  {
    hide IsFrame, FrameText, SizeText;
    assert ([f] + fs)[1..] == fs;
    FrameFirst(f, FramesText(fs), tail);
  }

  /** Whatever decodes is a message within the limits, and the result is its chunks' data. */
  lemma {:induction false} OnlyMessages(s: seq<byte>, ending: Ending, lim: Limits, used: nat, out: seq<byte>)
    returns (m: Message)
    requires |out| <= lim.maxBody && Chunked(s, ending, lim, used, out).Read?
    ensures IsMessage(m, lim, used)
    ensures var r := Chunked(s, ending, lim, used, out);
            r.value == out + Body(m.frames) && s == MessageText(m) + r.rest
    decreases |s|
  {
    hide NextLine, Trimmed, LineFeedAt, ChunkData, SizeOf, Trailers, AreTrailers, TrailersText, SizeText, IsSize,
         LineEnd;
    var r := Chunked(s, ending, lim, used, out);
    var got := NextLine(s, ending, 0, MAX_CHUNK_LINE, true);
    var size := SizeOf(got.value).value;
    var line := SizeOnly(got.value);
    if size == 0 {
      var ts, crlf := TrailersOnly(got.rest, ending, lim, used, out);
      m := Message([], line, ts, crlf);
      assert MessageText(m) + r.rest == SizeText(line) + (TrailersText(ts) + LineEnd(crlf) + r.rest);
      assert out + Body([]) == out;
    } else {
      var data := ChunkData(got.rest, ending, size);
      DataOnly(got.rest, ending, size);
      var n := OnlyMessages(data.rest, ending, lim, used, out + data.value);
      var f := Frame(line, data.value);
      m := n.(frames := [f] + n.frames);
      GrowMessage(f, n, r.rest);
      assert out + data.value + Body(n.frames) == out + (data.value + Body(n.frames));
    }
  }

  lemma GrowMessage(f: Frame, m: Message, rest: seq<byte>)
    requires IsFrame(f) && AreFrames(m.frames)
    ensures var m' := m.(frames := [f] + m.frames);
            && AreFrames(m'.frames) && Body(m'.frames) == f.data + Body(m.frames)
            && MessageText(m') + rest == SizeText(f.line) + (f.data + [CR, LF] + (MessageText(m) + rest))
  {
    hide FramesText, Body, AreFrames, TrailersText, SizeText, LineEnd, IsFrame;
    var tail := SizeText(m.last) + (TrailersText(m.trailers) + LineEnd(m.crlf));
    AddFrame(f, m.frames, tail + rest);
    Regroup(FramesText([f] + m.frames), tail, rest);
    Regroup(FramesText(m.frames), tail, rest);
  }

  lemma Regroup(a: seq<byte>, b: seq<byte>, c: seq<byte>)
    ensures a + b + c == a + (b + c)
  {
  }

  // ---- Any split of a body ----

  function HexText(n: nat): (t: Text)
    ensures t != [] && AreDigits(t)
  {
    if n < 16 then [HexDigit(n)] else HexText(n / 16) + [HexDigit(n % 16)]
  }

  lemma {:induction false} HexTextIs(n: nat, k: nat)
    requires n < Pow16(k) && k > 0
    ensures |HexText(n)| <= k && PlaceValue(HexText(n)) == n
  {
    var t := HexText(n);
    LastPlace(t);
    if n < 16 {
      assert t[..0] == [];
    } else {
      assert k > 1;
      HexTextIs(n / 16, k - 1);
      assert t[..|t| - 1] == HexText(n / 16);
    }
  }

  lemma Pow16Word()
    ensures Pow16(16) == TWO_64
  {
    assert Pow16(4) == 0x1_0000;
    assert Pow16(8) == 0x1_0000_0000;
    assert Pow16(12) == 0x1_0000_0000_0000;
  }

  /** The line a sender writes for a size. */
  function LineOf(n: nat): SizeLine {
    SizeLine([], false, HexText(n), [], [], true)
  }

  lemma SizeLineReads(n: nat)
    requires n < TWO_64
    ensures IsSize(LineOf(n), n) && Strict(LineOf(n)) && SizeText(LineOf(n)) == HexText(n) + [CR, LF]
  {
    Pow16Word();
    HexTextIs(n, 16);
    StrictSizeLine(HexText(n), []);
    assert HexText(n) + [] == HexText(n);
    hide HexText, PlaceValue, SizeText, IsSize;
  }

  function Joined(pieces: seq<seq<byte>>): seq<byte> {
    if pieces == [] then [] else pieces[0] + Joined(pieces[1..])
  }

  function Framed(pieces: seq<seq<byte>>): seq<Frame> {
    if pieces == [] then [] else [Frame(LineOf(|pieces[0]|), pieces[0])] + Framed(pieces[1..])
  }

  /** A body sent in these pieces, with no extension and no trailer. */
  function Sent(pieces: seq<seq<byte>>): Message {
    Message(Framed(pieces), LineOf(0), [], true)
  }

  lemma {:induction false} FramedPieces(pieces: seq<seq<byte>>)
    requires forall i | 0 <= i < |pieces| :: pieces[i] != []
    requires |Joined(pieces)| < TWO_64
    ensures AreFrames(Framed(pieces)) && Body(Framed(pieces)) == Joined(pieces)
  {
    hide IsSize, LineOf;
    if pieces != [] {
      SizeLineReads(|pieces[0]|);
      FramedPieces(pieces[1..]);
      assert Framed(pieces)[1..] == Framed(pieces[1..]);
    }
  }

  /** However a body within the cap is split into chunks, the decoder puts it together again. */
  lemma EverySplitDecodes(pieces: seq<seq<byte>>, rest: seq<byte>, ending: Ending, lim: Limits, used: nat)
    requires forall i | 0 <= i < |pieces| :: pieces[i] != []
    requires |Joined(pieces)| <= lim.maxBody < TWO_64 && used + 2 <= lim.maxHeader
    ensures Chunked(MessageText(Sent(pieces)) + rest, ending, lim, used, []) == Read(Joined(pieces), rest)
  {
    hide Chunked, LineOf, SizeText, IsSize, MessageText;
    FramedPieces(pieces);
    SizeLineReads(0);
    MessageDecodes(Sent(pieces), rest, ending, lim, used);
  }
}
