/** POP3: dot-stuffed multi-line responses (section 3 of RFC 1939) and the incremental parser. */
module Pop3 {
  import opened Bytes
  import opened Lines

  const DOT: byte := 46
  const OK: bytes := [43, 79, 75]
  const ERR: bytes := [45, 69, 82, 82]

  // ---------- responses ----------

  datatype Response = Response(ok: bool, text: bytes, lines: seq<bytes>, isMultiline: bool)

  /** raw.replace(b'\r\n', b'\n'). */
  function Unix(b: bytes): bytes
    decreases |b|
  {
    if |b| < 2 then b
    else if b[0] == CR && b[1] == LF then [LF] + Unix(b[2..])
    else [b[0]] + Unix(b[1..])
  }

  /** bytes.split(b'\n'). */
  function SplitLf(b: bytes): (lines: seq<bytes>)
    ensures |lines| > 0
    decreases |b|
  {
    if |b| == 0 then [[]]
    else
      var rest := SplitLf(b[1..]);
      if b[0] == LF then [[]] + rest else [[b[0]] + rest[0]] + rest[1..]
  }

  function Unstuff(line: bytes): bytes {
    if StartsWith(line, [DOT, DOT]) then line[1..] else line
  }

  /** The data lines up to the terminator. */
  function DataLines(lines: seq<bytes>): seq<bytes> {
    if |lines| == 0 || lines[0] == [DOT] then [] else [Unstuff(lines[0])] + DataLines(lines[1..])
  }

  /** The text of a status line: four characters are cut, then one leading space. */
  function StatusText(line: bytes): bytes {
    var text := From(line, 4);
    if StartsWith(text, [SPACE]) then text[1..] else text
  }

  /** POP3Response._parse. */
  function Parse(raw: bytes): Response {
    var u := Unix(raw);
    var b := if |u| > 0 && u[|u| - 1] == LF then u[..|u| - 1] else u;
    if !StartsWith(b, OK) && !StartsWith(b, ERR) then Response(false, b, [], false)
    else
      var all := SplitLf(b);
      Response(StartsWith(b, OK), StatusText(all[0]), DataLines(all[1..]), |all| > 1)
  }

  function Stuff(line: bytes): bytes {
    if StartsWith(line, [DOT]) then [DOT] + line else line
  }

  function StuffAll(lines: seq<bytes>): seq<bytes> {
    if |lines| == 0 then [] else [Stuff(lines[0])] + StuffAll(lines[1..])
  }

  function StatusLine(r: Response): bytes {
    var status := if r.ok then OK else ERR;
    if |r.text| > 0 then status + [SPACE] + r.text else status
  }

  /** _to_lines. */
  function ToLines(r: Response): seq<bytes> {
    [StatusLine(r)] + if r.isMultiline then StuffAll(r.lines) + [[DOT]] else []
  }

  /** Every line followed by an end of line: b'\r\n'.join(lines) + b'\r\n'. */
  function Emit(lines: seq<bytes>, eol: bytes): bytes {
    if |lines| == 0 then [] else lines[0] + eol + Emit(lines[1..], eol)
  }

  /** __bytes__. */
  function ToBytes(r: Response): bytes {
    Emit(ToLines(r), CRLF)
  }

  ghost predicate LfFree(lines: seq<bytes>) {
    forall i :: 0 <= i < |lines| ==> LF !in lines[i]
  }

  lemma {:induction false} UnixLine(line: bytes, rest: bytes)
    requires LF !in line
    ensures Unix(line + CRLF + rest) == line + [LF] + Unix(rest)
    decreases |line|
  {
    var b := line + CRLF + rest;
    if |line| == 0 {
      assert b[2..] == rest;
    } else {
      assert b[1..] == line[1..] + CRLF + rest;
      assert b[1] == if |line| > 1 then line[1] else CR;
      UnixLine(line[1..], rest);
    }
  }

  lemma {:induction false} UnixEmit(lines: seq<bytes>)
    requires LfFree(lines)
    ensures Unix(Emit(lines, CRLF)) == Emit(lines, [LF])
  {
    if |lines| > 0 {
      UnixLine(lines[0], Emit(lines[1..], CRLF));
      UnixEmit(lines[1..]);
    }
  }

  lemma {:induction false} SplitLine(line: bytes, rest: bytes)
    requires LF !in line
    ensures SplitLf(line + [LF] + rest) == [line] + SplitLf(rest)
    ensures SplitLf(line) == [line]
    decreases |line|
  {
    var b := line + [LF] + rest;
    if |line| == 0 {
      assert b[1..] == rest;
    } else {
      assert b[1..] == line[1..] + [LF] + rest;
      assert line[0] != LF;
      SplitLine(line[1..], rest);
      assert [line[0]] + line[1..] == line;
    }
  }

  /** Cutting the last line feed and splitting gives the lines back. */
  lemma {:induction false} SplitEmit(lines: seq<bytes>)
    requires LfFree(lines) && |lines| > 0
    ensures var u := Emit(lines, [LF]); |u| > 0 && u[|u| - 1] == LF && SplitLf(u[..|u| - 1]) == lines
    decreases |lines|
  {
    var u := Emit(lines, [LF]);
    if |lines| == 1 {
      assert u == lines[0] + [LF] && u[..|u| - 1] == lines[0];
      SplitLine(lines[0], []);
      assert lines == [lines[0]];
    } else {
      var rest := Emit(lines[1..], [LF]);
      SplitEmit(lines[1..]);
      assert u[..|u| - 1] == lines[0] + [LF] + rest[..|rest| - 1];
      SplitLine(lines[0], rest[..|rest| - 1]);
    }
  }

  /** Stuffed lines never equal the terminator, and unstuffing restores them. */
  lemma {:induction false} StuffRoundTrip(lines: seq<bytes>)
    ensures DataLines(StuffAll(lines) + [[DOT]]) == lines
  {
    var all := StuffAll(lines) + [[DOT]];
    if |lines| > 0 {
      assert all[1..] == StuffAll(lines[1..]) + [[DOT]];
      StuffRoundTrip(lines[1..]);
      StuffOne(lines[0]);
      assert lines == [lines[0]] + lines[1..];
    }
  }

  lemma StuffOne(line: bytes)
    ensures Stuff(line) != [DOT] && Unstuff(Stuff(line)) == line
  {
    if StartsWith(line, [DOT]) {
      assert ([DOT] + line)[1..] == line;
    }
  }

  lemma {:induction false} StuffLfFree(lines: seq<bytes>)
    requires LfFree(lines)
    ensures LfFree(StuffAll(lines))
  {
    if |lines| > 0 {
      StuffLfFree(lines[1..]);
    }
  }

  /** The status text comes back except that a leading space behind +OK is lost. */
  lemma StatusBack(r: Response)
    ensures StatusText(StatusLine(r)) == r.text <==> !(r.ok && StartsWith(r.text, [SPACE]))
    ensures StartsWith(StatusLine(r), OK) <==> r.ok
    ensures StartsWith(StatusLine(r), ERR) <==> !r.ok
  {
    var line := StatusLine(r);
    assert OK[0] != ERR[0] && line[0] == if r.ok then OK[0] else ERR[0];
    assert r.ok ==> OK <= line;
    assert !r.ok ==> ERR <= line;
    if |r.text| == 0 {
      assert From(line, 4) == [] && r.text == [];
    } else if r.ok {
      assert From(line, 4) == r.text;
      assert StatusText(line) == if StartsWith(r.text, [SPACE]) then r.text[1..] else r.text;
    } else {
      assert From(line, 4) == [SPACE] + r.text;
      assert ([SPACE] + r.text)[1..] == r.text;
    }
  }

  /** The bytes after the status line start with neither status. */
  lemma StatusOfWhole(r: Response, b: bytes)
    requires StatusLine(r) <= b
    ensures (StartsWith(b, OK) <==> r.ok) && (StartsWith(b, OK) || StartsWith(b, ERR))
  {
    assert r.ok ==> OK <= b;
    assert !r.ok ==> ERR <= b && b[0] != OK[0];
  }

  lemma FirstOfSplit(b: bytes)
    ensures SplitLf(b)[0] <= b
  {
  }

  /**
   Printing and parsing restores every response of LF-free text and lines, including lines of dots only, if and
   only if its text does not begin with a space behind +OK.
   */
  lemma ResponseRoundTrip(r: Response)
    requires LF !in r.text && LfFree(r.lines) && (r.isMultiline || r.lines == [])
    ensures Parse(ToBytes(r)) == r <==> !(r.ok && StartsWith(r.text, [SPACE]))
  {
    hide Unix, SplitLf, DataLines, StuffAll, Emit, StatusText, StatusLine;
    var lines := ToLines(r);
    StatusLfFree(r);
    StuffLfFree(r.lines);
    assert LfFree(lines);
    UnixEmit(lines);
    SplitEmit(lines);
    var u := Emit(lines, [LF]);
    var b := u[..|u| - 1];
    FirstOfSplit(b);
    StatusOfWhole(r, b);
    StatusBack(r);
    StuffRoundTrip(r.lines);
    NoDataLines();
    assert lines[1..] == if r.isMultiline then StuffAll(r.lines) + [[DOT]] else [];
  }

  lemma NoDataLines()
    ensures DataLines([]) == []
  {
  }

  lemma StatusLfFree(r: Response)
    requires LF !in r.text
    ensures LF !in StatusLine(r)
  {
  }

  // ---------- the incremental parser ----------

  /** Responses and commands are kept as the raw bytes their objects are built from. */
  datatype State = State(commands: seq<bytes>, responses: seq<bytes>, buffer: bytes, inMultiline: bool,
                         mlBuffer: seq<bytes>, pending: Option<bytes>)

  const INITIAL := State([], [], [], false, [], None)

  predicate IsStatusLine(s: bytes) { StartsWith(s, OK) || StartsWith(s, ERR) }

  /** Another line of a multi-line response; a lone dot completes it. */
  function Collect(st: State, stripped: bytes): State {
    var ml := st.mlBuffer + [stripped];
    if stripped == [DOT] then
      st.(mlBuffer := ml, responses := st.responses + [Emit(ml, CRLF)], inMultiline := false)
    else st.(mlBuffer := ml, inMultiline := true)
  }

  function FlushPending(st: State): State {
    if st.pending.Some? then st.(responses := st.responses + [st.pending.value], pending := None) else st
  }

  /** The body of the loop of _process. */
  function OnLine(st: State, line: bytes): (r: State)
    ensures r.buffer == st.buffer
  {
    var s := RStrip(line);
    if st.inMultiline then Collect(st, s)
    else if IsStatusLine(s) then
      var flushed := FlushPending(st);
      if SPACE !in s || StartsWith(s, ERR) then flushed.(responses := flushed.responses + [line])
      else flushed.(pending := Some(line))
    else if st.pending.Some? then
      Collect(st.(mlBuffer := [RStrip(st.pending.value)], pending := None), s)
    else st.(commands := st.commands + [line])
  }

  function Step(st: State): (r: State)
    requires HasLine(st.buffer)
    ensures |r.buffer| < |st.buffer|
  {
    OnLine(st.(buffer := AfterLine(st.buffer)), FirstLine(st.buffer))
  }

  function Run(st: State): State
    decreases |st.buffer|
  {
    if HasLine(st.buffer) then Run(Step(st)) else st
  }

  /** The end of a feed flushes a pending status line when nothing is left that could belong to it. */
  predicate Flushes(st: State) {
    st.pending.Some? && !st.inMultiline && |st.buffer| == 0
  }

  function EndFeed(st: State): State {
    if Flushes(st) then FlushPending(st) else st
  }

  function Append(st: State, data: bytes): State {
    st.(buffer := st.buffer + data)
  }

  function Fed(st: State, data: bytes): State {
    EndFeed(Run(Append(st, data)))
  }

  // ---------- which cuts of the stream matter ----------

  lemma StepExtend(st: State, more: bytes)
    requires HasLine(st.buffer)
    ensures HasLine(Append(st, more).buffer) && Step(Append(st, more)) == Append(Step(st), more)
  {
    hide RStrip, IsStatusLine, Emit;
    FindCrlfExtend(st.buffer, more);
  }

  lemma {:induction false} RunAppend(st: State, more: bytes)
    ensures Run(Append(Run(st), more)) == Run(Append(st, more))
    decreases |st.buffer|
  {
    hide Step, HasLine;
    if HasLine(st.buffer) {
      StepExtend(st, more);
      RunAppend(Step(st), more);
    }
  }

  /** What every run keeps: a pending status line is one line, and nothing is pending inside a multi-line response. */
  ghost predicate Inv(st: State) {
    && (st.pending.Some? ==> !st.inMultiline && IsLine(st.pending.value))
    && (st.inMultiline ==> |st.mlBuffer| > 0)
  }

  lemma StepKeeps(st: State)
    requires Inv(st) && HasLine(st.buffer)
    ensures Inv(Step(st)) && st.responses <= Step(st).responses
  {
    hide RStrip, Emit, FirstLine, AfterLine;
    FirstLineIsLine(st.buffer);
  }

  lemma {:induction false} RunKeeps(st: State)
    requires Inv(st)
    ensures Inv(Run(st)) && st.responses <= Run(st).responses && !HasLine(Run(st).buffer)
    decreases |st.buffer|
  {
    hide Step, Inv;
    if HasLine(st.buffer) {
      StepKeeps(st);
      RunKeeps(Step(st));
    }
  }

  lemma FeedKeeps(st: State, data: bytes)
    requires Inv(st)
    ensures Inv(Fed(st, data)) && !HasLine(Fed(st, data).buffer)
  {
    hide Run;
    RunKeeps(Append(st, data));
  }

  /** The multi-line response starting with the given pending line can never be recorded as that line alone. */
  lemma MultiIsNotSingle(line: bytes, ml: seq<bytes>)
    requires IsLine(line) && |ml| >= 2 && ml[0] == RStrip(line)
    ensures Emit(ml, CRLF) != line
  {
    var s := RStrip(line);
    var rest := Emit(ml[1..], CRLF);
    var raw := Emit(ml, CRLF);
    assert raw == s + CRLF + rest && |rest| >= 2;
    assert raw[|s|] == CR && raw[|s| + 1] == LF && |s| < |raw| - 2;
  }

  /** Collecting, from m responses: the next response recorded is the multi-line one. */
  ghost predicate Collecting(st: State, m: nat, line: bytes) {
    || (|st.responses| == m && st.inMultiline && |st.mlBuffer| >= 1 && st.mlBuffer[0] == RStrip(line))
    || (|st.responses| > m && st.responses[m] != line)
  }

  lemma StepCollecting(st: State, m: nat, line: bytes)
    requires Inv(st) && HasLine(st.buffer) && IsLine(line) && Collecting(st, m, line)
    ensures Collecting(Step(st), m, line)
  {
    hide RStrip, Emit, FirstLine, AfterLine, IsLine, HasLine;
    if |st.responses| > m {
      StepKeeps(st);
      assert Step(st).responses[m] == st.responses[m];
    } else {
      MultiIsNotSingle(line, st.mlBuffer + [RStrip(FirstLine(st.buffer))]);
    }
  }

  lemma {:induction false} RunCollecting(st: State, m: nat, line: bytes)
    requires Inv(st) && IsLine(line) && Collecting(st, m, line)
    ensures Collecting(Run(st), m, line)
    decreases |st.buffer|
  {
    hide Step, Inv, Collecting, IsLine;
    if HasLine(st.buffer) {
      StepKeeps(st);
      StepCollecting(st, m, line);
      RunCollecting(Step(st), m, line);
    }
  }

  /** The continuation after a flush is harmless: nothing, or a stream whose first line is a status line. */
  predicate Harmless(b: bytes) {
    |b| == 0 || (HasLine(b) && IsStatusLine(RStrip(FirstLine(b))))
  }

  /** After a flush, a status line leads to the same state as without it. */
  lemma StatusAfterFlush(u: State, b: bytes)
    requires Inv(u) && Flushes(u) && HasLine(b) && IsStatusLine(RStrip(FirstLine(b)))
    ensures Run(Append(EndFeed(u), b)) == Run(Append(u, b))
  {
    hide RStrip, IsStatusLine, HasLine, FirstLine, AfterLine, Run;
    var flushed := EndFeed(u);
    assert [] + b == b;
    var x, y := Append(flushed, b), Append(u, b);
    assert x.buffer == b && y.buffer == b;
    assert Step(x) == Step(y);
    RunStep(x);
    RunStep(y);
  }

  lemma RunStep(st: State)
    ensures Run(st) == if HasLine(st.buffer) then Run(Step(st)) else st
  {
  }

  /** After a flush, a data line is taken for a command; without it, it belongs to the response. */
  lemma DataAfterFlush(u: State, b: bytes)
    requires Inv(u) && Flushes(u) && HasLine(b) && !IsStatusLine(RStrip(FirstLine(b)))
    ensures EndFeed(Run(Append(EndFeed(u), b))) != EndFeed(Run(Append(u, b)))
  {
    hide RStrip, IsStatusLine, HasLine, FirstLine, AfterLine, Run, Emit, IsLine;
    var flushed := EndFeed(u);
    var line, m := u.pending.value, |u.responses|;
    assert [] + b == b;
    var x, y := Append(flushed, b), Append(u, b);
    RunKeeps(x);
    assert Run(x).responses[m] == line;
    var s := RStrip(FirstLine(b));
    MultiIsNotSingle(line, [RStrip(line), s]);
    assert [RStrip(line)] + [s] == [RStrip(line), s];
    assert Collecting(Step(y), m, line);
    StepKeeps(y);
    RunCollecting(Step(y), m, line);
    RunStep(y);
    RunKeeps(Step(y));
    EndFeedGrows(Run(x), m);
    EndFeedGrows(Run(y), m);
  }

  lemma EndFeedGrows(st: State, m: nat)
    requires Inv(st)
    ensures |st.responses| > m ==> |EndFeed(st).responses| > m && EndFeed(st).responses[m] == st.responses[m]
    ensures st.inMultiline ==> EndFeed(st) == st
  {
  }

  lemma PartAfterFlush(u: State, b: bytes)
    requires Flushes(u) && !HasLine(b) && |b| > 0
    ensures EndFeed(Run(Append(EndFeed(u), b))) != EndFeed(Run(Append(u, b)))
  {
    assert [] + b == b;
  }

  /**
   Cutting the stream into two feeds changes the outcome exactly when the first feed flushes a pending status
   line and the second feed does not start with a complete status line.
   */
  lemma SplitExact(st: State, a: bytes, b: bytes)
    requires Inv(st)
    ensures Fed(Fed(st, a), b) == Fed(st, a + b) <==> !Flushes(Run(Append(st, a))) || Harmless(b)
  {
    hide Run, HasLine, IsStatusLine;
    var u := Run(Append(st, a));
    RunKeeps(Append(st, a));
    RunAppend(Append(st, a), b);
    assert st.buffer + a + b == st.buffer + (a + b);
    assert Fed(st, a + b) == EndFeed(Run(Append(u, b)));
    if Flushes(u) {
      assert Fed(Fed(st, a), b) == EndFeed(Run(Append(EndFeed(u), b)));
      if |b| == 0 {
        assert Append(u, b) == u && Append(EndFeed(u), b) == EndFeed(u);
        RunStep(u);
        RunStep(EndFeed(u));
      } else if !HasLine(b) {
        PartAfterFlush(u, b);
      } else if IsStatusLine(RStrip(FirstLine(b))) {
        StatusAfterFlush(u, b);
      } else {
        DataAfterFlush(u, b);
      }
    }
  }

  const STATUS: bytes := [43, 79, 75, 32, 120, 13, 10]

  const DATA: bytes := [97, 13, 10, 46, 13, 10]

  /** `+OK x` and two data lines: cut behind the status line, the response is another one. */
  lemma CutBehindStatus()
    ensures Fed(Fed(INITIAL, STATUS), DATA) != Fed(INITIAL, STATUS + DATA)
  {
    var u := Append(INITIAL, STATUS);
    StatusTaken(STATUS);
    DataIsNoStatus(DATA);
    assert [] + STATUS == STATUS;
    RunStep(u);
    RunStep(Step(u));
    SplitExact(INITIAL, STATUS, DATA);
    hide Run, Fed, Harmless;
  }

  lemma StatusTaken(b: bytes)
    requires b == STATUS
    ensures HasLine(b) && Step(INITIAL.(buffer := b)) == INITIAL.(pending := Some(b)) && !HasLine([])
  {
    var s: bytes := [43, 79, 75, 32, 120];
    StatusLineOf(b, s);
    assert s[3] == SPACE && s[..3] == OK && OK <= s && !StartsWith(s, ERR);
    hide RStrip, FirstLine, AfterLine, HasLine, StartsWith;
  }

  lemma StatusLineOf(b: bytes, s: bytes)
    requires b == STATUS && s == [43, 79, 75, 32, 120]
    ensures HasLine(b) && FirstLine(b) == b && AfterLine(b) == [] && RStrip(b) == s && !HasLine([])
    ensures StartsWith(s, OK)
  {
    assert b[5] == CR && b[6] == LF;
    assert FindCrlf(b) == 5;
    assert b[..6][..5] == s && RStrip(s) == s && RStrip(b[..6]) == s;
    assert s[..3] == OK;
  }

  lemma DataIsNoStatus(b: bytes)
    requires b == DATA
    ensures !Harmless(b)
  {
    assert b[1] == CR && b[2] == LF;
    if HasLine(b) {
      var s := RStrip(FirstLine(b));
      assert s <= b;
    }
  }

  /** A cut inside a line never matters. */
  lemma SplitInsideLine(st: State, a: bytes, b: bytes)
    requires Inv(st) && |Unfinished(st.buffer + a)| > 0
    ensures Fed(Fed(st, a), b) == Fed(st, a + b)
  {
    SplitExact(st, a, b);
    RunBuffer(Append(st, a));
  }

  lemma {:induction false} RunBuffer(st: State)
    ensures Run(st).buffer == Unfinished(st.buffer)
    decreases |st.buffer|
  {
    hide OnLine;
    if HasLine(st.buffer) {
      RunBuffer(Step(st));
    }
  }

  // ---------- the program's own form ----------

  class Parser {
    var commands: seq<bytes>
    var responses: seq<bytes>
    var buffer: bytes
    var inMultiline: bool
    var mlBuffer: seq<bytes>
    var pending: Option<bytes>

    constructor ()
      ensures Abstract() == INITIAL
    {
      commands, responses, buffer, inMultiline, mlBuffer, pending := [], [], [], false, [], None;
    }

    ghost function Abstract(): State
      reads this
    {
      State(commands, responses, buffer, inMultiline, mlBuffer, pending)
    }

    /** One line of _process, already cut from the buffer. */
    method TakeLine(line: bytes)
      modifies this
      ensures Abstract() == OnLine(old(Abstract()), line)
    {
      hide RStrip, Emit;
      var stripped := RStrip(line);
      if inMultiline {
        mlBuffer := mlBuffer + [stripped];
        if stripped == [DOT] {
          responses := responses + [Emit(mlBuffer, CRLF)];
          inMultiline := false;
        }
      } else if IsStatusLine(stripped) {
        if pending.Some? {
          responses := responses + [pending.value];
          pending := None;
        }
        if SPACE !in stripped || StartsWith(stripped, ERR) {
          responses := responses + [line];
        } else {
          pending := Some(line);
        }
      } else if pending.Some? {
        inMultiline := true;
        mlBuffer := [RStrip(pending.value)];
        pending := None;
        mlBuffer := mlBuffer + [stripped];
        if stripped == [DOT] {
          responses := responses + [Emit(mlBuffer, CRLF)];
          inMultiline := false;
        }
      } else {
        commands := commands + [line];
      }
    }

    /** feed. */
    method Feed(data: bytes)
      modifies this
      ensures Abstract() == Fed(old(Abstract()), data)
    {
      hide OnLine;
      buffer := buffer + data;
      ghost var goal := Run(Abstract());
      while FindCrlf(buffer) >= 0
        invariant goal == Run(Abstract())
        decreases |buffer|
      {
        var idx := FindCrlf(buffer) + 2;
        var line := buffer[..idx];
        buffer := buffer[idx..];
        TakeLine(line);
      }
      if pending.Some? && !inMultiline && |buffer| == 0 {
        responses := responses + [pending.value];
        pending := None;
      }
    }
  }

  /** _parse: the loop over the lines behind the status line ends at a lone dot. */
  method ParseResponse(raw: bytes) returns (r: Response)
    ensures r == Parse(raw)
  {
    hide Unix, SplitLf, StatusText, Unstuff;
    var b := Unix(raw);
    if |b| > 0 && b[|b| - 1] == LF {
      b := b[..|b| - 1];
    }
    if !StartsWith(b, OK) && !StartsWith(b, ERR) {
      return Response(false, b, [], false);
    }
    var all := SplitLf(b);
    var data := all[1..];
    var lines: seq<bytes> := [];
    var i := 0;
    assert data[0..] == data && [] + DataLines(data) == DataLines(data);
    while i < |data| && data[i] != [DOT]
      invariant 0 <= i <= |data| && lines + DataLines(data[i..]) == DataLines(data)
    {
      assert data[i..][1..] == data[i + 1..];
      var line, rest := Unstuff(data[i]), DataLines(data[i + 1..]);
      assert lines + ([line] + rest) == lines + [line] + rest;
      lines := lines + [line];
      i := i + 1;
    }
    assert DataLines(data[i..]) == [] && lines + [] == lines;
    return Response(StartsWith(b, OK), StatusText(all[0]), lines, |all| > 1);
  }

  /** _to_lines: every data line that begins with a dot gets another one. */
  method PrintLines(r: Response) returns (lines: seq<bytes>)
    ensures lines == ToLines(r)
  {
    lines := [StatusLine(r)];
    if r.isMultiline {
      var i := 0;
      assert r.lines[0..] == r.lines;
      while i < |r.lines|
        invariant 0 <= i <= |r.lines| && lines + StuffAll(r.lines[i..]) == [StatusLine(r)] + StuffAll(r.lines)
      {
        assert r.lines[i..][1..] == r.lines[i + 1..];
        lines := lines + [Stuff(r.lines[i])];
        i := i + 1;
      }
      assert StuffAll(r.lines[i..]) == [] && lines == [StatusLine(r)] + StuffAll(r.lines);
      assert lines + [[DOT]] == [StatusLine(r)] + (StuffAll(r.lines) + [[DOT]]);
      lines := lines + [[DOT]];
    }
  }
}
