/** The IMAP stream parser: CRLF lines, and literals announced by a final {n}. */
module Imap {
  import opened Bytes
  import opened Lines

  const OPEN: byte := 123
  const CLOSE: byte := 125
  const STAR: byte := 42
  const PLUS: byte := 43

  /** Commands and responses are kept as the raw bytes their objects are built from. */
  datatype State = State(commands: seq<bytes>, responses: seq<bytes>, buffer: bytes, litPending: nat,
                         pendingLine: Option<bytes>)

  const INITIAL := State([], [], [], 0, None)

  /** bytes.index for a byte that occurs. */
  function IndexOf(b: bytes, c: byte): (i: nat)
    requires c in b
    ensures i < |b| && b[i] == c && forall k :: 0 <= k < i ==> b[k] != c
  {
    if b[0] == c then 0 else 1 + IndexOf(b[1..], c)
  }

  /** Everything up to the first space. */
  function FirstWord(b: bytes): bytes {
    if SPACE in b then b[..IndexOf(b, SPACE)] else b
  }

  predicate IsStatus(word: bytes) {
    word == [79, 75] || word == [78, 79] || word == [66, 65, 68]
  }

  /** The test of _dispatch_line: untagged, continuation, or a tag followed by OK, NO or BAD. */
  predicate IsResponse(line: bytes) {
    var s := RStrip(line);
    || StartsWith(s, [STAR])
    || StartsWith(s, [PLUS])
    || (SPACE in s && IsStatus(FirstWord(s[IndexOf(s, SPACE) + 1..])))
  }

  /** _dispatch_line. */
  function Dispatch(st: State, line: bytes): State {
    if IsResponse(line) then st.(responses := st.responses + [line]) else st.(commands := st.commands + [line])
  }

  /** int() of a decimal digit string. */
  function Decimal(digits: bytes): (n: nat)
    requires forall i :: 0 <= i < |digits| ==> IsDigit(digits[i])
    decreases |digits|
  {
    if |digits| == 0 then 0
    else
      assert IsDigit(digits[|digits| - 1]);
      10 * Decimal(digits[..|digits| - 1]) + (digits[|digits| - 1] as int - 48)
  }

  /** The number between the first brace and the closing brace at the end of a line, if there is one. */
  function Announced(stripped: bytes): (n: Option<nat>) {
    if |stripped| == 0 || OPEN !in stripped || stripped[|stripped| - 1] != CLOSE then None
    else
      var s := stripped[IndexOf(stripped, OPEN) + 1..|stripped| - 1];
      if AllDigits(s) then Some(Decimal(s)) else None
  }

  /** The state after one line was cut off. */
  function OnLine(st: State, line: bytes): (r: State)
    ensures r.buffer == st.buffer
  {
    var stripped := RStrip(line);
    if |stripped| == 0 then st
    else
      match Announced(stripped)
      case Some(n) => st.(litPending := n, pendingLine := Some(line))
      case None => Dispatch(st, line)
  }

  predicate LiteralReady(st: State) {
    0 < st.litPending <= |st.buffer|
  }

  /** A complete literal: the announcing line and its data are dispatched together. */
  function OnLiteral(st: State): (r: State)
    requires LiteralReady(st)
    ensures |r.buffer| < |st.buffer| && r.litPending == 0
  {
    var rest := st.(buffer := st.buffer[st.litPending..], litPending := 0);
    if st.pendingLine.Some? then
      Dispatch(rest, st.pendingLine.value + st.buffer[..st.litPending]).(pendingLine := None)
    else rest
  }

  predicate CanStep(st: State) {
    LiteralReady(st) || (st.litPending == 0 && HasLine(st.buffer))
  }

  function Step(st: State): (r: State)
    requires CanStep(st)
    ensures |r.buffer| < |st.buffer|
  {
    if st.litPending > 0 then OnLiteral(st)
    else OnLine(st.(buffer := AfterLine(st.buffer)), FirstLine(st.buffer))
  }

  function Process(st: State): State
    decreases |st.buffer|
  {
    if CanStep(st) then Process(Step(st)) else st
  }

  function Append(st: State, data: bytes): State {
    st.(buffer := st.buffer + data)
  }

  function Fed(st: State, data: bytes): State {
    Process(Append(st, data))
  }

  function FeedAll(st: State, chunks: seq<bytes>): State
    decreases |chunks|
  {
    if |chunks| == 0 then st else FeedAll(Fed(st, chunks[0]), chunks[1..])
  }

  // ---------- chunking independence ----------

  lemma StepExtend(st: State, more: bytes)
    requires CanStep(st)
    ensures CanStep(Append(st, more)) && Step(Append(st, more)) == Append(Step(st), more)
  {
    hide IsResponse, Announced, RStrip;
    if st.litPending > 0 {
      var n := st.litPending;
      assert (st.buffer + more)[..n] == st.buffer[..n] && (st.buffer + more)[n..] == st.buffer[n..] + more;
    } else {
      FindCrlfExtend(st.buffer, more);
    }
  }

  /** Processing early changes nothing, whether the cut falls in a line, in its CRLF or in a literal. */
  lemma {:induction false} ProcessAppend(st: State, more: bytes)
    ensures Process(Append(Process(st), more)) == Process(Append(st, more))
    decreases |st.buffer|
  {
    hide Step, CanStep;
    if CanStep(st) {
      StepExtend(st, more);
      ProcessAppend(Step(st), more);
    }
  }

  lemma FeedTwice(st: State, a: bytes, b: bytes)
    ensures Fed(Fed(st, a), b) == Fed(st, a + b)
  {
    hide Process;
    assert st.buffer + a + b == st.buffer + (a + b);
    ProcessAppend(Append(st, a), b);
  }

  lemma {:induction false} ProcessIdle(st: State)
    ensures !CanStep(Process(st))
    decreases |st.buffer|
  {
    if CanStep(st) {
      ProcessIdle(Step(st));
    }
  }

  lemma {:induction false} FeedAllFrom(st: State, chunks: seq<bytes>)
    requires !CanStep(st)
    ensures FeedAll(st, chunks) == Fed(st, Flatten(chunks))
    decreases |chunks|
  {
    hide CanStep, Step;
    if |chunks| == 0 {
      assert Append(st, []) == st;
    } else {
      ProcessIdle(Append(st, chunks[0]));
      FeedAllFrom(Fed(st, chunks[0]), chunks[1..]);
      FeedTwice(st, chunks[0], Flatten(chunks[1..]));
    }
  }

  /** Commands, responses, buffer and pending literal depend on the bytes and not on how they were cut. */
  lemma ChunkingIndependent(x: seq<bytes>, y: seq<bytes>)
    requires Flatten(x) == Flatten(y)
    ensures FeedAll(INITIAL, x) == FeedAll(INITIAL, y)
  {
    FeedAllFrom(INITIAL, x);
    FeedAllFrom(INITIAL, y);
  }

  // ---------- literals ----------

  /** Whatever a literal contains, it is dispatched behind its line, and parsing resumes right after it. */
  lemma LiteralDelivered(st: State, line: bytes, data: bytes, rest: bytes)
    requires st.litPending == 0 && IsLine(line)
    requires |data| > 0 && Announced(RStrip(line)) == Some(|data|)
    ensures Process(st.(buffer := line + data + rest)) ==
            Process(Dispatch(st.(buffer := rest), line + data).(pendingLine := None))
  {
    hide Process, Step, CanStep, Dispatch, Announced, IsLine, RStrip;
    var s0 := st.(buffer := line + data + rest);
    var s1 := st.(buffer := data + rest, litPending := |data|, pendingLine := Some(line));
    LineSteps(st, line, data + rest, |data|);
    assert line + data + rest == line + (data + rest);
    LiteralSteps(st, line, data, rest);
    StepOnce(s0);
    StepOnce(s1);
  }

  lemma StepOnce(st: State)
    requires CanStep(st)
    ensures Process(st) == Process(Step(st))
  {
    hide CanStep, Step;
  }

  lemma LineSteps(st: State, line: bytes, rest: bytes, n: nat)
    requires st.litPending == 0 && IsLine(line) && Announced(RStrip(line)) == Some(n)
    ensures var s0 := st.(buffer := line + rest);
            CanStep(s0) && Step(s0) == st.(buffer := rest, litPending := n, pendingLine := Some(line))
  {
    LineFirst(line, rest);
    AnnouncedNonEmpty(line);
    hide FirstLine, AfterLine, HasLine, IsLine, Announced, RStrip;
  }

  lemma LiteralSteps(st: State, line: bytes, data: bytes, rest: bytes)
    requires st.litPending == 0 && |data| > 0
    ensures var s1 := st.(buffer := data + rest, litPending := |data|, pendingLine := Some(line));
            CanStep(s1) && Step(s1) == Dispatch(st.(buffer := rest), line + data).(pendingLine := None)
  {
    hide IsResponse;
    assert (data + rest)[..|data|] == data && (data + rest)[|data|..] == rest;
  }

  lemma AnnouncedNonEmpty(line: bytes)
    ensures Announced(RStrip(line)).Some? ==> |RStrip(line)| > 0
  {
  }

  function Forget(st: State): State {
    if st.litPending == 0 then st.(pendingLine := None) else st
  }

  /**
   A line that announces a literal of zero bytes is remembered but never dispatched: without a pending literal
   the remembered line has no influence on anything that follows.
   */
  lemma {:induction false} IdlePendingLineIsLost(st: State)
    requires st.litPending == 0
    ensures Forget(Process(st)) == Forget(Process(st.(pendingLine := None)))
    decreases |st.buffer|
  {
    hide IsResponse, Announced, RStrip, FirstLine, AfterLine;
    var clean := st.(pendingLine := None);
    if CanStep(st) {
      var a, b := Step(st), Step(clean);
      if a.litPending == 0 && b.litPending == 0 && a != b {
        assert a.(pendingLine := None) == b.(pendingLine := None);
        IdlePendingLineIsLost(a);
        IdlePendingLineIsLost(b);
      } else {
        assert a == b;
      }
    }
  }

  /** A line that announces no bytes at all leaves no trace in anything that follows. */
  lemma EmptyLiteralLost(st: State, line: bytes, rest: bytes)
    requires st.litPending == 0 && IsLine(line) && Announced(RStrip(line)) == Some(0)
    ensures Forget(Process(st.(buffer := line + rest))) == Forget(Process(st.(buffer := rest)))
  {
    LineSteps(st, line, rest, 0);
    IdlePendingLineIsLost(st.(buffer := rest, pendingLine := Some(line)));
    IdlePendingLineIsLost(st.(buffer := rest));
    hide Step, CanStep, Announced, IsLine, Forget;
  }

  /** A line and the bytes it announces are dispatched as one unit if and only if it announces any. */
  lemma LiteralExact(st: State, line: bytes, data: bytes, rest: bytes)
    requires st.litPending == 0 && IsLine(line) && Announced(RStrip(line)) == Some(|data|)
    ensures (Process(st.(buffer := line + data + rest)) ==
             Process(Dispatch(st.(buffer := rest), line + data).(pendingLine := None))) <==> |data| > 0
  {
    if |data| > 0 {
      LiteralDelivered(st, line, data, rest);
    } else {
      assert line + data + rest == line + rest && line + data == line;
      var lost, kept := st.(buffer := line + rest), Dispatch(st.(buffer := rest), line).(pendingLine := None);
      EmptyLiteralLost(st, line, rest);
      RunIs(st.(buffer := rest));
      RunIs(kept);
      hide Process, Announced, IsLine, IsResponse, Pieces, Taken;
      assert |kept.commands| + |kept.responses| == |st.commands| + |st.responses| + 1;
    }
  }

  const EMPTY_LITERAL: bytes := [97, 32, 123, 48, 125, 13, 10]

  /** The line `a {0}`: fed to a new parser, it becomes neither a command nor a response. */
  lemma EmptyLiteralExample()
    ensures Fed(INITIAL, EMPTY_LITERAL) == State([], [], [], 0, Some(EMPTY_LITERAL))
  {
    var line := EMPTY_LITERAL;
    ExampleLine(line);
    assert [] + line == line + [] == line;
    LineSteps(INITIAL, line, [], 0);
    hide Step, Announced, IsLine;
    ProcessStep(INITIAL.(buffer := line));
    assert Process(State([], [], [], 0, Some(line))) == State([], [], [], 0, Some(line));
  }

  lemma ExampleLine(line: bytes)
    requires line == EMPTY_LITERAL
    ensures IsLine(line) && Announced(RStrip(line)) == Some(0)
  {
    var s: bytes := [97, 32, 123, 48, 125];
    assert line[..6][..5] == s && RStrip(s) == s && RStrip(line[..6]) == s;
    assert s[1..][1..] == s[2..] && IndexOf(s[2..], OPEN) == 0 && IndexOf(s[1..], OPEN) == 1 && IndexOf(s, OPEN) == 2;
    var zero: bytes := [48];
    assert s[3..4] == zero && Decimal(zero[..0]) == 0 && Decimal(zero) == 0;
  }

  // ---------- conservation ----------

  /** A stretch of the stream that is dispatched as one unit, or dropped: a blank line or an empty announcement. */
  datatype Piece = Piece(raw: bytes, dispatched: bool)

  function Pieces(b: bytes): seq<Piece>
    decreases |b|
  {
    if !HasLine(b) then []
    else
      var line, rest := FirstLine(b), AfterLine(b);
      var s := RStrip(line);
      if |s| == 0 || Announced(s) == Some(0) then [Piece(line, false)] + Pieces(rest)
      else
        var n := if Announced(s).Some? then Announced(s).value else 0;
        if |rest| < n then [] else [Piece(line + rest[..n], true)] + Pieces(rest[n..])
  }

  /** The raw bytes of all pieces. */
  function Covered(ps: seq<Piece>): bytes {
    if |ps| == 0 then [] else ps[0].raw + Covered(ps[1..])
  }

  /** The dispatched units that are responses, or those that are commands. */
  function Taken(ps: seq<Piece>, response: bool): seq<bytes> {
    if |ps| == 0 then []
    else (if ps[0].dispatched && IsResponse(ps[0].raw) == response then [ps[0].raw] else []) + Taken(ps[1..], response)
  }

  /** Bytes received and not yet part of a piece: a line waiting for its literal, and the buffer. */
  function Waiting(st: State): bytes {
    (if st.litPending > 0 && st.pendingLine.Some? then st.pendingLine.value else []) + st.buffer
  }

  ghost predicate Accounts(st: State, r: State, ps: seq<Piece>, b: bytes) {
    && r.commands == st.commands + Taken(ps, false)
    && r.responses == st.responses + Taken(ps, true)
    && Covered(ps) + Waiting(r) == b
  }

  /** Processing a buffer dispatches its pieces in order and keeps the rest of it. */
  lemma {:induction false} RunIs(st: State)
    requires st.litPending == 0
    ensures Accounts(st, Process(st), Pieces(st.buffer), st.buffer)
    decreases |st.buffer|
  {
    hide IsResponse, Announced, RStrip, HasLine, FirstLine, AfterLine, Process, Accounts, Taken, Covered, OnLiteral;
    var b := st.buffer;
    ProcessStep(st);
    if !HasLine(b) {
      NothingTaken(st, st, b);
    } else {
      var line, rest := FirstLine(b), AfterLine(b);
      FirstLineIsLine(b);
      var s := RStrip(line);
      var next := OnLine(st.(buffer := rest), line);
      if |s| == 0 || Announced(s) == Some(0) {
        RunIs(next);
        OneDropped(st, next, Process(st), line, rest, Pieces(rest));
      } else if Announced(s).None? {
        RunIs(next);
        assert line + rest[..0] == line && rest[0..] == rest;
        OneTaken(st, next, Process(st), line, rest, Pieces(rest));
      } else {
        var n := Announced(s).value;
        ProcessStep(next);
        if |rest| < n {
          NothingTaken(st, next, b);
        } else {
          var data, after := rest[..n], rest[n..];
          assert rest == data + after;
          LiteralSteps(st, line, data, after);
          var done := Dispatch(st.(buffer := after), line + data).(pendingLine := None);
          LiteralIs(next, done);
          RunIs(done);
          assert b == line + data + after;
          OneTaken(st, done, Process(st), line + data, after, Pieces(after));
        }
      }
    }
  }

  lemma LiteralIs(next: State, done: State)
    requires LiteralReady(next) && Step(next) == done
    ensures OnLiteral(next) == done
  {
    hide OnLiteral;
  }

  lemma NothingTaken(st: State, r: State, b: bytes)
    requires r.commands == st.commands && r.responses == st.responses && Waiting(r) == b
    ensures Accounts(st, r, [], b)
  {
    assert st.commands + [] == st.commands && st.responses + [] == st.responses;
  }

  lemma OneDropped(st: State, next: State, r: State, line: bytes, rest: bytes, ps: seq<Piece>)
    requires next.commands == st.commands && next.responses == st.responses && Accounts(next, r, ps, rest)
    ensures Accounts(st, r, [Piece(line, false)] + ps, line + rest)
  {
    var all := [Piece(line, false)] + ps;
    assert all[1..] == ps;
    assert [] + Taken(ps, false) == Taken(ps, false) && [] + Taken(ps, true) == Taken(ps, true);
    assert line + Covered(ps) + Waiting(r) == line + (Covered(ps) + Waiting(r));
  }

  lemma OneTaken(st: State, next: State, r: State, unit: bytes, rest: bytes, ps: seq<Piece>)
    requires next.commands == Dispatch(st, unit).commands && next.responses == Dispatch(st, unit).responses
    requires Accounts(next, r, ps, rest)
    ensures Accounts(st, r, [Piece(unit, true)] + ps, unit + rest)
  {
    hide IsResponse, Waiting, Taken, Covered;
    TakenCons(unit, ps);
    var c, d := Taken(ps, false), Taken(ps, true);
    assert st.commands + [unit] + c == st.commands + ([unit] + c);
    assert st.responses + [unit] + d == st.responses + ([unit] + d);
    assert unit + Covered(ps) + Waiting(r) == unit + (Covered(ps) + Waiting(r));
  }

  lemma TakenCons(unit: bytes, ps: seq<Piece>)
    ensures var all := [Piece(unit, true)] + ps;
            && Covered(all) == unit + Covered(ps)
            && Taken(all, true) == (if IsResponse(unit) then [unit] + Taken(ps, true) else Taken(ps, true))
            && Taken(all, false) == (if IsResponse(unit) then Taken(ps, false) else [unit] + Taken(ps, false))
  {
    hide IsResponse;
    var all := [Piece(unit, true)] + ps;
    assert all[1..] == ps;
    assert [] + Taken(ps, false) == Taken(ps, false) && [] + Taken(ps, true) == Taken(ps, true);
  }

  /**
   Over every run, commands and responses are the units of the stream that are not responses and that are, each in
   order; the units, the dropped lines between them and the bytes still waiting are the stream itself.
   */
  lemma Conservation(chunks: seq<bytes>)
    ensures Accounts(INITIAL, FeedAll(INITIAL, chunks), Pieces(Flatten(chunks)), Flatten(chunks))
  {
    FeedAllFrom(INITIAL, chunks);
    var stream := Flatten(chunks);
    assert [] + stream == stream;
    RunIs(INITIAL.(buffer := stream));
    hide Process, Pieces, Taken, Covered, FeedAll;
  }

  // ---------- the program's own form ----------

  class StreamParser {
    var commands: seq<bytes>
    var responses: seq<bytes>
    var buffer: bytes
    var litPending: nat
    var pendingLine: Option<bytes>

    constructor ()
      ensures Abstract() == INITIAL
    {
      commands, responses, buffer, litPending, pendingLine := [], [], [], 0, None;
    }

    ghost function Abstract(): State
      reads this
    {
      State(commands, responses, buffer, litPending, pendingLine)
    }

    method DispatchLine(line: bytes)
      modifies this`commands, this`responses
      ensures Abstract() == Dispatch(old(Abstract()), line)
    {
      hide RStrip, FirstWord, IndexOf, IsStatus, StartsWith;
      var stripped := RStrip(line);
      if StartsWith(stripped, [STAR]) || StartsWith(stripped, [PLUS]) ||
         (SPACE in stripped && IsStatus(FirstWord(stripped[IndexOf(stripped, SPACE) + 1..]))) {
        responses := responses + [line];
      } else {
        commands := commands + [line];
      }
    }

    /** A complete literal is dispatched behind the line that announced it. */
    method TakeLiteral()
      requires LiteralReady(Abstract())
      modifies this
      ensures Abstract() == OnLiteral(old(Abstract()))
    {
      hide Dispatch;
      var literal := buffer[..litPending];
      buffer := buffer[litPending..];
      litPending := 0;
      if pendingLine.Some? {
        DispatchLine(pendingLine.value + literal);
        pendingLine := None;
      }
    }

    /** One line, already cut from the buffer: ignored, held back with its announcement, or dispatched. */
    method TakeLine(line: bytes)
      modifies this
      ensures Abstract() == OnLine(old(Abstract()), line)
    {
      hide Dispatch, Announced, RStrip;
      var stripped := RStrip(line);
      if |stripped| == 0 {
        return;
      }
      var announced := Announced(stripped);
      if announced.Some? {
        litPending := announced.value;
        pendingLine := Some(line);
        return;
      }
      DispatchLine(line);
    }

    /** feed: append, then alternate between finished literals and finished lines. */
    method Feed(data: bytes)
      modifies this
      ensures Abstract() == Fed(old(Abstract()), data)
    {
      hide Process, Step, OnLine, OnLiteral, FindCrlf, FirstLine, AfterLine;
      buffer := buffer + data;
      ghost var goal := Process(Abstract());
      while true
        invariant goal == Process(Abstract())
        decreases |buffer|
      {
        ProcessStep(Abstract());
        if litPending > 0 {
          if |buffer| < litPending {
            break;
          }
          TakeLiteral();
          ProcessStep(Abstract());
        }
        if !HasLine(buffer) {
          break;
        }
        var line := FirstLine(buffer);
        buffer := AfterLine(buffer);
        TakeLine(line);
      }
    }
  }

  /** One unfolding of the loop, by what the state allows. */
  lemma ProcessStep(st: State)
    ensures LiteralReady(st) ==> Process(st) == Process(OnLiteral(st))
    ensures st.litPending == 0 && HasLine(st.buffer) ==>
              Process(st) == Process(OnLine(st.(buffer := AfterLine(st.buffer)), FirstLine(st.buffer)))
    ensures !CanStep(st) ==> Process(st) == st
  {
    hide OnLine, OnLiteral, HasLine, FirstLine, AfterLine;
  }
}
