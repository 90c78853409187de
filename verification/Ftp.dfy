/** The FTP control channel parser: an incremental machine over CRLF lines. */
module Ftp {
  import opened Bytes
  import opened Lines

  const DASH: byte := 45

  /** Commands and replies are kept as the raw lines their objects are built from. */
  datatype State = State(commands: seq<bytes>, replies: seq<seq<bytes>>, pending: seq<bytes>, buffer: bytes)

  const INITIAL := State([], [], [], [])

  predicate IsBlank(line: bytes) { |RStrip(line)| == 0 }

  /** A line whose first three characters are digits belongs to a reply. */
  predicate IsReplyLine(line: bytes) {
    var s := RStrip(line);
    |s| >= 3 && AllDigits(s[..3])
  }

  predicate IsCommandLine(line: bytes) { !IsBlank(line) && !IsReplyLine(line) }

  /** A reply goes on only after a code followed by a dash. */
  predicate Continues(line: bytes) {
    var s := RStrip(line);
    |s| > 3 && s[3] == DASH
  }

  /** _dispatch_line. */
  function Dispatch(st: State, line: bytes): (r: State)
    ensures r.buffer == st.buffer
  {
    if IsBlank(line) then st
    else if IsReplyLine(line) then
      if Continues(line) then st.(pending := st.pending + [line])
      else st.(replies := st.replies + [st.pending + [line]], pending := [])
    else st.(commands := st.commands + [line])
  }

  /** One turn of the loop of _process_buffer. */
  function Step(st: State): (r: State)
    requires HasLine(st.buffer)
    ensures |r.buffer| < |st.buffer|
  {
    Dispatch(st.(buffer := AfterLine(st.buffer)), FirstLine(st.buffer))
  }

  function Process(st: State): State
    decreases |st.buffer|
  {
    if HasLine(st.buffer) then Process(Step(st)) else st
  }

  function Append(st: State, data: bytes): State {
    st.(buffer := st.buffer + data)
  }

  function Fed(st: State, data: bytes): State {
    Process(Append(st, data))
  }

  function FeedAll(st: State, chunks: seq<bytes>): State
    decreases |chunks|
  {
    if |chunks| == 0 then st else FeedAll(Fed(st, chunks[0]), chunks[1..])
  }

  // ---------- chunking independence ----------

  lemma StepExtend(st: State, more: bytes)
    requires HasLine(st.buffer)
    ensures HasLine(Append(st, more).buffer) && Step(Append(st, more)) == Append(Step(st), more)
  {
    FindCrlfExtend(st.buffer, more);
  }

  /** Processing early changes nothing. */
  lemma {:induction false} ProcessAppend(st: State, more: bytes)
    ensures Process(Append(Process(st), more)) == Process(Append(st, more))
    decreases |st.buffer|
  {
    hide Step, HasLine;
    if HasLine(st.buffer) {
      StepExtend(st, more);
      ProcessAppend(Step(st), more);
    }
  }

  /** Two feeds are one feed, from every state. */
  lemma FeedTwice(st: State, a: bytes, b: bytes)
    ensures Fed(Fed(st, a), b) == Fed(st, a + b)
  {
    hide Process;
    assert st.buffer + a + b == st.buffer + (a + b);
    ProcessAppend(Append(st, a), b);
  }

  lemma {:induction false} FeedAllFrom(st: State, chunks: seq<bytes>)
    requires !HasLine(st.buffer)
    ensures FeedAll(st, chunks) == Fed(st, Flatten(chunks))
    decreases |chunks|
  {
    if |chunks| == 0 {
      assert Append(st, []) == st;
    } else {
      ProcessIdle(Append(st, chunks[0]));
      FeedAllFrom(Fed(st, chunks[0]), chunks[1..]);
      FeedTwice(st, chunks[0], Flatten(chunks[1..]));
    }
  }

  lemma {:induction false} ProcessIdle(st: State)
    ensures !HasLine(Process(st).buffer)
    decreases |st.buffer|
  {
    if HasLine(st.buffer) {
      ProcessIdle(Step(st));
    }
  }

  /** The final state depends on the bytes received and not on how they were cut. */
  lemma ChunkingIndependent(x: seq<bytes>, y: seq<bytes>)
    requires Flatten(x) == Flatten(y)
    ensures FeedAll(INITIAL, x) == FeedAll(INITIAL, y)
  {
    FeedAllFrom(INITIAL, x);
    FeedAllFrom(INITIAL, y);
  }

  // ---------- conservation ----------

  function CommandLines(lines: seq<bytes>): seq<bytes> {
    if |lines| == 0 then []
    else (if IsCommandLine(lines[0]) then [lines[0]] else []) + CommandLines(lines[1..])
  }

  function ReplyLines(lines: seq<bytes>): seq<bytes> {
    if |lines| == 0 then []
    else (if !IsBlank(lines[0]) && IsReplyLine(lines[0]) then [lines[0]] else []) + ReplyLines(lines[1..])
  }

  function Concat(replies: seq<seq<bytes>>): seq<bytes> {
    if |replies| == 0 then [] else replies[0] + Concat(replies[1..])
  }

  lemma {:induction false} ConcatLast(replies: seq<seq<bytes>>, last: seq<bytes>)
    ensures Concat(replies + [last]) == Concat(replies) + last
  {
    if |replies| == 0 {
      assert replies + [last] == [last];
      assert [last][1..] == [];
    } else {
      assert (replies + [last])[1..] == replies[1..] + [last];
      ConcatLast(replies[1..], last);
    }
  }

  /** A complete reply: continuation lines and one line that ends it. */
  ghost predicate Complete(reply: seq<bytes>) {
    |reply| > 0 && !Continues(reply[|reply| - 1]) &&
    forall i :: 0 <= i < |reply| - 1 ==> Continues(reply[i])
  }

  ghost predicate Inv(st: State) {
    && (forall i :: 0 <= i < |st.replies| ==> Complete(st.replies[i]))
    && (forall i :: 0 <= i < |st.pending| ==> Continues(st.pending[i]))
  }

  function AllReplyLines(st: State): seq<bytes> {
    Concat(st.replies) + st.pending
  }

  lemma DispatchKeeps(st: State, line: bytes)
    requires Inv(st)
    ensures var r := Dispatch(st, line);
            && Inv(r)
            && r.commands == st.commands + (if IsCommandLine(line) then [line] else [])
            && AllReplyLines(r) == AllReplyLines(st) + (if !IsBlank(line) && IsReplyLine(line) then [line] else [])
  {
    hide Continues, IsBlank, IsReplyLine;
    if !IsBlank(line) && IsReplyLine(line) && !Continues(line) {
      ConcatLast(st.replies, st.pending + [line]);
    }
  }

  lemma {:induction false} ProcessConserves(st: State)
    requires Inv(st)
    ensures var r := Process(st);
            && Inv(r) && r.buffer == Unfinished(st.buffer)
            && r.commands == st.commands + CommandLines(CompleteLines(st.buffer))
            && AllReplyLines(r) == AllReplyLines(st) + ReplyLines(CompleteLines(st.buffer))
    decreases |st.buffer|
  {
    hide Dispatch, Inv, AllReplyLines, IsBlank, IsReplyLine, IsCommandLine, HasLine, FirstLine, AfterLine, CommandLines,
      ReplyLines;
    NoLines();
    if HasLine(st.buffer) {
      var line, rest := FirstLine(st.buffer), AfterLine(st.buffer);
      var cut := st.(buffer := rest);
      CutKeeps(st, rest);
      DispatchKeeps(cut, line);
      ProcessConserves(Step(st));
      ConsLines(line, CompleteLines(rest));
    }
  }

  lemma NoLines()
    ensures CommandLines([]) == [] && ReplyLines([]) == []
  {
  }

  lemma ConsLines(line: bytes, lines: seq<bytes>)
    ensures CommandLines([line] + lines) == (if IsCommandLine(line) then [line] else []) + CommandLines(lines)
    ensures ReplyLines([line] + lines) ==
            (if !IsBlank(line) && IsReplyLine(line) then [line] else []) + ReplyLines(lines)
  {
    assert ([line] + lines)[1..] == lines;
  }

  lemma CutKeeps(st: State, rest: bytes)
    requires Inv(st)
    ensures Inv(st.(buffer := rest)) && AllReplyLines(st.(buffer := rest)) == AllReplyLines(st)
  {
  }

  /**
   Over every run, the bytes fed are the complete lines plus the remaining buffer, and the non-blank lines are,
   in order, the commands on one hand and the lines of complete and pending replies on the other.
   */
  lemma Conservation(chunks: seq<bytes>)
    ensures var st := FeedAll(INITIAL, chunks);
            var lines := CompleteLines(Flatten(chunks));
            && Inv(st)
            && Flatten(lines) + st.buffer == Flatten(chunks)
            && st.commands == CommandLines(lines)
            && AllReplyLines(st) == ReplyLines(lines)
  {
    FeedAllFrom(INITIAL, chunks);
    var all := Flatten(chunks);
    assert Append(INITIAL, all) == State([], [], [], all);
    ProcessConserves(Append(INITIAL, all));
    LinesCover(all);
  }

  // ---------- the program's own form ----------

  class ControlParser {
    var commands: seq<bytes>
    var replies: seq<seq<bytes>>
    var buffer: bytes
    var pendingReplyLines: seq<bytes>

    constructor ()
      ensures Abstract() == INITIAL
    {
      commands, replies, buffer, pendingReplyLines := [], [], [], [];
    }

    ghost function Abstract(): State
      reads this
    {
      State(commands, replies, pendingReplyLines, buffer)
    }

    method DispatchLine(line: bytes)
      modifies this
      ensures Abstract() == Dispatch(old(Abstract()), line)
    {
      var stripped := RStrip(line);
      if |stripped| == 0 {
        return;
      }
      if |stripped| >= 3 && AllDigits(stripped[..3]) {
        pendingReplyLines := pendingReplyLines + [line];
        if |stripped| > 3 && stripped[3] == SPACE {
          replies := replies + [pendingReplyLines];
          pendingReplyLines := [];
        } else if |stripped| == 3 || (|stripped| > 3 && stripped[3] != DASH) {
          replies := replies + [pendingReplyLines];
          pendingReplyLines := [];
        }
      } else {
        commands := commands + [line];
      }
    }

    /** feed: append and consume every complete line. */
    method Feed(data: bytes)
      modifies this
      ensures Abstract() == Fed(old(Abstract()), data)
    {
      hide Dispatch;
      buffer := buffer + data;
      while FindCrlf(buffer) >= 0
        invariant Fed(old(Abstract()), data) == Process(Abstract())
        decreases |buffer|
      {
        var idx := FindCrlf(buffer) + 2;
        var line := buffer[..idx];
        buffer := buffer[idx..];
        DispatchLine(line);
      }
    }
  }
}
