/** CRLF-terminated lines in a growing buffer, as the FTP, IMAP and POP3 parsers cut them. */
module Lines {
  import opened Bytes

  const CR: byte := 13
  const LF: byte := 10
  const SPACE: byte := 32

  const CRLF: bytes := [CR, LF]

  /** The index of the first CRLF, or -1. */
  function FindCrlf(b: bytes): (i: int)
    ensures -1 <= i && (i >= 0 ==> i + 2 <= |b| && b[i] == CR && b[i + 1] == LF)
    ensures forall k :: 0 <= k < |b| - 1 && (i < 0 || k < i) ==> !(b[k] == CR && b[k + 1] == LF)
    decreases |b|
  {
    if |b| < 2 then -1
    else if b[0] == CR && b[1] == LF then 0
    else
      var i := FindCrlf(b[1..]);
      assert forall k :: 1 <= k < |b| - 1 ==> b[k] == b[1..][k - 1] && b[k + 1] == b[1..][k];
      if i < 0 then -1 else i + 1
  }

  predicate HasLine(b: bytes) {
    FindCrlf(b) >= 0
  }

  /** The first line with its CRLF. */
  function FirstLine(b: bytes): (line: bytes)
    requires HasLine(b)
    ensures |line| >= 2
  {
    b[..FindCrlf(b) + 2]
  }

  function AfterLine(b: bytes): (rest: bytes)
    requires HasLine(b)
    ensures |rest| < |b|
  {
    b[FindCrlf(b) + 2..]
  }

  /** A line that is cut stays the same line whatever arrives later. */
  lemma FindCrlfExtend(b: bytes, more: bytes)
    requires HasLine(b)
    ensures HasLine(b + more) && FirstLine(b + more) == FirstLine(b) && AfterLine(b + more) == AfterLine(b) + more
  {
    var i, j := FindCrlf(b), FindCrlf(b + more);
    assert (b + more)[i] == CR && (b + more)[i + 1] == LF;
    assert forall k :: 0 <= k < |b| ==> (b + more)[k] == b[k];
  }

  /** A byte string that is exactly one line. */
  predicate IsLine(line: bytes) {
    |line| >= 2 && FindCrlf(line) == |line| - 2
  }

  lemma LineFirst(line: bytes, rest: bytes)
    requires IsLine(line)
    ensures HasLine(line + rest) && FirstLine(line + rest) == line && AfterLine(line + rest) == rest
  {
    FindCrlfExtend(line, rest);
  }

  lemma FirstLineIsLine(b: bytes)
    requires HasLine(b)
    ensures IsLine(FirstLine(b)) && b == FirstLine(b) + AfterLine(b)
  {
    var i, line := FindCrlf(b), FirstLine(b);
    var j := FindCrlf(line);
    assert line[i] == CR && line[i + 1] == LF;
    assert 0 <= j <= i;
    assert b[j] == line[j] && b[j + 1] == line[j + 1];
  }

  /** rstrip(b'\r\n'). */
  function RStrip(b: bytes): (r: bytes)
    ensures r <= b
    decreases |b|
  {
    if |b| > 0 && (b[|b| - 1] == CR || b[|b| - 1] == LF) then RStrip(b[..|b| - 1]) else b
  }

  predicate StartsWith(b: bytes, p: bytes) {
    p <= b
  }

  predicate IsDigit(c: byte) {
    48 <= c <= 57
  }

  /** bytes.isdigit(). */
  predicate AllDigits(b: bytes) {
    |b| > 0 && forall i :: 0 <= i < |b| ==> IsDigit(b[i])
  }

  /** The complete lines of a stream and what follows the last of them. */
  function CompleteLines(b: bytes): seq<bytes>
    decreases |b|
  {
    if HasLine(b) then [FirstLine(b)] + CompleteLines(AfterLine(b)) else []
  }

  function Unfinished(b: bytes): bytes
    decreases |b|
  {
    if HasLine(b) then Unfinished(AfterLine(b)) else b
  }

  lemma {:induction false} LinesCover(b: bytes)
    ensures Flatten(CompleteLines(b)) + Unfinished(b) == b && !HasLine(Unfinished(b))
    decreases |b|
  {
    hide HasLine, FirstLine, AfterLine, IsLine;
    if HasLine(b) {
      var line, rest := FirstLine(b), AfterLine(b);
      var lines, end := CompleteLines(rest), Unfinished(rest);
      LinesCover(rest);
      FirstLineIsLine(b);
      assert ([line] + lines)[1..] == lines;
      assert line + Flatten(lines) + end == line + (Flatten(lines) + end);
    }
  }
}
