/** Splitting the output of a child process into log lines, chunk by chunk. */
module LogLines {
  import opened Text

  /** The line without the carriage return of a CRLF that followed it. */
  function StripReturn(line: string): string {
    if line != [] && line[|line| - 1] == '\r' then line[..|line| - 1] else line
  }

  /** Every piece but the last was followed by a line feed. */
  function StripAll(pieces: seq<string>): (r: seq<string>)
    ensures |r| == |pieces|
  {
    if |pieces| <= 1 then pieces else [StripReturn(pieces[0])] + StripAll(pieces[1..])
  }

  /** `text.split(/\r?\n/)`. */
  function SplitLines(text: string): (r: seq<string>)
    ensures r != []
  {
    StripAll(Split(text, '\n'))
  }

  function Concat(chunks: seq<string>): string {
    if chunks == [] then [] else Concat(chunks[..|chunks| - 1]) + chunks[|chunks| - 1]
  }

  // ---------- What splitting into lines means ----------

  /** The text made of the lines, each but the last followed by its line end. */
  function Assemble(lines: seq<string>, ends: seq<string>): string
    requires |lines| == |ends| + 1
  {
    if ends == [] then lines[0] else lines[0] + ends[0] + Assemble(lines[1..], ends[1..])
  }

  /** Lines without line feeds, ended by LF or CRLF, where a return before a line feed belongs to the line end. */
  ghost predicate AreLines(lines: seq<string>, ends: seq<string>) {
    && |lines| == |ends| + 1
    && (forall i :: 0 <= i < |lines| ==> '\n' !in lines[i])
    && (forall i :: 0 <= i < |ends| ==> ends[i] == "\n" || ends[i] == "\r\n")
    && (forall i :: 0 <= i < |ends| && ends[i] == "\n" ==> lines[i] == StripReturn(lines[i]))
  }

  lemma SplitAtLineFeed(line: string, rest: string)
    requires '\n' !in line
    ensures Split(line + ['\n'] + rest, '\n') == [line] + Split(rest, '\n')
  {
    SplitPrefixed(line, ['\n'] + rest, '\n');
    assert line + ['\n'] + rest == line + (['\n'] + rest);
    assert (['\n'] + rest)[1..] == rest;
    assert line + [] == line;
  }

  /** There is only one way to take a text apart into lines, and splitting finds it. */
  lemma {:induction false} SplitFindsTheLines(lines: seq<string>, ends: seq<string>)
    requires AreLines(lines, ends)
    ensures SplitLines(Assemble(lines, ends)) == lines
    decreases |lines|
  {
    if ends == [] {
      SplitPrefixed(lines[0], [], '\n');
      assert lines[0] + [] == lines[0];
    } else {
      var rest := Assemble(lines[1..], ends[1..]);
      SplitFindsTheLines(lines[1..], ends[1..]);
      var piece := if ends[0] == "\n" then lines[0] else lines[0] + ['\r'];
      assert lines[0] + ends[0] + rest == piece + ['\n'] + rest;
      SplitAtLineFeed(piece, rest);
      assert StripReturn(piece) == lines[0];
      assert ([piece] + Split(rest, '\n'))[1..] == Split(rest, '\n');
    }
  }

  lemma {:induction false} PiecesHaveLines(pieces: seq<string>) returns (ends: seq<string>)
    requires pieces != [] && forall piece :: piece in pieces ==> '\n' !in piece
    ensures AreLines(StripAll(pieces), ends)
    ensures Assemble(StripAll(pieces), ends) == Join(pieces, '\n')
  {
    assert pieces[0] in pieces;
    if |pieces| == 1 {
      ends := [];
    } else {
      var later := PiecesHaveLines(pieces[1..]);
      var first := StripReturn(pieces[0]);
      ends := [if first == pieces[0] then "\n" else "\r\n"] + later;
      var lines := StripAll(pieces);
      assert lines[1..] == StripAll(pieces[1..]) && ends[1..] == later;
      assert first + ends[0] == pieces[0] + ['\n'];
      assert forall i :: 1 <= i < |lines| ==> lines[i] == lines[1..][i - 1];
    }
  }

  /** Every text can be taken apart that way, so that its lines and line ends make up the whole text. */
  lemma EveryTextHasLines(text: string) returns (ends: seq<string>)
    ensures AreLines(SplitLines(text), ends) && Assemble(SplitLines(text), ends) == text
  {
    ends := PiecesHaveLines(Split(text, '\n'));
    JoinAfterSplit(text, '\n');
  }

  // ---------- Chunks ----------

  lemma {:induction false} FirstLineFeed(text: string) returns (k: nat)
    requires '\n' in text
    ensures k < |text| && text[k] == '\n' && '\n' !in text[..k]
  {
    if text[0] == '\n' {
      k := 0;
    } else {
      assert text == [text[0]] + text[1..];
      var later := FirstLineFeed(text[1..]);
      k := later + 1;
      assert text[..k] == [text[0]] + text[1..][..later];
    }
  }

  lemma Regroup(line: string, rest: string, b: string)
    ensures (line + ['\n'] + rest) + b == line + ['\n'] + (rest + b)
  {
  }

  /** What follows a text only touches its unfinished last piece. */
  ghost predicate Continued(pieces: seq<string>, b: string, all: seq<string>) {
    pieces != [] && all == pieces[..|pieces| - 1] + Split(pieces[|pieces| - 1] + b, '\n')
  }

  lemma ContinuedOneMore(line: string, pieces: seq<string>, b: string, all: seq<string>)
    requires Continued(pieces, b, all)
    ensures Continued([line] + pieces, b, [line] + all)
  {
  }

  lemma {:induction false} SplitContinues(a: string, b: string)
    ensures Continued(Split(a, '\n'), b, Split(a + b, '\n'))
  {
    if '\n' !in a {
      SplitPrefixed(a, [], '\n');
      assert a + [] == a;
    } else {
      var k := FirstLineFeed(a);
      var line, rest := a[..k], a[k + 1..];
      assert a == line + ['\n'] + rest;
      Regroup(line, rest, b);
      SplitAtLineFeed(line, rest);
      SplitAtLineFeed(line, rest + b);
      SplitContinues(rest, b);
      ContinuedOneMore(line, Split(rest, '\n'), b, Split(rest + b, '\n'));
    }
  }

  lemma {:induction false} StripConcat(front: seq<string>, last: string, more: seq<string>)
    requires more != []
    ensures StripAll(front + more) == StripAll(front + [last])[..|front|] + StripAll(more)
  {
    if front == [] {
      assert front + more == more;
    } else {
      StripConcat(front[1..], last, more);
      assert (front + more)[1..] == front[1..] + more;
      assert (front + [last])[1..] == front[1..] + [last];
    }
  }

  /** A return and its line feed may fall into different chunks: the remainder carries the return over. */
  lemma LinesContinue(a: string, b: string)
    ensures var lines := SplitLines(a);
            SplitLines(a + b) == lines[..|lines| - 1] + SplitLines(lines[|lines| - 1] + b)
  {
    var pieces := Split(a, '\n');
    var front, last := pieces[..|pieces| - 1], pieces[|pieces| - 1];
    assert pieces == front + [last];
    SplitContinues(a, b);
    StripConcat(front, last, Split(last + b, '\n'));
    StripLast(pieces);
  }

  lemma {:induction false} StripLast(pieces: seq<string>)
    requires pieces != []
    ensures StripAll(pieces)[|pieces| - 1] == pieces[|pieces| - 1]
  {
    if |pieces| > 1 { StripLast(pieces[1..]); }
  }

  /** The buffer of one stream of a child process, and the lines passed on so far. */
  class LineForwarder {
    var buffered: string
    var passed: seq<string>

    constructor ()
      ensures buffered == "" && passed == []
    {
      buffered, passed := "", [];
    }

    method Data(chunk: string)
      modifies this
      ensures var lines := SplitLines(old(buffered) + chunk);
              passed + [buffered] == old(passed) + lines
    {
      buffered := buffered + chunk;
      var lines := SplitLines(buffered);
      buffered := lines[|lines| - 1];
      lines := lines[..|lines| - 1];
      passed := passed + lines;
    }

    method End()
      modifies this
      ensures passed == old(passed) + [old(buffered)]
    {
      passed := passed + [buffered];
    }
  }

  /** However a stream is cut into chunks, the lines passed on are those of the whole text. */
  method Forward(chunks: seq<string>) returns (passed: seq<string>)
    ensures passed == SplitLines(Concat(chunks))
  {
    var stream := new LineForwarder();
    for i := 0 to |chunks|
      invariant stream.passed + [stream.buffered] == SplitLines(Concat(chunks[..i]))
    {
      assert chunks[..i + 1][..i] == chunks[..i];
      LinesContinue(Concat(chunks[..i]), chunks[i]);
      stream.Data(chunks[i]);
    }
    assert chunks[..|chunks|] == chunks;
    stream.End();
    passed := stream.passed;
  }
}
