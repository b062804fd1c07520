/** KeepLastStream of compiler_logging.py: incremental tracking of lines, and the context of an error. */
module LogStream {
  import opened Options

  // ----- Lines of a text -----

  /** str.split on newlines. */
  function Lines(s: string): (r: seq<string>)
    ensures |r| >= 1
  {
    if s == "" then [""]
    else
      var r, c := Lines(s[..|s| - 1]), s[|s| - 1];
      if c == '\n' then r + [""] else r[|r| - 1 := r[|r| - 1] + [c]]
  }

  function Last<T>(xs: seq<T>): T
    requires xs != []
  {
    xs[|xs| - 1]
  }

  /** The lines of a + b: the last line of a goes on with the first one of b. */
  function JoinLines(a: seq<string>, b: seq<string>): seq<string>
    requires a != [] && b != []
  {
    a[..|a| - 1] + [Last(a) + b[0]] + b[1..]
  }

  lemma {:induction false} LinesConcat(a: string, b: string)
    ensures Lines(a + b) == JoinLines(Lines(a), Lines(b))
  {
    if b == "" {
      assert a + b == a && Last(Lines(a)) + "" == Last(Lines(a));
    } else {
      var init, c := b[..|b| - 1], b[|b| - 1];
      assert (a + b)[..|a + b| - 1] == a + init;
      LinesConcat(a, init);
      if c != '\n' && |Lines(init)| == 1 {
        assert Last(Lines(a)) + Lines(b)[0] == (Last(Lines(a)) + Lines(init)[0]) + [c];
      }
    }
  }

  lemma {:induction false} LinesWithoutNewline(s: string)
    requires '\n' !in s
    ensures Lines(s) == [s]
  {
    if s != "" {
      LinesWithoutNewline(s[..|s| - 1]);
      assert s == s[..|s| - 1] + [s[|s| - 1]];
    }
  }

  /** sep.join. */
  function JoinAll(parts: seq<string>, sep: string): string {
    if parts == [] then ""
    else if |parts| == 1 then parts[0]
    else JoinAll(parts[..|parts| - 1], sep) + sep + parts[|parts| - 1]
  }

  ghost predicate NoNewlines(lines: seq<string>) {
    forall k :: 0 <= k < |lines| ==> '\n' !in lines[k]
  }

  /** The lines of a text hold no newline, and joining them gives the text back. */
  lemma {:induction false} LinesJoin(s: string)
    ensures NoNewlines(Lines(s)) && JoinAll(Lines(s), "\n") == s
  {
    if s != "" {
      var init, c := s[..|s| - 1], s[|s| - 1];
      LinesJoin(init);
      var r, t := Lines(init), Lines(s);
      assert s == init + [c];
      assert t[..|t| - 1] == if c == '\n' then r else r[..|r| - 1];
      if c == '\n' {
        assert JoinAll(t, "\n") == init + "\n" + "";
      } else if |r| > 1 {
        assert JoinAll(t, "\n") == JoinAll(r[..|r| - 1], "\n") + "\n" + (Last(r) + [c]);
      }
    }
  }

  /** Nothing else does both: splitting undoes joining. */
  lemma {:induction false} JoinLinesBack(parts: seq<string>)
    requires parts != [] && NoNewlines(parts)
    ensures Lines(JoinAll(parts, "\n")) == parts
  {
    var n := |parts|;
    LinesWithoutNewline(parts[n - 1]);
    if n > 1 {
      var init := JoinAll(parts[..n - 1], "\n");
      JoinLinesBack(parts[..n - 1]);
      LinesConcat(init + "\n", parts[n - 1]);
      assert Lines(init + "\n") == parts[..n - 1] + [""] by { assert (init + "\n")[..|init|] == init; }
      hide Lines;
      assert "" + parts[n - 1] == parts[n - 1];
    }
  }

  /** str.rsplit('\n', 2): at most two splits, from the right. */
  function RSplit2(s: string): (r: seq<string>)
    ensures 1 <= |r| <= 3
  {
    var lines := Lines(s);
    var n := |lines|;
    if n <= 3 then lines else [JoinAll(lines[..n - 2], "\n"), lines[n - 2], lines[n - 1]]
  }

  function Concat(chunks: seq<string>): string {
    if chunks == [] then "" else chunks[0] + Concat(chunks[1..])
  }

  /** The first newline of s, or -1. */
  function FindNewline(s: string): (pos: int)
    ensures -1 <= pos < |s|
    ensures pos == -1 ==> '\n' !in s
    ensures pos >= 0 ==> s[pos] == '\n' && '\n' !in s[..pos]
  {
    if s == "" then -1
    else if s[0] == '\n' then 0
    else
      assert s == [s[0]] + s[1..];
      var rest := FindNewline(s[1..]);
      if rest == -1 then -1 else
        assert s[..rest + 1] == [s[0]] + s[1..][..rest];
        rest + 1
  }

  // ----- The report -----

  /** What is shown around line L (counted from 1). */
  function Context(lines: seq<string>, L: nat, sep: string): string
    requires 1 <= L <= |lines|
  {
    (if L > 2 then "..." + sep else "") +
    (if L > 1 then lines[L - 2] + sep else "") +
    lines[L - 1] +
    (if L < |lines| then sep + lines[L] + (if L + 1 < |lines| then sep + "..." else "") else "")
  }

  /** The output ended, or character `got` was not expected; or the position is at the end of a line
      that is not the last one, where taking the character fails. */
  datatype Report = UnexpectedEnd(context: string) | UnexpectedOutput(got: char, context: string) | IndexError

  function ReportOf(lines: seq<string>, L: nat, column: nat, sep: string): Report
    requires 1 <= L <= |lines|
  {
    if L == |lines| && column >= |lines[L - 1]| then UnexpectedEnd(Context(lines, L, sep))
    else if column >= |lines[L - 1]| then IndexError
    else UnexpectedOutput(lines[L - 1][column], Context(lines, L, sep))
  }

  /** The lines shown: one before line L, line L itself and one after it, as far as they exist; dots stand
      for what is before and after. */
  ghost function Shown(lines: seq<string>, L: nat): seq<string>
    requires 1 <= L <= |lines|
  {
    (if L > 2 then ["..."] else []) +
    lines[if L > 1 then L - 2 else 0..if L < |lines| then L + 1 else L] +
    (if L + 1 < |lines| then ["..."] else [])
  }

  /** The context is its lines joined by the separator. With newlines between them, they can be read off. */
  lemma ContextShows(lines: seq<string>, L: nat, sep: string)
    requires 1 <= L <= |lines| && NoNewlines(lines)
    ensures Context(lines, L, sep) == JoinAll(Shown(lines, L), sep)
    ensures sep == "\n" ==> Lines(Context(lines, L, sep)) == Shown(lines, L)
  {
    hide JoinAll, Lines;
    var head := ShownUpTo(lines, L, sep);
    var A := JoinAll(head, sep);
    if L < |lines| {
      var next := head + [lines[L]];
      JoinAppend(head, lines[L], sep);
      Regroup(A, sep, lines[L]);
      if L + 1 < |lines| {
        JoinAppend(next, "...", sep);
        Regroup(A + sep + lines[L], sep, "...");
        Regroup(A, sep + lines[L], sep + "...");
        assert Shown(lines, L) == next + ["..."] by { SliceEnds(lines, L); }
      } else {
        assert sep + lines[L] + "" == sep + lines[L];
        assert Shown(lines, L) == next by { SliceEnds(lines, L); }
      }
    } else {
      assert A + "" == A;
      assert Shown(lines, L) == head by { SliceEnds(lines, L); }
    }
    if sep == "\n" { JoinLinesBack(Shown(lines, L)); }
  }

  lemma JoinAppend(parts: seq<string>, part: string, sep: string)
    requires parts != []
    ensures JoinAll(parts + [part], sep) == JoinAll(parts, sep) + sep + part
  {
    assert (parts + [part])[..|parts|] == parts;
  }

  /** What is shown up to line L. */
  lemma ShownUpTo(lines: seq<string>, L: nat, sep: string) returns (head: seq<string>)
    requires 1 <= L <= |lines|
    ensures head == (if L > 2 then ["..."] else []) + (if L > 1 then [lines[L - 2]] else []) + [lines[L - 1]]
    ensures JoinAll(head, sep) ==
            (if L > 2 then "..." + sep else "") + (if L > 1 then lines[L - 2] + sep else "") + lines[L - 1]
  {
    head := (if L > 2 then ["..."] else []) + (if L > 1 then [lines[L - 2]] else []) + [lines[L - 1]];
    if L == 1 {
      assert head == [lines[0]];
      assert "" + "" + lines[0] == lines[0];
    } else {
      var above := lines[L - 2];
      if L == 2 {
        assert head == [above] + [lines[1]];
        JoinAppend([above], lines[1], sep);
        assert "" + (above + sep) == above + sep;
      } else {
        assert head == (["..."] + [above]) + [lines[L - 1]];
        JoinAppend(["..."] + [above], lines[L - 1], sep);
        JoinAppend(["..."], above, sep);
        Regroup("..." + sep, above, sep);
      }
    }
  }

  lemma SliceEnds(lines: seq<string>, L: nat)
    requires 1 <= L <= |lines|
    ensures lines[if L > 1 then L - 2 else 0..if L < |lines| then L + 1 else L] ==
            (if L > 1 then [lines[L - 2]] else []) + [lines[L - 1]] + (if L < |lines| then [lines[L]] else [])
  {}

  lemma ReportShows(lines: seq<string>, L: nat, column: nat, sep: string)
    requires 1 <= L <= |lines| && NoNewlines(lines)
    ensures var report := ReportOf(lines, L, column, sep);
      && (report.UnexpectedEnd? <==> L == |lines| && column >= |lines[L - 1]|)
      && (report.IndexError? <==> L < |lines| && column >= |lines[L - 1]|)
      && (report.UnexpectedOutput? ==> report.got == lines[L - 1][column])
      && (!report.IndexError? ==> report.context == JoinAll(Shown(lines, L), sep))
      && (!report.IndexError? && sep == "\n" ==> Lines(report.context) == Shown(lines, L))
  {
    hide Context, Shown, JoinAll, Lines;
    ContextShows(lines, L, sep);
  }

  // ----- Partial texts -----

  /** More text leaves all lines but the last one as they are. */
  lemma MoreText(done: string, more: string)
    ensures |Lines(done + more)| >= |Lines(done)|
    ensures forall k :: 0 <= k < |Lines(done)| - 1 ==> Lines(done + more)[k] == Lines(done)[k]
  {
    LinesConcat(done, more);
  }

  /** head + lines are the lines of what was consumed. */
  ghost predicate Tracks(head: seq<string>, lines: seq<string>, done: string) {
    lines != [] && Lines(done) == head + lines
  }

  lemma TrackRest(head: seq<string>, lines: seq<string>, done: string, more: string)
    requires Tracks(head, lines, done) && '\n' !in more
    ensures Tracks(head, lines[|lines| - 1 := Last(lines) + more], done + more)
  {
    hide Lines;
    LinesConcat(done, more);
    LinesWithoutNewline(more);
    assert head + lines == head + lines[..|lines| - 1] + [Last(lines)];
  }

  lemma TrackLine(head: seq<string>, lines: seq<string>, done: string, piece: string)
    requires Tracks(head, lines, done) && '\n' !in piece
    ensures Tracks(head, lines[|lines| - 1 := Last(lines) + piece] + [""], done + piece + "\n")
  {
    TrackRest(head, lines, done, piece);
    var all := done + piece + "\n";
    assert all[..|all| - 1] == done + piece;
  }

  /** The context found in the tracked lines is that of the whole text. */
  lemma TrackedReport(head: seq<string>, lines: seq<string>, done: string, rest: string, whole: string, L: nat, at: nat,
                      column: nat, sep: string)
    requires Tracks(head, lines, done) && whole == done + rest && at < |lines| && L == |head| + at + 1
    requires at + 2 < |lines| || rest == ""
    ensures L <= |Lines(whole)|
    ensures |Lines(whole)| >= L + 2 <==> at + 2 < |lines|
    ensures |Lines(whole)| >= L + 1 <==> at + 1 < |lines|
    ensures Lines(whole)[L - 1] == lines[at]
    ensures at > 0 ==> L > 1 && Lines(whole)[L - 2] == lines[at - 1]
    ensures at + 1 < |lines| ==> Lines(whole)[L] == lines[at + 1]
  {
    MoreText(done, rest);
    if rest == "" { assert done + rest == done; }
  }

  lemma ConcatHead(chunks: seq<string>)
    requires chunks != []
    ensures Concat(chunks) == chunks[0] + Concat(chunks[1..])
  {}

  /** line, lastLine and secondLastLine are those of the text. */
  ghost predicate Position(text: string, line: nat, lastLine: string, secondLastLine: Option<string>) {
    && line == |Lines(text)| && lastLine == Last(Lines(text))
    && secondLastLine == if |Lines(text)| >= 2 then Some(Lines(text)[|Lines(text)| - 2]) else None
  }

  /** One chunk on. */
  lemma NextPosition(text: string, line: nat, lastLine: string, secondLastLine: Option<string>, chunk: string,
                     lines: seq<string>)
    requires Position(text, line, lastLine, secondLastLine) && lines == RSplit2(chunk)
    ensures Position(text + chunk, line + (|Lines(chunk)| - 1),
              if |lines| == 1 then lastLine + lines[0] else Last(lines),
              if |lines| == 1 then secondLastLine else if |lines| == 2 then Some(lastLine + lines[0])
                  else Some(lines[1]))
  {
    hide Lines, JoinLines, JoinAll;
    LinesConcat(text, chunk);
    JoinEnds(Lines(text), Lines(chunk));
  }

  /** The last two lines of a text that goes on. */
  lemma JoinEnds(a: seq<string>, b: seq<string>)
    requires a != [] && b != []
    ensures var c := JoinLines(a, b);
      && |c| == |a| + |b| - 1
      && Last(c) == (if |b| == 1 then Last(a) + b[0] else Last(b))
      && (|b| == 1 && |a| >= 2 ==> c[|c| - 2] == a[|a| - 2])
      && (|b| == 2 ==> c[|c| - 2] == Last(a) + b[0])
      && (|b| >= 3 ==> c[|c| - 2] == b[|b| - 2])
  {}

  ghost predicate AllNonempty(chunks: seq<string>) {
    forall k :: 0 <= k < |chunks| ==> chunks[k] != ""
  }

  lemma Regroup(a: string, b: string, c: string)
    ensures (a + b) + c == a + (b + c)
  {}

  /** The newline in `more` is consumed with what is before it. */
  lemma ConsumeLine(whole: string, done: string, rest: string, more: string, pos: nat, c: string)
    requires whole == done + rest && rest == more + c && pos < |more| && more[pos] == '\n'
    ensures whole == (done + more[..pos] + "\n") + (more[pos + 1..] + c)
  {
    assert more == more[..pos] + "\n" + more[pos + 1..];
  }

  class KeepLastStream {
    /** What the underlying stream will give, read by read; then it gives "" for ever. */
    var stream: seq<string>
    var last: Option<string>
    var secondLastLine: Option<string>
    var lastLine: string
    var line: nat
    /** All text read before `last`. */
    ghost var text: string

    ghost predicate Valid()
      reads this
    {
      AllNonempty(stream) && Position(text, line, lastLine, secondLastLine)
    }

    constructor (stream: seq<string>)
      requires AllNonempty(stream)
      ensures Valid() && this.stream == stream && last == None && text == ""
    {
      this.stream := stream;
      last, secondLastLine, lastLine, line := None, None, "", 1;
      text := "";
    }

    /** The next chunk of the underlying stream, of whatever size. */
    method ReadStream() returns (chunk: string)
      requires AllNonempty(stream)
      modifies `stream
      ensures AllNonempty(stream) && chunk + Concat(stream) == old(Concat(stream))
      ensures if old(stream) == [] then chunk == "" && stream == []
                else chunk == old(stream)[0] != "" && stream == old(stream)[1..]
    {
      if stream == [] {
        chunk := "";
      } else {
        ConcatHead(stream);
        chunk := stream[0];
        stream := stream[1..];
      }
    }

    /** Takes the previous chunk into account and reads the next one. */
    method Read() returns (chunk: string)
      requires Valid()
      modifies this
      ensures Valid() && last == Some(chunk) && chunk + Concat(stream) == old(Concat(stream))
      ensures text == old(text) + (if old(last).Some? then old(last).value else "")
      ensures if old(stream) == [] then chunk == "" && stream == []
                else chunk == old(stream)[0] && stream == old(stream)[1..]
    {
      hide Position, Lines, RSplit2, Concat, AllNonempty;
      if last.Some? {
        var lines := RSplit2(last.value);
        NextPosition(text, line, lastLine, secondLastLine, last.value, lines);
        line := line + (|Lines(last.value)| - 1);
        if |lines| == 1 {
          lastLine := lastLine + lines[0];
        } else if |lines| == 2 {
          secondLastLine := Some(lastLine + lines[0]);
          lastLine := lines[1];
        } else {
          secondLastLine := Some(lines[1]);
          lastLine := lines[2];
        }
        text := text + last.value;
      } else {
        assert text + "" == text;
      }
      chunk := ReadStream();
      last := Some(chunk);
    }

    /** Reads on until the line after the next one has begun, or the stream ends. */
    method ReadOn(start: seq<string>, localLine: nat, ghost head: seq<string>, ghost consumed: string,
                  ghost whole: string)
      returns (lines: seq<string>, dumped: string, ghost done: string, ghost rest: string)
      requires AllNonempty(stream) && Tracks(head, start, consumed) && localLine < |start|
      requires whole == consumed + Concat(stream)
      modifies `stream
      ensures Tracks(head, lines, done) && whole == done + rest && localLine < |lines|
      ensures localLine + 2 < |lines| || rest == ""
      ensures dumped + Concat(stream) == old(Concat(stream)) && AllNonempty(stream)
    {
      hide Tracks, AllNonempty, Lines;
      lines, dumped, done, rest := start, "", consumed, Concat(stream);
      if localLine + 2 >= |lines| {
        var more := ReadStream();
        dumped := dumped + more;
        while localLine + 2 >= |lines| && more != ""
          invariant Tracks(head, lines, done) && localLine < |lines| && rest == more + Concat(stream)
          invariant whole == done + rest
          invariant dumped + Concat(stream) == old(Concat(stream)) && AllNonempty(stream)
          invariant more == "" ==> stream == []
          decreases |stream|, |more|
        {
          var pos := FindNewline(more);
          Tracked(head, lines, done);
          ghost var before := Concat(stream);
          if pos == -1 {
            TrackRest(head, lines, done, more);
            Regroup(done, more, before);
            lines := lines[|lines| - 1 := Last(lines) + more];
            done := done + more;
            more := "";
          } else {
            TrackLine(head, lines, done, more[..pos]);
            ConsumeLine(whole, done, rest, more, pos, before);
            lines := lines[|lines| - 1 := Last(lines) + more[..pos]] + [""];
            done := done + more[..pos] + "\n";
            more := more[pos + 1..];
          }
          if more == "" {
            more := ReadStream();
            Regroup(dumped, more, Concat(stream));
            dumped := dumped + more;
            assert "" + before == before;
          }
          rest := more + Concat(stream);
        }
        if more == "" { assert rest == ""; }
      }
    }

    /** Discards what is left. */
    method Drain() returns (dumped: string)
      requires AllNonempty(stream)
      modifies `stream
      ensures dumped == old(Concat(stream)) && stream == []
    {
      hide AllNonempty;
      var data := ReadStream();
      dumped := data;
      while data != ""
        invariant dumped + Concat(stream) == old(Concat(stream))
        invariant AllNonempty(stream) && (data == "" ==> stream == [])
        decreases |stream|, |data|
      {
        data := ReadStream();
        Regroup(dumped, data, Concat(stream));
        dumped := dumped + data;
      }
    }

    /** The report for line L of the whole stream, which lies in the last chunk, and the dump: the last
        chunk and all that follows. */
    method GenErrorMsg(L: nat, column: nat, sep: string) returns (report: Report, dump: string)
      requires Valid() && last.Some? && line <= L < line + |Lines(last.value)|
      modifies `stream
      ensures L <= |Lines(text + last.value + old(Concat(stream)))|
      ensures report == ReportOf(Lines(text + last.value + old(Concat(stream))), L, column, sep)
      ensures var lines := Lines(text + last.value + old(Concat(stream)));
              && (report.UnexpectedEnd? <==> L == |lines| && column >= |lines[L - 1]|)
              && (report.IndexError? <==> L < |lines| && column >= |lines[L - 1]|)
              && (report.UnexpectedOutput? ==> report.got == lines[L - 1][column])
              && (!report.IndexError? ==>
                   var shown := (if L > 2 then ["..."] else []) +
                                lines[if L > 1 then L - 2 else 0..if L < |lines| then L + 1 else L] +
                                (if L + 1 < |lines| then ["..."] else []);
                   report.context == JoinAll(shown, sep) && (sep == "\n" ==> Lines(report.context) == shown))
      ensures dump == last.value + old(Concat(stream))
    {
      hide AllNonempty, Lines, Position, Concat, Tracks, Context, ReportOf;
      ghost var T, whole := text, text + last.value + Concat(stream);
      var localLine: nat := L - line;
      var lines := Lines(last.value);
      lines := lines[0 := lastLine + lines[0]];
      ghost var head := HeadOf(T, secondLastLine);
      StartTracking(T, last.value, line, lastLine, secondLastLine, lines);
      if secondLastLine.Some? {
        lines := [secondLastLine.value] + lines;
        localLine := localLine + 1;
      }
      var dumped;
      ghost var done, rest;
      lines, dumped, done, rest := ReadOn(lines, localLine, head, T + last.value, whole);
      TrackedReport(head, lines, done, rest, whole, L, localLine, column, sep);
      report := MakeReport(lines, localLine, L, column, sep, Lines(whole));
      LinesJoin(whole);
      ReportShows(Lines(whole), L, column, sep);
      var left := Drain();
      Regroup(last.value, dumped, left);
      dump := last.value + dumped + left;
    }
  }

  /** Constructs the message from the tracked lines. */
  method MakeReport(lines: seq<string>, localLine: nat, L: nat, column: nat, sep: string, ghost whole: seq<string>)
    returns (report: Report)
    requires localLine < |lines| && 1 <= L <= |whole| && (L > 1 <==> localLine > 0)
    requires (|whole| >= L + 2 <==> localLine + 2 < |lines|) && (|whole| >= L + 1 <==> localLine + 1 < |lines|)
    requires whole[L - 1] == lines[localLine]
    requires localLine > 0 ==> whole[L - 2] == lines[localLine - 1]
    requires localLine + 1 < |lines| ==> whole[L] == lines[localLine + 1]
    ensures report == ReportOf(whole, L, column, sep)
  {
    var message := if L > 2 then "..." + sep else "";
    message := message + (if localLine > 0 then lines[localLine - 1] + sep else "");
    message := message + lines[localLine];
    message := message + (if localLine + 1 < |lines| then
                            sep + lines[localLine + 1] + (if localLine + 2 < |lines| then sep + "..." else "")
                          else "");
    if localLine + 1 >= |lines| && column >= |lines[localLine]| {
      report := UnexpectedEnd(message);
    } else if column >= |lines[localLine]| {
      report := IndexError;
    } else {
      report := UnexpectedOutput(lines[localLine][column], message);
    }
  }

  lemma Tracked(head: seq<string>, lines: seq<string>, done: string)
    requires Tracks(head, lines, done)
    ensures lines != []
  {}

  /** The lines of the text that are no longer at hand. */
  ghost function HeadOf(text: string, secondLastLine: Option<string>): seq<string> {
    var n := |Lines(text)|;
    Lines(text)[..if secondLastLine.Some? && n >= 2 then n - 2 else n - 1]
  }

  lemma StartTracking(text: string, chunk: string, line: nat, lastLine: string, secondLastLine: Option<string>,
                      lines: seq<string>)
    requires Position(text, line, lastLine, secondLastLine) && lines == Lines(chunk)[0 := lastLine + Lines(chunk)[0]]
    ensures Tracks(HeadOf(text, secondLastLine), if secondLastLine.Some? then [secondLastLine.value] + lines
              else lines, text + chunk)
    ensures |HeadOf(text, secondLastLine)| + (if secondLastLine.Some? then 1 else 0) == line - 1
    ensures secondLastLine.None? ==> line == 1
  {
    hide Lines;
    LinesConcat(text, chunk);
    var a, b, n := Lines(text), Lines(chunk), |Lines(text)|;
    assert JoinLines(a, b) == a[..n - 1] + lines;
    if n >= 2 { assert a[..n - 1] == a[..n - 2] + [a[n - 2]]; }
  }
}
