/** The error-text utilities: errors carry a stack of call sites spliced into
    their message text, one `[at] file:line ` entry per wrap, newest first. */
module Errors {
  import opened Nullable
  import opened Strings

  /** A Go `error`: the text `Error()` returns, and the error `Unwrap()`
      returns (`None` when it has no such method or returns nil). */
  datatype Error = Error(text: string, inner: Option<Error>)

  /** A call site as `runtime.Caller` reports it. */
  datatype Frame = Frame(file: string, line: int)

  /** A Go result pair `(T, error)`; `err == None` is a nil error. */
  datatype Returned<T> = Returned(value: T, err: Option<Error>)

  /** The text that opens every stack entry. */
  const Marker: string := "[at]"

  /** `errors.New`. */
  function New(text: string): Error {
    Error(text, None)
  }

  /** `errors.Unwrap`. */
  function Unwrap(err: Error): Option<Error> {
    err.inner
  }

  /** The error a wrap keeps the message of: what `err` unwraps to, or `err`
      itself when it unwraps to nil. */
  function Root(err: Error): Error {
    match Unwrap(err)
    case Some(u) => u
    case None => err
  }

  /** `runtime.Caller(skip)` over a call stack listed innermost first: the
      frame `skip` levels up, or the empty frame when the stack is shallower. */
  function Caller(stack: seq<Frame>, skip: int): Frame {
    if 0 <= skip < |stack| then stack[skip] else Frame("", 0)
  }

  /** What follows the marker in the stack entry of frame `f`. */
  function EntryTail(f: Frame): string {
    " " + f.file + ":" + IntToString(f.line) + " "
  }

  /** The stack entry `[at] file:line ` of frame `f`. */
  function FrameText(f: Frame): string {
    Marker + EntryTail(f)
  }

  /** `WrapError(err)` called from `caller`: the root's message, the entry of
      `caller`, then the stack `err` already carried; it unwraps to the root. */
  function WrapError(err: Error, caller: Frame): (r: Error)
    ensures Unwrap(r) == Some(Root(err))
    ensures Root(err).text <= r.text
    ensures |r.text| > |Root(err).text| && r.text[|Root(err).text|] == '['
  {
    Error(Root(err).text + (FrameText(caller) + WrappedErrorStack(err)), Some(Root(err)))
  }

  /** `WrapErrorN(err, n)`: `WrapError` with the frame `n` levels up `stack`. */
  function WrapErrorN(err: Error, n: int, stack: seq<Frame>): (r: Error)
    ensures 0 <= n < |stack| ==> r == WrapError(err, stack[n])
    ensures !(0 <= n < |stack|) ==> r == WrapError(err, Frame("", 0))
  {
    WrapError(err, Caller(stack, n))
  }

  /** The text of `err` before its first marker: the message without a stack. */
  function WrappedErrorMsg(err: Error): (r: string)
    ensures r <= err.text
    ensures !Contains(r, Marker)
    ensures |r| < |err.text| ==> OccursAt(err.text, Marker, |r|)
  {
    var i := Index(err.text, Marker);
    if i == -1 then err.text
    else
      assert !Contains(err.text[..i], Marker) by {
        forall j | 0 <= j <= i - |Marker| ensures !OccursAt(err.text[..i], Marker, j) {
          assert !OccursAt(err.text, Marker, j);
          assert err.text[..i][j..j + |Marker|] == err.text[j..j + |Marker|];
        }
      }
      err.text[..i]
  }

  /** The text of `err` from its first marker on: the stack, or "" if none. */
  function WrappedErrorStack(err: Error): (r: string)
    ensures WrappedErrorMsg(err) + r == err.text
    ensures r == "" || OccursAt(r, Marker, 0)
  {
    var i := Index(err.text, Marker);
    if i == -1 then ""
    else
      assert err.text[i..][..|Marker|] == err.text[i..i + |Marker|];
      err.text[i..]
  }

  /** `PrettyPrintError`: each stack entry moved to its own tab-indented line.
      The result opens with `[Error] `, gains one newline per marker, and is
      the text itself after `[Error] ` when the text holds no marker. */
  function PrettyPrintError(err: Error): (r: string)
    ensures "[Error] " <= r
    ensures CountChar(r, '\n') == Count(err.text, Marker) + CountChar(err.text, '\n')
    ensures !Contains(err.text, Marker) ==> r == "[Error] " + err.text
  {
    var body := ReplaceAll(err.text, Marker, "\n\t" + Marker);
    PrettyNewlines(err.text);
    CountCharConcat("[Error] ", body, '\n');
    assert !Contains(err.text, Marker) ==> body == err.text by {
      if !Contains(err.text, Marker) {
        ReplaceNone(err.text, Marker, "\n\t" + Marker);
      }
    }
    "[Error] " + body
  }

  /* ---- the marker inside concatenations ---- */

  /** A seam before a character that cannot continue a marker. */
  lemma MarkerNotAcrossBefore(a: string, b: string)
    requires b == [] || (b[0] != 'a' && b[0] != 't' && b[0] != ']')
    ensures NoneAcross(a, b, Marker)
  {
    forall p | |a| - |Marker| < p < |a| ensures !OccursAt(a + b, Marker, p) {
      if 0 <= p && p + |Marker| <= |a + b| {
        var k := |a| - p;
        assert 0 < k < |Marker| && |b| > 0;
        assert (a + b)[p..p + |Marker|][k] == b[0];
        assert Marker[k] == 'a' || Marker[k] == 't' || Marker[k] == ']';
      }
    }
  }

  /** A seam after text whose last characters hold no '['. */
  lemma MarkerNotAcrossAfter(a: string, b: string)
    requires forall i | 0 <= i && |a| - |Marker| < i < |a| :: a[i] != '['
    ensures NoneAcross(a, b, Marker)
  {
    forall p | |a| - |Marker| < p < |a| ensures !OccursAt(a + b, Marker, p) {
      if 0 <= p && p + |Marker| <= |a + b| {
        assert (a + b)[p..p + |Marker|][0] == a[p];
      }
    }
  }

  lemma NoBracketNoMarker(s: string)
    requires '[' !in s
    ensures !Contains(s, Marker)
  {
    forall p | 0 <= p <= |s| - |Marker| ensures !OccursAt(s, Marker, p) {
      assert s[p..p + |Marker|][0] == s[p];
    }
  }

  /** A marker-free file name gives a stack entry whose only marker opens it. */
  lemma EntryTailHasNoMarker(f: Frame)
    requires !Contains(f.file, Marker)
    ensures !Contains(EntryTail(f), Marker)
  {
    var digits := IntToString(f.line);
    NoBracketNoMarker(" ");
    NoBracketNoMarker(":");
    NoBracketNoMarker(digits);
    var a1 := " " + f.file;
    MarkerNotAcrossAfter(" ", f.file);
    ContainsConcat(" ", f.file, Marker);
    var a2 := a1 + ":";
    MarkerNotAcrossBefore(a1, ":");
    ContainsConcat(a1, ":", Marker);
    var a3 := a2 + digits;
    MarkerNotAcrossBefore(a2, digits);
    ContainsConcat(a2, digits, Marker);
    MarkerNotAcrossBefore(a3, " ");
    NoBracketNoMarker(" ");
    ContainsConcat(a3, " ", Marker);
  }

  /** A stack entry counts exactly one marker. */
  lemma FrameTextCount(f: Frame)
    requires !Contains(f.file, Marker)
    ensures Count(FrameText(f), Marker) == 1
  {
    var t := EntryTail(f);
    assert FrameText(f)[..|Marker|] == Marker;
    assert FrameText(f)[|Marker|..] == t;
    EntryTailHasNoMarker(f);
    CountNone(t, Marker);
  }

  /** Pretty-printing a stack entry puts a newline and a tab before it. */
  lemma FrameTextPretty(f: Frame)
    requires !Contains(f.file, Marker)
    ensures ReplaceAll(FrameText(f), Marker, "\n\t" + Marker) == "\n\t" + FrameText(f)
  {
    var t := EntryTail(f);
    assert FrameText(f)[..|Marker|] == Marker;
    assert FrameText(f)[|Marker|..] == t;
    EntryTailHasNoMarker(f);
    ReplaceNone(t, Marker, "\n\t" + Marker);
  }

  /** In `a + b`, with `a` marker-free and `b` opening with a marker, the
      message is `a` and the stack is `b`. */
  lemma {:induction false} SplitAtMarker(a: string, b: string, inner: Option<Error>)
    requires !Contains(a, Marker) && OccursAt(b, Marker, 0)
    ensures WrappedErrorMsg(Error(a + b, inner)) == a
    ensures WrappedErrorStack(Error(a + b, inner)) == b
  {
    var s := a + b;
    assert s[|a|..|a| + |Marker|] == b[..|Marker|];
    assert OccursAt(s, Marker, |a|);
    MarkerNotAcrossBefore(a, b);
    ContainsConcat(a, [], Marker);
    var i := Index(s, Marker);
    if i < |a| {
      if i + |Marker| <= |a| {
        assert s[i..i + |Marker|] == a[i..i + |Marker|];
        assert OccursAt(a, Marker, i);
      }
      assert false;
    }
    assert s[..|a|] == a;
  }

  /* ---- wrapping ---- */

  /** One wrap keeps the root message and puts the new entry in front of the
      stack `err` carried. */
  lemma {:induction false} WrapKeepsMessage(err: Error, caller: Frame)
    requires !Contains(Root(err).text, Marker)
    ensures WrappedErrorMsg(WrapError(err, caller)) == Root(err).text
    ensures WrappedErrorStack(WrapError(err, caller)) == FrameText(caller) + WrappedErrorStack(err)
  {
    var b := FrameText(caller) + WrappedErrorStack(err);
    assert b[..|Marker|] == Marker;
    SplitAtMarker(Root(err).text, b, Some(Root(err)));
  }

  /** One wrap adds exactly one entry to the stack. */
  lemma {:induction false} WrapAddsOneEntry(err: Error, caller: Frame)
    requires !Contains(Root(err).text, Marker) && !Contains(caller.file, Marker)
    ensures Count(WrappedErrorStack(WrapError(err, caller)), Marker) == 1 + Count(WrappedErrorStack(err), Marker)
  {
    WrapKeepsMessage(err, caller);
    var st := WrappedErrorStack(err);
    assert st == "" || st[0] == '[';
    MarkerNotAcrossBefore(FrameText(caller), st);
    CountConcat(FrameText(caller), st, Marker);
    FrameTextCount(caller);
  }

  /** A wrapped error's root is the root of what it wrapped. */
  lemma RootOfWrap(err: Error, caller: Frame)
    ensures Root(WrapError(err, caller)) == Root(err)
  {
  }

  /** Wrapping a wrapped error keeps the root's message and unwraps to the
      root; its stack is the newer entry, then the older one, then the stack
      `err` carried before. */
  lemma {:induction false} WrapTwice(err: Error, first: Frame, second: Frame)
    requires !Contains(Root(err).text, Marker)
    ensures var w := WrapError(WrapError(err, first), second);
            Unwrap(w) == Some(Root(err))
            && WrappedErrorMsg(w) == Root(err).text
            && WrappedErrorStack(w) == FrameText(second) + FrameText(first) + WrappedErrorStack(err)
  {
    var once := WrapError(err, first);
    WrapKeepsMessage(err, first);
    RootOfWrap(err, first);
    WrapKeepsMessage(once, second);
    RootOfWrap(once, second);
    Regroup(FrameText(second), FrameText(first), WrappedErrorStack(err));
  }

  /** `orig` wrapped once per frame of `frames`, in call order. */
  function WrapAll(orig: Error, frames: seq<Frame>): Error
    decreases |frames|
  {
    if |frames| == 0 then orig
    else WrapError(WrapAll(orig, frames[..|frames| - 1]), frames[|frames| - 1])
  }

  /** The entries of `frames`, newest (last) first. */
  function StackText(frames: seq<Frame>): string
    decreases |frames|
  {
    if |frames| == 0 then ""
    else FrameText(frames[|frames| - 1]) + StackText(frames[..|frames| - 1])
  }

  /** Repeated wrapping of a plain error keeps its message, unwraps to it, and
      carries one entry per wrap with the most recent first. */
  lemma {:induction false} WrapAllShape(orig: Error, frames: seq<Frame>)
    requires orig.inner == None && !Contains(orig.text, Marker)
    ensures WrapAll(orig, frames).text == orig.text + StackText(frames)
    ensures |frames| > 0 ==> Unwrap(WrapAll(orig, frames)) == Some(orig)
    ensures WrappedErrorMsg(WrapAll(orig, frames)) == orig.text
    ensures WrappedErrorStack(WrapAll(orig, frames)) == StackText(frames)
    decreases |frames|
  {
    if |frames| == 0 {
      assert orig.text + "" == orig.text;
      assert !Contains(orig.text, Marker);
      var i := Index(orig.text, Marker);
      assert i == -1;
    } else {
      var prev := WrapAll(orig, frames[..|frames| - 1]);
      WrapAllShape(orig, frames[..|frames| - 1]);
      assert Root(prev) == orig;
      WrapKeepsMessage(prev, frames[|frames| - 1]);
    }
  }

  /** A stack text is empty or opens with '['. */
  lemma StackTextStart(frames: seq<Frame>)
    ensures StackText(frames) == "" || StackText(frames)[0] == '['
  {
  }

  /** A stack built from marker-free file names has one marker per frame. */
  lemma {:induction false} StackTextCount(frames: seq<Frame>)
    requires forall i | 0 <= i < |frames| :: !Contains(frames[i].file, Marker)
    ensures Count(StackText(frames), Marker) == |frames|
    decreases |frames|
  {
    if |frames| > 0 {
      var last := frames[|frames| - 1];
      var rest := frames[..|frames| - 1];
      StackTextCount(rest);
      StackTextStart(rest);
      MarkerNotAcrossBefore(FrameText(last), StackText(rest));
      CountConcat(FrameText(last), StackText(rest), Marker);
      FrameTextCount(last);
    }
  }

  /** Wrapping a plain error `n` times leaves exactly `n` markers in its text. */
  lemma WrapAllCount(orig: Error, frames: seq<Frame>)
    requires orig.inner == None && !Contains(orig.text, Marker)
    requires forall i | 0 <= i < |frames| :: !Contains(frames[i].file, Marker)
    ensures Count(WrapAll(orig, frames).text, Marker) == |frames|
  {
    WrapAllShape(orig, frames);
    StackTextStart(frames);
    MarkerNotAcrossBefore(orig.text, StackText(frames));
    CountConcat(orig.text, StackText(frames), Marker);
    CountNone(orig.text, Marker);
    StackTextCount(frames);
  }

  /* ---- pretty printing ---- */

  /** Every marker of the text becomes a new line of the pretty form. */
  lemma {:induction false} PrettyNewlines(s: string)
    ensures CountChar(ReplaceAll(s, Marker, "\n\t" + Marker), '\n') == Count(s, Marker) + CountChar(s, '\n')
    decreases |s|
  {
    var repl := "\n\t" + Marker;
    if |s| < |Marker| {
    } else if s[..|Marker|] == Marker {
      PrettyNewlines(s[|Marker|..]);
      CountCharConcat(repl, ReplaceAll(s[|Marker|..], Marker, repl), '\n');
      assert s == Marker + s[|Marker|..];
      CountCharConcat(Marker, s[|Marker|..], '\n');
    } else {
      PrettyNewlines(s[1..]);
      CountCharConcat([s[0]], ReplaceAll(s[1..], Marker, repl), '\n');
    }
  }

  /** The pretty form has one line for the message plus one per marker (and
      one more per newline the text already held). */
  lemma PrettyLineCount(err: Error)
    ensures |Split(PrettyPrintError(err), '\n')| == 1 + Count(err.text, Marker) + CountChar(err.text, '\n')
  {
    var body := ReplaceAll(err.text, Marker, "\n\t" + Marker);
    PrettyNewlines(err.text);
    CountCharConcat("[Error] ", body, '\n');
  }

  /** The pretty stack: each entry on a new line after a tab, newest first. */
  function PrettyStack(frames: seq<Frame>): string
    decreases |frames|
  {
    if |frames| == 0 then ""
    else "\n\t" + FrameText(frames[|frames| - 1]) + PrettyStack(frames[..|frames| - 1])
  }

  /** The lines after the first of a pretty-printed wrapped error, newest first. */
  function StackLines(frames: seq<Frame>): seq<string>
    decreases |frames|
  {
    if |frames| == 0 then []
    else ["\t" + FrameText(frames[|frames| - 1])] + StackLines(frames[..|frames| - 1])
  }

  /** Pretty-printing a stack gives the pretty stack. */
  lemma {:induction false} StackTextPretty(frames: seq<Frame>)
    requires forall i | 0 <= i < |frames| :: !Contains(frames[i].file, Marker)
    ensures ReplaceAll(StackText(frames), Marker, "\n\t" + Marker) == PrettyStack(frames)
    decreases |frames|
  {
    if |frames| > 0 {
      var last := frames[|frames| - 1];
      var rest := frames[..|frames| - 1];
      StackTextPretty(rest);
      StackTextStart(rest);
      MarkerNotAcrossBefore(FrameText(last), StackText(rest));
      ReplaceConcat(FrameText(last), StackText(rest), Marker, "\n\t" + Marker);
      FrameTextPretty(last);
    }
  }

  /** The line a stack entry occupies holds no newline. */
  lemma EntryLineHasNoNewline(f: Frame)
    requires '\n' !in f.file
    ensures '\n' !in "\t" + FrameText(f)
  {
    var d := IntToString(f.line);
    assert "\t" + FrameText(f) == "\t[at] " + f.file + ":" + d + " ";
    assert forall k | 0 <= k < |d| :: d[k] != '\n';
  }

  /** A newline-free first line followed by a pretty stack splits into that
      line and one line per entry. */
  lemma SplitPrettyStack(x: string, frames: seq<Frame>)
    requires '\n' !in x
    requires forall i | 0 <= i < |frames| :: '\n' !in frames[i].file
    ensures Split(x + PrettyStack(frames), '\n') == [x] + StackLines(frames)
  {
    PrettyStackLines(frames);
    StackLinesNoNewline(frames);
    SplitLines(x, StackLines(frames));
  }

  /** Each of `lines`, with a newline in front of it. */
  function NewlineEach(lines: seq<string>): string
    decreases |lines|
  {
    if |lines| == 0 then "" else "\n" + lines[0] + NewlineEach(lines[1..])
  }

  /** The pretty stack puts each stack line after a newline. */
  lemma {:induction false} PrettyStackLines(frames: seq<Frame>)
    ensures PrettyStack(frames) == NewlineEach(StackLines(frames))
    decreases |frames|
  {
    if |frames| > 0 {
      var text := FrameText(frames[|frames| - 1]);
      PrettyStackLines(frames[..|frames| - 1]);
      NewlineBeforeTab(text);
      NewlineEachCons("\t" + text, StackLines(frames[..|frames| - 1]));
    }
  }

  lemma NewlineBeforeTab(text: string)
    ensures "\n\t" + text == "\n" + ("\t" + text)
  {
  }

  lemma NewlineEachCons(line: string, lines: seq<string>)
    ensures NewlineEach([line] + lines) == "\n" + line + NewlineEach(lines)
  {
    assert ([line] + lines)[1..] == lines;
  }

  /** No stack line holds a newline when no file name does. */
  lemma {:induction false} StackLinesNoNewline(frames: seq<Frame>)
    requires forall i | 0 <= i < |frames| :: '\n' !in frames[i].file
    ensures forall i | 0 <= i < |StackLines(frames)| :: '\n' !in StackLines(frames)[i]
    decreases |frames|
  {
    if |frames| > 0 {
      var rest := frames[..|frames| - 1];
      assert forall i | 0 <= i < |rest| :: rest[i] == frames[i];
      StackLinesNoNewline(rest);
      EntryLineHasNoNewline(frames[|frames| - 1]);
    }
  }

  /** A newline-free line followed by newline-free lines, each after a
      newline, splits back into those lines. */
  lemma {:induction false} SplitLines(x: string, lines: seq<string>)
    requires '\n' !in x
    requires forall i | 0 <= i < |lines| :: '\n' !in lines[i]
    ensures Split(x + NewlineEach(lines), '\n') == [x] + lines
    decreases |lines|
  {
    if |lines| == 0 {
      assert x + NewlineEach(lines) == x;
      SplitNone(x, '\n');
    } else {
      var line := lines[0];
      var rest := lines[1..];
      SplitLines(line, rest);
      NewlineAfter(x, line, NewlineEach(rest));
      SplitFirst(x, line + NewlineEach(rest), '\n');
      assert [line] + rest == lines;
    }
  }

  lemma NewlineAfter(x: string, line: string, more: string)
    ensures x + ("\n" + line + more) == x + ['\n'] + (line + more)
  {
  }

  /** Pretty-printing a plain error wrapped once per frame gives the message
      on the first line, then one tab-indented entry per frame, newest first. */
  lemma PrettyPrintWrapAll(orig: Error, frames: seq<Frame>)
    requires orig.inner == None && !Contains(orig.text, Marker) && '\n' !in orig.text
    requires forall i | 0 <= i < |frames| :: !Contains(frames[i].file, Marker) && '\n' !in frames[i].file
    ensures Split(PrettyPrintError(WrapAll(orig, frames)), '\n') == ["[Error] " + orig.text] + StackLines(frames)
  {
    var head := "[Error] " + orig.text;
    PrettyBody(orig, frames);
    PrettyHead(orig.text);
    SplitPrettyStack(head, frames);
  }

  /** The first line of a pretty form whose message holds no newline. */
  lemma PrettyHead(text: string)
    requires '\n' !in text
    ensures '\n' !in "[Error] " + text
  {
    assert forall i | 0 <= i < 8 :: "[Error] "[i] != '\n';
  }

  /** The pretty form of a wrapped plain error: its message, then the pretty stack. */
  lemma PrettyBody(orig: Error, frames: seq<Frame>)
    requires orig.inner == None && !Contains(orig.text, Marker)
    requires forall i | 0 <= i < |frames| :: !Contains(frames[i].file, Marker)
    ensures PrettyPrintError(WrapAll(orig, frames)) == "[Error] " + orig.text + PrettyStack(frames)
  {
    WrapAllShape(orig, frames);
    StackTextStart(frames);
    MarkerNotAcrossBefore(orig.text, StackText(frames));
    StackTextPretty(frames);
    PrettyOfSplit(WrapAll(orig, frames), orig.text, StackText(frames), PrettyStack(frames));
  }

  /** A message `a` with no marker, then text `b` that no marker straddles
      into: only `b` is rewritten. */
  lemma PrettyOfSplit(err: Error, a: string, b: string, pb: string)
    requires err.text == a + b && !Contains(a, Marker) && NoneAcross(a, b, Marker)
    requires ReplaceAll(b, Marker, "\n\t" + Marker) == pb
    ensures PrettyPrintError(err) == "[Error] " + a + pb
  {
    ReplaceConcat(a, b, Marker, "\n\t" + Marker);
    ReplaceNone(a, Marker, "\n\t" + Marker);
  }

  /** The three-fold wrap of errors_test.go: `errors.New("original error")`
      wrapped at lines 41, 42 and 43 of `file` pretty-prints with line 43
      first and line 41 last. */
  lemma PrettyPrintThreeWraps(orig: Error, file: string, frames: seq<Frame>)
    requires orig.inner == None && orig.text == "original error"
    requires frames == [Frame(file, 41), Frame(file, 42), Frame(file, 43)]
    requires !Contains(file, Marker) && '\n' !in file
    ensures Split(PrettyPrintError(WrapAll(orig, frames)), '\n')
         == ["[Error] original error", "\t[at] " + file + ":43 ", "\t[at] " + file + ":42 ", "\t[at] " + file + ":41 "]
  {
    NoBracketNoMarker(orig.text);
    assert forall i | 0 <= i < |frames| :: frames[i].file == file;
    PrettyPrintWrapAll(orig, frames);
    ThreeStackLines(file, frames);
    ErrorHead(orig.text);
    ConsLines(Split(PrettyPrintError(WrapAll(orig, frames)), '\n'), "[Error] " + orig.text, StackLines(frames));
  }

  /** A head line followed by three more lines, as a four-line display. */
  lemma ConsLines(lines: seq<string>, head: string, rest: seq<string>)
    requires lines == [head] + rest && |rest| == 3
    ensures lines == [head, rest[0], rest[1], rest[2]]
  {
  }

  /** The first line of the pretty form of `original error`. */
  lemma ErrorHead(text: string)
    requires text == "original error"
    ensures "[Error] " + text == "[Error] original error"
  {
  }

  lemma ThreeStackLines(file: string, frames: seq<Frame>)
    requires frames == [Frame(file, 41), Frame(file, 42), Frame(file, 43)]
    ensures StackLines(frames) == ["\t[at] " + file + ":43 ", "\t[at] " + file + ":42 ", "\t[at] " + file + ":41 "]
  {
    StackLinesOfThree(frames[0], frames[1], frames[2]);
    EntryLine(file, 41, ":41 ");
    EntryLine(file, 42, ":42 ");
    EntryLine(file, 43, ":43 ");
  }

  lemma StackLinesOfThree(f1: Frame, f2: Frame, f3: Frame)
    ensures StackLines([f1, f2, f3]) == ["\t" + FrameText(f3), "\t" + FrameText(f2), "\t" + FrameText(f1)]
  {
    assert [f1, f2, f3][..2] == [f1, f2];
    assert [f1, f2][..1] == [f1];
    assert [f1][..0] == [];
    assert StackLines([f1]) == ["\t" + FrameText(f1)] + StackLines([]);
    assert StackLines([f1, f2]) == ["\t" + FrameText(f2)] + StackLines([f1]);
    assert StackLines([f1, f2, f3]) == ["\t" + FrameText(f3)] + StackLines([f1, f2]);
  }

  lemma EntryLine(file: string, n: nat, suffix: string)
    requires 10 <= n < 100 && suffix == [':', DigitChar(n / 10), DigitChar(n % 10), ' ']
    ensures "\t" + FrameText(Frame(file, n)) == "\t[at] " + file + suffix
  {
    assert NatToString(n / 10) == [DigitChar(n / 10)];
    assert NatToString(n) == NatToString(n / 10) + [DigitChar(n % 10)];
    assert IntToString(n) == [DigitChar(n / 10), DigitChar(n % 10)];
    assert ":" + IntToString(n) + " " == suffix;
  }

  /** A wrap keeps only the unwrapped error's message: context that another
      wrapper added in front of it is dropped. */
  lemma WrapDropsOuterContext(caller: Frame)
    ensures var err := Error("ctx: base", Some(New("base")));
            WrappedErrorMsg(WrapError(err, caller)) == "base" != err.text
  {
    var err := Error("ctx: base", Some(New("base")));
    NoBracketNoMarker("base");
    WrapKeepsMessage(err, caller);
  }
}
