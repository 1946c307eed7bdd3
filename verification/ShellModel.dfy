/** The shell's command history and line editor (src/shell.c) as functions on values. */
module ShellModel {
  import opened Basics
  import opened KString
  import opened CommandLine

  // ----- history

  function Keep32(lines: seq<seq<char>>): seq<seq<char>> {
    if |lines| > 32 then lines[|lines| - 32..] else lines
  }

  predicate Repeats(lines: seq<seq<char>>, line: seq<char>) {
    lines != [] && lines[|lines| - 1] == line
  }

  /** What the program does with a line: it compares with the newest line it still has,
      and forgets the oldest of more than 32. */
  function AddLine(history: seq<seq<char>>, line: seq<char>): seq<seq<char>> {
    if line == [] || Repeats(history, line) then history else Keep32(history + [line])
  }

  function AddAll(lines: seq<seq<char>>): seq<seq<char>> {
    if lines == [] then [] else AddLine(AddAll(lines[..|lines| - 1]), lines[|lines| - 1])
  }

  /** The accepted lines, none forgotten: not empty, not the same as the one before. */
  function Accepted(lines: seq<seq<char>>): seq<seq<char>> {
    if lines == [] then []
    else
      var before, line := Accepted(lines[..|lines| - 1]), lines[|lines| - 1];
      if line == [] || Repeats(before, line) then before else before + [line]
  }

  lemma KeepNext(lines: seq<seq<char>>, line: seq<char>)
    ensures Keep32(Keep32(lines) + [line]) == Keep32(lines + [line])
    ensures Repeats(Keep32(lines), line) <==> Repeats(lines, line)
  {
  }

  /** No two neighbours among the accepted lines are equal, and they are the lines that
      are not empty; a line that is not empty is the newest accepted one after it. */
  lemma {:induction false} AcceptedMeaning(lines: seq<seq<char>>)
    ensures forall i :: 0 <= i < |Accepted(lines)| - 1 ==> Accepted(lines)[i] != Accepted(lines)[i + 1]
    ensures forall line :: line in Accepted(lines) <==> line != [] && line in lines
    ensures lines != [] && lines[|lines| - 1] != [] ==> Repeats(Accepted(lines), lines[|lines| - 1])
  {
    if lines != [] {
      var n := |lines| - 1;
      var before, line := Accepted(lines[..n]), lines[n];
      AcceptedMeaning(lines[..n]);
      assert lines == lines[..n] + [line];
      hide Accepted;
      if line != [] && !Repeats(before, line) {
        assert forall l :: l in before + [line] <==> l in before || l == line;
      } else if line != [] {
        assert before[|before| - 1] in before;
      }
    }
  }

  lemma {:induction false} KeptAccepted(lines: seq<seq<char>>)
    ensures AddAll(lines) == Keep32(Accepted(lines))
  {
    if lines != [] {
      var n := |lines| - 1;
      KeptAccepted(lines[..n]);
      KeepNext(Accepted(lines[..n]), lines[n]);
      hide Keep32;
    }
  }

  /** The history is the newest 32 of all accepted lines. */
  lemma HistoryMeaning(lines: seq<seq<char>>)
    ensures AddAll(lines) == Keep32(Accepted(lines))
    ensures |AddAll(lines)| == if |Accepted(lines)| < 32 then |Accepted(lines)| else 32
    ensures AddAll(lines) == Accepted(lines)[|Accepted(lines)| - |AddAll(lines)|..]
  {
    hide Accepted, AddAll;
    KeptAccepted(lines);
  }

  // ----- editor

  /** `position` is the place in the history, |history| when editing a fresh line;
      `current` is the buffer put aside while browsing; `submitted` all lines so far. */
  datatype Editor = Editor(
    buffer: seq<char>, pos: nat, position: nat, current: seq<char>,
    history: seq<seq<char>>, submitted: seq<seq<char>>)

  datatype Key = UpKey | DownKey | CharKey(ch: char) | OtherKey

  const DELETE: char := '\U{007F}'

  ghost predicate WellFormed(e: Editor) {
    && |e.buffer| == 256 && |e.current| == 256 && e.pos <= 255
    && Terminated(e.buffer) && Terminated(e.current)
    && e.position <= |e.history| <= 32
    && (forall line <- e.history :: 0 < |line| <= 255 && '\0' !in line)
    && e.history == AddAll(e.submitted)
  }

  /** The buffer after a text replaced what was edited, with the cursor at its end; at
      most 255 characters of it. */
  function SetBuffer(e: Editor, text: seq<char>): Editor
    requires |e.buffer| == 256
  {
    var n := if |text| <= 255 then |text| else 255;
    e.(buffer := text[..n] + ['\0'] + e.buffer[n + 1..], pos := n)
  }

  function GoUp(e: Editor): Editor
    requires |e.buffer| == 256 && e.position <= |e.history|
  {
    if e.position == 0 then e
    else
      var e' := e.(current := if e.position == |e.history| then e.buffer else e.current,
                   position := e.position - 1);
      SetBuffer(e', e.history[e.position - 1])
  }

  function GoDown(e: Editor): Editor
    requires |e.buffer| == 256
  {
    if e.position >= |e.history| then e
    else
      var e' := e.(position := e.position + 1);
      SetBuffer(e', if e.position + 1 == |e.history| then Str(e.current) else e.history[e.position + 1])
  }

  /** Editing a line of the history makes it the draft. */
  function Adopt(e: Editor): Editor {
    if e.position != |e.history| then e.(current := e.buffer, position := |e.history|) else e
  }

  function Erase(e: Editor): Editor
    requires |e.buffer| == 256 && e.pos <= 255
  {
    if e.pos == 0 then e
    else Adopt(e).(pos := e.pos - 1, buffer := e.buffer[e.pos - 1 := '\0'])
  }

  function Type(e: Editor, c: char): Editor
    requires |e.buffer| == 256 && e.pos <= 255
  {
    if e.pos == 255 then e
    else Adopt(e).(pos := e.pos + 1, buffer := e.buffer[e.pos := c][e.pos + 1 := '\0'])
  }

  /** How many words the parser cuts out: the command and at most 16 arguments. */
  function CutCount(line: seq<char>): nat {
    if |Words(line, 0)| <= MAX_ARGS + 1 then |Words(line, 0)| else MAX_ARGS + 1
  }

  predicate EndsWord(words: seq<Span>, n: nat, p: nat) {
    n <= |words| && exists k :: 0 <= k < n && words[k].end == p
  }

  /** The buffer that the parser leaves behind. */
  function CutBuffer(buffer: seq<char>, words: seq<Span>, n: nat): seq<char> {
    seq(|buffer|, p requires 0 <= p < |buffer| => if EndsWord(words, n, p) then '\0' else buffer[p])
  }

  lemma CutBufferIs(before: seq<char>, after: seq<char>, words: seq<Span>, n: nat)
    requires Cut(before, after, words, n)
    ensures after == CutBuffer(before, words, n)
  {
    forall p | 0 <= p < |before| ensures after[p] == CutBuffer(before, words, n)[p] {
      if EndsWord(words, n, p) {
        var k :| 0 <= k < n && words[k].end == p;
      }
    }
  }

  /** Enter: the line goes to the history, the parser cuts up the buffer, and the next
      prompt starts with the cursor at 0 and the cut buffer still in place. */
  function Submit(e: Editor): Editor
    requires |e.buffer| == 256 && |e.current| == 256 && e.pos <= 255
  {
    var buffer := e.buffer[e.pos := '\0'];
    var line := Str(buffer);
    var history := AddLine(e.history, line);
    Editor(CutBuffer(buffer, Words(line, 0), CutCount(line)), 0, |history|, e.current[0 := '\0'],
           history, e.submitted + [line])
  }

  function Step(e: Editor, key: Key): Editor
    requires |e.buffer| == 256 && |e.current| == 256 && e.pos <= 255 && e.position <= |e.history|
  {
    match key
    case UpKey => GoUp(e)
    case DownKey => GoDown(e)
    case OtherKey => e
    case CharKey(c) =>
      if c == '\n' then Submit(e)
      else if c == BACKSPACE || c == DELETE then Erase(e)
      else Type(e, c)
  }

  // ----- every run keeps the editor well formed

  lemma SetBufferWellFormed(e: Editor, text: seq<char>)
    requires WellFormed(e)
    ensures WellFormed(SetBuffer(e, text))
  {
    var n := if |text| <= 255 then |text| else 255;
    assert SetBuffer(e, text).buffer[n] == '\0';
  }

  lemma SubmitWellFormed(e: Editor)
    requires WellFormed(e)
    ensures WellFormed(Submit(e))
  {
    var e' := Submit(e);
    var buffer := e.buffer[e.pos := '\0'];
    assert buffer[e.pos] == '\0';
    StrEnds(buffer);
    assert e'.buffer[e.pos] == '\0';
    assert e'.current[0] == '\0';
    assert e'.submitted[..|e.submitted|] == e.submitted;
  }

  lemma StepWellFormed(e: Editor, key: Key)
    requires WellFormed(e)
    ensures WellFormed(Step(e, key))
  {
    match key
    case UpKey =>
      if e.position > 0 {
        var e' := e.(current := if e.position == |e.history| then e.buffer else e.current,
                     position := e.position - 1);
        SetBufferWellFormed(e', e.history[e.position - 1]);
      }
    case DownKey =>
      if e.position < |e.history| {
        SetBufferWellFormed(e.(position := e.position + 1),
                            if e.position + 1 == |e.history| then Str(e.current) else e.history[e.position + 1]);
      }
    case OtherKey =>
    case CharKey(c) =>
      if c == '\n' {
        SubmitWellFormed(e);
      } else if c == BACKSPACE || c == DELETE {
        assert e.pos > 0 ==> Erase(e).buffer[e.pos - 1] == '\0';
      } else {
        assert e.pos < 255 ==> Type(e, c).buffer[e.pos + 1] == '\0';
      }
  }

  function RunKeys(e: Editor, keys: seq<Key>): (r: Editor)
    requires WellFormed(e)
    ensures WellFormed(r)
  {
    if keys == [] then e
    else
      var before := RunKeys(e, keys[..|keys| - 1]);
      StepWellFormed(before, keys[|keys| - 1]);
      Step(before, keys[|keys| - 1])
  }

  lemma LastKey(e: Editor, keys: seq<Key>, key: Key)
    requires WellFormed(e)
    ensures RunKeys(e, keys + [key]) == Step(RunKeys(e, keys), key)
  {
    assert (keys + [key])[..|keys|] == keys;
  }

  /** The shell at its start: zeroed buffers, no history. */
  function Fresh(): Editor {
    Editor(seq(256, _ => '\0'), 0, 0, seq(256, _ => '\0'), [], [])
  }

  /** Whatever is typed: the cursor leaves room for the NUL, and the history holds the
      newest 32 accepted ones of the submitted lines. */
  lemma Session(keys: seq<Key>)
    ensures WellFormed(Fresh())
    ensures var e := RunKeys(Fresh(), keys);
            && e.pos <= 255 && |e.buffer| == 256 && Terminated(e.buffer)
            && e.history == Keep32(Accepted(e.submitted))
  {
    var start := Fresh();
    assert start.buffer[0] == '\0' && start.current[0] == '\0';
    HistoryMeaning(RunKeys(Fresh(), keys).submitted);
  }

  // ----- what is typed is what is submitted

  /** What stands before the cursor. */
  function Draft(e: Editor): seq<char>
    requires e.pos <= |e.buffer|
  {
    e.buffer[..e.pos]
  }

  predicate Erases(c: char) {
    c == BACKSPACE || c == DELETE
  }

  /** A draft after characters were typed: an erasing one takes back the last, the
      others are added while there is room for 255. */
  function Typed(draft: seq<char>, text: seq<char>): seq<char> {
    if text == [] then draft
    else
      var before, c := Typed(draft, text[..|text| - 1]), text[|text| - 1];
      if Erases(c) then (if before == [] then [] else before[..|before| - 1])
      else if |before| < 255 then before + [c]
      else before
  }

  function Keys(text: seq<char>): (keys: seq<Key>)
    ensures |keys| == |text| && forall i :: 0 <= i < |text| ==> keys[i] == CharKey(text[i])
  {
    seq(|text|, i requires 0 <= i < |text| => CharKey(text[i]))
  }

  /** After an effective edit the NUL is at the cursor. */
  lemma TerminatedAtCursor(e: Editor, c: char)
    requires WellFormed(e) && c != '\n'
    ensures var t := Step(e, CharKey(c)); t != e ==> t.pos < |t.buffer| && t.buffer[t.pos] == '\0'
  {
  }

  lemma OneCharacter(e: Editor, c: char)
    requires WellFormed(e) && c != '\n'
    ensures var t := Step(e, CharKey(c));
            && WellFormed(t) && t.history == e.history && t.submitted == e.submitted
            && (t == e || t.position == |t.history|)
            && (t == e || Str(t.buffer) == Str(Draft(t)))
            && Draft(t) == if !Erases(c) then (if |Draft(e)| < 255 then Draft(e) + [c] else Draft(e))
                           else if Draft(e) == [] then [] else Draft(e)[..|Draft(e)| - 1]
  {
    StepWellFormed(e, CharKey(c));
    TerminatedAtCursor(e, c);
    var t := Step(e, CharKey(c));
    hide Str, Terminated, AddAll;
    if t != e {
      DraftString(t.buffer, t.pos);
      assert t.buffer[t.pos := '\0'] == t.buffer;
    }
  }

  /** Typing edits what stands before the cursor, be it empty, a draft or a line of the
      history. The history stays, an edited line of it becomes the draft, and an edited
      buffer's string is the draft up to its first NUL. */
  lemma {:induction false} TypingEditsDraft(e: Editor, text: seq<char>)
    requires WellFormed(e) && '\n' !in text
    ensures var t := RunKeys(e, Keys(text));
            && Draft(t) == Typed(Draft(e), text)
            && t.history == e.history && t.submitted == e.submitted
            && (t == e || t.position == |t.history|)
            && (t == e || Str(t.buffer) == Str(Draft(t)))
    decreases |text|
  {
    hide Step, WellFormed, Draft, Erases;
    if text != [] {
      var front, c := text[..|text| - 1], text[|text| - 1];
      TypingEditsDraft(e, front);
      assert Keys(text) == Keys(front) + [CharKey(c)];
      LastKey(e, Keys(front), CharKey(c));
      OneCharacter(RunKeys(e, Keys(front)), c);
    } else {
      assert Keys(text) == [];
    }
  }

  lemma DraftString(buffer: seq<char>, pos: nat)
    requires pos < |buffer|
    ensures Str(buffer[pos := '\0']) == Str(buffer[..pos])
  {
    var line, draft := buffer[pos := '\0'], buffer[..pos];
    var s := Str(draft);
    hide Str;
    assert line[|s|] == '\0';
    forall i | 0 <= i < |s| ensures line[i] == s[i] != '\0' {
    }
    StrIs(line, |s|);
  }

  lemma SubmitsDraft(e: Editor)
    requires WellFormed(e)
    ensures Submit(e).submitted == e.submitted + [Str(Draft(e))]
  {
    DraftString(e.buffer, e.pos);
  }

  /** Enter after any typing: the line that reaches the history and the parser is the
      edited draft, up to its first NUL. */
  lemma TypedLineSubmitted(e: Editor, text: seq<char>)
    requires WellFormed(e) && '\n' !in text
    ensures RunKeys(e, Keys(text) + [CharKey('\n')]).submitted == e.submitted + [Str(Typed(Draft(e), text))]
  {
    LastKey(e, Keys(text), CharKey('\n'));
    TypingEditsDraft(e, text);
    SubmitsDraft(RunKeys(e, Keys(text)));
  }

  // ----- browsing up and down

  function Ups(e: Editor, k: nat): (r: Editor)
    requires |e.buffer| == 256 && e.position <= |e.history|
    ensures |r.buffer| == 256 && r.position <= |r.history| && r.history == e.history
    ensures e.pos <= 255 ==> r.pos <= 255
  {
    if k == 0 then e else GoUp(Ups(e, k - 1))
  }

  function Downs(e: Editor, k: nat): (r: Editor)
    requires |e.buffer| == 256 && e.position <= |e.history|
    ensures |r.buffer| == 256 && r.position <= |r.history| && r.history == e.history
    ensures e.pos <= 255 ==> r.pos <= 255
  {
    if k == 0 then e else GoDown(Downs(e, k - 1))
  }

  /** Going up from a fresh line puts its buffer aside, once. */
  lemma {:induction false} UpsMeaning(e: Editor, k: nat)
    requires |e.buffer| == 256 && e.position == |e.history| && e.history != [] && k > 0
    ensures var u := Ups(e, k);
            && u.position == (if k < |e.history| then |e.history| - k else 0)
            && u.current == e.buffer
  {
    if k > 1 {
      UpsMeaning(e, k - 1);
    } else {
      assert Ups(e, 0) == e;
    }
  }

  /** A line of the history that is shown, with the cursor at its end. */
  ghost predicate Shows(e: Editor, line: seq<char>) {
    |e.buffer| == 256 && e.pos == |line| <= 255 && Draft(e) == line && Str(e.buffer) == line
  }

  lemma SetBufferShows(e: Editor, line: seq<char>)
    requires |e.buffer| == 256 && |line| <= 255 && '\0' !in line
    ensures Shows(SetBuffer(e, line), line)
  {
    var t := SetBuffer(e, line);
    forall i | 0 <= i < |line| ensures t.buffer[i] == line[i] != '\0' {
      assert line[i] in line;
    }
    StrIs(t.buffer, |line|);
  }

  predicate Lines(history: seq<seq<char>>) {
    forall i :: 0 <= i < |history| ==> |history[i]| <= 255 && '\0' !in history[i]
  }

  lemma UpShows(e: Editor)
    requires |e.buffer| == 256 && 0 < e.position <= |e.history| && Lines(e.history)
    ensures Shows(GoUp(e), e.history[e.position - 1])
  {
    hide Shows, SetBuffer;
    var saved := e.(current := if e.position == |e.history| then e.buffer else e.current, position := e.position - 1);
    SetBufferShows(saved, e.history[e.position - 1]);
  }

  lemma DownShows(e: Editor)
    requires |e.buffer| == 256 && e.position + 1 < |e.history| && Lines(e.history)
    ensures Shows(GoDown(e), e.history[e.position + 1])
  {
    hide Shows, SetBuffer;
    SetBufferShows(e.(position := e.position + 1), e.history[e.position + 1]);
  }

  /** k steps up from a fresh line show the k-th newest line of the history, the oldest
      when there are not as many. */
  lemma {:induction false} UpsShow(e: Editor, k: nat)
    requires |e.buffer| == 256 && Lines(e.history)
    requires e.position == |e.history| && e.history != [] && k > 0
    ensures Shows(Ups(e, k), e.history[if k <= |e.history| then |e.history| - k else 0])
  {
    hide Shows, GoUp;
    if k > 1 {
      UpsMeaning(e, k - 1);
      UpsShow(e, k - 1);
    }
    var before := Ups(e, k - 1);
    if before.position > 0 {
      UpShows(before);
    } else {
      TopStays(before);
    }
  }

  lemma TopStays(e: Editor)
    requires |e.buffer| == 256 && e.position == 0
    ensures GoUp(e) == e
  {
  }

  /** k steps down from inside the history show the line k places on, as long as there is
      one. */
  lemma DownsShow(u: Editor, k: nat)
    requires |u.buffer| == 256 && |u.current| == 256 && Terminated(u.current) && Lines(u.history)
    requires 0 < k && u.position + k < |u.history|
    ensures Shows(Downs(u, k), u.history[u.position + k])
  {
    hide Shows, GoDown;
    DownsMeaning(u, k - 1);
    DownShows(Downs(u, k - 1));
  }

  /** Going down from inside the history reaches the fresh line and shows what was put
      aside; further downs do nothing. */
  lemma {:induction false} DownsMeaning(u: Editor, k: nat)
    requires |u.buffer| == 256 && |u.current| == 256 && Terminated(u.current) && u.position < |u.history|
    ensures var d := Downs(u, k);
            && d.current == u.current
            && d.position == (if u.position + k < |u.history| then u.position + k else |u.history|)
            && (u.position + k >= |u.history| ==>
                 d.pos == |Str(u.current)| && d.pos <= 255 && Draft(d) == Str(u.current))
  {
    if k > 0 {
      DownsMeaning(u, k - 1);
      StrEnds(u.current);
    }
  }

  /** k times up and k times down bring back the draft and the cursor, for every k, when
      the buffer's string ends at the cursor; otherwise only when nothing moves. */
  lemma UpDownRestores(e: Editor, k: nat)
    requires WellFormed(e) && e.position == |e.history|
    ensures var f := Downs(Ups(e, k), k);
            && f.position == e.position && f.pos <= 255
            && (f.pos == e.pos && Draft(f) == Draft(e)
                <==> k == 0 || e.history == [] || |Str(e.buffer)| == e.pos)
  {
    if k > 0 && e.history != [] {
      UpsMeaning(e, k);
      DownsMeaning(Ups(e, k), k);
    } else if k > 0 {
      NothingToBrowse(e, k);
      NothingToBrowse(Ups(e, k), k);
    }
  }

  lemma {:induction false} NothingToBrowse(e: Editor, k: nat)
    requires |e.buffer| == 256 && e.history == [] && e.position == 0
    ensures Ups(e, k) == e && Downs(e, k) == e
  {
    if k > 0 {
      NothingToBrowse(e, k - 1);
    }
  }

  /** What is left of a line in the buffer after the parser cut out its words: the line
      up to the end of its first word. */
  function Stale(line: seq<char>): seq<char> {
    if Words(line, 0) == [] then line else line[..Words(line, 0)[0].end]
  }

  /** The string at the start of the buffer that the parser leaves. */
  lemma CutString(buffer: seq<char>)
    requires Terminated(buffer)
    ensures var line := Str(buffer);
            |Stale(line)| <= |line| < |buffer|
            && Str(CutBuffer(buffer, Words(line, 0), CutCount(line))) == Stale(line)
  {
    StrEnds(buffer);
    var line := Str(buffer);
    WordsExact(line, 0);
    var words := Words(line, 0);
    var after := CutBuffer(buffer, words, CutCount(line));
    hide Words, Str, CutBuffer;
    var n := if words == [] then |line| else words[0].end;
    assert words != [] ==> words[0] in words && IsWord(line, words[0]);
    assert EndsWord(words, CutCount(line), n) || buffer[n] == '\0';
    forall p | 0 <= p < n ensures after[p] == line[p] {
      forall k | 0 <= k < CutCount(line) ensures words[k].end != p {
        assert words[k] in words && IsWord(line, words[k]);
      }
    }
    StrIs(after, n);
  }

  /** The prompt after a line was submitted starts with the cursor at 0 and its history
      at the newest line; yet any number of steps up and as many down then put the
      submitted line, up to the end of its first word, before the cursor. */
  lemma FreshPromptShowsStaleCommand(e: Editor, k: nat)
    requires WellFormed(e) && k > 0
    ensures WellFormed(Submit(e))
    ensures var s := Submit(e);
            s.pos == 0 && s.position == |s.history| && Draft(Downs(Ups(s, k), k)) == Stale(Str(Draft(e)))
  {
    SubmitWellFormed(e);
    var s := Submit(e);
    var buffer := e.buffer[e.pos := '\0'];
    assert buffer[e.pos] == '\0';
    DraftString(e.buffer, e.pos);
    CutString(buffer);
    hide Words, CutBuffer;
    if s.history == [] {
      NothingToBrowse(s, k);
      NothingToBrowse(Ups(s, k), k);
      WordsOfNothing();
    } else {
      UpsMeaning(s, k);
      DownsMeaning(Ups(s, k), k);
    }
  }

  lemma WordsOfNothing()
    ensures Stale([]) == []
  {
  }
}
