/** The shell's history ring and line editor (src/shell.c) as they are: fixed buffers
    changed in place. */
module Shell {
  import opened Basics
  import opened KString
  import opened CommandLine
  import opened ShellModel

  function Row(history: seq<char>, r: nat): seq<char>
    requires r < 32 && |history| == 8192
  {
    history[r * 256..r * 256 + 256]
  }

  /** Row r of the history buffer has `line`. */
  ghost predicate RowHolds(history: seq<char>, r: nat, line: seq<char>) {
    r < 32 && |history| == 8192 && Terminated(Row(history, r)) && Str(Row(history, r)) == line
  }

  /** A string that ends inside a part is the string of the whole. */
  lemma StringOfPrefix(s: seq<char>, n: nat)
    requires n <= |s| && Terminated(s[..n])
    ensures Terminated(s) && Str(s) == Str(s[..n]) && |Str(s)| < n
  {
    StrEnds(s[..n]);
    var k := |Str(s[..n])|;
    assert s[k] == s[..n][k] == '\0';
    forall i | 0 <= i < k ensures s[i] != '\0' {
      assert s[i] == Str(s[..n])[i];
    }
    StrIs(s, k);
  }

  /** The row of the p-th oldest of `count` lines. */
  function RowOf(head: nat, count: nat, p: nat): nat
    requires count <= 32
  {
    (head + 32 - count + p) % 32
  }

  /** The rows before `head`, around the ring, are the lines. */
  ghost predicate RingHolds(rows: seq<seq<char>>, head: nat, lines: seq<seq<char>>) {
    && |rows| == 32 && head < 32 && |lines| <= 32
    && forall p :: 0 <= p < |lines| ==> rows[RowOf(head, |lines|, p)] == lines[p]
  }

  /** Filling the row at `head` adds the newest line, and drops the oldest of 32. */
  lemma RingFilled(rows: seq<seq<char>>, head: nat, lines: seq<seq<char>>, text: seq<char>)
    requires RingHolds(rows, head, lines)
    ensures RingHolds(rows[head := text], (head + 1) % 32, Keep32(lines + [text]))
  {
    var next := Keep32(lines + [text]);
    forall p | 0 <= p < |next| ensures rows[head := text][RowOf((head + 1) % 32, |next|, p)] == next[p] {
      RowsMove(head, |lines|, |next|, p);
    }
  }

  /** Which row the p-th oldest line is in, before and after a line was added. */
  lemma RowsMove(head: nat, count: nat, next: nat, p: nat)
    requires head < 32 && count <= 32 && next == (if count < 32 then count + 1 else 32) && p < next
    ensures p == next - 1 ==> RowOf((head + 1) % 32, next, p) == head
    ensures p < next - 1 ==>
              RowOf((head + 1) % 32, next, p) == RowOf(head, count, p + count + 1 - next) != head
  {
  }

  lemma RowString(history: seq<char>, r: nat, line: seq<char>)
    requires RowHolds(history, r, line)
    ensures Terminated(history[r * 256..]) && Str(history[r * 256..]) == line
  {
    assert history[r * 256..][..256] == Row(history, r);
    StringOfPrefix(history[r * 256..], 256);
  }

  /** Writing a NUL after the string changes nothing. */
  lemma StringKept(buffer: seq<char>, n: nat)
    requires Terminated(buffer) && n < |buffer| && |Str(buffer)| <= n
    ensures Terminated(buffer[n := '\0']) && Str(buffer[n := '\0']) == Str(buffer)
  {
    StrEnds(buffer);
    var k := |Str(buffer)|;
    var after := buffer[n := '\0'];
    forall i | 0 <= i < k ensures after[i] != '\0' {
      assert after[i] == Str(buffer)[i];
    }
    assert after[k] == '\0';
    StrIs(after, k);
  }

  class Editing {
    const cmdBuffer: array<char>
    const currentLine: array<char>
    const history: array<char>
    var historyHead: nat
    var historyCount: nat
    var pos: nat
    var historyPosition: nat
    ghost var model: Editor
    /** The strings in the 32 rows. */
    ghost var rows: seq<seq<char>>

    /** The rows of the ring, from the oldest on, are the history. */
    ghost predicate Ring()
      reads `historyHead, `historyCount, `model, `rows, history
    {
      historyCount == |model.history| && RingHolds(rows, historyHead, model.history) && RowsHeld()
    }

    ghost predicate Linked()
      reads this, cmdBuffer, currentLine, history
    {
      && cmdBuffer != currentLine && cmdBuffer != history && currentLine != history
      && cmdBuffer.Length == 256 && currentLine.Length == 256
      && model.buffer == cmdBuffer[..] && model.current == currentLine[..]
      && model.pos == pos && model.position == historyPosition
      && Ring()
    }

    ghost predicate Valid()
      reads this, cmdBuffer, currentLine, history
    {
      Linked() && WellFormed(model)
    }

    constructor ()
      ensures Valid() && model == Fresh()
    {
      cmdBuffer := new char[256](_ => '\0');
      currentLine := new char[256](_ => '\0');
      history := new char[8192](_ => '\0');
      historyHead, historyCount, pos, historyPosition := 0, 0, 0, 0;
      model := Fresh();
      rows := seq(32, _ => []);
      new;
      Session([]);
      forall r | 0 <= r < 32 ensures RowHolds(history[..], r, []) {
        assert Row(history[..], r)[0] == '\0';
      }
      assert cmdBuffer[..] == model.buffer && currentLine[..] == model.current;
    }

    // ----- history

    /** Where the string of the `position`-th oldest line starts. */
    method HistoryGet(position: nat) returns (at: nat)
      requires Ring() && position < historyCount
      ensures at <= history.Length && Terminated(history[at..])
      ensures Str(history[at..]) == model.history[position]
    {
      hide Str, Row;
      var oldest := (historyHead + 32 - historyCount) % 32;
      var index := (oldest + position) % 32;
      assert index == RowOf(historyHead, historyCount, position);
      at := index * 256;
      RowString(history[..], index, rows[index]);
    }

    /** Adds the buffer's line unless it is empty or repeats the newest. */
    method HistoryAdd(line: array<char>)
      requires Ring() && line != history && line.Length == 256 && Terminated(line[..])
      modifies `historyHead, `historyCount, `model, `rows, history
      ensures Ring() && model == old(model).(history := AddLine(old(model.history), Str(line[..])))
    {
      hide Str, RowHolds, RingHolds, Keep32, Less;
      if line[0] == '\0' {
        return;
      }
      if historyCount > 0 {
        var last := HistoryGet(historyCount - 1);
        assert line[0..] == line[..];
        var diff := StrCmp(history, last, line, 0);
        if diff == 0 {
          return;
        }
      }
      AppendRow(line);
    }

    /** The copy into the ring's next row. */
    method AppendRow(line: array<char>)
      requires Ring() && line != history && line.Length == 256 && Terminated(line[..])
      modifies `historyHead, `historyCount, `model, `rows, history
      ensures Ring() && model == old(model).(history := Keep32(old(model.history) + [Str(line[..])]))
    {
      hide Str, Row, RowHolds;
      RingFilled(rows, historyHead, model.history, Str(line[..]));
      model := model.(history := Keep32(model.history + [Str(line[..])]));
      CopyRow(line);
      historyHead := (historyHead + 1) % 32;
      if historyCount < 32 {
        historyCount := historyCount + 1;
      }
    }

    ghost predicate RowsHeld()
      reads `rows, history
    {
      history.Length == 8192 && |rows| == 32 && forall r :: 0 <= r < 32 ==> RowHolds(history[..], r, rows[r])
    }

    /** The two writes of an addition. */
    method CopyRow(line: array<char>)
      requires historyHead < 32 && RowsHeld()
      requires line != history && line.Length == 256 && Terminated(line[..])
      modifies `rows, history
      ensures RowsHeld() && rows == old(rows)[historyHead := Str(line[..])]
    {
      ghost var before := history[..];
      StrEnds(line[..]);
      StringKept(line[..], 255);
      hide Str;
      MemCpy(history, historyHead * 256, line, 0, 256);
      history[historyHead * 256 + 255] := '\0';
      rows := rows[historyHead := Str(line[..])];
      assert Row(history[..], historyHead) == line[..][255 := '\0'];
      forall r | 0 <= r < 32 && r != historyHead ensures RowHolds(history[..], r, rows[r]) {
        assert RowHolds(before, r, rows[r]);
        assert Row(history[..], r) == Row(before, r);
      }
    }

    // ----- editing

    /** Replaces what is edited by a string from another buffer. */
    method SetBufferFrom(text: array<char>, at: nat)
      requires Linked() && text != cmdBuffer && at <= text.Length && Terminated(text[at..])
      modifies cmdBuffer, `pos, `model
      ensures Linked() && model == SetBuffer(old(model), Str(text[at..]))
    {
      hide Str, RowHolds, RingHolds;
      ghost var s, before := Str(text[at..]), cmdBuffer[..];
      while pos > 0
        modifies `pos
      {
        pos := pos - 1;
      }
      CopyText(text, at);
      cmdBuffer[pos] := '\0';
      model := SetBuffer(model, s);
      assert cmdBuffer[..] == s[..pos] + ['\0'] + before[pos + 1..];
    }

    /** The copying loop: at most 255 characters. */
    method CopyText(text: array<char>, at: nat)
      requires cmdBuffer.Length == 256 && text != cmdBuffer && at <= text.Length && Terminated(text[at..])
      requires pos == 0
      modifies cmdBuffer, `pos
      ensures var s := Str(text[at..]);
              && pos == (if |s| <= 255 then |s| else 255)
              && cmdBuffer[..pos] == s[..pos] && cmdBuffer[pos..] == old(cmdBuffer[..])[pos..]
    {
      ghost var s := Str(text[at..]);
      StrEnds(text[at..]);
      hide Str;
      var i := 0;
      while text[at + i] != '\0' && i + 1 < 256
        invariant 0 <= i <= |s| && i <= 255 && pos == i
        invariant forall j :: 0 <= j < i ==> cmdBuffer[j] == s[j]
        invariant forall j :: i <= j < 256 ==> cmdBuffer[j] == old(cmdBuffer[j])
        decreases 255 - i
      {
        assert text[at..][i] == text[at + i];
        cmdBuffer[i] := text[at + i];
        pos := i + 1;
        i := i + 1;
      }
      assert text[at..][i] == text[at + i];
    }

    /** The edited buffer is put aside. */
    method SaveCurrent()
      requires Linked()
      modifies currentLine, `model
      ensures Linked() && model == old(model).(current := old(model).buffer)
    {
      MemCpy(currentLine, 0, cmdBuffer, 0, 256);
      assert currentLine[..] == cmdBuffer[..];
      model := model.(current := model.buffer);
    }

    /** Moves to line p of the history and shows it. */
    method ShowLine(p: nat)
      requires Linked() && p < historyCount
      modifies cmdBuffer, `pos, `historyPosition, `model
      ensures Linked() && model == SetBuffer(old(model).(position := p), old(model).history[p])
    {
      historyPosition := p;
      model := model.(position := p);
      var at := HistoryGet(p);
      SetBufferFrom(history, at);
    }

    method HandleUp()
      requires Linked() && historyPosition <= historyCount
      modifies cmdBuffer, currentLine, `pos, `historyPosition, `model
      ensures Linked() && model == GoUp(old(model))
    {
      hide SetBuffer, RingHolds, RowHolds, Str;
      if historyCount == 0 || historyPosition == 0 {
        return;
      }
      if historyPosition == historyCount {
        SaveCurrent();
      }
      ShowLine(historyPosition - 1);
    }

    method HandleDown()
      requires Linked() && Terminated(model.current)
      modifies cmdBuffer, `pos, `historyPosition, `model
      ensures Linked() && model == GoDown(old(model))
    {
      hide Str, RowHolds, RingHolds;
      if historyPosition >= historyCount {
        return;
      }
      if historyPosition + 1 == historyCount {
        historyPosition := historyPosition + 1;
        model := model.(position := model.position + 1);
        assert currentLine[0..] == model.current;
        SetBufferFrom(currentLine, 0);
      } else {
        ShowLine(historyPosition + 1);
      }
    }

    /** An edit of a line of the history makes it the draft. */
    method AdoptLine()
      requires Linked()
      modifies currentLine, `historyPosition, `model
      ensures Linked() && model == Adopt(old(model))
    {
      if historyPosition != historyCount {
        SaveCurrent();
        historyPosition := historyCount;
        model := model.(position := |model.history|);
      }
    }

    method PutAt(i: nat, c: char)
      requires Linked() && i < 256
      modifies cmdBuffer, `model
      ensures Linked() && model == old(model).(buffer := old(model).buffer[i := c])
    {
      cmdBuffer[i] := c;
      model := model.(buffer := model.buffer[i := c]);
    }

    method MoveTo(i: nat)
      requires Linked() && i < 256
      modifies `pos, `model
      ensures Linked() && pos == i && model == old(model).(pos := i)
    {
      pos := i;
      model := model.(pos := i);
    }

    method HandleErase()
      requires Linked() && pos <= 255 && historyPosition <= historyCount
      modifies cmdBuffer, currentLine, `pos, `historyPosition, `model
      ensures Linked() && model == ShellModel.Erase(old(model))
    {
      if pos > 0 {
        AdoptLine();
        PutAt(pos - 1, '\0');
        MoveTo(pos - 1);
      }
    }

    method HandleCharacter(c: char)
      requires Linked() && pos <= 255 && historyPosition <= historyCount
      modifies cmdBuffer, currentLine, `pos, `historyPosition, `model
      ensures Linked() && model == ShellModel.Type(old(model), c)
    {
      if pos + 1 < 256 {
        AdoptLine();
        PutAt(pos, c);
        MoveTo(pos + 1);
        PutAt(pos, '\0');
      }
    }

    /** One key of the edit loop. Enter runs up to the next prompt. */
    method HandleKey(key: Key, args: array<nat>)
      requires Valid() && args.Length >= MAX_ARGS
      modifies cmdBuffer, currentLine, history, args
      modifies `pos, `historyPosition, `historyHead, `historyCount, `rows, `model
      ensures Valid() && model == Step(old(model), key)
    {
      StepWellFormed(model, key);
      match key {
        case UpKey => HandleUp();
        case DownKey => HandleDown();
        case OtherKey =>
        case CharKey(c) =>
          if c == '\n' {
            var cmd, argc := HandleEnter(args);
          } else if c == BACKSPACE || c == DELETE {
            HandleErase();
          } else {
            HandleCharacter(c);
          }
      }
    }

    /** Enter, up to the next prompt: the history, the parser, the new line's state. */
    method HandleEnter(args: array<nat>) returns (cmd: nat, argc: nat)
      requires Linked() && pos <= 255 && args.Length >= MAX_ARGS
      modifies cmdBuffer, currentLine, history, args
      modifies `pos, `historyPosition, `historyHead, `historyCount, `rows, `model
      ensures Linked() && model == Submit(old(model))
      ensures Split(Str(Draft(old(model))), cmd, argc, args[..], cmdBuffer[..])
    {
      hide Split, CutBuffer, Words, Str, RowHolds, RingHolds, AddLine;
      DraftString(model.buffer, model.pos);
      ghost var line := Str(Draft(model));
      FinishLine();
      cmd, argc := CutLine(args);
      StartPrompt();
      model := model.(submitted := model.submitted + [line]);
    }

    /** The NUL at the cursor, and the line into the history. */
    method FinishLine()
      requires Linked() && pos <= 255
      modifies cmdBuffer, history, `historyHead, `historyCount, `rows, `model
      ensures Linked() && Terminated(model.buffer)
      ensures var buffer := old(model).buffer[old(pos) := '\0'];
              model == old(model).(buffer := buffer, history := AddLine(old(model).history, Str(buffer)))
    {
      hide Str, RowHolds, RingHolds, AddLine;
      PutAt(pos, '\0');
      assert model.buffer[pos] == '\0';
      HistoryAdd(cmdBuffer);
    }

    /** The parser on the buffer. */
    method CutLine(args: array<nat>) returns (cmd: nat, argc: nat)
      requires Linked() && Terminated(model.buffer) && args.Length >= MAX_ARGS
      modifies cmdBuffer, args, `model
      ensures Linked()
      ensures var line := Str(old(model).buffer);
              && model == old(model).(buffer := CutBuffer(old(model).buffer, Words(line, 0), CutCount(line)))
              && Split(line, cmd, argc, args[..], cmdBuffer[..])
    {
      hide Given, CutBuffer, Holds, Cut, Words, Texts, Str, RowHolds, RingHolds;
      ghost var before, line := cmdBuffer[..], Str(cmdBuffer[..]);
      HeldLine(before);
      cmd, argc := Parse(cmdBuffer, args, line);
      ParsedBuffer(before, cmdBuffer[..], line);
      if |Words(line, 0)| == 0 {
        NothingGiven(before, line, args[..]);
      } else {
        SomeGiven(before, cmdBuffer[..], line, Words(line, 0), cmd, argc, args[..]);
      }
      model := model.(buffer := cmdBuffer[..]);
    }

    method StartPrompt()
      requires Linked()
      modifies currentLine, `pos, `historyPosition, `model
      ensures Linked()
      ensures model == old(model).(pos := 0, position := |old(model).history|,
                                   current := old(model).current[0 := '\0'])
    {
      pos := 0;
      historyPosition := historyCount;
      currentLine[0] := '\0';
      model := model.(pos := 0, position := |model.history|, current := model.current[0 := '\0']);
    }
  }

  /** What execution is given of a line: the strings at `cmd` and at the first `argc` of
      `args` are the line's words in order, the first 16 after the command. */
  ghost predicate Split(line: seq<char>, cmd: nat, argc: nat, args: seq<nat>, buffer: seq<char>) {
    Given(Texts(line, 0), cmd, argc, args, buffer)
  }

  ghost predicate Given(words: seq<seq<char>>, cmd: nat, argc: nat, args: seq<nat>, buffer: seq<char>) {
    && argc <= |args| && argc == (if |words| == 0 then 0 else if |words| <= 17 then |words| - 1 else 16)
    && Holds(buffer, cmd, if |words| == 0 then [] else words[0])
    && forall k :: 0 <= k < argc ==> Holds(buffer, args[k], words[k + 1])
  }

  lemma GivenIs(words: seq<seq<char>>, spans: seq<Span>, cmd: nat, argc: nat, args: seq<nat>, buffer: seq<char>)
    requires |words| == |spans| > 0 && cmd == spans[0].start && argc <= |args|
    requires argc == if |words| <= 17 then |words| - 1 else 16
    requires forall k :: 0 <= k < argc ==> args[k] == spans[k + 1].start
    requires forall k :: 0 <= k < argc + 1 ==> Holds(buffer, spans[k].start, words[k])
    ensures Given(words, cmd, argc, args, buffer)
  {
    hide Holds;
    forall k | 0 <= k < argc ensures Holds(buffer, args[k], words[k + 1]) {
      assert Holds(buffer, spans[k + 1].start, words[k + 1]);
    }
  }

  lemma SomeGiven(before: seq<char>, after: seq<char>, line: seq<char>, words: seq<Span>,
                  cmd: nat, argc: nat, args: seq<nat>)
    requires Holds(before, 0, line) && words == Words(line, 0) && |words| > 0
    requires argc == (if |words| <= 17 then |words| - 1 else 16) <= |args| && cmd == words[0].start
    requires forall k :: 0 <= k < argc ==> args[k] == words[k + 1].start
    requires Cut(before, after, words, argc + 1)
    ensures Given(Texts(line, 0), cmd, argc, args, after)
  {
    hide Words, Texts, Holds, Cut, Given;
    WordsHeld(line, before, after, argc + 1);
    GivenIs(Texts(line, 0), words, cmd, argc, args, after);
  }

  lemma NothingGiven(buffer: seq<char>, line: seq<char>, args: seq<nat>)
    requires Holds(buffer, 0, line) && |Words(line, 0)| == 0
    ensures Given(Texts(line, 0), |line|, 0, args, buffer)
  {
    hide Words, Texts;
    assert |Texts(line, 0)| == 0;
  }

  /** All words that were cut. */
  lemma WordsHeld(line: seq<char>, before: seq<char>, after: seq<char>, n: nat)
    requires Holds(before, 0, line) && Cut(before, after, Words(line, 0), n) && n <= |Words(line, 0)|
    ensures forall k :: 0 <= k < n ==> Holds(after, Words(line, 0)[k].start, Texts(line, 0)[k])
  {
    hide Words, Texts, Holds, Cut;
    forall k | 0 <= k < n ensures Holds(after, Words(line, 0)[k].start, Texts(line, 0)[k]) {
      WordHeld(line, before, after, n, k);
    }
  }

  lemma WordHeld(line: seq<char>, before: seq<char>, after: seq<char>, n: nat, k: nat)
    requires Holds(before, 0, line) && Cut(before, after, Words(line, 0), n) && k < n <= |Words(line, 0)|
    ensures Holds(after, Words(line, 0)[k].start, Texts(line, 0)[k])
  {
    hide Words, Holds, Cut;
    CutHolds(line, before, after, n, k);
  }

  lemma HeldLine(buffer: seq<char>)
    requires Terminated(buffer)
    ensures Holds(buffer, 0, Str(buffer))
  {
    StrEnds(buffer);
  }

  /** What the parser's contract says of the buffer, as a function. */
  lemma ParsedBuffer(before: seq<char>, after: seq<char>, line: seq<char>)
    requires |after| == |before|
    requires var words := Words(line, 0);
             if words == [] then after == before else Cut(before, after, words, CutCount(line))
    ensures after == CutBuffer(before, Words(line, 0), CutCount(line))
  {
    var words := Words(line, 0);
    if words == [] {
      assert Cut(before, after, words, 0);
    }
    CutBufferIs(before, after, words, CutCount(line));
  }
}
