/** Command lines (src/shell.c): their words, how the shell cuts them out of its buffer
    in place, and how `echo` joins them again. */
module CommandLine {
  const MAX_ARGS: nat := 16

  datatype Span = Span(start: nat, end: nat)

  // ----- the words of a line

  /** Where the spaces at i end. */
  function SkipSpaces(s: seq<char>, i: nat): (r: nat)
    requires i <= |s|
    ensures i <= r <= |s| && (r < |s| ==> s[r] != ' ')
    ensures forall k :: i <= k < r ==> s[k] == ' '
    decreases |s| - i
  {
    if i < |s| && s[i] == ' ' then SkipSpaces(s, i + 1) else i
  }

  /** Where the word at i ends. */
  function WordEnd(s: seq<char>, i: nat): (r: nat)
    requires i <= |s|
    ensures i <= r <= |s| && (r < |s| ==> s[r] == ' ')
    ensures forall k :: i <= k < r ==> s[k] != ' '
    decreases |s| - i
  {
    if i < |s| && s[i] != ' ' then WordEnd(s, i + 1) else i
  }

  /** The words from position i on, left to right. */
  function Words(s: seq<char>, i: nat): seq<Span>
    requires i <= |s|
    decreases |s| - i
  {
    var b := SkipSpaces(s, i);
    if b == |s| then [] else [Span(b, WordEnd(s, b))] + Words(s, WordEnd(s, b))
  }

  function Text(s: seq<char>, w: Span): seq<char> {
    if w.start <= w.end <= |s| then s[w.start..w.end] else []
  }

  /** A maximal stretch without spaces. */
  predicate IsWord(s: seq<char>, w: Span) {
    && w.start < w.end <= |s|
    && (forall k :: w.start <= k < w.end ==> s[k] != ' ')
    && (w.start == 0 || s[w.start - 1] == ' ')
    && (w.end == |s| || s[w.end] == ' ')
  }

  /** No word but the first starts before the first one ends. */
  lemma FirstWord(s: seq<char>, i: nat, w: Span)
    requires i <= |s| && (i == 0 || i == |s| || s[i] == ' ' || s[i - 1] == ' ')
    requires var b := SkipSpaces(s, i); b < |s| && IsWord(s, w) && i <= w.start < WordEnd(s, b)
    ensures w == Span(SkipSpaces(s, i), WordEnd(s, SkipSpaces(s, i)))
  {
    assert s[w.start] != ' ';
  }

  lemma FirstIsWord(s: seq<char>, i: nat)
    requires i <= |s| && (i == 0 || i == |s| || s[i] == ' ' || s[i - 1] == ' ')
    requires SkipSpaces(s, i) < |s|
    ensures IsWord(s, Span(SkipSpaces(s, i), WordEnd(s, SkipSpaces(s, i))))
  {
    var b := SkipSpaces(s, i);
    assert b > i ==> s[b - 1] == ' ';
  }

  lemma {:induction false} WordsAre(s: seq<char>, i: nat)
    requires i <= |s| && (i == 0 || i == |s| || s[i] == ' ' || s[i - 1] == ' ')
    ensures forall w :: w in Words(s, i) <==> IsWord(s, w) && w.start >= i
    decreases |s| - i
  {
    hide SkipSpaces, WordEnd;
    var b := SkipSpaces(s, i);
    if b < |s| {
      var first := Span(b, WordEnd(s, b));
      WordsAre(s, WordEnd(s, b));
      FirstIsWord(s, i);
      forall w | IsWord(s, w) && i <= w.start < first.end ensures w == first {
        FirstWord(s, i, w);
      }
    } else {
      forall w | IsWord(s, w) ensures w.start < i {
        assert s[w.start] != ' ';
      }
    }
  }

  /** The words found are exactly the maximal stretches without spaces, in order. */
  lemma {:induction false} WordsExact(s: seq<char>, i: nat)
    requires i <= |s| && (i == 0 || i == |s| || s[i] == ' ' || s[i - 1] == ' ')
    ensures forall w :: w in Words(s, i) <==> IsWord(s, w) && w.start >= i
    ensures forall j, k :: 0 <= j < k < |Words(s, i)| ==> Words(s, i)[j].end < Words(s, i)[k].start
    decreases |s| - i
  {
    WordsAre(s, i);
    hide SkipSpaces, WordEnd;
    var b := SkipSpaces(s, i);
    if b < |s| {
      var rest := Words(s, WordEnd(s, b));
      WordsExact(s, WordEnd(s, b));
      hide IsWord;
      forall w | w in rest ensures WordEnd(s, b) < w.start {
        WordStartsAfter(s, WordEnd(s, b), w);
      }
      forall k | 0 < k < |Words(s, i)| ensures Words(s, i)[k] == rest[k - 1] && rest[k - 1] in rest {
      }
    }
  }

  lemma WordStartsAfter(s: seq<char>, i: nat, w: Span)
    requires i <= |s| && (i < |s| ==> s[i] == ' ') && IsWord(s, w) && w.start >= i
    ensures w.start > i
  {
    assert s[w.start] != ' ';
  }

  /** Words may be looked for from the space after a word as well as from its end. */
  lemma WordsAfterSpace(s: seq<char>, i: nat)
    requires i < |s| && s[i] == ' '
    ensures Words(s, i) == Words(s, i + 1)
  {
  }

  // ----- cutting in place

  /** The buffer has `text`, without a NUL in it, and then a NUL, from `at` on. */
  ghost predicate Holds(buffer: seq<char>, at: nat, text: seq<char>) {
    && at + |text| < |buffer|
    && (forall k :: 0 <= k < |text| ==> buffer[at + k] == text[k] && text[k] != '\0')
    && buffer[at + |text|] == '\0'
  }

  /** The buffer after the first n words were cut out: a NUL in place of the space that
      ended each of them. */
  predicate Cut(before: seq<char>, after: seq<char>, words: seq<Span>, n: nat) {
    && |after| == |before| && n <= |words|
    && (forall k :: 0 <= k < n && words[k].end < |before| ==> after[words[k].end] == '\0')
    && (forall p :: 0 <= p < |before| && (forall k :: 0 <= k < n ==> words[k].end != p) ==> after[p] == before[p])
  }

  /** Splits the line in place: `cmd` and the first `argc` of `args` are where the
      command and the arguments start. */
  method Parse(input: array<char>, args: array<nat>, ghost line: seq<char>) returns (cmd: nat, argc: nat)
    requires Holds(input[..], 0, line) && args.Length >= MAX_ARGS
    modifies input, args
    ensures var words := Words(line, 0);
            if words == [] then cmd == |line| && argc == 0 && input[..] == old(input[..])
            else
              && argc == (if |words| - 1 < MAX_ARGS then |words| - 1 else MAX_ARGS)
              && cmd == words[0].start
              && (forall k :: 0 <= k < argc ==> args[k] == words[k + 1].start)
              && Cut(old(input[..]), input[..], words, argc + 1)
  {
    hide Words, SkipSpaces;
    ghost var words, before := Words(line, 0), input[..];
    WordsFromStart(line, 0);
    WordsFromStart(line, |line|);
    argc := 0;
    cmd := SkipInput(input, 0, line);
    var i := TakeWord(input, cmd, line, before, words, 0);
    assert words == words[0..];
    while input[i] != '\0' && argc < MAX_ARGS
      invariant Parsed(input[..], args[..], line, before, words, i, argc)
      decreases MAX_ARGS - argc
    {
      var more;
      i, more := ParseArg(input, args, i, argc, line, before, words);
      if !more {
        break;
      }
      argc := argc + 1;
    }
  }

  /** What holds between two arguments. */
  ghost predicate Parsed(input: seq<char>, args: seq<nat>, line: seq<char>, before: seq<char>,
                         words: seq<Span>, i: nat, argc: nat)
  {
    && i <= |line| && argc <= MAX_ARGS <= |args| && Original(input, before, line, i)
    && (words == [] ==> argc == 0 && i == |line| && input == before)
    && (words != [] ==>
         && argc + 1 <= |words| && words[argc + 1..] == Words(line, i)
         && Cut(before, input, words, argc + 1))
    && forall k :: 0 <= k < argc ==> args[k] == words[k + 1].start
  }

  /** The body of the argument loop; `more` is false when only spaces were left. */
  method ParseArg(input: array<char>, args: array<nat>, start: nat, argc: nat,
                  ghost line: seq<char>, ghost before: seq<char>, ghost words: seq<Span>)
    returns (i: nat, more: bool)
    requires Parsed(input[..], args[..], line, before, words, start, argc)
    requires start < |line| && argc < MAX_ARGS
    modifies input, args
    ensures Parsed(input[..], args[..], line, before, words, i, if more then argc + 1 else argc)
    ensures !more ==> i == |line|
  {
    i := SkipInput(input, start, line);
    if input[i] == '\0' {
      return i, false;
    }
    more := true;
    args[argc] := i;
    WordsFromStart(line, start);
    i := TakeWord(input, i, line, before, words, argc + 1);
  }

  lemma WordsFromStart(s: seq<char>, i: nat)
    requires i <= |s|
    ensures SkipSpaces(s, SkipSpaces(s, i)) == SkipSpaces(s, i)
    ensures Words(s, SkipSpaces(s, i)) == Words(s, i)
    ensures SkipSpaces(s, i) == |s| <==> Words(s, i) == []
  {
  }

  /** From position i on the buffer is as it was: the rest of the line, and a NUL. */
  ghost predicate Original(input: seq<char>, before: seq<char>, line: seq<char>, i: nat) {
    && |input| == |before| && Holds(before, 0, line)
    && forall p :: i <= p < |before| ==> input[p] == before[p]
  }

  /** Scans over word n, which starts here, and cuts it off when a space ends it. */
  method TakeWord(input: array<char>, start: nat, ghost line: seq<char>,
                  ghost before: seq<char>, ghost words: seq<Span>, ghost n: nat) returns (i: nat)
    requires start <= |line| && Original(input[..], before, line, start)
    requires n <= |words| && SkipSpaces(line, start) == start && Words(line, start) == words[n..]
    requires Cut(before, input[..], words, n)
    modifies input
    ensures start <= i <= |line| && Original(input[..], before, line, i)
    ensures start == |line| ==> i == |line| && input[..] == old(input[..])
    ensures start < |line| ==>
              i > start && n < |words| && words[n].start == start
              && words[n + 1..] == Words(line, i) && Cut(before, input[..], words, n + 1)
  {
    i := ScanWord(input, start, line);
    if start < |line| {
      WordTaken(line, start, words, n);
    }
    hide Words, SkipSpaces, WordEnd;
    if input[i] != '\0' {
      input[i] := '\0';
      i := i + 1;
    }
  }

  /** The first of the remaining words, and the others. */
  lemma WordTaken(line: seq<char>, start: nat, words: seq<Span>, n: nat)
    requires start < |line| && SkipSpaces(line, start) == start
    requires n <= |words| && Words(line, start) == words[n..]
    ensures var e := WordEnd(line, start);
            && n < |words| && words[n] == Span(start, e) && e > start
            && words[n + 1..] == Words(line, e)
            && (e < |line| ==> words[n + 1..] == Words(line, e + 1))
  {
    assert words[n] == words[n..][0] && words[n + 1..] == words[n..][1..];
    if WordEnd(line, start) < |line| {
      WordsAfterSpace(line, WordEnd(line, start));
    }
  }

  method SkipInput(input: array<char>, start: nat, ghost line: seq<char>) returns (i: nat)
    requires |line| < input.Length && start <= |line|
    requires forall k :: start <= k < |line| ==> input[k] == line[k] && line[k] != '\0'
    requires input[|line|] == '\0'
    ensures i == SkipSpaces(line, start)
  {
    i := start;
    while input[i] == ' '
      invariant start <= i <= |line| && SkipSpaces(line, start) == SkipSpaces(line, i)
      decreases |line| - i
    {
      i := i + 1;
    }
  }

  method ScanWord(input: array<char>, start: nat, ghost line: seq<char>) returns (i: nat)
    requires |line| < input.Length && start <= |line|
    requires forall k :: start <= k < |line| ==> input[k] == line[k] && line[k] != '\0'
    requires input[|line|] == '\0'
    ensures i == WordEnd(line, start)
  {
    i := start;
    while input[i] != '\0' && input[i] != ' '
      invariant start <= i <= |line| && WordEnd(line, start) == WordEnd(line, i)
      decreases |line| - i
    {
      i := i + 1;
    }
  }

  /** After the cutting, each word that was cut is a string of its own. */
  lemma CutHolds(line: seq<char>, before: seq<char>, after: seq<char>, n: nat, k: nat)
    requires Holds(before, 0, line) && Cut(before, after, Words(line, 0), n) && k < n
    ensures Holds(after, Words(line, 0)[k].start, Text(line, Words(line, 0)[k]))
  {
    hide Words, SkipSpaces, WordEnd, IsWord;
    WordsExact(line, 0);
    var words := Words(line, 0);
    assert words[k] in words;
    WordBounds(line, words[k]);
    forall p | words[k].start <= p < words[k].end ensures after[p] == line[p] {
      forall j | 0 <= j < n ensures words[j].end != p {
        assert words[j] in words;
        NoEndInside(line, words[j], words[k], p);
      }
    }
  }

  lemma WordBounds(s: seq<char>, w: Span)
    requires IsWord(s, w)
    ensures w.start < w.end <= |s|
  {
  }

  /** No word ends inside another. */
  lemma NoEndInside(s: seq<char>, v: Span, w: Span, p: nat)
    requires IsWord(s, v) && IsWord(s, w) && w.start <= p < w.end
    ensures v.end != p
  {
  }

  // ----- echo

  /** What `echo` prints of its arguments, before the line break. */
  function Join(args: seq<seq<char>>): seq<char> {
    if args == [] then []
    else if |args| == 1 then args[0]
    else args[0] + [' '] + Join(args[1..])
  }

  method Echo(args: seq<seq<char>>) returns (out: seq<char>)
    ensures out == Join(args) + ['\n']
  {
    out := [];
    for i := 0 to |args|
      invariant out + Join(args[i..]) == Join(args)
    {
      ghost var rest := args[i..];
      assert rest[0] == args[i] && rest[1..] == args[i + 1..];
      out := out + args[i];
      if i + 1 < |args| {
        out := out + [' '];
      } else {
        assert Join(rest) == args[i] && Join(args[i + 1..]) == [];
      }
    }
    out := out + ['\n'];
  }

  /** Words that a shell can tell apart: not empty, without spaces. */
  predicate Plain(ws: seq<seq<char>>) {
    forall k :: 0 <= k < |ws| ==> ws[k] != [] && ' ' !in ws[k]
  }

  function Texts(s: seq<char>, i: nat): (r: seq<seq<char>>)
    requires i <= |s|
    ensures |r| == |Words(s, i)|
  {
    seq(|Words(s, i)|, k requires 0 <= k < |Words(s, i)| => Text(s, Words(s, i)[k]))
  }

  /** The first word, when it stands at i and its end is known. */
  lemma WordStands(s: seq<char>, i: nat, e: nat)
    requires i < e <= |s| && (forall k :: i <= k < e ==> s[k] != ' ') && (e == |s| || s[e] == ' ')
    ensures Texts(s, i) == [s[i..e]] + Texts(s, e)
    ensures e < |s| ==> Texts(s, e) == Texts(s, e + 1)
    ensures Texts(s, |s|) == []
  {
    assert SkipSpaces(s, i) == i;
    assert WordEnd(s, i) == e;
    if e < |s| {
      WordsAfterSpace(s, e);
    }
  }

  lemma WordAt(s: seq<char>, at: nat, w: seq<char>)
    requires w != [] && ' ' !in w && at + |w| <= |s| && s[at..at + |w|] == w
    requires at + |w| < |s| ==> s[at + |w|] == ' '
    ensures Texts(s, at) == [w] + (if at + |w| < |s| then Texts(s, at + |w| + 1) else [])
  {
    forall k | at <= k < at + |w| ensures s[k] != ' ' {
      assert s[k] == w[k - at] && w[k - at] in w;
    }
    WordStands(s, at, at + |w|);
  }

  lemma JoinFirst(ws: seq<seq<char>>)
    requires Plain(ws) && ws != []
    ensures ws[0] != [] && ' ' !in ws[0] && Plain(ws[1..]) && ws == [ws[0]] + ws[1..]
    ensures Join(ws) == ws[0] + if ws[1..] == [] then [] else [' '] + Join(ws[1..])
  {
    assert |ws| > 1 ==> ws[0] + [' '] + Join(ws[1..]) == ws[0] + ([' '] + Join(ws[1..]));
  }

  /** The first of several joined words, and where the others are. */
  lemma JoinedWord(s: seq<char>, at: nat, w: seq<char>, others: seq<seq<char>>)
    requires w != [] && ' ' !in w && at <= |s|
    requires s[at..] == w + if others == [] then [] else [' '] + Join(others)
    ensures others == [] ==> Texts(s, at) == [w]
    ensures others != [] ==>
              && at + |w| + 1 <= |s| && s[at + |w| + 1..] == Join(others)
              && Texts(s, at) == [w] + Texts(s, at + |w| + 1)
  {
    hide Texts, Join;
    SuffixSplit(s, at, w, if others == [] then [] else [' '] + Join(others));
    if others != [] {
      SuffixSplit(s, at + |w|, [' '], Join(others));
    }
    WordAt(s, at, w);
  }

  lemma JoinedStep(s: seq<char>, at: nat, ws: seq<seq<char>>)
    requires ws != [] && Plain(ws) && at <= |s| && s[at..] == Join(ws)
    ensures Plain(ws[1..])
    ensures ws[1..] == [] ==> Texts(s, at) == ws
    ensures var next := at + |ws[0]| + 1; ws[1..] != [] ==>
              && next <= |s| && s[next..] == Join(ws[1..])
              && (Texts(s, next) == ws[1..] ==> Texts(s, at) == ws)
  {
    hide *;
    JoinFirst(ws);
    JoinedWord(s, at, ws[0], ws[1..]);
  }

  /** Where a line ends in joined words, they are found again. */
  lemma {:induction false} JoinedWords(s: seq<char>, at: nat, ws: seq<seq<char>>)
    requires Plain(ws) && at <= |s| && s[at..] == Join(ws)
    ensures Texts(s, at) == ws
    decreases |ws|
  {
    hide Texts, Words, Plain;
    if ws == [] {
      WordsEnd(s);
    } else {
      JoinedStep(s, at, ws);
      if ws[1..] != [] {
        JoinedWords(s, at + |ws[0]| + 1, ws[1..]);
      }
    }
  }

  lemma WordsEnd(s: seq<char>)
    ensures Texts(s, |s|) == []
  {
  }

  lemma SuffixSplit(s: seq<char>, at: nat, a: seq<char>, b: seq<char>)
    requires at <= |s| && s[at..] == a + b
    ensures at + |a| <= |s| && s[at..at + |a|] == a && s[at + |a|..] == b
    ensures a != [] ==> s[at] == a[0]
    ensures b != [] ==> at + |a| < |s| && s[at + |a|] == b[0]
    ensures b == [] ==> at + |a| == |s|
  {
    assert s[at..at + |a|] == s[at..][..|a|];
    assert s[at + |a|..] == s[at..][|a|..];
  }

  /** The words of a line are plain. */
  lemma LineWordsPlain(line: seq<char>)
    ensures Plain(Texts(line, 0))
  {
    WordsExact(line, 0);
    forall k | 0 <= k < |Texts(line, 0)| ensures Texts(line, 0)[k] != [] && ' ' !in Texts(line, 0)[k] {
      assert Words(line, 0)[k] in Words(line, 0);
    }
  }

  /** Words with single spaces between them and none around them. */
  predicate Tidy(line: seq<char>) {
    && (line != [] ==> line[0] != ' ' && line[|line| - 1] != ' ')
    && forall i :: 0 <= i < |line| - 1 && line[i] == ' ' ==> line[i + 1] != ' '
  }

  lemma JoinStep(s: seq<char>, i: nat, e: nat, others: seq<seq<char>>)
    requires i < e < |s| && s[e] == ' ' && others != [] && Join(others) == s[e + 1..]
    ensures Join([s[i..e]] + others) == s[i..]
  {
    var all := [s[i..e]] + others;
    assert all[1..] == others && all[0] == s[i..e];
    assert s[i..] == s[i..e] + [' '] + s[e + 1..];
  }

  lemma {:induction false} TidyRest(line: seq<char>, i: nat)
    requires Tidy(line) && i < |line| && line[i] != ' '
    ensures Texts(line, i) != [] && Join(Texts(line, i)) == line[i..]
    decreases |line| - i
  {
    hide Texts, Words, Text, SkipSpaces, WordEnd;
    var e := WordEnd(line, i);
    WordStands(line, i, e);
    if e == |line| {
      assert line[i..e] == line[i..] && [line[i..]] + Texts(line, e) == [line[i..]];
    } else {
      TidyRest(line, e + 1);
      hide Join;
      JoinStep(line, i, e, Texts(line, e + 1));
    }
  }

  /** Joining the words of such a line gives the line back, so that `echo` prints it as
      it was typed. */
  lemma JoinTidy(line: seq<char>)
    requires Tidy(line)
    ensures Join(Texts(line, 0)) == line
  {
    if line != [] {
      TidyRest(line, 0);
    }
  }

  /** Giving back to the parser what `echo` printed of the arguments of a line, after
      any one-word command, gives the same arguments. */
  lemma EchoParsesBack(line: seq<char>, command: seq<char>)
    requires Texts(line, 0) != [] && command != [] && ' ' !in command
    ensures var args := Texts(line, 0)[1..]; var kept := if |args| > MAX_ARGS then args[..MAX_ARGS] else args;
            Texts(command + [' '] + Join(kept), 0) == [command] + kept
  {
    LineWordsPlain(line);
    hide Words, Texts, Text;
    var args := Texts(line, 0)[1..];
    var kept := if |args| > MAX_ARGS then args[..MAX_ARGS] else args;
    var s := command + [' '] + Join(kept);
    assert Plain(kept);
    hide Plain, Join, SkipSpaces, WordEnd;
    var n := |command|;
    assert s[0..] == command + ([' '] + Join(kept));
    SuffixSplit(s, 0, command, [' '] + Join(kept));
    SuffixSplit(s, n, [' '], Join(kept));
    JoinedWords(s, n + 1, kept);
    WordAt(s, 0, command);
  }
}
