/** The terminal typing animation of script.js: `typeCommand` (lines 28-64) and `window.onload`
    (lines 66-78). Each timer callback is one step; the DOM is the list of children of
    `#terminal-content`, with the markup strings kept opaque. */
module Terminal {

  /** An entry of `commands` (lines 4-13): the text typed one character at a time, and the highlighted
      markup that replaces it once typed. */
  datatype Command = Command(text: string, html: string)

  /** A child of `#terminal-content`: a prompt paragraph (what follows its `$` sign, and whether the
      cursor span is inside it), or the block of output links. */
  datatype Line = Prompt(body: string, cursor: bool) | OutputLinks

  /** The callback that will run next: the load handler, a `typeCommand` timer, the output timer of
      lines 58-61, or nothing at all. */
  datatype Pending = BeforeLoad | TypeNext | ShowOutput | Done

  /** The globals `currentCommand`, `charIndex`, `tempLine`; the terminal's lines (the last prompt is
      `currentLine`); and what is scheduled. */
  datatype State = State(currentCommand: nat, charIndex: nat, tempLine: string, lines: seq<Line>, pending: Pending)

  /** Lines 22-24, before the page has loaded. */
  function Initial(): State
  {
    State(0, 0, "", [], BeforeLoad)
  }

  /** The prompt lines of the first n commands once each has been replaced by its markup. */
  function Completed(commands: seq<Command>, n: nat): (lines: seq<Line>)
    requires n <= |commands|
    ensures |lines| == n
    ensures forall k :: 0 <= k < n ==> lines[k] == Prompt(commands[k].html, false)
  {
    if n == 0 then [] else Completed(commands, n - 1) + [Prompt(commands[n - 1].html, false)]
  }

  /** The typed prefix: `tempLine` is the first `charIndex` characters of the current command. */
  ghost predicate TypedPrefix(commands: seq<Command>, s: State)
  {
    s.currentCommand < |commands| &&
    s.charIndex <= |commands[s.currentCommand].text| &&
    s.tempLine == commands[s.currentCommand].text[..s.charIndex]
  }

  /** While a command is being typed: the earlier commands are complete, and the last line shows the
      typed prefix followed by the cursor. */
  ghost predicate Typing(commands: seq<Command>, s: State)
  {
    TypedPrefix(commands, s) &&
    s.lines == Completed(commands, s.currentCommand) + [Prompt(s.tempLine, true)]
  }

  /** Every command has been typed in full. */
  ghost predicate AllTyped(commands: seq<Command>, s: State)
  {
    |commands| > 0 && s.currentCommand == |commands| - 1 && s.charIndex == |commands[|commands| - 1].text|
  }

  /** The invariant between callbacks. */
  ghost predicate Inv(commands: seq<Command>, s: State)
  {
    |commands| > 0 && TypedPrefix(commands, s) &&
    match s.pending
    case BeforeLoad => s.currentCommand == 0 && s.charIndex == 0 && s.lines == []
    case TypeNext => Typing(commands, s)
    case ShowOutput => AllTyped(commands, s) && s.lines == Completed(commands, |commands|)
    case Done => AllTyped(commands, s) && s.lines == Completed(commands, |commands|) + [OutputLinks]
  }

  /** `typeCommand()`: type one more character (lines 31-36), or replace the typed line by the command's
      markup (line 39) and either open the next prompt (lines 41-55) or schedule the output (56-61). */
  function TypeCommandStep(commands: seq<Command>, s: State): (t: State)
    requires s.currentCommand < |commands| && |s.lines| > 0
  {
    var text := commands[s.currentCommand].text;
    var earlier := s.lines[..|s.lines| - 1];
    if s.charIndex < |text| then
      var tempLine := s.tempLine + [text[s.charIndex]];
      State(s.currentCommand, s.charIndex + 1, tempLine, earlier + [Prompt(tempLine, true)], TypeNext)
    else
      var lines := earlier + [Prompt(commands[s.currentCommand].html, false)];
      if s.currentCommand < |commands| - 1 then
        State(s.currentCommand + 1, 0, "", lines + [Prompt("", true)], TypeNext)
      else
        s.(lines := lines, pending := ShowOutput)
  }

  /** `window.onload`: append the first prompt with its cursor, then type. */
  function LoadStep(commands: seq<Command>, s: State): State
    requires s.currentCommand < |commands|
  {
    TypeCommandStep(commands, s.(lines := s.lines + [Prompt("", true)]))
  }

  /** `cursorSpan.remove()`: no line keeps the cursor. */
  function RemoveCursor(lines: seq<Line>): (r: seq<Line>)
    ensures |r| == |lines|
  {
    seq(|lines|, k requires 0 <= k < |lines| =>
      match lines[k]
      case Prompt(body, _) => Prompt(body, false)
      case OutputLinks => OutputLinks)
  }

  /** Lines 58-61: remove the cursor and append the output links. */
  function OutputStep(s: State): State
  {
    s.(lines := RemoveCursor(s.lines) + [OutputLinks], pending := Done)
  }

  /** Whatever runs next; once done, nothing is scheduled and nothing changes. */
  function Step(commands: seq<Command>, s: State): State
    requires Inv(commands, s)
  {
    match s.pending
    case BeforeLoad => LoadStep(commands, s)
    case TypeNext => TypeCommandStep(commands, s)
    case ShowOutput => OutputStep(s)
    case Done => s
  }

  /** Typing and completion callbacks that the given commands take: one per character, one per command. */
  function Rest(commands: seq<Command>): nat
  {
    if commands == [] then 0 else |commands[0].text| + 1 + Rest(commands[1..])
  }

  /** Callbacks still to run: the characters of the current command not yet typed, its completion, every
      later command, and the output. */
  function Remaining(commands: seq<Command>, s: State): nat
    requires Inv(commands, s)
  {
    match s.pending
    case BeforeLoad =>
      |commands[s.currentCommand].text| - s.charIndex + 1 + Rest(commands[s.currentCommand + 1..]) + 1
    case TypeNext =>
      |commands[s.currentCommand].text| - s.charIndex + 1 + Rest(commands[s.currentCommand + 1..]) + 1
    case ShowOutput => 1
    case Done => 0
  }

  lemma CompletedExtends(commands: seq<Command>, n: nat)
    requires n < |commands|
    ensures Completed(commands, n) + [Prompt(commands[n].html, false)] == Completed(commands, n + 1)
  {
  }

  /** One `typeCommand` call keeps the invariant, and brings the end one callback closer. */
  lemma TypeCommandStepProgress(commands: seq<Command>, s: State)
    requires |commands| > 0 && Typing(commands, s)
    ensures Inv(commands, TypeCommandStep(commands, s))
    ensures Remaining(commands, TypeCommandStep(commands, s)) ==
      |commands[s.currentCommand].text| - s.charIndex + Rest(commands[s.currentCommand + 1..]) + 1
  {
    var text := commands[s.currentCommand].text;
    var earlier := s.lines[..|s.lines| - 1];
    assert earlier == Completed(commands, s.currentCommand);
    if s.charIndex < |text| {
      assert text[..s.charIndex + 1] == s.tempLine + [text[s.charIndex]];
    } else {
      CompletedExtends(commands, s.currentCommand);
      if s.currentCommand < |commands| - 1 {
        assert commands[s.currentCommand + 1..][1..] == commands[s.currentCommand + 2..];
      }
    }
  }

  /** Each step keeps the invariant; until done it brings the end exactly one callback closer. */
  lemma StepProgress(commands: seq<Command>, s: State)
    requires Inv(commands, s)
    ensures Inv(commands, Step(commands, s))
    ensures s.pending != Done ==> Remaining(commands, Step(commands, s)) == Remaining(commands, s) - 1
    ensures s.pending == Done ==> Step(commands, s) == s
  {
    match s.pending
    case BeforeLoad =>
      var loaded := s.(lines := s.lines + [Prompt("", true)]);
      assert Typing(commands, loaded);
      TypeCommandStepProgress(commands, loaded);
    case TypeNext =>
      TypeCommandStepProgress(commands, s);
    case ShowOutput =>
      assert RemoveCursor(s.lines) == s.lines;
    case Done =>
  }

  /** n callbacks from s. */
  function Run(commands: seq<Command>, s: State, n: nat): (t: State)
    requires Inv(commands, s)
    ensures Inv(commands, t)
    decreases n
  {
    if n == 0 then s
    else
      StepProgress(commands, s);
      Run(commands, Step(commands, s), n - 1)
  }

  /** From any reachable state, after the remaining callbacks the animation has stopped with every
      command shown as its markup, one prompt line per command, and the output links appended once. */
  lemma {:induction false} RunsToCompletion(commands: seq<Command>, s: State)
    requires Inv(commands, s)
    ensures var t := Run(commands, s, Remaining(commands, s));
      t.pending == Done && t.lines == Completed(commands, |commands|) + [OutputLinks] &&
      Step(commands, t) == t
    decreases Remaining(commands, s)
  {
    if Remaining(commands, s) > 0 {
      StepProgress(commands, s);
      RunsToCompletion(commands, Step(commands, s));
    } else {
      StepProgress(commands, s);
    }
  }

  /** From page load, the animation takes one callback per character, one per command, and one for the
      output, and leaves one prompt line per command followed by the output links. */
  lemma TranscriptFromLoad(commands: seq<Command>, s: State)
    requires Inv(commands, s) && s.pending == BeforeLoad
    ensures var t := Run(commands, s, Rest(commands) + 1);
      t.pending == Done && |t.lines| == |commands| + 1 && t.lines[|commands|] == OutputLinks &&
      forall k :: 0 <= k < |commands| ==> t.lines[k] == Prompt(commands[k].html, false)
  {
    assert Remaining(commands, s) == Rest(commands) + 1 by {
      assert commands[s.currentCommand + 1..] == commands[1..];
    }
    RunsToCompletion(commands, s);
    var t := Run(commands, s, Rest(commands) + 1);
    var done := Completed(commands, |commands|);
    assert t.lines == done + [OutputLinks];
  }

  /** A typing step appends exactly the next character and advances `charIndex` by one (lines 31-35). */
  lemma TypingStepAppendsOne(commands: seq<Command>, s: State)
    requires Inv(commands, s) && s.pending == TypeNext
    requires s.charIndex < |commands[s.currentCommand].text|
    ensures var t := Step(commands, s);
      t.currentCommand == s.currentCommand && t.charIndex == s.charIndex + 1 &&
      t.tempLine == s.tempLine + [commands[s.currentCommand].text[s.charIndex]] &&
      |t.lines| == |s.lines| && t.lines[|t.lines| - 1] == Prompt(t.tempLine, true)
  {
  }

  /** Finishing a command that is not the last (lines 39-55) shows its markup, moves to the next
      command with an empty prefix, and opens exactly one new prompt line. */
  lemma FinishingAdvances(commands: seq<Command>, s: State)
    requires Inv(commands, s) && s.pending == TypeNext
    requires s.charIndex == |commands[s.currentCommand].text| && s.currentCommand < |commands| - 1
    ensures var t := Step(commands, s);
      t.currentCommand == s.currentCommand + 1 && t.charIndex == 0 && t.tempLine == "" &&
      |t.lines| == |s.lines| + 1 &&
      t.lines[|s.lines| - 1] == Prompt(commands[s.currentCommand].html, false) &&
      t.lines[|s.lines|] == Prompt("", true) && t.pending == TypeNext
  {
  }

  /** The terminal globals and `#terminal-content`. */
  class TerminalSession {
    const commands: seq<Command>
    var currentCommand: nat
    var charIndex: nat
    var tempLine: string
    var lines: seq<Line>
    var pending: Pending

    function Snapshot(): State
      reads this
    {
      State(currentCommand, charIndex, tempLine, lines, pending)
    }

    ghost predicate Valid()
      reads this
    {
      Inv(commands, Snapshot())
    }

    /** Lines 4-26: the command list and the globals' initial values. */
    constructor (commands: seq<Command>)
      requires |commands| > 0
      ensures Valid() && this.commands == commands && Snapshot() == Initial()
    {
      this.commands := commands;
      currentCommand, charIndex, tempLine := 0, 0, "";
      lines := [];
      pending := BeforeLoad;
    }

    /** `typeCommand()` (lines 28-64). */
    method TypeCommand()
      requires |commands| > 0 && Typing(commands, Snapshot())
      modifies this
      ensures Valid() && Snapshot() == TypeCommandStep(commands, old(Snapshot()))
    {
      TypeCommandStepProgress(commands, Snapshot());
      var commandText := commands[currentCommand].text;
      if charIndex < |commandText| {
        tempLine := tempLine + [commandText[charIndex]];
        lines := lines[..|lines| - 1] + [Prompt(tempLine, true)];
        charIndex := charIndex + 1;
        pending := TypeNext;
      } else {
        lines := lines[..|lines| - 1] + [Prompt(commands[currentCommand].html, false)];
        if currentCommand < |commands| - 1 {
          currentCommand := currentCommand + 1;
          charIndex := 0;
          tempLine := "";
          lines := lines + [Prompt("", true)];
          pending := TypeNext;
        } else {
          pending := ShowOutput;
        }
      }
    }

    /** `window.onload` (lines 66-78). */
    method OnLoad()
      requires Valid() && pending == BeforeLoad
      modifies this
      ensures Valid() && Snapshot() == Step(commands, old(Snapshot()))
    {
      lines := lines + [Prompt("", true)];
      TypeCommand();
    }

    /** The pending timer fires: another `typeCommand`, or the output of lines 58-61. */
    method RunPendingTimer()
      requires Valid() && (pending == TypeNext || pending == ShowOutput)
      modifies this
      ensures Valid() && Snapshot() == Step(commands, old(Snapshot()))
      ensures Remaining(commands, Snapshot()) == old(Remaining(commands, Snapshot())) - 1
    {
      StepProgress(commands, Snapshot());
      if pending == TypeNext {
        TypeCommand();
      } else {
        lines := RemoveCursor(lines) + [OutputLinks];
        pending := Done;
      }
    }
  }
}
