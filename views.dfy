/**
 * views/views.go: the dashboard's string helpers: masking a secret, removing
 * ANSI escape sequences, centring a title, splitting a command line, and the
 * window of recent log lines.
 */
module Views {
  import opened Wrappers
  import Text

  /** `maskPassword`: short secrets become `****`; longer ones keep two bytes at each end. */
  function MaskPassword(pwd: string): (r: string)
    ensures |pwd| <= 4 ==> r == "****"
    ensures |pwd| > 4 ==> |r| == 8 && r[..2] == pwd[..2] && r[2..6] == "****" && r[6..] == pwd[|pwd| - 2..]
  {
    if |pwd| <= 4 then "****" else pwd[..2] + "****" + pwd[|pwd| - 2..]
  }

  /** The mask depends only on the first and last two bytes, never on the middle. */
  lemma MaskHidesMiddle(a: string, b: string)
    requires |a| > 4 && |b| > 4
    requires a[..2] == b[..2] && a[|a| - 2..] == b[|b| - 2..]
    ensures MaskPassword(a) == MaskPassword(b)
  {
  }

  const Esc: char := '\U{1B}'

  predicate IsLetter(c: char) {
    ('a' <= c <= 'z') || ('A' <= c <= 'Z')
  }

  /**
   * `string(str[i])` for one byte: the UTF-8 encoding of the rune with that
   * value, which takes two bytes from 0x80 on.
   */
  function RuneBytes(c: char): (r: string)
    ensures c as int < 128 ==> r == [c]
    ensures 1 <= |r| <= 2
    ensures c != Esc ==> Esc !in r
  {
    var b := c as int;
    if b < 128 then [c]
    else [(0xC0 + (b % 256) / 64) as char, (0x80 + b % 64) as char]
  }

  /** What `removeANSICodes` keeps of `s`, starting inside an escape sequence when `inEscape`. */
  function Strip(s: string, inEscape: bool): string
    decreases |s|
  {
    if s == [] then []
    else if s[0] == Esc then Strip(s[1..], true)
    else if inEscape then Strip(s[1..], !IsLetter(s[0]))
    else RuneBytes(s[0]) + Strip(s[1..], false)
  }

  /** `removeANSICodes`: one pass keeping a flag for being inside an escape sequence. */
  method RemoveAnsiCodes(str: string) returns (result: string)
    ensures result == Strip(str, false)
  {
    result := "";
    var inEscape := false;
    var i := 0;
    while i < |str|
      invariant 0 <= i <= |str|
      invariant result + Strip(str[i..], inEscape) == Strip(str, false)
    {
      assert str[i..][1..] == str[i + 1..];
      if str[i] == Esc {
        inEscape := true;
        i := i + 1;
        continue;
      }
      if inEscape {
        if IsLetter(str[i]) {
          inEscape := false;
        }
        i := i + 1;
        continue;
      }
      result := result + RuneBytes(str[i]);
      i := i + 1;
    }
  }

  predicate IsAscii(s: string) {
    forall i :: 0 <= i < |s| ==> s[i] as int < 128
  }

  /** No escape byte survives. */
  lemma {:induction false} StripRemovesEscapes(s: string, inEscape: bool)
    ensures Esc !in Strip(s, inEscape)
    decreases |s|
  {
    if s != [] {
      StripRemovesEscapes(s[1..], s[0] == Esc || (inEscape && !IsLetter(s[0])));
    }
  }

  /** On ASCII text the result is ASCII and no longer than the input. */
  lemma {:induction false} StripShrinksAscii(s: string, inEscape: bool)
    requires IsAscii(s)
    ensures IsAscii(Strip(s, inEscape)) && |Strip(s, inEscape)| <= |s|
    decreases |s|
  {
    if s != [] {
      assert IsAscii(s[1..]);
      StripShrinksAscii(s[1..], s[0] == Esc || (inEscape && !IsLetter(s[0])));
    }
  }

  /** ASCII text without escapes passes through unchanged. */
  lemma {:induction false} StripKeepsPlainAscii(s: string)
    requires IsAscii(s) && Esc !in s
    ensures Strip(s, false) == s
    decreases |s|
  {
    if s != [] {
      assert IsAscii(s[1..]) && Esc !in s[1..];
      StripKeepsPlainAscii(s[1..]);
      assert s == [s[0]] + s[1..];
    }
  }

  /** On ASCII text, stripping twice is stripping once. */
  lemma StripIdempotentOnAscii(s: string)
    requires IsAscii(s)
    ensures Strip(Strip(s, false), false) == Strip(s, false)
  {
    StripShrinksAscii(s, false);
    StripRemovesEscapes(s, false);
    StripKeepsPlainAscii(Strip(s, false));
  }

  /** A byte from 0x80 on comes out as two bytes, so the result can be longer than the input. */
  lemma HighByteWidens()
    ensures |Strip(['\U{E9}'], false)| == 2
  {
  }

  /** Leading spaces are visible and pass through the stripping. */
  lemma {:induction false} StripSpaces(n: nat, s: string)
    ensures Strip(Spaces(n) + s, false) == Spaces(n) + Strip(s, false)
    decreases n
  {
    if n > 0 {
      assert (Spaces(n) + s)[1..] == Spaces(n - 1) + s;
      StripSpaces(n - 1, s);
    } else {
      assert Spaces(n) + s == s;
    }
  }

  function Spaces(n: nat): (r: string)
    ensures |r| == n && forall i :: 0 <= i < n ==> r[i] == ' '
  {
    seq(n, _ => ' ')
  }

  /**
   * `centerText`: pads the text on the left by half of the room its visible
   * part leaves in `width`; text at least as wide comes back unchanged.
   */
  function CenterText(text: string, width: int): (r: string)
    ensures |Strip(text, false)| >= width ==> r == text
    ensures |Strip(text, false)| < width ==> r == Spaces((width - |Strip(text, false)|) / 2) + text
  {
    var textLen := |Strip(text, false)|;
    if textLen >= width then text else Spaces((width - textLen) / 2) + text
  }

  /**
   * Centring never overflows the width, and the room left on the right is the
   * room on the left or one more.
   */
  lemma CenteredFits(text: string, width: int)
    requires |Strip(text, false)| < width
    ensures var pad := (width - |Strip(text, false)|) / 2;
            var visible := |Strip(CenterText(text, width), false)|;
            && visible <= width
            && (width - visible == pad || width - visible == pad + 1)
  {
    StripSpaces((width - |Strip(text, false)|) / 2, text);
  }

  /** What a dashboard line asks for, after `Start` has split it. */
  datatype Action =
    | Skip
    | Usage(command: string)
    | List | Add | GetEntry(entry: string) | RemoveEntry(entry: string)
    | Wipe | Help | CurrentUser | ClearLog | ShowLogs | Leave
    | Unknown(command: string)

  /** The `switch` of `Start` on the lower-cased command word. */
  function Dispatch(cmd: string, arg: string): (a: Action)
    ensures (a.GetEntry? || a.RemoveEntry?) ==> a.entry == arg && arg != []
    ensures a.Unknown? ==> a.command == cmd
    ensures a != Skip
  {
    match cmd
    case "list" => List
    case "add" => Add
    case "get" => if arg == [] then Usage("get") else GetEntry(arg)
    case "remove" => if arg == [] then Usage("remove") else RemoveEntry(arg)
    case "wipe" => Wipe
    case "help" => Help
    case "user" => CurrentUser
    case "clear" => ClearLog
    case "view" => ShowLogs
    case "exit" => Leave
    case "quit" => Leave
    case _ => Unknown(cmd)
  }

  /**
   * The line handling of `Start`: trim, skip blank lines, split at the first
   * space, lower-case the command and trim the argument.
   */
  function ParseCommand(line: string): (a: Action)
    ensures a == Skip <==> Text.TrimSpace(line) == []
  {
    var cmdLine := Text.TrimSpace(line);
    if cmdLine == [] then Skip
    else
      Dispatch(CommandWord(cmdLine), Argument(cmdLine))
  }

  /** The first word of a trimmed line, lower-cased: it holds no capital letter. */
  function CommandWord(cmdLine: string): (cmd: string)
    ensures forall i :: 0 <= i < |cmd| ==> !('A' <= cmd[i] <= 'Z')
  {
    var head := Text.Cut(cmdLine, ' ').0;
    Text.ToLowerHasNoCapital(head);
    Text.ToLower(head)
  }

  /**
   * What follows the first space of a trimmed line, without surrounding white
   * space; empty when there is no space.
   */
  function Argument(cmdLine: string): (arg: string)
    ensures arg == [] || (!Text.IsSpace(arg[0]) && !Text.IsSpace(arg[|arg| - 1]))
  {
    match Text.Cut(cmdLine, ' ').1
    case None => ""
    case Some(rest) => Text.TrimSpace(rest)
  }

  /** A non-blank line is dispatched on its lower-cased first word and its trimmed rest. */
  lemma ParseSplit(line: string, trimmed: string, head: string, tail: Option<string>, arg: string)
    requires trimmed == Text.TrimSpace(line) && trimmed != []
    requires Text.Cut(trimmed, ' ') == (head, tail)
    requires arg == if tail.Some? then Text.TrimSpace(tail.value) else ""
    ensures ParseCommand(line) == Dispatch(Text.ToLower(head), arg)
  {
  }

  /** `get` and `remove` only ever receive a non-empty label without surrounding white space. */
  lemma ParsedEntryIsTrimmed(line: string)
    ensures var a := ParseCommand(line);
            (a.GetEntry? || a.RemoveEntry?) ==>
              a.entry != [] && !Text.IsSpace(a.entry[0]) && !Text.IsSpace(a.entry[|a.entry| - 1])
  {
    var cmdLine := Text.TrimSpace(line);
    if cmdLine != [] {
      DispatchTrimmedEntry(CommandWord(cmdLine), Argument(cmdLine));
    }
  }

  lemma DispatchTrimmedEntry(cmd: string, arg: string)
    requires arg == [] || (!Text.IsSpace(arg[0]) && !Text.IsSpace(arg[|arg| - 1]))
    ensures var a := Dispatch(cmd, arg);
            (a.GetEntry? || a.RemoveEntry?) ==>
              a.entry != [] && !Text.IsSpace(a.entry[0]) && !Text.IsSpace(a.entry[|a.entry| - 1])
  {
  }

  /** An unknown command is reported in lower case. */
  lemma ParsedCommandIsLowerCase(line: string)
    ensures var a := ParseCommand(line);
            a.Unknown? ==> forall i :: 0 <= i < |a.command| ==> !('A' <= a.command[i] <= 'Z')
  {
    var cmdLine := Text.TrimSpace(line);
    if cmdLine != [] {
      DispatchLowerUnknown(CommandWord(cmdLine), Argument(cmdLine));
    }
  }

  lemma DispatchLowerUnknown(cmd: string, arg: string)
    requires forall i :: 0 <= i < |cmd| ==> !('A' <= cmd[i] <= 'Z')
    ensures var a := Dispatch(cmd, arg);
            a.Unknown? ==> forall i :: 0 <= i < |a.command| ==> !('A' <= a.command[i] <= 'Z')
  {
  }

  /** A command word of `get` in any letter case contains no white space. */
  lemma GetWord(cmd: string)
    requires Text.ToLower(cmd) == "get"
    ensures |cmd| == 3 && forall i :: 0 <= i < 3 ==> !Text.IsSpace(cmd[i])
    ensures ' ' !in cmd
  {
    forall i | 0 <= i < 3
      ensures !Text.IsSpace(cmd[i])
    {
      assert Text.Lower(cmd[i]) == "get"[i];
    }
  }

  /** White space around a command line does not change what it asks for. */
  lemma ParseIgnoresOuterSpace(w1: string, x: string, w3: string)
    requires Text.AllSpace(w1) && Text.AllSpace(w3)
    requires x != [] && !Text.IsSpace(x[0]) && !Text.IsSpace(x[|x| - 1])
    ensures ParseCommand(w1 + x + w3) == ParseCommand(x)
  {
    Text.TrimAround(w1, x, w3);
  }

  /**
   * The command word is matched in any letter case, and white space between
   * it and the argument is dropped.
   */
  lemma ParseGet(cmd: string, w: string, arg: string)
    requires Text.AllSpace(w)
    requires Text.ToLower(cmd) == "get"
    requires arg != [] && !Text.IsSpace(arg[0]) && !Text.IsSpace(arg[|arg| - 1])
    ensures ParseCommand(cmd + " " + w + arg) == GetEntry(arg)
  {
    ParseWithArgument(cmd, w, arg);
    DispatchGet(arg);
  }

  lemma ParseWithArgument(cmd: string, w: string, arg: string)
    requires Text.AllSpace(w)
    requires Text.ToLower(cmd) == "get"
    requires arg != [] && !Text.IsSpace(arg[0]) && !Text.IsSpace(arg[|arg| - 1])
    ensures ParseCommand(cmd + " " + w + arg) == Dispatch(Text.ToLower(cmd), arg)
  {
    GetWord(cmd);
    var line := cmd + " " + w + arg;
    assert line == cmd + [' '] + (w + arg);
    GetLineTrims(line, cmd, w + arg);
    LeadingSpaceTrims(w, arg);
    ParseSplit(line, line, cmd, Some(w + arg), arg);
  }

  lemma DispatchGet(arg: string)
    ensures Dispatch("get", arg) == if arg == [] then Usage("get") else GetEntry(arg)
  {
  }

  lemma GetLineTrims(line: string, cmd: string, rest: string)
    requires line == cmd + [' '] + rest
    requires ' ' !in cmd && |cmd| > 0 && !Text.IsSpace(cmd[0])
    requires rest != [] && !Text.IsSpace(rest[|rest| - 1])
    ensures Text.TrimSpace(line) == line
    ensures Text.Cut(line, ' ') == (cmd, Some(rest))
  {
    NonSpaceEndsTrim(line, cmd[0], rest[|rest| - 1]);
    Text.CutAtFirst(cmd, ' ', rest);
  }

  lemma NonSpaceEndsTrim(line: string, first: char, last: char)
    requires line != [] && line[0] == first && line[|line| - 1] == last
    requires !Text.IsSpace(first) && !Text.IsSpace(last)
    ensures Text.TrimSpace(line) == line
  {
  }

  lemma LeadingSpaceTrims(w: string, arg: string)
    requires Text.AllSpace(w)
    requires arg != [] && !Text.IsSpace(arg[0]) && !Text.IsSpace(arg[|arg| - 1])
    ensures Text.TrimSpace(w + arg) == arg
  {
    assert w + arg == w + arg + [];
    Text.TrimAround(w, arg, []);
  }

  /** A bare `get`, whatever its letter case and surrounding white space, only prints its usage. */
  lemma ParseBareGet(w1: string, cmd: string, w3: string)
    requires Text.AllSpace(w1) && Text.AllSpace(w3)
    requires Text.ToLower(cmd) == "get"
    ensures ParseCommand(w1 + cmd + w3) == Usage("get")
  {
    GetWord(cmd);
    Text.TrimAround(w1, cmd, w3);
    ParseSplit(w1 + cmd + w3, cmd, cmd, None, "");
    assert Dispatch("get", "") == Usage("get");
  }

  /** What `printRecentLogs` shows. */
  datatype LogView = NoLogs | Shown(lines: seq<string>)

  /** `printRecentLogs`: the last `count` lines, or all of them when there are fewer. */
  function RecentLogs(lines: seq<string>, count: nat): (v: LogView)
    ensures lines == [] ==> v == NoLogs
    ensures lines != [] ==> v.Shown? && |v.lines| == (if |lines| < count then |lines| else count)
    ensures v.Shown? ==> v.lines == lines[|lines| - |v.lines|..]
  {
    if lines == [] then NoLogs
    else
      var start := if |lines| > count then |lines| - count else 0;
      Shown(lines[start..])
  }

  /** `viewLogs` over the text of the log file: at most the last 50 lines. */
  function ViewLogs(content: string): (v: LogView)
    ensures v.Shown? && |v.lines| <= 50
    ensures var lines := Text.Split(content, '\n'); |v.lines| <= |lines| && v.lines == lines[|lines| - |v.lines|..]
  {
    var lines := Text.Split(content, '\n');
    var count := if |lines| < 50 then |lines| else 50;
    RecentLogs(lines, count)
  }

  /**
   * The log view always shows lines, even for an empty file, and shows the
   * last `min(50, lines)` lines of the file in their order.
   */
  lemma ViewLogsWindow(content: string)
    ensures var lines := Text.Split(content, '\n');
            var v := ViewLogs(content);
            && v.Shown?
            && |v.lines| == (if |lines| < 50 then |lines| else 50)
            && lines == lines[..|lines| - |v.lines|] + v.lines
  {
  }
}
