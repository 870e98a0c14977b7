/**
 * terms/policy.go: the agreement prompt. Once the agreement file exists the
 * prompt is skipped; otherwise raw-mode bytes are read one at a time into a
 * line buffer of at most 50 runes until `I AGREE` is entered or Ctrl+Space quits.
 */
module Policy {
  import opened Wrappers
  import Text

  /** The longest line the prompt keeps. */
  const Capacity: nat := 50

  /** One `os.Stdin.Read` of a one-byte buffer: an error or zero-length read, or a byte. */
  datatype Read = Nothing | Byte(b: byte)

  /** What one byte does to the line. */
  datatype Step = Next(input: string) | Accept | Quit

  /** The key handling of one read. */
  function Keystroke(input: string, r: Read): (s: Step)
    requires |input| <= Capacity
    ensures s.Next? ==> |s.input| <= Capacity
    ensures r.Nothing? ==> s == Next(input)
    ensures s == Quit <==> r == Byte(0)
    ensures s == Accept ==> r == Byte(13) || r == Byte(10)
  {
    match r
    case Nothing => Next(input)
    case Byte(b) =>
      if b == 0 then Quit
      else if b == 13 || b == 10 then
        if Text.EqualFold(input, "I AGREE") then Accept else Next([])
      else if b == 127 || b == 8 then
        Next(if |input| > 0 then input[..|input| - 1] else input)
      else
        Next(if |input| < Capacity then input + [b as int as char] else input)
  }

  /** How the prompt ends. `Waiting` means the reads ran out with the prompt still open. */
  datatype Outcome = AlreadyAgreed | Signed | Exit(code: int) | Waiting(input: string)

  /** The prompt fed the reads `stream` from the line `input`. */
  function Prompt(input: string, stream: seq<Read>, writeOk: bool): Outcome
    requires |input| <= Capacity
    decreases |stream|
  {
    if stream == [] then Waiting(input)
    else
      match Keystroke(input, stream[0])
      case Quit => Exit(0)
      case Accept => if writeOk then Signed else Exit(1)
      case Next(line) => Prompt(line, stream[1..], writeOk)
  }

  /**
   * `DisplayAgreement`: `agreed` says whether the agreement file exists,
   * `writeOk` whether writing `agreed` to it succeeds.
   */
  method DisplayAgreement(agreed: bool, stream: seq<Read>, writeOk: bool) returns (o: Outcome)
    ensures agreed ==> o == AlreadyAgreed
    ensures !agreed ==> o == Prompt([], stream, writeOk)
  {
    if agreed {
      return AlreadyAgreed;
    }
    var input: string := [];
    var i := 0;
    while i < |stream|
      invariant 0 <= i <= |stream| && |input| <= Capacity
      invariant Prompt([], stream, writeOk) == Prompt(input, stream[i..], writeOk)
    {
      assert stream[i..][1..] == stream[i + 1..];
      var r := stream[i];
      if r.Byte? {
        var b := r.b;
        if b == 0 {
          return Exit(0);
        } else if b == 13 || b == 10 {
          if Text.EqualFold(input, "I AGREE") {
            if !writeOk {
              return Exit(1);
            }
            return Signed;
          }
          input := [];
        } else if b == 127 || b == 8 {
          if |input| > 0 {
            input := input[..|input| - 1];
          }
        } else if |input| < Capacity {
          input := input + [b as int as char];
        }
      }
      i := i + 1;
    }
    o := Waiting(input);
  }

  /** However many bytes arrive, the open line never holds more than 50 runes. */
  lemma {:induction false} PromptBounded(input: string, stream: seq<Read>, writeOk: bool)
    requires |input| <= Capacity
    ensures Prompt(input, stream, writeOk).Waiting? ==> |Prompt(input, stream, writeOk).input| <= Capacity
    decreases |stream|
  {
    if stream != [] {
      match Keystroke(input, stream[0])
      case Quit =>
      case Accept =>
      case Next(line) => PromptBounded(line, stream[1..], writeOk);
    }
  }

  /** Ctrl+Space (byte 0) ends the prompt with exit status 0, whatever the line holds. */
  lemma CtrlSpaceQuits(input: string, rest: seq<Read>, writeOk: bool)
    requires |input| <= Capacity
    ensures Prompt(input, [Byte(0)] + rest, writeOk) == Exit(0)
  {
    assert ([Byte(0)] + rest)[0] == Byte(0);
  }

  /** Backspace on an empty line leaves it empty; otherwise it drops the last rune. */
  lemma BackspaceRemovesLast(input: string, b: byte)
    requires |input| <= Capacity && (b == 127 || b == 8)
    ensures input == [] ==> Keystroke(input, Byte(b)) == Next([])
    ensures input != [] ==> Keystroke(input, Byte(b)) == Next(input[..|input| - 1])
  {
  }

  /** Enter accepts `I AGREE` in any letter case and clears anything else. */
  lemma EnterDecides(input: string, b: byte)
    requires |input| <= Capacity && (b == 13 || b == 10)
    ensures Keystroke(input, Byte(b)) == (if Text.EqualFold(input, "I AGREE") then Accept else Next([]))
  {
  }

  /** The bytes of a text typed at the prompt. */
  function Typed(s: string): (r: seq<Read>)
    requires forall i :: 0 <= i < |s| ==> s[i] as int < 256
    ensures |r| == |s|
    ensures forall i :: 0 <= i < |s| ==> r[i] == Byte(s[i] as int as byte)
  {
    seq(|s|, i requires 0 <= i < |s| => Byte(s[i] as int as byte))
  }

  /** A byte the prompt appends to the line: not Ctrl+Space, Enter or backspace. */
  predicate IsPlain(b: int) {
    0 < b < 256 && b !in {13, 10, 127, 8}
  }

  /** Each ordinary byte is appended while there is room. */
  lemma {:induction false} TypingAppends(input: string, s: string, rest: seq<Read>, writeOk: bool)
    requires |input| + |s| <= Capacity
    requires forall i :: 0 <= i < |s| ==> s[i] as int < 256 && IsPlain(s[i] as int)
    ensures Prompt(input, Typed(s) + rest, writeOk) == Prompt(input + s, rest, writeOk)
    decreases |s|
  {
    if s != [] {
      var stream := Typed(s) + rest;
      assert stream[0] == Byte(s[0] as int as byte);
      assert IsPlain(s[0] as int);
      assert Keystroke(input, stream[0]) == Next(input + [s[0]]);
      assert stream[1..] == Typed(s[1..]) + rest;
      assert Prompt(input, stream, writeOk) == Prompt(input + [s[0]], stream[1..], writeOk);
      TypingAppends(input + [s[0]], s[1..], rest, writeOk);
      assert input + [s[0]] + s[1..] == input + s;
    } else {
      assert Typed(s) + rest == rest && input + s == input;
    }
  }

  /** Typing `i agree` (any case) and Enter on a fresh prompt signs when the write succeeds. */
  lemma AgreeSigns(s: string)
    requires |s| == 7 && Text.EqualFold(s, "I AGREE")
    requires forall i :: 0 <= i < |s| ==> s[i] as int < 256 && IsPlain(s[i] as int)
    ensures Prompt([], Typed(s) + [Byte(13)], true) == Signed
    ensures Prompt([], Typed(s) + [Byte(13)], false) == Exit(1)
  {
    TypingAppends([], s, [Byte(13)], true);
    TypingAppends([], s, [Byte(13)], false);
    assert [] + s == s;
  }
}
