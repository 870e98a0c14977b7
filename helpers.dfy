/** utils/helpers.go: the master-password policy and the random-string generator. */
module Utils {
  import opened Wrappers
  import opened Errors
  import Text

  /** The first `case` of the classifying `switch` a rune falls into. */
  datatype CharClass = Upper | Lower | Digit | Symbol | Unclassified

  /** `unicode.IsUpper`, `IsLower`, `IsDigit`, `IsPunct || IsSymbol` on ASCII, tried in that order. */
  function ClassOf(c: char): CharClass {
    if 'A' <= c <= 'Z' then Upper
    else if 'a' <= c <= 'z' then Lower
    else if '0' <= c <= '9' then Digit
    else if '!' <= c <= '~' then Symbol
    else Unclassified
  }

  predicate HasClass(pw: string, k: CharClass) {
    exists i :: 0 <= i < |pw| && ClassOf(pw[i]) == k
  }

  /** The characters a reader may confuse with one another. */
  const Ambiguous: string := "O0l1I"

  const LengthError: Error := Message("password must be between 12 and 128 characters")
  const ClassError: Error := Message("password must include upper, lower, digit, and special character")
  const AmbiguousError: Error := Message("password contains ambiguous characters: O, 0, l, 1, or I")

  /** The policy: the length test first, then the four classes, then the ambiguous characters. */
  function PasswordVerdict(pw: string): Option<Error> {
    if |pw| < 12 || |pw| > 128 then Some(LengthError)
    else if !(HasClass(pw, Upper) && HasClass(pw, Lower) && HasClass(pw, Digit) && HasClass(pw, Symbol))
    then Some(ClassError)
    else if Text.ContainsAny(pw, Ambiguous) then Some(AmbiguousError)
    else None
  }

  /** `ValidatePassword`: one pass over the runes sets a flag per class. */
  method ValidatePassword(pw: string) returns (err: Option<Error>)
    ensures err == PasswordVerdict(pw)
  {
    if |pw| < 12 || |pw| > 128 {
      return Some(LengthError);
    }
    var hasUpper, hasLower, hasDigit, hasSymbol := false, false, false, false;
    var i := 0;
    while i < |pw|
      invariant 0 <= i <= |pw|
      invariant hasUpper <==> exists j :: 0 <= j < i && ClassOf(pw[j]) == Upper
      invariant hasLower <==> exists j :: 0 <= j < i && ClassOf(pw[j]) == Lower
      invariant hasDigit <==> exists j :: 0 <= j < i && ClassOf(pw[j]) == Digit
      invariant hasSymbol <==> exists j :: 0 <= j < i && ClassOf(pw[j]) == Symbol
    {
      match ClassOf(pw[i]) {
        case Upper => hasUpper := true;
        case Lower => hasLower := true;
        case Digit => hasDigit := true;
        case Symbol => hasSymbol := true;
        case Unclassified =>
      }
      i := i + 1;
    }
    if !(hasUpper && hasLower && hasDigit && hasSymbol) {
      return Some(ClassError);
    }
    if Text.ContainsAny(pw, Ambiguous) {
      return Some(AmbiguousError);
    }
    err := None;
  }

  /** A password passes exactly when all three tests pass. */
  lemma PasswordAccepted(pw: string)
    ensures PasswordVerdict(pw) == None <==>
              && 12 <= |pw| <= 128
              && (forall k :: k != Unclassified ==> HasClass(pw, k))
              && (forall i :: 0 <= i < |pw| ==> pw[i] !in Ambiguous)
  {
    if PasswordVerdict(pw) == None {
      forall k | k != Unclassified
        ensures HasClass(pw, k)
      {
        match k
        case Upper =>
        case Lower =>
        case Digit =>
        case Symbol =>
      }
    }
  }

  /** The alphabet `Generate` draws from: 26 capitals, `a` to `f` and ten digits. */
  const Alphabet: string := Capitals + "abcdef" + Digits
  const Capitals: string := "ABCDEFGHIJKLMNOPQRSTUVWXYZ"
  const Digits: string := "0123456789"

  /** A draw of `rand.Int(rand.Reader, 42)`. */
  type Index = i: int | 0 <= i < 42

  /**
   * `Generate`: `length` characters, the i-th picked by the i-th draw of the
   * random source `draw` (None when the source fails).
   */
  method Generate(length: int, draw: nat -> Option<Index>) returns (r: Result<string, Error>)
    ensures length <= 0 ==> r == Ok("")
    ensures r.Err? <==> exists i: nat :: i < length && draw(i).None?
    ensures r.Err? ==> r.error == Entropy
    ensures r.Ok? ==> |r.value| == (if length <= 0 then 0 else length)
    ensures r.Ok? ==> forall i :: 0 <= i < |r.value| ==> draw(i).Some? && r.value[i] == Alphabet[draw(i).value]
  {
    assert |Alphabet| == 42;
    var result := "";
    var i := 0;
    while i < length
      invariant 0 <= i && (length > 0 ==> i <= length) && (length <= 0 ==> i == 0) && |result| == i
      invariant forall j: nat :: j < i ==> draw(j).Some?
      invariant forall j :: 0 <= j < i ==> draw(j).Some? && result[j] == Alphabet[draw(j).value]
    {
      var index := draw(i);
      if index.None? {
        return Err(Entropy);
      }
      result := result + [Alphabet[index.value]];
      i := i + 1;
    }
    r := Ok(result);
  }

  lemma CapitalIsUpper(c: char)
    requires c in Capitals
    ensures 'A' <= c <= 'Z'
  {
  }

  lemma DigitIsDigit(c: char)
    requires c in Digits
    ensures '0' <= c <= '9'
  {
  }

  lemma AlphabetIsAlphanumeric(i: int)
    requires 0 <= i < |Alphabet|
    ensures ClassOf(Alphabet[i]) != Symbol
  {
    var c := Alphabet[i];
    if i < 26 {
      assert c == Capitals[i];
      CapitalIsUpper(c);
    } else if i < 32 {
      assert c == "abcdef"[i - 26];
    } else {
      assert c == Digits[i - 32];
      DigitIsDigit(c);
    }
  }

  /**
   * Nothing `Generate` produces passes the policy: its alphabet has no
   * punctuation or symbol.
   */
  lemma GeneratedFailsPolicy(s: string)
    requires forall i :: 0 <= i < |s| ==> s[i] in Alphabet
    ensures PasswordVerdict(s) != None
  {
    if HasClass(s, Symbol) {
      var i :| 0 <= i < |s| && ClassOf(s[i]) == Symbol;
      var j :| 0 <= j < |Alphabet| && Alphabet[j] == s[i];
      AlphabetIsAlphanumeric(j);
    }
  }
}
