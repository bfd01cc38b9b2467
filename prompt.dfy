/** The validator the interactive prompts use for every answer (`required`,
    index.js:173-180): a string that is blank once trimmed is rejected with the
    message " ", anything else is accepted with `true`. */
module Prompt {
  import opened Json

  /** The characters Ramda's `trim` removes: the white space and line
      terminators of the ECMAScript grammar, and U+180E. Ramda trims with its
      own list, which holds U+180E, whenever the engine's `String.prototype.trim`
      leaves some character of that list in place, as current engines do with
      U+180E. */
  predicate IsWhitespace(c: char) {
    var u := c as int;
    u == 0x09 || u == 0x0A || u == 0x0B || u == 0x0C || u == 0x0D || u == 0x20
    || u == 0xA0 || u == 0x1680 || u == 0x180E || (0x2000 <= u <= 0x200A) || u == 0x2028
    || u == 0x2029 || u == 0x202F || u == 0x205F || u == 0x3000 || u == 0xFEFF
  }

  ghost predicate AllWhitespace(s: string) {
    forall i :: 0 <= i < |s| ==> IsWhitespace(s[i])
  }

  /** `s` without its leading white space. */
  function TrimStart(s: string): string {
    if |s| > 0 && IsWhitespace(s[0]) then TrimStart(s[1..]) else s
  }

  /** `s` without its trailing white space. */
  function TrimEnd(s: string): string {
    if |s| > 0 && IsWhitespace(s[|s| - 1]) then TrimEnd(s[..|s| - 1]) else s
  }

  /** Ramda's `trim`. */
  function Trim(s: string): string {
    TrimEnd(TrimStart(s))
  }

  /** The answer `required` gives: the string " " (shown as the rejection
      message) or `true`. */
  function Required(input: Value): Value {
    var trimmed := if input.Str? then Str(Trim(input.s)) else input;
    if trimmed == Str("") then Str(" ") else Bool(true)
  }

  lemma {:induction false} TrimStartEmptyIff(s: string)
    ensures TrimStart(s) == "" <==> AllWhitespace(s)
  {
    if |s| > 0 && IsWhitespace(s[0]) {
      TrimStartEmptyIff(s[1..]);
      assert AllWhitespace(s[1..]) ==> AllWhitespace(s) by {
        if AllWhitespace(s[1..]) {
          forall i | 0 <= i < |s| ensures IsWhitespace(s[i]) {
            if i > 0 { assert s[i] == s[1..][i - 1]; }
          }
        }
      }
    }
  }

  lemma {:induction false} TrimEndEmptyIff(s: string)
    ensures TrimEnd(s) == "" <==> AllWhitespace(s)
  {
    if |s| > 0 && IsWhitespace(s[|s| - 1]) {
      var init := s[..|s| - 1];
      TrimEndEmptyIff(init);
      assert AllWhitespace(init) ==> AllWhitespace(s) by {
        if AllWhitespace(init) {
          forall i | 0 <= i < |s| ensures IsWhitespace(s[i]) {
            if i < |s| - 1 { assert s[i] == init[i]; }
          }
        }
      }
    }
  }

  /** A trimmed string is empty exactly when every character of the input is
      white space. */
  lemma TrimEmptyIff(s: string)
    ensures Trim(s) == "" <==> AllWhitespace(s)
  {
    TrimStartEmptyIff(s);
    TrimEndEmptyIff(TrimStart(s));
    if TrimStart(s) != "" {
      assert !IsWhitespace(TrimStart(s)[0]) by { TrimStartHead(s); }
    }
  }

  lemma {:induction false} TrimStartHead(s: string)
    requires TrimStart(s) != ""
    ensures !IsWhitespace(TrimStart(s)[0])
  {
    if |s| > 0 && IsWhitespace(s[0]) { TrimStartHead(s[1..]); }
  }

  /** `required` rejects (answers " ") exactly the strings made only of white
      space, the empty string included, and accepts (answers `true`) every
      other string and every value that is not a string. */
  lemma RequiredRejectsBlank(input: Value)
    ensures Required(input) == Str(" ") <==> input.Str? && AllWhitespace(input.s)
    ensures Required(input) != Str(" ") ==> Required(input) == Bool(true)
  {
    if input.Str? { TrimEmptyIff(input.s); }
  }
}
