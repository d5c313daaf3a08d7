/**
 * The constrained fields the DTOs share or repeat. For each field, the
 * messages its annotations produce (in declaration order) and, beside them, a
 * direct statement of what a valid value looks like; each violation function
 * promises that it reports nothing exactly when the value is valid.
 */
module FieldRules {
  import opened Wrappers
  import opened Constraints
  import Text

  /** Some character of `s` survives `trim()`. */
  predicate HasVisibleChar(s: string)
  {
    exists i :: 0 <= i < |s| && !Text.IsTrimmable(s[i])
  }

  predicate HasLetter(s: string)
  {
    exists i :: 0 <= i < |s| && Text.IsLetter(s[i])
  }

  predicate UsernameValid(o: Option<string>)
  {
    o.Some? && 3 <= |o.value| <= 50 && forall i :: 0 <= i < |o.value| ==> IsUsernameChar(o.value[i])
  }

  /** `username`: 3 to 50 characters, each a letter, digit or underscore. */
  function UsernameViolations(o: Option<string>): (r: seq<string>)
    ensures r == [] <==> UsernameValid(o)
  {
    NotBlankWitness(o);
    Rule(NotBlank(o), "Username cannot be empty")
    + Rule(SizeBetween(o, 3, 50), "Username must be between 3 and 50 characters")
    + Rule(Matches(o, UsernamePattern), "Username can only contain letters, numbers and underscores")
  }

  predicate PasswordValid(o: Option<string>)
  {
    o.Some? && |o.value| >= 6 && HasVisibleChar(o.value)
  }

  /** `password`: at least 6 characters, not all of them blank. */
  function PasswordViolations(o: Option<string>): (r: seq<string>)
    ensures r == [] <==> PasswordValid(o)
  {
    NotBlankWitness(o);
    Rule(NotBlank(o), "Password cannot be empty")
    + Rule(SizeAtLeast(o, 6), "Password must be at least 6 characters")
  }

  predicate NameValid(o: Option<string>)
  {
    o.Some? && 2 <= |o.value| <= 50 && HasLetter(o.value)
    && forall i :: 0 <= i < |o.value| ==> IsNameChar(o.value[i])
  }

  /**
   * A first or last name: 2 to 50 characters, letters and white space only,
   * at least one letter. `field` names the field; the pattern's message is
   * worded differently in different DTOs.
   */
  function NameViolations(o: Option<string>, field: string, patternMessage: string): (r: seq<string>)
    ensures r == [] <==> NameValid(o)
  {
    NotBlankWitness(o);
    if o.Some? then
      NameCharsVisible(o.value);
      NameRules(o, field, patternMessage)
    else
      NameRules(o, field, patternMessage)
  }

  function NameRules(o: Option<string>, field: string, patternMessage: string): (r: seq<string>)
    ensures r == [] <==> NotBlank(o) && SizeBetween(o, 2, 50) && Matches(o, NamePattern)
  {
    Rule(NotBlank(o), field + " cannot be empty")
    + Rule(SizeBetween(o, 2, 50), field + " must be between 2 and 50 characters")
    + Rule(Matches(o, NamePattern), patternMessage)
  }

  /** Among letters and white space, the letters are exactly what `trim()` keeps. */
  lemma NameCharsVisible(s: string)
    ensures (forall i :: 0 <= i < |s| ==> IsNameChar(s[i])) ==> (HasVisibleChar(s) <==> HasLetter(s))
  {
    if forall i :: 0 <= i < |s| ==> IsNameChar(s[i]) {
      if HasVisibleChar(s) {
        var i :| 0 <= i < |s| && !Text.IsTrimmable(s[i]);
        assert Text.IsLetter(s[i]);
      }
      if HasLetter(s) {
        var i :| 0 <= i < |s| && Text.IsLetter(s[i]);
        assert !Text.IsTrimmable(s[i]);
      }
    }
  }

  predicate EmailValid(o: Option<string>)
  {
    o.Some? && |o.value| <= 100 && HasVisibleChar(o.value)
  }

  /** `email`: not blank, at most 100 characters (the address syntax is not checked here). */
  function EmailViolations(o: Option<string>): (r: seq<string>)
    ensures r == [] <==> EmailValid(o)
  {
    NotBlankWitness(o);
    Rule(NotBlank(o), "Email cannot be empty")
    + Rule(SizeBetween(o, 0, 100), "Email cannot exceed 100 characters")
  }

  predicate PhoneValid(o: Option<string>)
  {
    o.None? || (|o.value| == 11 && o.value[..2] == "09" && Text.AllDigits(o.value[2..]))
  }

  /** `phoneNumber`: absent, or "09" and nine more digits. */
  function PhoneViolations(o: Option<string>): (r: seq<string>)
    ensures r == [] <==> PhoneValid(o)
  {
    Rule(Matches(o, PhonePattern), "Phone number must start with 09 and be 11 digits")
  }

  predicate NationalIdValid(o: Option<string>)
  {
    o.None? || (|o.value| == 10 && Text.AllDigits(o.value))
  }

  /** `nationalId`: absent, or ten digits. */
  function NationalIdViolations(o: Option<string>): (r: seq<string>)
    ensures r == [] <==> NationalIdValid(o)
  {
    Rule(Matches(o, TenDigitsPattern), "National ID must be 10 digits")
  }
}
