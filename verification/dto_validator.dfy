/**
 * `DTOValidator`, given the violation messages a form produced (in the order
 * the validator reports them).
 */
module DtoValidator {
  import opened Wrappers
  import Text

  /** `isValid`. */
  function IsValid(violations: seq<string>): (ok: bool)
    ensures ok <==> |violations| == 0
  {
    violations == []
  }

  /** One line per message: `prefix`, the message, a newline. */
  function Lines(prefix: string, messages: seq<string>): string
  {
    if messages == [] then "" else prefix + messages[0] + "\n" + Lines(prefix, messages[1..])
  }

  /** Adding a message at the end adds its line at the end. */
  lemma {:induction false} LinesSnoc(prefix: string, messages: seq<string>, m: string)
    ensures Lines(prefix, messages + [m]) == Lines(prefix, messages) + prefix + m + "\n"
  {
    if messages != [] {
      assert (messages + [m])[1..] == messages[1..] + [m];
      LinesSnoc(prefix, messages[1..], m);
    }
  }

  /**
   * The `StringBuilder` loop of `getValidationMessages` and `validateOrThrow`:
   * starting from `header`, it appends the prefix, the message and a newline
   * for each violation in turn.
   */
  method AppendLines(header: string, prefix: string, messages: seq<string>) returns (text: string)
    ensures text == header + Lines(prefix, messages)
  {
    text := header;
    var i := 0;
    while i < |messages|
      invariant 0 <= i <= |messages|
      invariant text == header + Lines(prefix, messages[..i])
    {
      LinesSnoc(prefix, messages[..i], messages[i]);
      assert messages[..i + 1] == messages[..i] + [messages[i]];
      text := text + prefix + messages[i] + "\n";
      i := i + 1;
    }
    assert messages[..i] == messages;
  }

  /** Every message has its own line. */
  lemma {:induction false} LinesContainEach(prefix: string, messages: seq<string>, m: string)
    requires m in messages
    ensures Text.IsInfix(prefix + m + "\n", Lines(prefix, messages))
  {
    var line := prefix + m + "\n";
    var head := prefix + messages[0] + "\n";
    var rest := Lines(prefix, messages[1..]);
    assert Lines(prefix, messages) == head + rest;
    if messages[0] == m {
      assert (head + rest)[0..|line|] == line;
      assert Text.OccursAt(line, head + rest, 0);
    } else {
      assert m in messages[1..];
      LinesContainEach(prefix, messages[1..], m);
      var k :| 0 <= k <= |rest| - |line| && Text.OccursAt(line, rest, k);
      assert (head + rest)[|head| + k..|head| + k + |line|] == rest[k..k + |line|];
      assert Text.OccursAt(line, head + rest, |head| + k);
    }
  }

  /**
   * `getValidationMessages`: "Data is valid." without violations; otherwise
   * the header followed by exactly one bulleted line per violation, in order,
   * which is what `AppendLines` builds.
   */
  function ValidationMessages(violations: seq<string>): (r: string)
    ensures violations == [] ==> r == "Data is valid."
    ensures violations != [] ==>
      && r == "Validation errors:\n" + Lines("  \U{2022} ", violations)
      && |r| >= 19 && r[..19] == "Validation errors:\n"
      && forall m :: m in violations ==> Text.IsInfix("  \U{2022} " + m + "\n", r)
  {
    if violations == [] then "Data is valid."
    else
      var header := "Validation errors:\n";
      var body := Lines("  \U{2022} ", violations);
      forall m | m in violations
        ensures Text.IsInfix("  \U{2022} " + m + "\n", header + body)
      {
        LinesContainEach("  \U{2022} ", violations, m);
        InfixAfter(header, "  \U{2022} " + m + "\n", body);
      }
      header + body
  }

  /** Text found in `s` is still found after something is put in front of it. */
  lemma InfixAfter(front: string, p: string, s: string)
    requires Text.IsInfix(p, s)
    ensures Text.IsInfix(p, front + s)
  {
    var k :| 0 <= k <= |s| - |p| && Text.OccursAt(p, s, k);
    assert (front + s)[|front| + k..|front| + k + |p|] == s[k..k + |p|];
    assert Text.OccursAt(p, front + s, |front| + k);
  }

  /** The text of the exception `validateOrThrow` raises. */
  function FailureText(violations: seq<string>): string
  {
    "Validation failed:\n" + Lines("- ", violations)
  }

  /**
   * `validateOrThrow`: passes without violations; otherwise fails with an
   * invalid-argument error whose text is the header followed by exactly one
   * dashed line per violation, so it lists every violation, not just the first.
   */
  function ValidateOrThrow(violations: seq<string>): (c: Check)
    ensures c.Pass? <==> IsValid(violations)
    ensures c.Fail? ==>
      && c.error == Invalid("Validation failed:\n" + Lines("- ", violations))
      && |c.error.message| >= 19 && c.error.message[..19] == "Validation failed:\n"
      && forall m :: m in violations ==> Text.IsInfix("- " + m + "\n", c.error.message)
  {
    if violations == [] then Pass
    else
      forall m | m in violations
        ensures Text.IsInfix("- " + m + "\n", FailureText(violations))
      {
        LinesContainEach("- ", violations, m);
        InfixAfter("Validation failed:\n", "- " + m + "\n", Lines("- ", violations));
      }
      Fail(Invalid(FailureText(violations)))
  }
}
