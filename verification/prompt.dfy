/**
 * Prompt normalisation (src/main.rs lines 23-35): an empty prompt is
 * refused, and a prompt that ends in a line feed loses its whole run of
 * trailing line feeds and carriage returns.
 */
module Prompt {
  import opened Wrappers
  import opened Text

  /** Why a prompt cannot be sent. */
  datatype PromptError = NoInput

  predicate IsLineEnd(c: char) {
    c == '\n' || c == '\r'
  }

  /** Drops every trailing line feed and carriage return. */
  function StripLineEnds(s: string): (r: string)
    ensures r <= s
    ensures All(s[|r|..], IsLineEnd)
    ensures r == [] || !IsLineEnd(r[|r| - 1])
  {
    TrimEndWhere(s, IsLineEnd)
  }

  /** The prompt as sent, or the error the program exits with.
      Emptiness is tested on the prompt as given, before stripping. */
  function NormalizePrompt(prompt: string): (r: Result<string, PromptError>)
    ensures r.Failure? <==> prompt == []
    ensures r.Success? ==> r.value <= prompt
    ensures r.Success? && prompt[|prompt| - 1] == '\n' ==>
              && All(prompt[|r.value|..], IsLineEnd)
              && (r.value == [] || !IsLineEnd(r.value[|r.value| - 1]))
    ensures r.Success? && prompt[|prompt| - 1] != '\n' ==> r.value == prompt
  {
    if prompt == [] then Failure(NoInput)
    else if prompt[|prompt| - 1] == '\n' then Success(StripLineEnds(prompt))
    else Success(prompt)
  }

  /** The pop loop of the source: pop one character, then one more if a
      carriage return is left on the end, while the prompt still ends
      in a line feed or carriage return. */
  method PopLineEnds(prompt: string) returns (p: string)
    ensures p <= prompt
    ensures All(prompt[|p|..], IsLineEnd)
    ensures p == [] || !IsLineEnd(p[|p| - 1])
  {
    p := prompt;
    while p != [] && IsLineEnd(p[|p| - 1])
      invariant p <= prompt
      invariant All(prompt[|p|..], IsLineEnd)
      decreases |p|
    {
      p := p[..|p| - 1];
      if p != [] && p[|p| - 1] == '\r' {
        p := p[..|p| - 1];
      }
    }
  }

  /** The loop removes exactly what `StripLineEnds` removes. */
  lemma PopLineEndsStripsLineEnds(prompt: string, p: string)
    requires p <= prompt
    requires All(prompt[|p|..], IsLineEnd)
    requires p == [] || !IsLineEnd(p[|p| - 1])
    ensures p == StripLineEnds(prompt)
  {
    assert prompt == p + prompt[|p|..];
    TrimEndWhereUnique(p, prompt[|p|..], IsLineEnd);
  }

  /** A prompt made only of a line feed passes the emptiness check and
      is sent as the empty string; a lone trailing carriage return stays. */
  lemma NewlineOnlyPromptIsSentEmpty()
    ensures NormalizePrompt("\n") == Success("")
    ensures NormalizePrompt("\r\n\n") == Success("")
    ensures NormalizePrompt("hi\r") == Success("hi\r")
    ensures NormalizePrompt("") == Failure(NoInput)
  {
    assert All("\n"[0..], IsLineEnd);
    PopLineEndsStripsLineEnds("\n", "");
    assert All("\r\n\n"[0..], IsLineEnd);
    PopLineEndsStripsLineEnds("\r\n\n", "");
  }
}
