/**
 The greeting endpoint: a builder that turns a name into "Hello, <name>!" or
 rejects it, and a request handler that never lets the rejection escape and
 answers with a fixed fallback text instead.
 */
module MyController {
  import opened Wrappers

  /** The text placed before the name in every greeting. */
  const Prefix: string := "Hello, "

  /** The text placed after the name in every greeting. */
  const Suffix: string := "!"

  /** The response body the handler gives whenever the builder fails. */
  const FallbackMessage: string := "An error occurred"

  /** Outcome of the greeting builder: the message, or the one error it raises. */
  datatype BuildResult = Ok(message: string) | InvalidInput

  /** The builder's validation: a null or zero-length name is rejected.
      Nothing else is checked, so a blank name such as " " is accepted. */
  predicate IsNullOrEmpty(name: Option<string>) {
    name.None? || |name.value| == 0
  }

  /** Builds the greeting for `name`, or fails with InvalidInput when the name
      is null or empty. On success the name's characters are copied unchanged
      between the prefix "Hello, " and the suffix "!". */
  function CreateGreetingMessage(name: Option<string>): (r: BuildResult)
    ensures r.InvalidInput? <==> (name == None || name == Some(""))
    ensures r.Ok? ==>
      && |r.message| == |name.value| + 8
      && r.message[..7] == "Hello, "
      && r.message[|r.message| - 1] == '!'
      && r.message[7..|r.message| - 1] == name.value
  {
    if IsNullOrEmpty(name) then InvalidInput
    else Ok(Prefix + name.value + Suffix)
  }

  /** The request handler: always answers, with the builder's greeting when it
      succeeds and with the fixed fallback text when it fails. Java's bound on
      string length, whose overflow would escape the handler, is not modelled. */
  function GreetUser(name: Option<string>): (body: string)
    ensures body == FallbackMessage <==> (name == None || name == Some(""))
    ensures name != None && name != Some("") ==>
      CreateGreetingMessage(name) == Ok(body)
  {
    match CreateGreetingMessage(name)
    case Ok(message) => message
    case InvalidInput => FallbackMessage
  }
}
