/**
 What a caller of the greeting endpoint can rely on: the builder's output can
 be read back into the name it was built from, different names never give the
 same greeting, and the fallback text can never be mistaken for a greeting.
 */
module GreetingProperties {
  import opened Wrappers
  import opened MyController

  /** Reads a response body back into the name it greets, or None when the
      body is not a greeting for a non-empty name. This is the inverse of the
      builder, used to state what a response tells its receiver. */
  function ParseGreeting(body: string): (name: Option<string>)
    ensures name.Some? ==> CreateGreetingMessage(name) == Ok(body)
  {
    if |body| > |Prefix| + |Suffix|
       && body[..|Prefix|] == Prefix
       && body[|body| - |Suffix|..] == Suffix
    then Some(body[|Prefix|..|body| - |Suffix|])
    else None
  }

  /** Every greeting the builder produces parses back to the name it was
      built from. */
  lemma ParseAfterBuild(name: Option<string>)
    requires CreateGreetingMessage(name).Ok?
    ensures ParseGreeting(CreateGreetingMessage(name).message) == name
  {
  }

  /** The builder is injective on the names it accepts: equal greetings come
      from equal names. */
  lemma GreetingInjective(a: Option<string>, b: Option<string>)
    requires CreateGreetingMessage(a).Ok?
    requires CreateGreetingMessage(a) == CreateGreetingMessage(b)
    ensures a == b
  {
  }

  /** The fallback text does not start with "Hello, " and so is never a
      greeting. */
  lemma FallbackIsNotGreeting()
    ensures !(|FallbackMessage| >= 7 && FallbackMessage[..7] == "Hello, ")
    ensures ParseGreeting(FallbackMessage) == None
  {
    assert FallbackMessage[0] == 'A';
    assert Prefix[0] == 'H';
  }

  /** The handler's response tells its receiver exactly what happened: it
      parses back to the name when the builder accepted it and to None when
      the builder failed. */
  lemma ResponseRevealsOutcome(name: Option<string>)
    ensures ParseGreeting(GreetUser(name)) ==
      (if name == None || name == Some("") then None else name)
  {
  }

  /** The handler's response is either a greeting for the given name or the
      fallback text, never anything else. */
  lemma ResponseIsGreetingOrFallback(name: Option<string>)
    ensures GreetUser(name) == FallbackMessage
         || (name.Some? && GreetUser(name) == "Hello, " + name.value + "!")
  {
  }

  /** A blank name is not rejected: only emptiness is checked. */
  lemma BlankNameAccepted()
    ensures CreateGreetingMessage(Some(" ")) == Ok("Hello,  !")
    ensures GreetUser(Some("  ")) == "Hello,   !"
  {
  }

  /** Example requests and the bodies the handler answers with. */
  lemma Scenarios()
    ensures GreetUser(Some("World")) == "Hello, World!"
    ensures GreetUser(Some("")) == "An error occurred"
    ensures GreetUser(None) == "An error occurred"
    ensures GreetUser(Some("Ünïcödé")) == "Hello, Ünïcödé!"
  {
  }
}
