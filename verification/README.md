# Greeting endpoint model

A Dafny model of the `/greet` endpoint of a small Spring Boot service. It has
two parts, both in `MyController.java`:

- the **greeting builder** (`createGreetingMessage`) rejects a null or empty
  name and otherwise returns `"Hello, " + name + "!"`;
- the **request handler** (`greetUser`) calls the builder and never lets its
  failure escape. It returns the greeting on success and the fixed text
  `"An error occurred"` on any `Exception`.

Java's nullable `String` is modelled as `Option<string>` (`Wrappers.Option`),
where `None` is `null`. The builder's thrown exception becomes the
`InvalidInput` variant of `MyController.BuildResult`. The handler is a total
function from `Option<string>` to `string` (see "## Left out" for the
string-length bound it does not model). `GreetingProperties.ParseGreeting`
is the builder's inverse: it reads a response body back into the name it
greets. The lemmas use it to state what a receiver of the response can learn.

Files:
- `wrappers.dfy`: `Option`.
- `my_controller.dfy`: the builder, the handler and their constants.
- `greeting_properties.dfy`: the inverse of the builder and the lemmas relating the operations.

## Model

| member | source | states |
|---|---|---|
| MyController.CreateGreetingMessage | MyController.java:28-34 | fails exactly when the name is null or empty; on success the greeting is 8 characters longer than the name, starts with "Hello, ", ends with "!", and holds the name's characters unchanged from offset 7 |
| MyController.GreetUser | MyController.java:15-26 | total over unbounded strings; returns the fallback text exactly when the name is null or empty; otherwise returns the same text the builder produced |
| GreetingProperties.ParseGreeting | MyController.java:33 | a body that reads back as a name is exactly the builder's greeting for that name, so the name is accepted (non-null, non-empty) |
| GreetingProperties.ParseAfterBuild | MyController.java:30-33 | every greeting the builder produces reads back to the name it was built from |
| GreetingProperties.GreetingInjective | MyController.java:33 | two accepted names with equal greetings are equal |
| GreetingProperties.FallbackIsNotGreeting | MyController.java:24-33 | the fallback text does not start with "Hello, " and never reads back as a greeting |
| GreetingProperties.ResponseRevealsOutcome | MyController.java:18-25 | the handler's response reads back to the name when the builder accepted it and to nothing when the builder failed |
| GreetingProperties.ResponseIsGreetingOrFallback | MyController.java:18-25 | the handler's response is either "Hello, " + name + "!" or the fallback text |
| GreetingProperties.BlankNameAccepted | MyController.java:30-33 | a whitespace-only name is not rejected: " " gives "Hello,  !" and "  " gives "Hello,   !" |
| GreetingProperties.Scenarios | MyController.java:15-34 | "World" gives "Hello, World!"; null and "" give "An error occurred"; a non-ASCII name is passed through unchanged |

## Left out

- Spring HTTP binding (`@RestController`, `@GetMapping("/greet")`, `@RequestParam`): framework code. Whether a missing query parameter is rejected or arrives as null is decided there; the model covers both null and empty.
- SLF4J logging (the logger field and the info, debug and error calls): output side effects that never change a return value, assumed not to throw, as SLF4J loggers do not. A throw from the debug call or the builder's info call would be caught and turn the response into the fallback text, and one from the handler's first info call would escape.
- The exception's message text "Invalid name provided" and its Java type: they reach only the log, never the response, so one error variant stands for them.
- MyController.GreetUser: does not model the bound on Java `String` length (an `int`). A name long enough that `"Hello, " + name + "!"` exceeds the largest `String` Java can build makes the concatenation throw `OutOfMemoryError`, an `Error` rather than an `Exception`, so the `catch (Exception e)` does not catch it and it escapes `greetUser`; the model has unbounded strings and returns the greeting. Such names cannot arrive through HTTP, whose servers cap request sizes.
- Concurrent serving of requests: both operations are stateless.
- Character counting: Java's `isEmpty` and string lengths count UTF-16 code units, while the model counts Dafny characters (Unicode scalar values). The absolute lengths differ for characters outside the Basic Multilingual Plane, but "Hello, " and "!" are 7 and 1 units in both measures, so the greeting is always 8 longer than the name and the name always starts at offset 7, and emptiness agrees. A Java `String` can also hold unpaired surrogate code units, which a Dafny `string` cannot; such names are outside the model, and HTTP parameter decoding normally replaces malformed sequences with U+FFFD before they reach the handler.
