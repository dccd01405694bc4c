/**
  A model of package `greetings`: the function `Hello`, which turns a
  person's name into a welcome message and refuses an empty name.

  The outcome of `Hello` is the datatype `Outcome`: `Failure` holds the text
  of the error value, `Success` the greeting.
 */
module Greetings {

  /** The two outcomes of a call to `Hello`. */
  datatype Outcome = Failure(msg: string) | Success(greeting: string)

  datatype Option<T> = None | Some(value: T)

  /** Text of the error returned for an empty name. */
  const EMPTY_NAME_ERROR := "empty name"

  /** The literal text before the `%v` verb in the format string. */
  const PREFIX := "Hi, "

  /** The literal text after the `%v` verb in the format string. */
  const SUFFIX := ". Welcome!"

  /** `fmt.Sprintf("Hi, %v. Welcome!", name)`: the `%v` verb prints a
      string operand unchanged, so the message is the name framed by the two
      literal parts of the format, 14 characters in all. */
  function Welcome(name: string): (r: string)
    ensures |r| == |name| + |PREFIX| + |SUFFIX| == |name| + 14
  {
    PREFIX + name + SUFFIX
  }

  /** `Hello`: an empty name is the only input rejected, with the error text
      "empty name"; every other name gets the message `Welcome` formats. */
  function Hello(name: string): (r: Outcome)
    ensures r.Failure? <==> name == ""
    ensures r.Failure? ==> r.msg == "empty name"
    ensures r.Success? ==> |r.greeting| == |name| + 14
  {
    if name == "" then
      Failure(EMPTY_NAME_ERROR)
    else
      Success(Welcome(name))
  }

  /** Reads a welcome message back: the text between the prefix and the
      suffix, or `None` when the text is not framed like a greeting. Every
      text it accepts is the welcome message of the name it extracts. */
  function NameIn(text: string): (r: Option<string>)
    ensures r.Some? ==> Welcome(r.value) == text
  {
    if |text| >= |PREFIX| + |SUFFIX| && text[..|PREFIX|] == PREFIX && text[|text| - |SUFFIX|..] == SUFFIX then
      Some(text[|PREFIX|..|text| - |SUFFIX|])
    else
      None
  }

  /** Where each part of a welcome message sits: "Hi, " at offset 0, the
      name unchanged at offset 4, ". Welcome!" at the end. */
  lemma WelcomeLayout(name: string)
    ensures Welcome(name)[..4] == "Hi, "
    ensures Welcome(name)[4..|name| + 4] == name
    ensures Welcome(name)[|name| + 4..] == ". Welcome!"
  {
  }

  /** `NameIn` is the inverse of `Welcome`: a text is accepted with name `n`
      exactly when it is the welcome message of `n`. */
  lemma NameInInvertsWelcome(text: string, name: string)
    ensures NameIn(text) == Some(name) <==> Welcome(name) == text
  {
  }

  /** The empty name fails with the message "empty name" and yields no
      greeting. */
  lemma EmptyNameFails()
    ensures Hello("") == Failure("empty name")
    ensures !Hello("").Success?
  {
  }

  /** Success happens exactly for the non-empty names, and then the
      greeting is "Hi, " followed by the name and ". Welcome!". */
  lemma NonEmptyNameGreeted(name: string)
    ensures Hello(name).Success? <==> name != ""
    ensures name != "" ==> Hello(name) == Success("Hi, " + name + ". Welcome!")
  {
  }

  /** A successful greeting has "Hi, " at offset 0, the name unchanged at
      offset 4 and ". Welcome!" at its end. */
  lemma GreetingLayout(name: string)
    requires name != ""
    ensures Hello(name).Success?
    ensures Hello(name).greeting[..4] == "Hi, "
    ensures Hello(name).greeting[4..|name| + 4] == name
    ensures Hello(name).greeting[|name| + 4..] == ". Welcome!"
  {
  }

  /** The greetings are exactly the welcome-shaped texts with a non-empty
      name inside: the name can be read back out of a greeting, and every
      such text is the greeting of the name it holds. */
  lemma GreetingsAreReadable(text: string, name: string)
    ensures Hello(name) == Success(text) <==> name != "" && NameIn(text) == Some(name)
  {
  }

  /** Two different non-empty names receive two different greetings. */
  lemma HelloInjective(a: string, b: string)
    requires a != "" && b != ""
    requires Hello(a) == Hello(b)
    ensures a == b
  {
    var g := Hello(a).greeting;
    GreetingLayout(a);
    GreetingLayout(b);
    assert a == g[4..|a| + 4] == b;
  }

  /** The worked example: the name Alice. */
  lemma GreetsAlice()
    ensures Hello("Alice") == Success("Hi, Alice. Welcome!")
  {
  }
}
