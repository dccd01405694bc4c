# Greetings

A Dafny model of the Go package `greetings`. Its one function, `Hello`,
takes a person's name. It refuses the empty name with the error
"empty name". For any other name it returns the message
`Hi, <name>. Welcome!`. `Hello` is pure: it has no state and no I/O, so
calling it again with the same name gives the same outcome. In the model
this holds because `Hello` is a Dafny `function`.

The model is one module, `Greetings` (`greetings.dfy`):

- `Outcome` is the result of a call: `Failure(msg)` carries the error's
  text, `Success(greeting)` carries the message.
- `Welcome` models `fmt.Sprintf("Hi, %v. Welcome!", name)`. The `%v` verb
  prints a string operand unchanged, so this is plain concatenation.
- `Hello` models the function itself.
- `NameIn` reads a name back out of a message. It is not in the Go code.
  It is the inverse of `Welcome` and is used to state that greetings
  determine their names.

Where the model departs from the code: `Hello` is declared at
`greetings/greetings.go:8` to return only `string`, yet line 10 returns an
`error` value. As written, the package does not type-check. The model
follows the evident intent, a two-outcome result (a failure carrying the
error text, or a greeting), in place of the declared signature.

## Model

| member | source | states |
|---|---|---|
| `Greetings.Welcome` | greetings/greetings.go:12 | the formatted message is 14 characters longer than the name (4 for "Hi, ", 10 for ". Welcome!") |
| `Greetings.Hello` | greetings/greetings.go:8-14 | fails exactly when the name is empty; the failure's text is "empty name"; a successful greeting is 14 characters longer than the name |
| `Greetings.NameIn` | greetings/greetings.go:12 | every text it accepts is the welcome message of the name it extracts (parse then format gives the text back) |
| `Greetings.WelcomeLayout` | greetings/greetings.go:12 | the message is "Hi, " at offset 0, then the name unchanged at offset 4, then ". Welcome!" at the end |
| `Greetings.NameInInvertsWelcome` | greetings/greetings.go:12 | both directions: `NameIn` accepts a text with a given name exactly when that text is the name's welcome message |
| `Greetings.EmptyNameFails` | greetings/greetings.go:9-10 | the empty name gives `Failure("empty name")` and no greeting |
| `Greetings.NonEmptyNameGreeted` | greetings/greetings.go:9-13 | success exactly when the name is non-empty, and then the greeting is exactly "Hi, " + name + ". Welcome!" |
| `Greetings.GreetingLayout` | greetings/greetings.go:12-13 | for a non-empty name, the greeting starts with "Hi, ", holds the name unchanged at offset 4 and ends with ". Welcome!" |
| `Greetings.GreetingsAreReadable` | greetings/greetings.go:9-13 | both directions: `Hello(name)` succeeds with a text exactly when the name is non-empty and the name can be read back from that text |
| `Greetings.HelloInjective` | greetings/greetings.go:12-13 | two non-empty names with the same outcome are the same name, so different names get different greetings |
| `Greetings.GreetsAlice` | greetings/greetings.go:12-13 | the name "Alice" gets exactly "Hi, Alice. Welcome!" |

## Left out

- The compile error: the mismatch between the declared `string` result and
  the `error` returned (greetings/greetings.go:8,10) is not modelled. The
  model uses the two-outcome result the code evidently intends.
- The internals of `fmt.Sprintf`: only `%v` applied to a string is
  modelled, and that prints the string unchanged.
- The `errors` package: an error is modelled by its message text inside
  `Failure`, not as Go's `error` interface.
- Go strings are byte sequences; the model uses `seq<char>`. The lengths
  stated above count characters. They equal byte counts only for ASCII
  names. Concatenation and the empty-name test behave the same either way.
