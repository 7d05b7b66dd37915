# shellous command algebra and `decode`, in Dafny

This project models two side-effect-free parts of shellous, an asyncio
library for running shell commands.

**Command builder algebra.** A context (`sh`) builds a `Command`: a
resolved argument tuple whose first element is the program name, plus an
immutable `Options` record. The record holds:

- the environment overlay and the `inherit_env` flag;
- where stdin, stdout and stderr are redirected, with an append flag on the outputs;
- an alternate display name.

Building a command flattens nested tuples and lists in order, and turns
integers, booleans, complex numbers and paths into text. A `bytearray`
becomes `bytes`. `None` is a type error, and Ellipsis, dicts and sets are
reserved syntax, rejected as not implemented. A command with no program
name is an invalid-argument error. Every builder operation returns a new
value:

- applying more arguments;
- `%` concatenation;
- `env`, `set` and the redirection setters;
- `_replace_args`.

Equality is structural. `merge_env` combines the overlay with the
environment the child would inherit. That environment is a parameter here.

**`util.decode(data, encoding)`.** Optional bytes plus an optional encoding
setting (`"utf-8"`, `"utf-8 replace"`, …) become bytes (no encoding) or
text. Text decoding is UTF-8 as RFC 3629 section 4 defines well-formed
sequences. A strict decoder reports the first ill-formed subpart; the
`replace` handler puts one U+FFFD in place of each maximal ill-formed
subpart, the way CPython does; the `ignore` handler drops them.

Modules, one per file:

| file | module | contents |
|---|---|---|
| `wrappers.dfy` | `Wrappers` | `Option`, `Result` |
| `errors.dfy` | `Errors` | the failures and the Python exception class of each |
| `bytes.dfy` | `Bytes` | the `byte` type |
| `decimal.dfy` | `Decimal` | Python `str()` of an integer and its inverse |
| `args.dfy` | `Args` | argument values, coercion, flattening |
| `options.dfy` | `CommandOptions` | the option record, `set_env`, `set`, `merge_env`, redirection checks |
| `command.dfy` | `Commands` | contexts, commands and their operations |
| `utf8.dfy` | `Utf8` | UTF-8 encoder, scanner and decoder with error handlers |
| `util.dfy` | `Util` | `decode` and parsing of the encoding setting |

## Model

| member | source | states |
|---|---|---|
| Errors.Message | tests/test_command.py:19-28 | the missing-program-name message contains "Command must include program name", the reserved-syntax one contains "reserved", the append one contains "append" |
| Decimal.IntToTextRoundTrip | tests/test_command.py:31-34 | parsing the decimal text of any integer gives the integer back |
| Decimal.IntToTextInjective | tests/test_command.py:160-169 | two integers have the same decimal text exactly when they are equal |
| Decimal.IntToTextShape | tests/test_command.py:31-34 | the text of an integer is a minus sign or a digit, then digits only |
| Args.ComplexText | tests/test_command.py:111-119 | the text of a complex number is parenthesised exactly when its real part is non-zero, and ends in `j` or `)` |
| Args.SignedImag | tests/test_command.py:111-119 | the imaginary part after a non-zero real part always carries a sign, `-` exactly for a negative part |
| Args.ComplexTextInjective | tests/test_command.py:111-119 | two complex numbers have the same text exactly when both their parts are equal |
| Args.SplitAtSign | tests/test_command.py:111-119 | integer text followed by a signed part splits back uniquely at the sign |
| Args.Coerce | tests/test_command.py:122-157 | text and bytes stay as they are; a `bytearray` becomes `bytes` with the same contents; an integer becomes its decimal `str()`, a boolean "True" or "False", a complex number its `str()`, a path its text; it fails exactly for `None` (TypeError) and Ellipsis, dict, set (NotImplementedError) |
| Args.CoerceInjective | tests/test_command.py:111-119 | two integers, booleans, complex numbers, paths or byte arrays resolve to the same argument exactly when they are equal |
| Args.Flatten | tests/test_command.py:105-119 | a successful resolution holds only text and bytes |
| Args.LeavesAppend | tests/test_command.py:105-119 | the leaves of a concatenation are the leaves of each part, in order |
| Args.FlattenSpec | tests/test_command.py:105-151 | a successful resolution is the leaf-by-leaf coercion of the leaves, in order; a failure is the error of the first leaf that does not coerce |
| Args.FlattenResolved | tests/test_command.py:87-102 | resolving a tuple of text and bytes gives the same tuple |
| Args.FlattenAppend | tests/test_command.py:55-59 | resolving a concatenation resolves each part and joins them, the left part's error first |
| Args.FlattenEmpty | tests/test_command.py:25-28 | resolution gives no arguments exactly when the lists hold no leaf |
| CommandOptions.Stringify | tests/test_command.py:172-182 | the same keys, each value its `str()` |
| CommandOptions.SetEnv | tests/test_command.py:172-205 | the overlay becomes present; its keys are the old ones plus the new ones; new values are stringified and win; other keys and all other fields are unchanged |
| CommandOptions.Set | tests/test_command.py:185-193 | only `inherit_env` and `alt_name` can change |
| CommandOptions.SetOne | tests/test_command.py:185-193 | one keyword sets exactly the option it names |
| CommandOptions.SetAppend | tests/test_audit.py:177-178 | two `set` calls equal one call with the keywords of both, in order |
| CommandOptions.SetUnmentioned | tests/test_command.py:185-201 | an option that no keyword names keeps its value |
| CommandOptions.SetEachKeyword | tests/test_command.py:185-201 | every keyword takes effect: the option it names gets its value, the last occurrence deciding when a keyword is repeated |
| CommandOptions.MergeEnv | tests/test_command.py:185-201 | `None` (inherit unchanged) exactly when there is no overlay and `inherit_env` is on; with `inherit_env` off, exactly the overlay, empty when there is none; otherwise the inherited variables with the overlay laid over them |
| CommandOptions.CheckRedirect | tests/test_command.py:222-234 | append is rejected exactly for targets other than text, bytes and paths, with a TypeError whose message mentions "append" |
| CommandOptions.SetEnvAccumulates | tests/test_command.py:177-182 | two `set_env` calls equal one with the merged variables, later values winning |
| CommandOptions.SetEnvUnchanged | tests/test_command.py:208-219 | `set_env` leaves options equal exactly when an overlay exists and already holds each value as text |
| CommandOptions.SetEnvSameText | tests/test_command.py:160-169 | setting one variable gives equal options exactly when the values have the same text |
| CommandOptions.SetEnvIntegers | tests/test_command.py:160-169 | setting one variable to two integers gives equal options exactly when the integers are equal |
| CommandOptions.SetInheritEnv | tests/test_command.py:185-219 | setting `inherit_env` gives equal options exactly when the flag already had that value |
| Commands.ContextEnv | tests/test_command.py:177-179 | a context's `env` sets its options' variables |
| Commands.ContextSet | tests/test_audit.py:177-178 | a context's `set` applies the keywords to its options |
| Commands.CallAfterContextSet | tests/test_audit.py:177-178 | a command built by a context after `set` equals the command built before, given the same keywords; errors are the same |
| Commands.ContextThenCommandSet | tests/test_audit.py:177-178 | keywords given to the context and then to one of its commands act as one `set` with both, context keywords first |
| Commands.Call | tests/test_command.py:19-34 | resolution errors pass through; no arguments left is the missing-program-name error; otherwise the resolved arguments (non-empty, text and bytes only) with the context's options |
| Commands.Apply | tests/test_command.py:55-66 | resolution errors pass through; otherwise the resolved arguments follow the existing ones, with the options unchanged |
| Commands.Concat | tests/test_command.py:249-277 | two commands give the left one applied to the right one's arguments; `None` and other values that do not define `%` with a command give the unsupported-operand error, a TypeError |
| Commands.Env | tests/test_command.py:160-182 | same arguments, options with the variables added |
| Commands.Set | tests/test_command.py:49-52 | same arguments, options with the settings applied |
| Commands.Stdin | tests/test_command.py:252 | same arguments and options, except the stdin target |
| Commands.Stdout | tests/test_command.py:222-234 | fails exactly when append is asked for a target that is not a file name, with a TypeError mentioning "append"; otherwise only the stdout redirection changes |
| Commands.Stderr | tests/test_command.py:222-234 | as for stdout, on the stderr redirection |
| Commands.ReplaceArgs | tests/test_command.py:237-246 | the given tuple, verbatim, with the same options |
| Commands.Name | tests/test_command.py:37-52 | the alternate name when set, otherwise the first argument |
| Commands.CallMissingProgramName | tests/test_command.py:19-28 | the call fails with the missing-program-name error exactly when there is no leaf; that error is a ValueError with the tested message |
| Commands.CallResolvesLeaves | tests/test_command.py:105-151 | a built command holds the coerced leaves in order, with the context's options; a failed call reports the first leaf that does not coerce |
| Commands.CallKeepsResolved | tests/test_command.py:87-102 | text and bytes arguments are stored unchanged: no glob or variable expansion |
| Commands.CallOfLeaves | tests/test_command.py:31-34 | when every leaf coerces to the expected value, the call stores exactly those values |
| Commands.CallCoercesInt | tests/test_command.py:31-34 | `sh("echo", "a", 2)` stores `("echo", "a", "2")` |
| Commands.ComplexArg | tests/test_command.py:111-119 | the complex number `1+3j` is written `(1+3j)` |
| Commands.NestedLeaves | tests/test_command.py:111-119 | the leaves of the nested test arguments, in order |
| Commands.CallNestedLists | tests/test_command.py:111-119 | the nested test arguments resolve to `("echo", "-n", "arg1", "1", "2", "3", "(1+3j)")` |
| Commands.CallByteArray | tests/test_command.py:154-157 | a `bytearray` argument is stored as `bytes` with the same contents |
| Commands.CallRejectsArgument | tests/test_command.py:122-151 | after resolved arguments, `None` fails with a TypeError; Ellipsis, dict and set fail with a NotImplementedError whose message says "reserved" |
| Commands.ApplyNothing | tests/test_command.py:62-66 | applying nothing gives back the same command, also when repeated |
| Commands.ApplyTwice | tests/test_command.py:55-59 | applying two argument lists one after the other equals applying their concatenation |
| Commands.CallThenApply | tests/test_command.py:55-59 | `sh(*a)(*b)` equals `sh(*a, *b)` |
| Commands.ConcatIsApplyTuple | tests/test_command.py:258 | `lhs % rhs` equals `lhs(rhs.args)` |
| Commands.ConcatKeepsLeftOptions | tests/test_command.py:255-257 | with resolved right arguments, `%` appends them and keeps only the left options |
| Commands.ConcatLikeOneCall | tests/test_command.py:252-257 | `sh(*a).stdin(t) % rhs` equals `sh(*a, *b).stdin(t)` when `rhs` holds the resolution of `b`, whatever its options |
| Commands.ConcatAssign | tests/test_command.py:280-285 | `cmd %= sh(*b)` with `cmd = sh(*a)` equals `sh(*a, sh(*b).args)` |
| Commands.ConcatChain | tests/test_command.py:261-267 | `a % b % c` groups to the left, equals `a(b(c.args).args)`, and is associative over resolved arguments |
| Commands.DefaultEnvIsNone | tests/test_command.py:172-175 | commands from a fresh context have no overlay, so `merge_env` gives `None` |
| Commands.CommandEnvAccumulates | tests/test_command.py:172-182 | variables given to the context reach its commands as text, and a command's `env` adds to them, later values winning |
| Commands.CommandEnvEquality | tests/test_command.py:160-169 | `cmd.env(FOO=i) == cmd.env(FOO=j)` exactly when `i == j` |
| Commands.ReplaceArgsLikeCall | tests/test_command.py:237-241 | replacing with a resolved, non-empty tuple gives the command the context would build from it |
| Commands.NameOfCall | tests/test_command.py:37-40 | without an alternate name, a built command's name is its first leaf, coerced |
| Commands.NameAfterAltName | tests/test_command.py:49-52 | after a `set` whose last `alt_name` is `n`, whatever other keywords it gives, the name is `n` |
| Commands.NameStable | tests/test_command.py:37-52 | applying arguments, adding variables and redirecting keep the name |
| Utf8.CodePoint | tests/test_util.py:120 | a well-formed sequence denotes a Unicode scalar value, and its length matches the value's range |
| Utf8.EncodeCharWellFormed | tests/test_util.py:120 | every character encodes to a well-formed sequence denoting that character |
| Utf8.EncodeCodePoint | tests/test_util.py:120 | every well-formed sequence is the encoding of the character it denotes |
| Utf8.Scan | tests/test_util.py:123-126 | one step consumes at least one byte and no more than the input; a scalar step consumes the length its lead byte announces; an invalid start byte is reported exactly when the lead byte starts no sequence; otherwise a truncated sequence (unexpected end of data) is reported exactly when the step reaches the end of the input, an invalid continuation byte when it stops before |
| Utf8.Decode | tests/test_util.py:119-126 | `replace` and `ignore` always succeed; a strict decode error lies inside the input; other handlers fail only as unmodelled handlers |
| Utf8.DecodeEncode | tests/test_util.py:120 | decoding the encoding of any text gives the text back, under every handler |
| Utf8.DecodeStrictSound | tests/test_util.py:120 | text from a successful strict decode encodes back to the input |
| Utf8.HandlersAgreeOnWellFormed | tests/test_util.py:119-126 | on input that strict decoding accepts, every handler gives the same text |
| Utf8.Latin | tests/test_util.py:120 | one character per byte, with the byte's value |
| Utf8.DecodeAscii | tests/test_util.py:120 | ASCII bytes decode to the same characters, in order, under every handler |
| Utf8.InvalidStartByteDecode | tests/test_util.py:123-126 | an invalid lead byte is a strict error at bytes 0..1; `replace` puts one U+FFFD in its place; `ignore` drops it |
| Utf8.StrictErrorIsFirst | tests/test_util.py:123-124 | a strict error marks the first ill-formed subpart: everything before it decodes |
| Utf8.InvalidIsMaximalSubpart | tests/test_util.py:126 | what is replaced is a maximal subpart: no character's encoding starts the input, the replaced bytes start some encoding (when longer than one byte), and one more byte starts none |
| Utf8.ScanScalar | tests/test_util.py:120 | the bytes a scalar step consumes are exactly the UTF-8 encoding of the character it reads |
| Utf8.EncodeAppend | tests/test_util.py:120 | encoding a concatenation is the concatenation of the encodings |
| Utf8.StrictAppend | tests/test_util.py:120 | strict decoding of two accepted inputs joined is the two texts joined |
| Utf8.ErrorAfterPrefix | tests/test_util.py:123-124 | an ill-formed subpart that is first after an accepted prefix, moved by the prefix's length, is first in the whole input |
| Util.TrimStart | tests/test_util.py:119-126 | a suffix of the input that begins with a non-space, everything dropped before it being whitespace |
| Util.Word | tests/test_util.py:119-126 | a prefix of the input free of whitespace, followed by a space or the end |
| Util.SplitOnce | tests/test_util.py:119-126 | at most two parts; none exactly when the setting is blank; the first is a non-empty word free of whitespace; the second is a shorter suffix of the setting that starts with a non-space |
| Util.SplitWord | tests/test_util.py:119-126 | text that starts with a non-space gives its first word and, when more follows, a shorter suffix starting with a non-space |
| Util.TrimBlank | tests/test_util.py:119-126 | trimming leaves nothing exactly when the text is whitespace only |
| Util.TrimStartOf | tests/test_util.py:119-126 | any whitespace before a non-space is dropped, and nothing else |
| Util.WordOf | tests/test_util.py:119-126 | a word followed by whitespace or the end is read as exactly that word |
| Util.SplitBlank | tests/test_util.py:119-126 | a blank setting has no parts |
| Util.ParseSetting | tests/test_util.py:119-126 | a codec and a handler are always named; a blank setting means "utf-8" with "strict" |
| Util.ParseCodecOnly | tests/test_util.py:119-124 | one word, with any whitespace around it, names that codec with the "strict" handler |
| Util.ParseCodecAndHandler | tests/test_util.py:126 | a word, a run of whitespace and a rest, with any whitespace before, name that codec and the rest as the handler |
| Util.DecodeText | tests/test_util.py:119-126 | under "utf-8", the result is exactly the UTF-8 decoder's under the named handler, success as text and failure as its error; any other codec is outside the model |
| Util.Decode | tests/test_util.py:113-126 | no encoding gives the bytes (`None` as empty bytes); an encoding with no or empty data gives empty text; otherwise the data decoded under the parsed setting |
| Util.SplitCodecAndHandler | tests/test_util.py:126 | a word, a non-empty run of whitespace and a rest starting with a non-space, with any whitespace before, split into exactly that word and that rest |
| Util.SplitCodecOnly | tests/test_util.py:119-124 | one word with any whitespace around it is the only part |
| Util.ParseUtf8 | tests/test_util.py:119-124 | "utf-8" means codec "utf-8", handler "strict" |
| Util.ParseUtf8Replace | tests/test_util.py:126 | "utf-8 replace" means codec "utf-8", handler "replace" |
| Util.DecodeUtf8Handler | tests/test_util.py:119-126 | under "utf-8" and any handler name, with any whitespace, non-empty data decodes as the UTF-8 decoder does under that handler |
| Util.DecodeUtf8Strict | tests/test_util.py:119-124 | under "utf-8", non-empty data decodes as the strict UTF-8 decoder does |
| Util.DecodeUtf8Replace | tests/test_util.py:126 | under "utf-8 replace", non-empty data always decodes, as the `replace` handler reads it |
| Util.DecodeRoundTrip | tests/test_util.py:119-126 | encoded text decodes back to itself under "utf-8" and "utf-8 replace" |
| Util.DecodeInvalidByteStrict | tests/test_util.py:123-124 | `decode(b"\x81", "utf-8")` fails with a UnicodeDecodeError covering byte 0 |
| Util.StrictRejectsStartByte | tests/test_util.py:123-124 | under "utf-8", data led by a byte that starts no sequence fails at byte 0..1, whatever follows |
| Util.ReplaceInvalidThenAbc | tests/test_util.py:126 | the `replace` handler reads `b"\x81abc"` as U+FFFD followed by "abc" |
| Util.DecodeInvalidByteReplace | tests/test_util.py:126 | `decode(b"\x81abc", "utf-8 replace")` is U+FFFD followed by "abc" |
| Util.DecodeAsciiText | tests/test_util.py:120 | `decode(b"abc", "utf-8")` is "abc" |

## Left out

- `harvest`, `log_method`, the runner, pipelines, process substitution, audit hooks, callbacks, the prompt and the platform plumbing: they are concurrency, logging and OS processes. None of them is part of this model.
- Pickling (tests/test_command.py:288-309): a foreign serialisation library.
- `repr` and `str` of a command: presentation only.
- `hash`: commands are values here, so equal commands trivially agree on any function of them.
- Commands.Name: does not shorten long program names (tests/test_command.py:43-46); a single example does not fix the rule.
- Object identity: `cmd() is cmd` is modelled as value equality.
- The real parent environment read by `merge_env`: it is the `inherited` parameter.
- The `INHERIT` environment sentinel, the working directory, pty and exit-code settings, and every `set` keyword other than `inherit_env` and `alt_name`.
- CommandOptions.EnvValue: environment values are text, integers and booleans only; floats, paths, `None` and other objects passed to `env` are not modelled.
- Decimal.IntToText: is total, while CPython 3.11 and later raise ValueError for `str()` of an integer with more than 4300 digits.
- Floating-point arguments, complex numbers whose parts are not integers of magnitude at most 2^53, and complex numbers with a negative-zero part (`str(-3j)` is `"(-0-3j)"`, `str(complex(1, -0.0))` is `"(1-0j)"`): Python's float formatting and signed zeros are not modelled; `Args.ExactInt` has a single zero.
- `Path` values are kept as their text, without normalisation.
- Target validation specific to a stream (for instance which markers stdin accepts): only the append rule is modelled.
- Codecs other than "utf-8" (including spellings Python accepts, such as "UTF-8" and "utf8"): `Util.Decode` returns a distinct error that marks the edge of the model and has no Python exception class. Error handlers other than `strict`, `replace` and `ignore` fail when an ill-formed sequence is met: an unregistered name is a LookupError, the encode-only `xmlcharrefreplace` and `namereplace` a TypeError, and the decoding handlers `backslashreplace`, `surrogateescape` and `surrogatepass`, which Python handles by rules not modelled here (`surrogatepass` succeeds only on encoded surrogates), are outside the model.
- Util.SplitOnce: the setting is split once at the first run of whitespace, as `str.split(maxsplit=1)` does, with whitespace as `str.isspace()` defines it. The rule is inferred from the settings the behaviour fixes (`"utf-8"`, `"utf-8 replace"`) and is an assumption for every other spelling.
- Error messages: only the fragments the tests match are fixed; the rest of the wording is the model's.

Decisions the tests fix:

- Byte strings are not coerced to text: `bytes` arguments are stored as
  bytes, and a `bytearray` is converted to `bytes`
  (tests/test_command.py:154-157).
- With no overlay and `inherit_env` on, `merge_env` gives `None`
  (tests/test_command.py:192-193). With `inherit_env` off the child gets
  only the overlay (tests/test_command.py:200-201), so with no overlay it
  gets an empty environment (tests/win32/test_win32.py:29-40 runs a
  command that way).
- Keyword arguments to `set` are a sequence here, so a keyword may repeat;
  its last occurrence decides (`CommandOptions.SetEachKeyword`). Python's
  distinct keywords are the case where every keyword is its own last
  occurrence.
