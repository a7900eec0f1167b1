# tty-editor: editor resolution and invocation, modelled in Dafny

`TTY::Editor` (lib/tty/editor.rb) picks the editor to launch and builds the
shell command line that opens a file in it. This project models that class as
pure functions over immutable values and proves what it promises:

- **Candidate resolution** (`Candidates`, over the Ruby array methods in `Arrays`).
  `executables` is `[VISUAL, EDITOR, 'vi', 'emacs']`. `available(*commands)`
  searches the explicit commands, or the defaults when none are given. It drops
  nils and duplicates, and returns the first candidate accepted by `exists?`, or
  nil. `exists?` (a PATH search by the which gem) is the abstract predicate
  `onPath`. The two environment variables are `Option<string>` values.
- **The command cache** (`CommandCache`). The class-level `@command` (initially
  nil) is a one-field state. `Command` is the step function `(cache, commands) ->
  (cache', result)`. `Replay` threads the cache through a sequence of calls.
- **The instance** (`Editor`). This covers `initialize`'s argument splitting into
  `env`, `options` and `filename`; the platform-dependent `escape_file`; `build`;
  `invoke`'s success or failure on the `system` status; and `open`'s guard that
  raises when no command resolves. The host services form a `Shell` record of
  function-typed fields: platform detection, `Shellwords.shellescape`,
  `Shellwords.split`, `system`, `$?.exitstatus` and `Hash#to_s`.

Raised exceptions become the `Failure` arm of a `Result`. `CommandInvocationError`
carries a `Reason`: either the editor is missing, or the command line failed
with a given exit status. A `NoMethodError` is raised when Windows escaping is
applied to a filename that is not a String, and an `ArgumentError` when
`Shellwords.split` meets an unmatched quote.

## Behaviour worth noting

What lib/tty/editor.rb does, as the model states it:
- `available` returns the first accepted candidate, not the list of all of them.
- Explicit commands replace the defaults completely. If none of them resolves,
  the result is nil. The environment and the fallbacks are not consulted.
- Only nils are dropped. An empty-string candidate is kept and handed to `exists?`.
- The only fallbacks are `vi` and `emacs`. There is no selection menu.
- When no editor resolves, `open` raises `CommandInvocationError`. `command`
  itself just returns nil.
- On Windows, escaping only replaces `/` with `\`. It adds no quoting.
- An unmatched quote in the built line makes `Shellwords.split` raise
  `ArgumentError` before `system` is called.

## Model

| member | source | states |
|---|---|---|
| Candidates.Executables | lib/tty/editor.rb:29-31 | the defaults are exactly four: VISUAL at position 0, EDITOR at 1, `vi` at 2 and `emacs` at 3 |
| Candidates.CandidateList | lib/tty/editor.rb:41 | a non-empty explicit list is searched as given; an empty one is replaced by the defaults |
| Candidates.Available | lib/tty/editor.rb:40-43 | the result is nil exactly when no present candidate passes `exists?`; otherwise it is a candidate that passes `exists?`, at some position with no accepted candidate before it |
| Candidates.FirstAccepted | lib/tty/editor.rb:42 | reference meaning of `compact.find`: nil iff nothing is accepted, else the candidate at the first accepted position |
| Candidates.AvailableIsFirstAccepted | lib/tty/editor.rb:42 | the `compact.uniq.find` chain over the candidate list equals the reference search `FirstAccepted` over that same list |
| Candidates.FindCompact | lib/tty/editor.rb:42 | searching the compacted list finds the same candidate as skipping nils during the search |
| Candidates.DefaultOrder | lib/tty/editor.rb:29-42 | with no arguments the search order is VISUAL, EDITOR, `vi`, `emacs`, and nil when none resolves |
| Candidates.FallsBackToVi | lib/tty/editor.rb:30-42 | with no arguments and no resolvable environment editor, `vi` is chosen whenever it is on the path |
| Candidates.ExplicitIgnoresEnvironment | lib/tty/editor.rb:41-42 | with explicit commands the environment does not affect the result, and nil is returned when none of them resolves |
| Candidates.ExplicitNilFindsNothing | lib/tty/editor.rb:41-42 | an argument list holding only nil counts as non-empty and finds nothing |
| Candidates.DuplicatesIrrelevant | lib/tty/editor.rb:42 | appending a repeat of an existing candidate does not change the result |
| Arrays.Compact | lib/tty/editor.rb:42 | every element `compact` returns was present in the input, and every present value is in the result |
| Arrays.CompactAppend | lib/tty/editor.rb:42 | `compact` of a concatenation is the concatenation of the two `compact`s, so the present values keep their order |
| Arrays.Uniq | lib/tty/editor.rb:42 | every element `uniq` returns comes from the input, and none occurs twice |
| Arrays.UniqExtends | lib/tty/editor.rb:42 | `uniq` of a prefix is a prefix of `uniq` of the whole list, so earlier first occurrences stay ahead of later ones |
| Arrays.UniqSnoc | lib/tty/editor.rb:42 | appending an element adds it at the end of `uniq` exactly when it did not occur earlier in the input, and otherwise changes nothing |
| Arrays.UniqKeepsEvery | lib/tty/editor.rb:42 | every element of the input survives `uniq` |
| Arrays.UniqOfDistinct | lib/tty/editor.rb:42 | `uniq` leaves a list without duplicates unchanged |
| Arrays.Find | lib/tty/editor.rb:42 | `find` is nil iff no element is accepted, else an accepted element at a position with no accepted element before it |
| Arrays.FindSnoc | lib/tty/editor.rb:42 | appending an element changes `find` only when nothing earlier was found |
| Arrays.FindUniq | lib/tty/editor.rb:42 | removing duplicates never changes which element `find` returns |
| CommandCache.Command | lib/tty/editor.rb:52-58 | the return value is the new cache; no arguments with a non-nil cache keep the cache; any other call sets it to `available(*commands)`, possibly nil |
| CommandCache.CachedIgnoresLookup | lib/tty/editor.rb:53-54 | a cached command is returned whatever the environment and `exists?` would say |
| CommandCache.CommandIdempotent | lib/tty/editor.rb:53-57 | two argument-less calls in a row give the same result and cache |
| CommandCache.Replay | lib/tty/editor.rb:52-58 | one result per call; the final cache is the last call's result |
| CommandCache.ReplaySnoc | lib/tty/editor.rb:52-58 | a further call runs `command` from the cache the earlier calls left; its result is appended to theirs and its new cache is the final one |
| CommandCache.CacheIsSticky | lib/tty/editor.rb:53-54 | once the cache is non-nil, every later argument-less call returns it and keeps it |
| CommandCache.ExplicitCallResets | lib/tty/editor.rb:55-57 | a call with explicit commands sets the cache to what they resolve to, whatever came before |
| Editor.New | lib/tty/editor.rb:86-90 | a leading Hash becomes `env` and otherwise `env` is empty; a trailing Hash after the first argument becomes `options`; a non-Hash first argument is the filename; after a leading Hash, the second argument is the filename unless it is a trailing Hash that ends the list; the filename is nil or one of the arguments |
| Editor.NewRoundTrip | lib/tty/editor.rb:87-89 | arguments laid out as env, filename, ignored values, options are split back into exactly that env, options and filename |
| Editor.NewSingleFile | lib/tty/editor.rb:86-90 | a single String argument is the filename, with empty env and options |
| Editor.Interpolate | lib/tty/editor.rb:98 | `"#{v}"` is empty for nil, the string itself for a String, and `Hash#to_s` for a Hash |
| Editor.CommandText | lib/tty/editor.rb:98 | interpolating the cached command gives the empty string for nil and the command itself otherwise |
| Editor.ToBackslashes | lib/tty/editor.rb:108 | same length, no `/` left, every `/` became `\`, every other character kept in place |
| Editor.ToBackslashesIdempotent | lib/tty/editor.rb:108 | converting twice equals converting once |
| Editor.ToBackslashesNoSlash | lib/tty/editor.rb:108 | a name without `/` is unchanged |
| Editor.ToBackslashesAppend | lib/tty/editor.rb:108 | the conversion distributes over concatenation |
| Editor.EscapeFile | lib/tty/editor.rb:104-112 | Unix delegates to `shellescape` of the interpolated filename; Windows succeeds iff the filename is a String, giving the same name with each `/` replaced by `\` and every other character kept in place, and otherwise raises NoMethodError; other platforms give the filename as interpolated by `build` (nil becomes the empty string) |
| Editor.WindowsEscapesSeparators | lib/tty/editor.rb:107-108 | on Windows, `drive/dir/name` escapes to `drive\dir\name`, spaces kept |
| Editor.JoinedConcat | lib/tty/editor.rb:98 | the interpolated line `command + " " + file` is the one and only line with that command, one space, then that file |
| Editor.Build | lib/tty/editor.rb:97-99 | the line is the argument-less `command`, one space, then the escaped filename; an escaping error propagates; the cache is left as `command()` leaves it |
| Editor.Invoke | lib/tty/editor.rb:119-124 | the escaping error propagates; an unmatched quote raises ArgumentError from the split; otherwise it returns true when `system` reports true for the split line, and raises CommandInvocationError with the line and the exit status when it does not |
| Editor.InvokeOutcomes | lib/tty/editor.rb:119-124 | `invoke` only ever returns true or raises NoMethodError, ArgumentError, or CommandInvocationError for a failed command, never the missing-editor error |
| Editor.InvokeLaunches | lib/tty/editor.rb:97-122 | once a command is cached, `invoke` succeeds exactly when escaping succeeds, the split of command, space and escaped name succeeds, and `system` reports true |
| Editor.Open | lib/tty/editor.rb:70-79 | raises CommandInvocationError (editor missing) iff `command` resolves to nil; otherwise succeeds iff escaping and splitting `command + " " + escaped filename` succeed and `system` reports true for it |
| Editor.OpenFailedCommand | lib/tty/editor.rb:70-79 | when a command resolves and the file escapes and splits but `system` does not report true, `open` raises CommandInvocationError carrying the command line and the exit status (the line-123 failure) |
| Editor.OpenIsInvoke | lib/tty/editor.rb:70-79 | once `command` resolves, `open` returns what `invoke` on the instance built from the arguments returns, so escaping errors and the split's ArgumentError pass through unchanged |
| Editor.OpenWithoutFileOnWindows | lib/tty/editor.rb:70-79 | on Windows, `open` with no arguments raises NoMethodError (from `gsub` on a nil filename) when a command resolves, and the missing-editor error when none does |
| Editor.OpenFailsBeforeInvoking | lib/tty/editor.rb:71-73 | when nothing resolves, neither the arguments nor the shell affect `open`, which raises and leaves the cache nil |

## Left out

- `exists?` is the abstract predicate `onPath`. The which gem's PATH and PATHEXT search is not part of this model.
- `Shellwords.shellescape`, `Shellwords.split` and `Hash#to_s` are uninterpreted functions. POSIX quoting is not re-derived. `Shell.split` returns None where `Shellwords.split` raises ArgumentError, but which inputs it rejects is left to the function.
- `system` and the spawned process are the abstract function `Shell.system`, which returns a status of true, false or nil. An exception raised by `system` itself, such as an empty argument vector, is not modelled.
- Editor.EscapeFile: filenames are modelled as valid character sequences. A Ruby String is bytes in an encoding, and the ArgumentError ("invalid byte sequence") that the Regexp `gsub` on Windows or `Shellwords.shellescape` on Unix raises for a name with invalid bytes is not modelled.
- `$?` is the `Shell.exitStatus` parameter. It is not tied to the process that `system` ran.
- Reads of `ENV` are the `Env` record. `TTY::Platform` is the `Platform` enum, so a platform is never both Unix and Windows.
- The `yield(editor)` block in `open` is caller-supplied code and is not modelled. Because of that, the model's `build` always sees the cache as `open` left it.
- Arguments are limited to nil, Strings, and Hashes with String keys and values. Other Ruby objects, such as the Symbols in examples/choices.rb, are not modelled. A Hash is a `map`, so its insertion order is lost: two Hashes with the same pairs in a different order interpolate to the same text here, while Ruby's `Hash#to_s` prints them differently.
- The mutable class-level `@command` is a value threaded explicitly through the calls. Concurrent callers sharing it are not modelled.
- The exception message texts are not modelled. The `Reason` datatype carries their content instead: the missing-editor case, or the command line with its exit status.
