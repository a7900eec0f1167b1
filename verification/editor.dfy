/** An `Editor` instance: argument splitting in `initialize`, `escape_file`,
    `build`, `invoke`, and the class-level `open` that guards on `command`.
    Everything the class asks of the host (platform detection, Shellwords,
    `system`, `$?`, `Hash#to_s`) is a field of the `Shell` record. */
module Editor {
  import opened Wrappers
  import opened Candidates
  import opened CommandCache

  /** The Ruby values the model accepts as `*args`. */
  datatype Value = Nil | Str(s: string) | Hash(pairs: map<string, string>)

  /** The state `initialize` sets up: `@env`, `@options`, `@filename`. */
  datatype Instance = Instance(env: map<string, string>, options: map<string, string>, filename: Value)

  /** What `TTY::Platform` reports; `unix?` is tested before `windows?`. */
  datatype Platform = Unix | Windows | OtherPlatform

  /** The host services the class calls into. */
  datatype Shell = Shell(
    platform: Platform,
    shellescape: string -> string,         // Shellwords.shellescape
    split: string -> Option<seq<string>>,  // Shellwords.split; None when it raises ArgumentError
    system: seq<string> -> Option<bool>,   // Kernel#system: true, false or nil
    exitStatus: Option<int>,               // `$? ? $?.exitstatus : nil`
    inspect: map<string, string> -> string // Hash#to_s
  )

  /** Why `invoke` or `open` raised `CommandInvocationError`. */
  datatype Reason =
    | EditorMissing                                         // 'Please export $VISUAL or $EDITOR'
    | CommandFailed(commandLine: string, exitStatus: Option<int>)

  /** The exceptions the class can raise. */
  datatype Error =
    | CommandInvocationError(reason: Reason)
    | NoMethodError   // `gsub` sent to a filename that is not a String
    | ArgumentError   // `Shellwords.split` met an unmatched quote

  /** The cache after the call and what the call returned or raised. */
  datatype Outcome = Outcome(cache: Option<string>, result: Result<bool, Error>)

  /** `initialize(*args)`: a leading Hash is shifted off as `env`, then a trailing
      Hash is popped as `options`, then the next argument (or nil) is the filename. */
  function New(args: seq<Value>): (e: Instance)
    ensures |args| > 0 && args[0].Hash? ==> e.env == args[0].pairs
    ensures e.env == map[] || (|args| > 0 && args[0] == Hash(e.env))
    ensures |args| >= 2 && args[|args| - 1].Hash? ==> e.options == args[|args| - 1].pairs
    ensures e.options == map[] || (|args| >= 2 && args[|args| - 1] == Hash(e.options))
    ensures |args| > 0 && !args[0].Hash? ==> e.filename == args[0]
    ensures e.filename == Nil || e.filename in args
    ensures |args| <= 2 && (forall i :: 0 <= i < |args| ==> args[i].Hash?) ==> e.filename == Nil
    ensures |args| >= 2 && args[0].Hash? && !(|args| == 2 && args[1].Hash?) ==> e.filename == args[1]
  {
    var leading := |args| > 0 && args[0].Hash?;
    var env := if leading then args[0].pairs else map[];
    var afterEnv := if leading then args[1..] else args;
    var trailing := |afterEnv| > 0 && afterEnv[|afterEnv| - 1].Hash?;
    var options := if trailing then afterEnv[|afterEnv| - 1].pairs else map[];
    var remaining := if trailing then afterEnv[..|afterEnv| - 1] else afterEnv;
    Instance(env, options, if remaining == [] then Nil else remaining[0])
  }

  /** Arguments laid out as `env, filename, ..., options` come back apart as given;
      anything between the filename and the options is ignored. */
  lemma NewRoundTrip(env: map<string, string>, options: map<string, string>,
                     filename: Value, ignored: seq<Value>)
    ensures New([Hash(env), filename] + ignored + [Hash(options)]) == Instance(env, options, filename)
  {
    var args := [Hash(env), filename] + ignored + [Hash(options)];
    assert args[1..][..|args| - 2] == [filename] + ignored;
  }

  /** `new('hello.rb')` has an empty env and options and that filename. */
  lemma NewSingleFile(f: string)
    ensures New([Str(f)]) == Instance(map[], map[], Str(f))
  {
  }

  /** String interpolation `"#{v}"`, which is also the `to_s` that
      `Shellwords.shellescape` applies first. */
  function Interpolate(v: Value, inspect: map<string, string> -> string): (r: string)
    ensures v.Nil? ==> r == ""
    ensures v.Str? ==> r == v.s
    ensures v.Hash? ==> r == inspect(v.pairs)
  {
    match v
    case Nil => ""
    case Str(s) => s
    case Hash(m) => inspect(m)
  }

  /** `"#{Editor.command}"`: nil interpolates as the empty string. */
  function CommandText(command: Option<string>): (r: string)
    ensures command.None? ==> r == ""
    ensures command.Some? ==> r == command.value
  {
    match command
    case None => ""
    case Some(c) => c
  }

  /** `s.gsub(/\//, '\\')`: every forward slash becomes a backslash. */
  function ToBackslashes(s: string): (r: string)
    ensures |r| == |s|
    ensures '/' !in r
    ensures forall i :: 0 <= i < |s| && s[i] != '/' ==> r[i] == s[i]
    ensures forall i :: 0 <= i < |s| && s[i] == '/' ==> r[i] == '\\'
  {
    if s == [] then []
    else [if s[0] == '/' then '\\' else s[0]] + ToBackslashes(s[1..])
  }

  /** Converting twice is converting once. */
  lemma ToBackslashesIdempotent(s: string)
    ensures ToBackslashes(ToBackslashes(s)) == ToBackslashes(s)
  {
  }

  /** A name with no forward slash is left as it is. */
  lemma ToBackslashesNoSlash(s: string)
    requires '/' !in s
    ensures ToBackslashes(s) == s
  {
  }

  /** `escape_file`: Shellwords escaping on Unix, slash conversion on Windows
      (which fails unless the filename is a String), and elsewhere the filename
      itself, which `build` then interpolates. */
  function EscapeFile(shell: Shell, filename: Value): (r: Result<string, Error>)
    ensures shell.platform == Unix ==>
              r == Success(shell.shellescape(Interpolate(filename, shell.inspect)))
    ensures shell.platform == Windows ==> (r.Success? <==> filename.Str?)
    ensures shell.platform == Windows && !filename.Str? ==> r == Failure(NoMethodError)
    ensures shell.platform == Windows && filename.Str? ==>
              r.Success? && '/' !in r.value && |r.value| == |filename.s|
    ensures shell.platform == Windows && filename.Str? ==>
              forall i :: 0 <= i < |filename.s| ==>
                r.value[i] == (if filename.s[i] == '/' then '\\' else filename.s[i])
    ensures shell.platform == OtherPlatform ==> r == Success(Interpolate(filename, shell.inspect))
  {
    match shell.platform
    case Unix => Success(shell.shellescape(Interpolate(filename, shell.inspect)))
    case Windows =>
      (match filename
       case Str(s) => Success(ToBackslashes(s))
       case _ => Failure(NoMethodError))
    case OtherPlatform => Success(Interpolate(filename, shell.inspect))
  }

  /** The conversion works piecewise on any split of the name. */
  lemma {:induction false} ToBackslashesAppend(a: string, b: string)
    ensures ToBackslashes(a + b) == ToBackslashes(a) + ToBackslashes(b)
  {
    if a != [] {
      assert (a + b)[1..] == a[1..] + b;
      ToBackslashesAppend(a[1..], b);
    }
  }

  /** On Windows, a path written with forward slashes is escaped to the same
      path with backslashes, its other characters (spaces included) kept. */
  lemma WindowsEscapesSeparators(shell: Shell, drive: string, dir: string, name: string)
    requires shell.platform == Windows
    requires '/' !in drive && '/' !in dir && '/' !in name
    ensures EscapeFile(shell, Str(drive + "/" + dir + "/" + name))
            == Success(drive + "\\" + dir + "\\" + name)
  {
    ToBackslashesAppend(drive + "/" + dir + "/", name);
    ToBackslashesAppend(drive + "/" + dir, "/");
    ToBackslashesAppend(drive + "/", dir);
    ToBackslashesAppend(drive, "/");
    ToBackslashesNoSlash(drive);
    ToBackslashesNoSlash(dir);
    ToBackslashesNoSlash(name);
    assert ToBackslashes("/") == "\\";
  }

  /** `line` is `command`, one space, then `escaped`. */
  predicate Joined(line: string, command: string, escaped: string) {
    && |line| == |command| + 1 + |escaped|
    && line[..|command|] == command
    && line[|command|] == ' '
    && line[|command| + 1..] == escaped
  }

  /** Concatenating with one space in between gives a joined line, and the
      joined line is determined by its two parts. */
  lemma JoinedConcat(command: string, escaped: string)
    ensures Joined(command + " " + escaped, command, escaped)
    ensures forall line :: Joined(line, command, escaped) ==> line == command + " " + escaped
  {
    forall line | Joined(line, command, escaped)
      ensures line == command + " " + escaped
    {
      assert line == line[..|command|] + [line[|command|]] + line[|command| + 1..];
    }
  }

  /** The cache after `build` and the command line, or what `escape_file` raised. */
  datatype Built = Built(cache: Option<string>, line: Result<string, Error>)

  /** `build`: `"#{Editor.command} #{escape_file}"`, the command looked up with no
      arguments, then one space, then the escaped filename. */
  function Build(cache: Option<string>, onPath: string -> bool, env: Env,
                 shell: Shell, editor: Instance): (b: Built)
    ensures b.cache == Command(cache, onPath, env, []).cache
    ensures var escaped := EscapeFile(shell, editor.filename);
            && (b.line.Success? <==> escaped.Success?)
            && (b.line.Failure? ==> b.line.error == escaped.error)
            && (b.line.Success? ==> Joined(b.line.value, CommandText(b.cache), escaped.value))
  {
    var s := Command(cache, onPath, env, []);
    match EscapeFile(shell, editor.filename)
    case Success(escaped) =>
      JoinedConcat(CommandText(s.result), escaped);
      Built(s.cache, Success(CommandText(s.result) + " " + escaped))
    case Failure(e) => Built(s.cache, Failure(e))
  }

  /** `invoke`: splits the built line with Shellwords and runs it through
      `system`; a truthy status is returned, anything else raises
      `CommandInvocationError` with the line and the exit status. An unmatched
      quote makes the split raise `ArgumentError` before anything runs. */
  function Invoke(cache: Option<string>, onPath: string -> bool, env: Env,
                  shell: Shell, editor: Instance): (r: Outcome)
    ensures r.cache == Command(cache, onPath, env, []).cache
    ensures r.result.Success? ==> r.result.value
    ensures var b := Build(cache, onPath, env, shell, editor);
            b.line.Failure? ==> r.result == Failure(b.line.error)
    ensures var b := Build(cache, onPath, env, shell, editor);
            b.line.Success? && shell.split(b.line.value).None? ==> r.result == Failure(ArgumentError)
    ensures var b := Build(cache, onPath, env, shell, editor);
            b.line.Success? && shell.split(b.line.value).Some? ==>
              if shell.system(shell.split(b.line.value).value) == Some(true) then r.result == Success(true)
              else r.result == Failure(CommandInvocationError(CommandFailed(b.line.value, shell.exitStatus)))
  {
    var b := Build(cache, onPath, env, shell, editor);
    match b.line
    case Failure(e) => Outcome(b.cache, Failure(e))
    case Success(line) =>
      match shell.split(line)
      case None => Outcome(b.cache, Failure(ArgumentError))
      case Some(argv) =>
        if shell.system(argv) == Some(true) then Outcome(b.cache, Success(true))
        else Outcome(b.cache, Failure(CommandInvocationError(CommandFailed(line, shell.exitStatus))))
  }

  /** `invoke` has exactly four outcomes: it returns true, raises what escaping
      raised, raises ArgumentError from the split, or raises CommandInvocationError
      for a failed command; it never reports a missing editor. */
  lemma InvokeOutcomes(cache: Option<string>, onPath: string -> bool, env: Env,
                       shell: Shell, editor: Instance)
    ensures var r := Invoke(cache, onPath, env, shell, editor).result;
            || r == Success(true)
            || r == Failure(NoMethodError)
            || r == Failure(ArgumentError)
            || (r.Failure? && r.error.CommandInvocationError? && r.error.reason.CommandFailed?)
  {
  }

  /** The editor launches: escaping succeeds, the split of `command`, one space
      and the escaped filename succeeds, and `system` reports success for it. */
  predicate Launches(shell: Shell, command: string, filename: Value) {
    var escaped := EscapeFile(shell, filename);
    && escaped.Success?
    && var argv := shell.split(command + " " + escaped.value);
       argv.Some? && shell.system(argv.value) == Some(true)
  }

  /** Once a command is cached, `invoke` succeeds exactly when the editor launches. */
  lemma InvokeLaunches(cache: Option<string>, onPath: string -> bool, env: Env,
                       shell: Shell, editor: Instance)
    ensures var c := Command(cache, onPath, env, []).cache;
            c.Some? ==> (Invoke(cache, onPath, env, shell, editor).result.Success?
                         <==> Launches(shell, c.value, editor.filename))
  {
    var b := Build(cache, onPath, env, shell, editor);
    var escaped := EscapeFile(shell, editor.filename);
    if b.cache.Some? && escaped.Success? {
      JoinedConcat(CommandText(b.cache), escaped.value);
      assert b.line.value == b.cache.value + " " + escaped.value;
    }
  }

  /** `Editor.open(*args)`: raises when `command` resolves to nil; otherwise builds
      an instance from `args` and invokes it. */
  function Open(cache: Option<string>, onPath: string -> bool, env: Env,
                shell: Shell, args: seq<Value>): (r: Outcome)
    ensures r.cache == Command(cache, onPath, env, []).cache
    ensures r.result == Failure(CommandInvocationError(EditorMissing))
            <==> r.cache.None?
    ensures r.cache.Some? ==> (r.result.Success? <==> Launches(shell, r.cache.value, New(args).filename))
  {
    var s := Command(cache, onPath, env, []);
    if s.result.None? then Outcome(s.cache, Failure(CommandInvocationError(EditorMissing)))
    else
      var editor := New(args);
      CommandIdempotent(cache, onPath, env);
      InvokeLaunches(s.cache, onPath, env, shell, editor);
      Invoke(s.cache, onPath, env, shell, editor)
  }

  /** Once a command resolves and the file escapes, a launch that `system` does
      not report as successful makes `open` raise `CommandInvocationError`
      with the command line and the exit status. */
  lemma OpenFailedCommand(cache: Option<string>, onPath: string -> bool, env: Env,
                          shell: Shell, args: seq<Value>)
    ensures var r := Open(cache, onPath, env, shell, args);
            var escaped := EscapeFile(shell, New(args).filename);
            r.cache.Some? && escaped.Success? ==>
              var line := r.cache.value + " " + escaped.value;
              shell.split(line).Some? && shell.system(shell.split(line).value) != Some(true) ==>
                r.result == Failure(CommandInvocationError(CommandFailed(line, shell.exitStatus)))
  {
    var s := Command(cache, onPath, env, []);
    if s.cache.Some? {
      CommandIdempotent(cache, onPath, env);
      var b := Build(s.cache, onPath, env, shell, New(args));
      var escaped := EscapeFile(shell, New(args).filename);
      if escaped.Success? {
        JoinedConcat(CommandText(b.cache), escaped.value);
      }
    }
  }

  /** Once a command resolves, `open` returns exactly what `invoke` on the new
      instance returns, so its escaping and split errors pass through. */
  lemma OpenIsInvoke(cache: Option<string>, onPath: string -> bool, env: Env,
                     shell: Shell, args: seq<Value>)
    ensures var r := Open(cache, onPath, env, shell, args);
            r.cache.Some? ==> r.result == Invoke(r.cache, onPath, env, shell, New(args)).result
  {
    CommandIdempotent(cache, onPath, env);
  }

  /** On Windows, `open` with no filename raises NoMethodError from `gsub` on
      nil once a command resolves, and the missing-editor error otherwise. */
  lemma OpenWithoutFileOnWindows(cache: Option<string>, onPath: string -> bool, env: Env,
                                 shell: Shell)
    requires shell.platform == Windows
    ensures var r := Open(cache, onPath, env, shell, []);
            r.result == if r.cache.Some? then Failure(NoMethodError)
                        else Failure(CommandInvocationError(EditorMissing))
  {
    OpenIsInvoke(cache, onPath, env, shell, []);
  }

  /** When nothing is cached and none of the defaults resolves, `open` raises
      before any instance is built or any process is run: neither the arguments
      nor the shell matter. */
  lemma OpenFailsBeforeInvoking(cache: Option<string>, onPath: string -> bool, env: Env,
                                shell1: Shell, args1: seq<Value>,
                                shell2: Shell, args2: seq<Value>)
    requires cache.None?
    requires !Accepts(onPath, env.visual) && !Accepts(onPath, env.editor)
    requires !onPath("vi") && !onPath("emacs")
    ensures Open(cache, onPath, env, shell1, args1) == Open(cache, onPath, env, shell2, args2)
    ensures Open(cache, onPath, env, shell1, args1) == Outcome(None, Failure(CommandInvocationError(EditorMissing)))
  {
    DefaultOrder(onPath, env);
  }
}
