/** Editor resolution: `Editor.executables` and `Editor.available`.
    The `exists?` check (a PATH search by the which gem) is the abstract predicate
    `onPath`, and the two environment variables are optional strings. */
module Candidates {
  import opened Wrappers
  import opened Arrays

  /** The values of `ENV['VISUAL']` and `ENV['EDITOR']`; None when unset. */
  datatype Env = Env(visual: Option<string>, editor: Option<string>)

  /** A candidate is accepted when it is present and the predicate holds of it. */
  predicate Accepts(onPath: string -> bool, c: Option<string>) {
    c.Some? && onPath(c.value)
  }

  /** `executables`: the two environment editors, then the fixed fallbacks. */
  function Executables(env: Env): (r: seq<Option<string>>)
    ensures |r| == 4 && r[0] == env.visual && r[1] == env.editor
    ensures Some("vi") in r && Some("emacs") in r
    ensures forall i :: 2 <= i < |r| ==> r[i].Some?
    ensures r[2] == Some("vi") && r[3] == Some("emacs")
  {
    [env.visual, env.editor, Some("vi"), Some("emacs")]
  }

  /** The list `available` searches: the explicit commands when there are any,
      otherwise the defaults. */
  function CandidateList(env: Env, commands: seq<Option<string>>): (r: seq<Option<string>>)
    ensures commands != [] ==> r == commands
    ensures commands == [] ==> r == Executables(env)
  {
    if commands == [] then Executables(env) else commands
  }

  /** Position `i` holds the first accepted candidate. */
  predicate FirstAcceptedAt(onPath: string -> bool, cs: seq<Option<string>>, i: int) {
    0 <= i < |cs| && Accepts(onPath, cs[i]) && forall j :: 0 <= j < i ==> !Accepts(onPath, cs[j])
  }

  /** `FirstAcceptedAt` is `Arrays.FirstAt` for the `Accepts` predicate; it is
      spelled out so that the contracts quoting it stay cheap for the solver. */
  lemma FirstAcceptedAtIsFirstAt(onPath: string -> bool, cs: seq<Option<string>>, i: int)
    ensures FirstAcceptedAt(onPath, cs, i) <==> FirstAt((c: Option<string>) => Accepts(onPath, c), cs, i)
  {
  }

  /** Reference semantics of the search: the first present candidate that is on the path. */
  function FirstAccepted(onPath: string -> bool, cs: seq<Option<string>>): (r: Option<string>)
    ensures r.None? <==> forall i :: 0 <= i < |cs| ==> !Accepts(onPath, cs[i])
    ensures r.Some? ==> onPath(r.value) && exists i :: FirstAcceptedAt(onPath, cs, i) && cs[i] == r
  {
    if cs == [] then None
    else if Accepts(onPath, cs[0]) then
      assert FirstAcceptedAt(onPath, cs, 0);
      cs[0]
    else
      var r := FirstAccepted(onPath, cs[1..]);
      assert r.Some? ==> exists i :: FirstAcceptedAt(onPath, cs, i) && cs[i] == r by {
        if r.Some? {
          var k :| FirstAcceptedAt(onPath, cs[1..], k) && cs[1..][k] == r;
          assert forall j :: 0 <= j < k + 1 ==> !Accepts(onPath, cs[j]) by {
            forall j | 0 <= j < k + 1 ensures !Accepts(onPath, cs[j]) {
              if j > 0 { assert cs[j] == cs[1..][j - 1]; }
            }
          }
          assert FirstAcceptedAt(onPath, cs, k + 1);
        }
      }
      r
  }

  /** Dropping nils and then searching is the same as searching for the first
      present accepted candidate. */
  lemma {:induction false} FindCompact(onPath: string -> bool, cs: seq<Option<string>>)
    ensures Find(onPath, Compact(cs)) == FirstAccepted(onPath, cs)
  {
    if cs != [] {
      FindCompact(onPath, cs[1..]);
      if cs[0].Some? {
        var rest := Compact(cs[1..]);
        assert ([cs[0].value] + rest)[1..] == rest;
      }
    }
  }

  /** `available(*commands)`: `commands.compact.uniq.find { |cmd| exists?(cmd) }`
      over the explicit commands, or over `executables` when none are given. */
  function Available(onPath: string -> bool, env: Env, commands: seq<Option<string>>): (r: Option<string>)
    ensures var cs := CandidateList(env, commands);
      r.None? <==> forall i :: 0 <= i < |cs| ==> !Accepts(onPath, cs[i])
    ensures var cs := CandidateList(env, commands);
      r.Some? ==> onPath(r.value) && exists i :: FirstAcceptedAt(onPath, cs, i) && cs[i] == r
  {
    AvailableIsFirstAccepted(onPath, env, commands);
    var cs := CandidateList(env, commands);
    Find(onPath, Uniq(Compact(cs)))
  }

  /** The `compact.uniq.find` chain computes the reference search over the raw
      candidate list. */
  lemma AvailableIsFirstAccepted(onPath: string -> bool, env: Env, commands: seq<Option<string>>)
    ensures var cs := CandidateList(env, commands);
            Find(onPath, Uniq(Compact(cs))) == FirstAccepted(onPath, cs)
  {
    var cs := CandidateList(env, commands);
    FindUniq(onPath, Compact(cs));
    FindCompact(onPath, cs);
  }

  /** With no explicit commands the search order is VISUAL, EDITOR, vi, emacs. */
  lemma DefaultOrder(onPath: string -> bool, env: Env)
    ensures Available(onPath, env, []) ==
      if Accepts(onPath, env.visual) then env.visual
      else if Accepts(onPath, env.editor) then env.editor
      else if onPath("vi") then Some("vi")
      else if onPath("emacs") then Some("emacs")
      else None
  {
    var cs := Executables(env);
    AvailableIsFirstAccepted(onPath, env, []);
    assert cs[1..] == [env.editor, Some("vi"), Some("emacs")];
    assert cs[1..][1..] == [Some("vi"), Some("emacs")];
    assert cs[1..][1..][1..] == [Some("emacs")];
    assert cs[1..][1..][1..][1..] == [];
  }

  /** With no explicit commands and no environment editor that resolves, `vi` is
      found whenever it is on the path. */
  lemma FallsBackToVi(onPath: string -> bool, env: Env)
    requires !Accepts(onPath, env.visual) && !Accepts(onPath, env.editor)
    requires onPath("vi")
    ensures Available(onPath, env, []) == Some("vi")
  {
    DefaultOrder(onPath, env);
  }

  /** Explicit commands replace the defaults completely: the environment is never
      consulted, and when none of them resolves the answer is nil. */
  lemma ExplicitIgnoresEnvironment(onPath: string -> bool, env1: Env, env2: Env,
                                   commands: seq<Option<string>>)
    requires commands != []
    ensures Available(onPath, env1, commands) == Available(onPath, env2, commands)
    ensures (forall i :: 0 <= i < |commands| ==> !Accepts(onPath, commands[i]))
            ==> Available(onPath, env1, commands) == None
  {
  }

  /** An explicit list holding only nil is not empty, so the defaults are skipped
      and nothing is found, even when `vi` is on the path. */
  lemma ExplicitNilFindsNothing(onPath: string -> bool, env: Env)
    ensures Available(onPath, env, [None]) == None
  {
  }

  /** Repeating a candidate does not change the outcome. */
  lemma DuplicatesIrrelevant(onPath: string -> bool, env: Env, c: Option<string>,
                             commands: seq<Option<string>>)
    requires c in commands
    ensures Available(onPath, env, commands + [c]) == Available(onPath, env, commands)
  {
    var cs := commands + [c];
    var k :| 0 <= k < |commands| && commands[k] == c;
    assert forall i :: 0 <= i < |commands| ==> cs[i] == commands[i];
    assert cs[|commands|] == cs[k];
    var before, after := Available(onPath, env, commands), Available(onPath, env, cs);
    if before.Some? {
      var i :| FirstAcceptedAt(onPath, commands, i) && commands[i] == before;
      assert FirstAcceptedAt(onPath, cs, i);
      var i' :| FirstAcceptedAt(onPath, cs, i') && cs[i'] == after;
      FirstAcceptedAtUnique(onPath, cs, i, i');
    }
  }

  /** At most one position holds the first accepted candidate. */
  lemma FirstAcceptedAtUnique(onPath: string -> bool, cs: seq<Option<string>>, i: int, k: int)
    requires FirstAcceptedAt(onPath, cs, i) && FirstAcceptedAt(onPath, cs, k)
    ensures i == k
  {
  }
}
