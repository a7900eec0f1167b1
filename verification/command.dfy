/** `Editor.command`: the class-level `@command` cache as a one-field state,
    updated by a pure step function. */
module CommandCache {
  import opened Wrappers
  import opened Candidates

  /** The cache after a call, and the value the call returns. */
  datatype Step = Step(cache: Option<string>, result: Option<string>)

  /** One call `command(*commands)` starting from cache `cache`. */
  function Command(cache: Option<string>, onPath: string -> bool, env: Env,
                   commands: seq<Option<string>>): (s: Step)
    ensures s.result == s.cache
    ensures cache.Some? && commands == [] ==> s.cache == cache
    ensures cache.None? || commands != [] ==> s.cache == Available(onPath, env, commands)
  {
    var next := if cache.Some? && commands == [] then cache else Available(onPath, env, commands);
    Step(next, next)
  }

  /** A cached command is returned without consulting the environment or the path. */
  lemma CachedIgnoresLookup(cache: Option<string>, onPath1: string -> bool, env1: Env,
                            onPath2: string -> bool, env2: Env)
    requires cache.Some?
    ensures Command(cache, onPath1, env1, []) == Command(cache, onPath2, env2, [])
  {
  }

  /** Calling `command` twice with no arguments gives the same result and cache. */
  lemma CommandIdempotent(cache: Option<string>, onPath: string -> bool, env: Env)
    ensures var s := Command(cache, onPath, env, []);
            Command(s.cache, onPath, env, []) == s
  {
  }

  /** One call in a sequence: the lookup it would see and the arguments it passes. */
  datatype Call = Call(onPath: string -> bool, env: Env, commands: seq<Option<string>>)

  /** The cache after a sequence of calls and the value each call returned. */
  datatype Trace = Trace(cache: Option<string>, results: seq<Option<string>>)

  /** Runs the calls in order, threading the cache. */
  function Replay(cache: Option<string>, calls: seq<Call>): (t: Trace)
    ensures |t.results| == |calls|
    ensures calls == [] ==> t.cache == cache
    ensures calls != [] ==> t.cache == t.results[|calls| - 1]
    decreases |calls|
  {
    if calls == [] then Trace(cache, [])
    else
      var s := Command(cache, calls[0].onPath, calls[0].env, calls[0].commands);
      var rest := Replay(s.cache, calls[1..]);
      Trace(rest.cache, [s.result] + rest.results)
  }

  /** One more call runs from the cache the earlier calls left: its result is
      appended to theirs and its step decides the final cache. */
  lemma {:induction false} ReplaySnoc(cache: Option<string>, calls: seq<Call>, c: Call)
    ensures var t := Replay(cache, calls);
            var s := Command(t.cache, c.onPath, c.env, c.commands);
            Replay(cache, calls + [c]) == Trace(s.cache, t.results + [s.result])
    decreases |calls|
  {
    if calls != [] {
      var s := Command(cache, calls[0].onPath, calls[0].env, calls[0].commands);
      assert (calls + [c])[0] == calls[0];
      assert (calls + [c])[1..] == calls[1..] + [c];
      ReplaySnoc(s.cache, calls[1..], c);
    }
  }

  /** Once a command is cached, argument-less calls keep returning it, whatever
      the environment or path lookup they would see. */
  lemma {:induction false} CacheIsSticky(cache: Option<string>, calls: seq<Call>)
    requires cache.Some?
    requires forall k :: 0 <= k < |calls| ==> calls[k].commands == []
    ensures Replay(cache, calls).cache == cache
    ensures forall k :: 0 <= k < |calls| ==> Replay(cache, calls).results[k] == cache
    decreases |calls|
  {
    if calls != [] {
      CacheIsSticky(cache, calls[1..]);
      var rest := Replay(cache, calls[1..]);
      assert Replay(cache, calls).results == [cache] + rest.results;
    }
  }

  /** A call that names commands sets the cache to what they resolve to,
      whatever the earlier calls left there. */
  lemma {:induction false} ExplicitCallResets(cache: Option<string>, calls: seq<Call>, c: Call)
    requires c.commands != []
    ensures Replay(cache, calls + [c]).cache == Available(c.onPath, c.env, c.commands)
    decreases |calls|
  {
    if calls != [] {
      var s := Command(cache, calls[0].onPath, calls[0].env, calls[0].commands);
      assert (calls + [c])[1..] == calls[1..] + [c];
      ExplicitCallResets(s.cache, calls[1..], c);
    }
  }
}
