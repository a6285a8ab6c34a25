/** The object `JSLoader` of boot.js, updated in place by its handlers. Every method is tied to the step on
    values of the same name; what the loader promises over whole runs is proved about those steps, and
    nothing is promised here that they do not promise. */
module JsLoader {
  import opened Wrappers
  import opened JsLoaderSteps
  import opened JsLoaderRuns

  /** The object `JSLoader` with the variables its handlers share. */
  class Loader {
    var files: map<File, Js>
    var levels: map<nat, File>
    var currentLevel: nat
    var levelCounter: nat
    var ready: bool
    var callbacks: seq<Callback>
    var levelOf: map<File, nat>
    ghost var registered: seq<Callback>
    ghost var log: seq<Event>

    ghost function Value(): State
      reads this
    {
      State(files, levels, currentLevel, levelCounter, ready, callbacks, levelOf, registered, log)
    }

    constructor ()
      ensures Value() == START && Inv(Value())
    {
      files, levels, levelOf := map[], map[], map[];
      currentLevel, levelCounter, ready := 1, 1, false;
      callbacks, registered, log := [], [], [];
    }

    method Require(file: File)
      modifies this
      ensures Value() == Perform(old(Value()), Action.Require(file))
    {
      if file in files {
        return;
      }
      files := files[file := Js(false, None, false)];
      ready := false;
      levelOf := levelOf[file := levelCounter];
      levelCounter := levelCounter + 1;
      log := log + [Issued(file)];
    }

    method OnReady(callback: Callback)
      modifies this
      ensures Value() == Perform(old(Value()), Action.OnReady(callback))
    {
      callbacks := callbacks + [callback];
      registered := registered + if callback.Func? then [callback] else [];
    }

    /** The body of a script or callback. */
    method RunBody(actions: seq<Action>)
      modifies this
      ensures Value() == PerformAll(old(Value()), actions)
    {
      for k := 0 to |actions|
        invariant PerformAll(Value(), actions[k..]) == PerformAll(old(Value()), actions)
      {
        assert actions[k..][1..] == actions[k + 1..];
        match actions[k]
        case Require(file) => Require(file);
        case OnReady(callback) => OnReady(callback);
      }
    }

    /** `execCBs`: the loop that splices `cbArr` while callbacks push to it. */
    method ExecFcs()
      modifies this
      ensures Value() == Drain(old(Value()), 0)
    {
      var i := 0;
      while i < |callbacks|
        invariant 0 <= i <= |callbacks|
        invariant Drain(Value(), i) == Drain(old(Value()), 0)
        decreases CallbacksSize(callbacks[i..])
      {
        var c := callbacks[i];
        ghost var before := Value();
        if c.Falsy? {
          assert callbacks[i..][1..] == callbacks[i + 1..];
          i := i + 1;
        } else {
          if c.Func? {
            log := log + [Called(c)];
            RunBody(c.actions);
          }
          callbacks := callbacks[..i] + callbacks[i + 1..];
          assert Value() == CallOne(before, i);
        }
      }
      log := log + [Settled];
    }

    method ExecuteJs(file: File)
      requires file in files
      modifies this
      ensures Value() == JsLoaderSteps.ExecuteJs(old(Value()), file)
    {
      var js := files[file];
      RunBody(if js.content.Some? then js.content.value else []);
      files := files[file := Js(js.loaded, None, true)];
      log := log + [Ran(file)];
    }

    /** Runs the head script, drains the callbacks when it was the last, and moves on. */
    method RunHead()
      requires Loaded(Value(), currentLevel)
      modifies this
      ensures Value() == Round(old(Value()))
    {
      var level := currentLevel;
      ExecuteJs(levels[level]);
      if level == levelCounter - 1 {
        ExecFcs();
      }
      currentLevel := currentLevel + 1;
    }

    /** `executeScript`, recursive over the levels whose responses wait. */
    method ExecuteScript(level: nat)
      requires LevelsHaveFiles(Value())
      modifies this
      ensures Value() == RunLevels(old(Value()), level)
      decreases Waiting(Value())
    {
      if level == currentLevel && level in levels && files[levels[level]].loaded {
        RoundShrinks(Value());
        RunHead();
        if currentLevel < levelCounter && currentLevel in levels && files[levels[currentLevel]].loaded {
          ExecuteScript(currentLevel);
        }
      }
    }

    /** The `success` handler of the request for `file`. */
    method Success(file: File, script: seq<Action>)
      requires Inv(Value()) && file in files
      modifies this
      ensures Value() == Respond(old(Value()), file, script) && Inv(Value())
    {
      RespondKeeps(Value(), file, script);
      InvHasFiles(Value());
      var level := levelOf[file];
      files := files[file := files[file].(loaded := true, content := Some(script))];
      levels := levels[level := file];
      ExecuteScript(level);
    }
  }
}
