/** Every run of the script loader keeps the observer's rules: request order, and callbacks last. */
module JsLoaderRuns {
  import opened Wrappers
  import opened JsLoaderSteps

  // ------------------------------------------------------- the observer's rules

  /** What an observer has seen; `ok` stays true while the loader behaves: each file is requested
      once, scripts run in request order, and callbacks are called only in the drain that follows
      the run of the last script requested so far. */
  datatype Seen = Seen(issued: seq<File>, ran: seq<File>, called: seq<Callback>, draining: bool, ok: bool)

  function Observe(p: Seen, e: Event): Seen {
    match e
    case Issued(file) => p.(issued := p.issued + [file], ok := p.ok && file !in p.issued)
    case Ran(file) =>
      p.(ran := p.ran + [file],
         draining := |p.ran| + 1 == |p.issued|,
         ok := p.ok && !p.draining && |p.ran| < |p.issued| && file == p.issued[|p.ran|])
    case Called(callback) => p.(called := p.called + [callback], ok := p.ok && p.draining)
    case Settled => p.(draining := false, ok := p.ok && p.draining)
  }

  function Replay(log: seq<Event>): Seen {
    if log == [] then Seen([], [], [], false, true)
    else Observe(Replay(log[..|log| - 1]), log[|log| - 1])
  }

  lemma ReplaySnoc(log: seq<Event>, e: Event)
    ensures Replay(log + [e]) == Observe(Replay(log), e)
  {
    assert (log + [e])[..|log|] == log;
  }

  predicate Distinct(files: seq<File>) {
    forall i, j :: 0 <= i < j < |files| ==> files[i] != files[j]
  }

  /** What the observer's approval means for the whole run. */
  lemma {:induction false} ApprovedRun(log: seq<Event>)
    requires Replay(log).ok
    ensures var p := Replay(log);
            Distinct(p.issued) && |p.ran| <= |p.issued| && p.ran == p.issued[..|p.ran|]
  {
    if log != [] {
      ApprovedRun(log[..|log| - 1]);
      StaysInOrder(Replay(log[..|log| - 1]), log[|log| - 1]);
    }
  }

  predicate InOrder(p: Seen) {
    Distinct(p.issued) && |p.ran| <= |p.issued| && p.ran == p.issued[..|p.ran|]
  }

  lemma StaysInOrder(p: Seen, e: Event)
    requires InOrder(p) && Observe(p, e).ok
    ensures InOrder(Observe(p, e))
  {
    match e
    case Issued(file) =>
      assert (p.issued + [file])[..|p.ran|] == p.issued[..|p.ran|];
    case Ran(file) =>
      assert p.issued[..|p.ran| + 1] == p.issued[..|p.ran|] + [file];
    case _ =>
  }

  lemma Associate(a: seq<Callback>, b: seq<Callback>, c: seq<Callback>)
    ensures a + b + c == a + (b + c)
  {
  }

  function Functions(cs: seq<Callback>): seq<Callback> {
    if cs == [] then []
    else (if cs[0].Func? then [cs[0]] else []) + Functions(cs[1..])
  }

  lemma {:induction false} FunctionsAppend(a: seq<Callback>, b: seq<Callback>)
    ensures Functions(a + b) == Functions(a) + Functions(b)
  {
    if a == [] {
      assert a + b == b;
    } else {
      assert (a + b)[1..] == a[1..] + b;
      FunctionsAppend(a[1..], b);
      Associate(if a[0].Func? then [a[0]] else [], Functions(a[1..]), Functions(b));
    }
  }

  // -------------------------------------------------------------- the invariant

  /** Levels number the requests from 1 on. */
  predicate Numbered(files: map<File, Js>, levelOf: map<File, nat>, issued: seq<File>) {
    && (forall k :: 0 <= k < |issued| ==> issued[k] in files && issued[k] in levelOf && levelOf[issued[k]] == k + 1)
    && (forall f :: f in files ==> f in levelOf && 1 <= levelOf[f] <= |issued| && issued[levelOf[f] - 1] == f)
  }

  /** A level refers to its file exactly when the response of that file has arrived. */
  predicate Arrived(files: map<File, Js>, levels: map<nat, File>, issued: seq<File>) {
    && (forall k :: k in levels ==> 1 <= k <= |issued| && levels[k] == issued[k - 1])
    && (forall k :: 0 <= k < |issued| ==> issued[k] in files && (files[issued[k]].loaded <==> k + 1 in levels))
  }

  predicate AllArrived(levels: map<nat, File>, n: nat) {
    forall k :: 1 <= k <= n ==> k in levels
  }

  /** The loader's bookkeeping against what the observer has seen; `ranNow` is 1 from the end of
      the current script until `currentLevel` moves on. */
  predicate Base(s: State, ranNow: nat, draining: bool) {
    Counted(Replay(s.log), s.currentLevel + ranNow, s.levelCounter, draining)
    && Filed(s.files, s.levels, s.levelOf, Replay(s.log))
  }

  /** The counters against what has been seen. */
  predicate Counted(p: Seen, next: int, counter: int, draining: bool) {
    p.ok && p.draining == draining && |p.ran| == next - 1 <= |p.issued| == counter - 1
  }

  /** The tables against what has been seen. */
  predicate Filed(files: map<File, Js>, levels: map<nat, File>, levelOf: map<File, nat>, p: Seen) {
    Numbered(files, levelOf, p.issued) && Arrived(files, levels, p.issued) && AllArrived(levels, |p.ran|)
  }

  /** Every registered function has been called or waits in `cbArr`, in order. */
  predicate Queued(s: State) {
    s.registered == Replay(s.log).called + Functions(s.callbacks)
  }

  predicate Core(s: State, ranNow: nat, draining: bool) {
    Base(s, ranNow, draining) && Queued(s)
  }

  /** Between events: all has run, or the head level has no response. */
  predicate Inv(s: State) {
    && Core(s, 0, false)
    && (s.currentLevel == s.levelCounter || s.currentLevel !in s.levels)
  }

  lemma IssueKeeps(files: map<File, Js>, levels: map<nat, File>, levelOf: map<File, nat>, issued: seq<File>, file: File)
    requires Numbered(files, levelOf, issued) && Arrived(files, levels, issued) && file !in files
    ensures file !in issued
    ensures Numbered(files[file := Js(false, None, false)], levelOf[file := |issued| + 1], issued + [file])
    ensures Arrived(files[file := Js(false, None, false)], levels, issued + [file])
  {
    var files' := files[file := Js(false, None, false)];
    var issued' := issued + [file];
    forall k | 0 <= k < |issued'|
      ensures issued'[k] in files' && (files'[issued'[k]].loaded <==> k + 1 in levels)
    {
      if k < |issued| { assert issued'[k] == issued[k]; }
    }
  }

  lemma RequireKeepsBase(s: State, file: File, ranNow: nat, draining: bool)
    requires Base(s, ranNow, draining) && file !in s.files
    ensures Base(Perform(s, Require(file)), ranNow, draining)
    ensures Replay(Perform(s, Require(file)).log).called == Replay(s.log).called
  {
    var p := Replay(s.log);
    IssueKeeps(s.files, s.levels, s.levelOf, p.issued, file);
    IssueIsSeen(s, file);
    assert s.levelCounter == |p.issued| + 1;
  }

  lemma IssueIsSeen(s: State, file: File)
    requires file !in s.files && file !in Replay(s.log).issued
    ensures var p := Replay(s.log);
            Replay(Perform(s, Require(file)).log) == p.(issued := p.issued + [file])
  {
    ReplaySnoc(s.log, Issued(file));
  }

  lemma PerformKeepsBase(s: State, a: Action, ranNow: nat, draining: bool)
    requires Base(s, ranNow, draining)
    ensures Base(Perform(s, a), ranNow, draining)
    ensures Replay(Perform(s, a).log).called == Replay(s.log).called
  {
    match a
    case Require(file) =>
      if file !in s.files { RequireKeepsBase(s, file, ranNow, draining); }
    case OnReady(callback) =>
  }

  lemma {:induction false} PerformAllKeepsBase(s: State, actions: seq<Action>, ranNow: nat, draining: bool)
    requires Base(s, ranNow, draining)
    ensures Base(PerformAll(s, actions), ranNow, draining)
    ensures Replay(PerformAll(s, actions).log).called == Replay(s.log).called
    decreases |actions|
  {
    if actions != [] {
      PerformKeepsBase(s, actions[0], ranNow, draining);
      PerformAllKeepsBase(Perform(s, actions[0]), actions[1..], ranNow, draining);
    }
  }

  lemma PerformRegisters(s: State, a: Action)
    ensures Perform(s, a).registered == s.registered + Functions(if a.OnReady? then [a.callback] else [])
  {
  }

  lemma {:induction false} PerformAllRegisters(s: State, actions: seq<Action>)
    ensures PerformAll(s, actions).registered == s.registered + Functions(Registrations(actions))
    decreases |actions|
  {
    if actions == [] {
    } else {
      var a := actions[0];
      var head := if a.OnReady? then [a.callback] else [];
      var more := Registrations(actions[1..]);
      PerformAllRegisters(Perform(s, a), actions[1..]);
      FunctionsAppend(head, more);
      PerformRegisters(s, a);
      Associate(s.registered, Functions(head), Functions(more));
    }
  }

  lemma PerformAllKeeps(s: State, actions: seq<Action>, ranNow: nat, draining: bool)
    requires Core(s, ranNow, draining)
    ensures Core(PerformAll(s, actions), ranNow, draining)
  {
    PerformAllKeepsBase(s, actions, ranNow, draining);
    PerformAllRegisters(s, actions);
    FunctionsAppend(s.callbacks, Registrations(actions));
    Associate(Replay(s.log).called, Functions(s.callbacks), Functions(Registrations(actions)));
  }

  predicate AllFalsy(cs: seq<Callback>) {
    forall i :: 0 <= i < |cs| ==> cs[i].Falsy?
  }

  lemma {:induction false} FunctionsOfFalsy(cs: seq<Callback>)
    requires AllFalsy(cs)
    ensures Functions(cs) == []
  {
    if cs != [] { FunctionsOfFalsy(cs[1..]); }
  }

  lemma FunctionsSplice(cs: seq<Callback>, i: nat)
    requires i < |cs| && AllFalsy(cs[..i])
    ensures Functions(cs) == (if cs[i].Func? then [cs[i]] else []) + Functions(cs[..i] + cs[i + 1..])
  {
    var front, rest := cs[..i], cs[i + 1..];
    FunctionsOfFalsy(front);
    FunctionsAppend(front, [cs[i]] + rest);
    FunctionsAppend(front, rest);
    FunctionsCons(cs[i], rest);
    assert cs == front + ([cs[i]] + rest);
    Nothing(Functions([cs[i]] + rest));
    Nothing(Functions(rest));
  }

  lemma Nothing(cs: seq<Callback>)
    ensures [] + cs == cs
  {
  }

  lemma FunctionsCons(c: Callback, rest: seq<Callback>)
    ensures Functions([c] + rest) == (if c.Func? then [c] else []) + Functions(rest)
  {
    assert ([c] + rest)[1..] == rest;
  }

  lemma CalledKeepsBase(s: State, c: Callback)
    requires Base(s, 1, true)
    ensures Base(s.(log := s.log + [Called(c)]), 1, true)
    ensures Replay(s.log + [Called(c)]).called == Replay(s.log).called + [c]
  {
    ReplaySnoc(s.log, Called(c));
  }

  lemma CallOneKeepsBase(s: State, i: nat)
    requires Base(s, 1, true) && i < |s.callbacks| && !s.callbacks[i].Falsy?
    ensures Base(CallOne(s, i), 1, true)
    ensures var c := s.callbacks[i];
            Replay(CallOne(s, i).log).called == Replay(s.log).called + if c.Func? then [c] else []
  {
    var c := s.callbacks[i];
    if c.Func? {
      CalledKeepsBase(s, c);
      PerformAllKeepsBase(s.(log := s.log + [Called(c)]), c.actions, 1, true);
    }
  }

  lemma SpliceAppended(cs: seq<Callback>, added: seq<Callback>, i: nat)
    requires i < |cs|
    ensures (cs + added)[..i] + (cs + added)[i + 1..] == cs[..i] + cs[i + 1..] + added
  {
  }

  lemma CallOneQueues(s: State, i: nat)
    requires i < |s.callbacks| && !s.callbacks[i].Falsy?
    ensures var c := s.callbacks[i];
            var added := if c.Func? then Registrations(c.actions) else [];
            && CallOne(s, i).callbacks == s.callbacks[..i] + s.callbacks[i + 1..] + added
            && CallOne(s, i).registered == s.registered + Functions(added)
  {
    var c := s.callbacks[i];
    if c.Func? {
      PerformAllRegisters(s.(log := s.log + [Called(c)]), c.actions);
      SpliceAppended(s.callbacks, Registrations(c.actions), i);
    }
  }

  lemma CallOneKeeps(s: State, i: nat)
    requires Core(s, 1, true) && i < |s.callbacks| && !s.callbacks[i].Falsy? && AllFalsy(s.callbacks[..i])
    ensures Core(CallOne(s, i), 1, true) && AllFalsy(CallOne(s, i).callbacks[..i])
  {
    var c := s.callbacks[i];
    var head := if c.Func? then [c] else [];
    var added := if c.Func? then Registrations(c.actions) else [];
    var spliced := s.callbacks[..i] + s.callbacks[i + 1..];
    CallOneKeepsBase(s, i);
    CallOneQueues(s, i);
    FunctionsSplice(s.callbacks, i);
    FunctionsAppend(spliced, added);
    var called := Replay(s.log).called;
    Associate(called, head, Functions(spliced));
    Associate(called + head, Functions(spliced), Functions(added));
    assert AllFalsy((spliced + added)[..i]);
  }

  lemma {:induction false} DrainKeeps(s: State, i: nat)
    requires Core(s, 1, true) && i <= |s.callbacks| && AllFalsy(s.callbacks[..i])
    ensures Core(Drain(s, i), 1, false) && Functions(Drain(s, i).callbacks) == []
    decreases CallbacksSize(s.callbacks[i..])
  {
    if i == |s.callbacks| {
      ReplaySnoc(s.log, Settled);
      assert s.callbacks[..i] == s.callbacks;
      FunctionsOfFalsy(s.callbacks);
    } else if s.callbacks[i].Falsy? {
      assert s.callbacks[i..][1..] == s.callbacks[i + 1..];
      DrainKeeps(s, i + 1);
    } else {
      CallOneKeeps(s, i);
      DrainKeeps(CallOne(s, i), i);
    }
  }

  lemma RunKeepsArrived(files: map<File, Js>, levels: map<nat, File>, levelOf: map<File, nat>, issued: seq<File>,
                        file: File, js: Js)
    requires Numbered(files, levelOf, issued) && Arrived(files, levels, issued)
    requires file in files && js.loaded == files[file].loaded
    ensures Numbered(files[file := js], levelOf, issued) && Arrived(files[file := js], levels, issued)
  {
  }

  lemma RanKeeps(s: State, file: File, js: Js)
    requires Core(s, 0, false) && s.currentLevel in s.levels && file == s.levels[s.currentLevel]
    requires file in s.files && js.loaded == s.files[file].loaded
    ensures Core(s.(files := s.files[file := js], log := s.log + [Ran(file)]), 1, s.currentLevel == s.levelCounter - 1)
  {
    var p := Replay(s.log);
    ReplaySnoc(s.log, Ran(file));
    HeadIsNext(s.files, s.levels, s.levelOf, p, s.currentLevel, s.levelCounter);
    RunKeepsArrived(s.files, s.levels, s.levelOf, p.issued, file, js);
    AllArrivedNext(s.levels, |p.ran|);
  }

  /** The head script is the next one the observer expects. */
  lemma HeadIsNext(files: map<File, Js>, levels: map<nat, File>, levelOf: map<File, nat>, p: Seen, level: nat, counter: int)
    requires Counted(p, level, counter, false) && Filed(files, levels, levelOf, p) && level in levels
    ensures |p.ran| < |p.issued| && p.issued[|p.ran|] == levels[level] && |p.ran| + 1 in levels
    ensures Counted(Observe(p, Ran(levels[level])), level + 1, counter, level == counter - 1)
  {
  }

  lemma AllArrivedNext(levels: map<nat, File>, n: nat)
    requires AllArrived(levels, n) && n + 1 in levels
    ensures AllArrived(levels, n + 1)
  {
  }

  lemma LoadedIsArrived(s: State, level: nat)
    requires Core(s, 0, false) && level in s.levels
    ensures Loaded(s, level) && s.levels[level] in s.files
  {
  }

  lemma ExecuteJsKeeps(s: State)
    requires Core(s, 0, false) && Loaded(s, s.currentLevel)
    ensures var s1 := ExecuteJs(s, s.levels[s.currentLevel]);
            Core(s1, 1, s.currentLevel == s1.levelCounter - 1)
  {
    var file := s.levels[s.currentLevel];
    var js := s.files[file];
    var script := if js.content.Some? then js.content.value else [];
    PerformAllKeeps(s, script, 0, false);
    RanKeeps(PerformAll(s, script), file, Js(js.loaded, None, true));
  }

  lemma RoundKeeps(s: State)
    requires Core(s, 0, false) && Loaded(s, s.currentLevel)
    ensures Core(Round(s), 0, false)
  {
    ExecuteJsKeeps(s);
    var s1 := ExecuteJs(s, s.levels[s.currentLevel]);
    if s.currentLevel == s1.levelCounter - 1 {
      DrainKeeps(s1, 0);
    }
  }

  lemma HeadIsKnown(s: State)
    requires Core(s, 0, false)
    ensures Loaded(s, s.currentLevel) <==> s.currentLevel in s.levels
    ensures s.currentLevel in s.levels ==> s.levels[s.currentLevel] in s.files
    ensures s.currentLevel <= s.levelCounter
    ensures s.currentLevel == s.levelCounter ==> !Loaded(s, s.currentLevel)
  {
    if s.currentLevel in s.levels {
      LoadedIsArrived(s, s.currentLevel);
    }
  }

  lemma {:induction false} RunLevelsKeeps(s: State, level: nat)
    requires Core(s, 0, false)
    requires level == s.currentLevel || s.currentLevel == s.levelCounter || s.currentLevel !in s.levels
    ensures Inv(RunLevels(s, level))
    decreases Waiting(s)
  {
    HeadIsKnown(s);
    if level == s.currentLevel && Loaded(s, level) {
      var s3 := Round(s);
      RoundKeeps(s);
      RoundShrinks(s);
      HeadIsKnown(s3);
      RunLevelsKeeps(s3, s3.currentLevel);
    }
  }

  /** Everything registered has been called. */
  predicate NoneWaits(s: State) {
    Functions(s.callbacks) == []
  }

  lemma RoundDrains(s: State)
    requires Core(s, 0, false) && Loaded(s, s.currentLevel)
    ensures Round(s).currentLevel == Round(s).levelCounter ==> NoneWaits(Round(s))
  {
    ExecuteJsKeeps(s);
    var s1 := ExecuteJs(s, s.levels[s.currentLevel]);
    if s.currentLevel == s1.levelCounter - 1 {
      DrainKeeps(s1, 0);
    }
  }

  /** If the last script requested runs, the callbacks are drained. */
  lemma {:induction false} RunLevelsDrains(s: State, level: nat)
    requires Core(s, 0, false)
    ensures var r := RunLevels(s, level);
            s.currentLevel < r.currentLevel == r.levelCounter ==> NoneWaits(r)
    decreases Waiting(s)
  {
    if level == s.currentLevel && Loaded(s, level) {
      var s3 := Round(s);
      RoundKeeps(s);
      RoundDrains(s);
      RoundShrinks(s);
      if s3.currentLevel < s3.levelCounter && Loaded(s3, s3.currentLevel) {
        RunLevelsDrains(s3, s3.currentLevel);
        RunLevelsGoesOn(s3);
      }
    }
  }

  lemma RunLevelsGoesOn(s: State)
    requires Loaded(s, s.currentLevel)
    ensures s.currentLevel < RunLevels(s, s.currentLevel).currentLevel
    decreases Waiting(s)
  {
    var s3 := Round(s);
    RoundShrinks(s);
    if s3.currentLevel < s3.levelCounter && Loaded(s3, s3.currentLevel) {
      RunLevelsGoesOn(s3);
    }
  }

  lemma ArriveKeepsNumbering(files: map<File, Js>, levels: map<nat, File>, levelOf: map<File, nat>, issued: seq<File>,
                             file: File, js: Js)
    requires Numbered(files, levelOf, issued) && Arrived(files, levels, issued) && file in files && js.loaded
    ensures file in levelOf
    ensures Numbered(files[file := js], levelOf, issued)
    ensures Arrived(files[file := js], levels[levelOf[file] := file], issued)
  {
    var level := levelOf[file];
    var files', levels' := files[file := js], levels[level := file];
    forall k | 0 <= k < |issued|
      ensures issued[k] in files' && (files'[issued[k]].loaded <==> k + 1 in levels')
    {
      assert levelOf[issued[k]] == k + 1;
    }
  }

  lemma ArriveKeeps(s: State, file: File, js: Js)
    requires Core(s, 0, false) && file in s.files && js.loaded
    ensures file in s.levelOf
    ensures Core(s.(files := s.files[file := js], levels := s.levels[s.levelOf[file] := file]), 0, false)
  {
    ArriveKeepsNumbering(s.files, s.levels, s.levelOf, Replay(s.log).issued, file, js);
  }

  lemma RespondKeeps(s: State, file: File, script: seq<Action>)
    requires Inv(s)
    ensures Inv(Respond(s, file, script))
  {
    if file in s.files {
      var js := s.files[file].(loaded := true, content := Some(script));
      ArriveKeeps(s, file, js);
      var level := s.levelOf[file];
      RunLevelsKeeps(s.(files := s.files[file := js], levels := s.levels[level := file]), level);
    }
  }

  lemma InvHasFiles(s: State)
    requires Inv(s)
    ensures LevelsHaveFiles(s) && s.files.Keys <= s.levelOf.Keys
  {
  }

  // ------------------------------------------------------------------ whole runs

  /** What happens to the loader from outside: page code calls it, or a response arrives. */
  datatype Input = Call(action: Action) | Response(file: File, script: seq<Action>)

  function Step(s: State, input: Input): State {
    match input
    case Call(action) => Perform(s, action)
    case Response(file, script) => Respond(s, file, script)
  }

  function Run(inputs: seq<Input>): State {
    if inputs == [] then START else Step(Run(inputs[..|inputs| - 1]), inputs[|inputs| - 1])
  }

  lemma StepKeeps(s: State, input: Input)
    requires Inv(s)
    ensures Inv(Step(s, input))
  {
    match input
    case Call(action) => PerformAllKeeps(s, [action], 0, false); assert PerformAll(s, [action]) == Perform(s, action);
    case Response(file, script) => RespondKeeps(s, file, script);
  }

  lemma {:induction false} RunKeeps(inputs: seq<Input>)
    ensures Inv(Run(inputs))
  {
    if inputs != [] {
      RunKeeps(inputs[..|inputs| - 1]);
      StepKeeps(Run(inputs[..|inputs| - 1]), inputs[|inputs| - 1]);
    }
  }

  /** Whatever arrives in whatever order, and however often, scripts run in request order, each at
      most once, and what has run is what was requested below the current level. */
  lemma RunsInRequestOrder(inputs: seq<Input>)
    ensures var s := Run(inputs); var p := Replay(s.log);
            && p.ok && Distinct(p.issued)
            && 1 <= s.currentLevel <= |p.issued| + 1
            && p.ran == p.issued[..s.currentLevel - 1]
  {
    RunKeeps(inputs);
    ApprovedRun(Run(inputs).log);
  }

  /** Callbacks are called once each, in the order in which they were registered; what is left
      waits in `cbArr`. */
  lemma CallsInRegistrationOrder(inputs: seq<Input>)
    ensures var s := Run(inputs); var p := Replay(s.log);
            && |p.called| <= |s.registered| && p.called == s.registered[..|p.called|]
            && Functions(s.callbacks) == s.registered[|p.called|..]
  {
    RunKeeps(inputs);
    var s := Run(inputs);
    var p := Replay(s.log);
    assert s.registered == p.called + Functions(s.callbacks);
  }

  lemma RespondDrains(s: State, file: File, script: seq<Action>)
    requires Inv(s)
    ensures var r := Respond(s, file, script);
            s.currentLevel < r.currentLevel == r.levelCounter ==> NoneWaits(r)
  {
    if file in s.files {
      var js := s.files[file].(loaded := true, content := Some(script));
      ArriveKeeps(s, file, js);
      var level := s.levelOf[file];
      RunLevelsDrains(s.(files := s.files[file := js], levels := s.levels[level := file]), level);
    }
  }

  /** When a response makes the last requested script run, every callback registered so far has been
      called, those included that were registered while draining. */
  lemma LastScriptCallsAll(inputs: seq<Input>, file: File, script: seq<Action>)
    ensures var before := Replay(Run(inputs).log);
            var s := Run(inputs + [Response(file, script)]);
            var p := Replay(s.log);
            |before.ran| < |p.ran| == |p.issued| ==> p.called == s.registered && NoneWaits(s)
  {
    var all := inputs + [Response(file, script)];
    assert all[..|all| - 1] == inputs;
    RunKeeps(inputs);
    RunKeeps(all);
    RespondDrains(Run(inputs), file, script);
    CallsInRegistrationOrder(all);
  }

  /** Nothing is stuck: between events, either everything requested has run or the first script
      that has not run is still without its response. */
  lemma NothingStuck(inputs: seq<Input>)
    ensures var s := Run(inputs); var p := Replay(s.log);
            && |p.ran| <= |p.issued|
            && (|p.ran| < |p.issued| ==> p.issued[|p.ran|] in s.files && !s.files[p.issued[|p.ran|]].loaded)
  {
    RunKeeps(inputs);
  }
}
