/** The steps of `JSLoader` of boot.js. A script is what it does to the loader: a finite tree of
    `require` and `onReady` calls. The observer's log and the list of registrations are part of the
    state and never read; everything else is a variable of the source. */
module JsLoaderSteps {
  import opened Wrappers

  type File = string

  datatype Action = Require(file: File) | OnReady(callback: Callback)

  /** What is passed to `onReady`: a falsy value, some other value that is no function, or a function. */
  datatype Callback = Falsy | NotCallable | Func(id: nat, actions: seq<Action>)

  /** The record `Js`; while a response waits to run, `content` is its script. */
  datatype Js = Js(loaded: bool, content: Option<seq<Action>>, executed: bool)

  /** What an observer of the loader sees. `Settled` ends a drain of the ready callbacks. */
  datatype Event = Issued(file: File) | Ran(file: File) | Called(callback: Callback) | Settled

  /** The loader's variables. `levels` holds, like `jsCache[level]`, a reference to the record of
      a file; `log` and `registered` record the run and are never read. */
  datatype State = State(
    files: map<File, Js>,
    levels: map<nat, File>,
    currentLevel: nat,
    levelCounter: nat,
    ready: bool,
    callbacks: seq<Callback>,
    levelOf: map<File, nat>,
    registered: seq<Callback>,
    log: seq<Event>)

  const START := State(map[], map[], 1, 1, false, [], map[], [], [])

  // ------------------------------------------------------------------ the steps

  /** `require` and `onReady`; `levelOf` is the level that the request's closure keeps. */
  function Perform(s: State, a: Action): State {
    match a
    case Require(file) =>
      if file in s.files then s
      else s.(files := s.files[file := Js(false, None, false)],
              ready := false,
              levelOf := s.levelOf[file := s.levelCounter],
              levelCounter := s.levelCounter + 1,
              log := s.log + [Issued(file)])
    case OnReady(callback) =>
      s.(callbacks := s.callbacks + [callback],
         registered := s.registered + (if callback.Func? then [callback] else []))
  }

  function Registrations(actions: seq<Action>): seq<Callback> {
    if actions == [] then []
    else (if actions[0].OnReady? then [actions[0].callback] else []) + Registrations(actions[1..])
  }

  /** A script or callback body runs to its end. */
  function PerformAll(s: State, actions: seq<Action>): (r: State)
    ensures r.callbacks == s.callbacks + Registrations(actions)
    ensures r.levels == s.levels && r.currentLevel == s.currentLevel
    ensures s.files.Keys <= r.files.Keys && forall f :: f in s.files ==> r.files[f] == s.files[f]
    decreases |actions|
  {
    if actions == [] then s else PerformAll(Perform(s, actions[0]), actions[1..])
  }

  function ActionsSize(actions: seq<Action>): nat
    decreases actions
  {
    if actions == [] then 0
    else ActionSize(actions[0]) + ActionsSize(actions[1..])
  }

  function ActionSize(a: Action): nat
    decreases a
  {
    match a
    case Require(_) => 0
    case OnReady(c) => CallbackSize(c)
  }

  function CallbackSize(c: Callback): nat
    decreases c
  {
    if c.Func? then 1 + ActionsSize(c.actions) else 1
  }

  function CallbacksSize(cs: seq<Callback>): nat {
    if cs == [] then 0 else CallbackSize(cs[0]) + CallbacksSize(cs[1..])
  }

  lemma {:induction false} CallbacksSizeAppend(a: seq<Callback>, b: seq<Callback>)
    ensures CallbacksSize(a + b) == CallbacksSize(a) + CallbacksSize(b)
  {
    if a == [] {
      assert a + b == b;
    } else {
      assert (a + b)[1..] == a[1..] + b;
      CallbacksSizeAppend(a[1..], b);
    }
  }

  lemma {:induction false} RegistrationsSize(actions: seq<Action>)
    ensures CallbacksSize(Registrations(actions)) == ActionsSize(actions)
  {
    if actions != [] {
      var head := if actions[0].OnReady? then [actions[0].callback] else [];
      CallbacksSizeAppend(head, Registrations(actions[1..]));
      RegistrationsSize(actions[1..]);
    }
  }

  /** One truthy entry of `cbArr`: it is called when it is a function, then spliced out. */
  function CallOne(s: State, i: nat): (r: State)
    requires i < |s.callbacks| && !s.callbacks[i].Falsy?
    ensures r.levels == s.levels && r.currentLevel == s.currentLevel
    ensures s.files.Keys <= r.files.Keys && forall f :: f in s.files ==> r.files[f] == s.files[f]
    ensures i <= |r.callbacks| && CallbacksSize(r.callbacks[i..]) < CallbacksSize(s.callbacks[i..])
  {
    var c := s.callbacks[i];
    var s' := if c.Func? then PerformAll(s.(log := s.log + [Called(c)]), c.actions) else s;
    var r := s'.(callbacks := s'.callbacks[..i] + s'.callbacks[i + 1..]);
    CallOneShrinks(s, i, s', r);
    r
  }

  lemma CallOneShrinks(s: State, i: nat, s': State, r: State)
    requires i < |s.callbacks|
    requires var c := s.callbacks[i];
             s'.callbacks == s.callbacks + (if c.Func? then Registrations(c.actions) else [])
    requires r.callbacks == s'.callbacks[..i] + s'.callbacks[i + 1..]
    ensures CallbacksSize(r.callbacks[i..]) < CallbacksSize(s.callbacks[i..])
  {
    var c := s.callbacks[i];
    var added := if c.Func? then Registrations(c.actions) else [];
    assert r.callbacks[i..] == s.callbacks[i + 1..] + added;
    CallbacksSizeAppend(s.callbacks[i + 1..], added);
    if c.Func? { RegistrationsSize(c.actions); }
    assert s.callbacks[i..][1..] == s.callbacks[i + 1..];
  }

  /** `execCBs` from index `i` on. */
  function Drain(s: State, i: nat): (r: State)
    requires i <= |s.callbacks|
    ensures r.levels == s.levels && r.currentLevel == s.currentLevel
    ensures s.files.Keys <= r.files.Keys && forall f :: f in s.files ==> r.files[f] == s.files[f]
    decreases CallbacksSize(s.callbacks[i..])
  {
    if i == |s.callbacks| then s.(log := s.log + [Settled])
    else if s.callbacks[i].Falsy? then
      assert s.callbacks[i..][1..] == s.callbacks[i + 1..];
      Drain(s, i + 1)
    else Drain(CallOne(s, i), i)
  }

  /** `executeJs`: the script runs while its level is still the current one. */
  function ExecuteJs(s: State, file: File): (r: State)
    requires file in s.files
    ensures r.levels == s.levels && r.currentLevel == s.currentLevel
    ensures s.files.Keys <= r.files.Keys && forall f :: f in s.files ==> r.files[f].loaded == s.files[f].loaded
  {
    var js := s.files[file];
    var s' := PerformAll(s, if js.content.Some? then js.content.value else []);
    s'.(files := s'.files[file := Js(js.loaded, None, true)], log := s'.log + [Ran(file)])
  }

  predicate Loaded(s: State, level: nat) {
    level in s.levels && s.levels[level] in s.files && s.files[s.levels[level]].loaded
  }

  /** Every level refers to the record of a requested file. */
  predicate LevelsHaveFiles(s: State) {
    forall level :: level in s.levels ==> s.levels[level] in s.files
  }

  /** The levels that hold a response and have not run. */
  function Waiting(s: State): set<nat> {
    set level | level in s.levels && s.currentLevel <= level
  }

  /** One round of `executeScript`: the head script, a drain when it was the last, the next level. */
  function Round(s: State): (r: State)
    requires Loaded(s, s.currentLevel)
    ensures r.levels == s.levels && r.currentLevel == s.currentLevel + 1
    ensures s.files.Keys <= r.files.Keys
  {
    var s1 := ExecuteJs(s, s.levels[s.currentLevel]);
    var s2 := if s.currentLevel == s1.levelCounter - 1 then Drain(s1, 0) else s1;
    s2.(currentLevel := s2.currentLevel + 1)
  }

  lemma RoundShrinks(s: State)
    requires Loaded(s, s.currentLevel)
    ensures Waiting(Round(s)) < Waiting(s)
  {
    assert s.currentLevel in Waiting(s) && s.currentLevel !in Waiting(Round(s));
  }

  function RunLevels(s: State, level: nat): (r: State)
    decreases Waiting(s)
  {
    if level == s.currentLevel && Loaded(s, level) then
      var s3 := Round(s);
      RoundShrinks(s);
      if s3.currentLevel < s3.levelCounter && Loaded(s3, s3.currentLevel)
      then RunLevels(s3, s3.currentLevel)
      else s3
    else s
  }

  /** `success`: the response of `file` arrives; nothing can arrive that was not requested. */
  function Respond(s: State, file: File, script: seq<Action>): State {
    if file in s.files && file in s.levelOf then
      var level := s.levelOf[file];
      var s' := s.(files := s.files[file := s.files[file].(loaded := true, content := Some(script))],
                   levels := s.levels[level := file]);
      RunLevels(s', level)
    else s
  }
}
