/** A plain loader: a list of requests and a queue of callbacks, no levels. */
module JsLoaderPlain {
  import opened Wrappers
  import opened JsLoaderSteps
  import opened JsLoaderRuns

  /** What was requested, the scripts received and not yet run, how many have run, the functions that wait
      to be called, those registered so far, and what was seen. */
  datatype Plain = Plain(
    issued: seq<File>,
    received: map<File, seq<Action>>,
    ran: nat,
    waiting: seq<Callback>,
    registered: seq<Callback>,
    log: seq<Event>)

  const EMPTY := Plain([], map[], 0, [], [], [])

  // ------------------------------------------------------------- how it behaves

  /** A new file is requested, a function waits to be called. */
  function Do(p: Plain, a: Action): Plain {
    match a
    case Require(file) =>
      if file in p.issued then p else p.(issued := p.issued + [file], log := p.log + [Issued(file)])
    case OnReady(callback) =>
      if callback.Func? then p.(waiting := p.waiting + [callback], registered := p.registered + [callback]) else p
  }

  function DoAll(p: Plain, actions: seq<Action>): (r: Plain)
    ensures r.received == p.received && r.ran == p.ran
    ensures CallbacksSize(r.waiting) <= CallbacksSize(p.waiting) + ActionsSize(actions)
    decreases |actions|
  {
    if actions == [] then p
    else
      DoSize(p, actions[0]);
      DoAll(Do(p, actions[0]), actions[1..])
  }

  lemma DoSize(p: Plain, a: Action)
    ensures CallbacksSize(Do(p, a).waiting) <= CallbacksSize(p.waiting) + ActionSize(a)
  {
    if a.OnReady? {
      CallbacksSizeAppend(p.waiting, [a.callback]);
      assert CallbacksSize([a.callback]) == CallbackSize(a.callback);
    }
  }

  /** The waiting functions are called, first come first served, until none waits. */
  function CallWaiting(p: Plain): (r: Plain)
    ensures r.received == p.received && r.ran == p.ran
    decreases CallbacksSize(p.waiting)
  {
    if p.waiting == [] then p.(log := p.log + [Settled])
    else
      var c := p.waiting[0];
      if c.Func? then CallWaiting(DoAll(p.(waiting := p.waiting[1..], log := p.log + [Called(c)]), c.actions))
      else CallWaiting(p.(waiting := p.waiting[1..]))
  }

  /** The head script, before the callbacks are drained. */
  function RunBody(p: Plain): Plain
    requires p.ran < |p.issued| && p.issued[p.ran] in p.received
  {
    var file := p.issued[p.ran];
    var done := DoAll(p, p.received[file]);
    done.(received := done.received - {file}, ran := done.ran + 1, log := done.log + [Ran(file)])
  }

  /** The next script runs if it is there; after the last one requested the callbacks are called. */
  function RunNext(p: Plain): Plain
    requires p.ran < |p.issued| && p.issued[p.ran] in p.received
  {
    var ran := RunBody(p);
    if ran.ran == |ran.issued| then CallWaiting(ran) else ran
  }

  function RunAll(p: Plain): Plain
    decreases |p.received|
  {
    if p.ran < |p.issued| && p.issued[p.ran] in p.received then
      RunAll(RunNext(p))
    else p
  }

  /** A response to a file that has run is too late. */
  function Receive(p: Plain, file: File, script: seq<Action>): Plain {
    if file in p.issued && file !in p.issued[..if p.ran <= |p.issued| then p.ran else |p.issued|]
    then RunAll(p.(received := p.received[file := script]))
    else p
  }

  function Behave(inputs: seq<Input>): Plain {
    if inputs == [] then EMPTY
    else
      var p := Behave(inputs[..|inputs| - 1]);
      match inputs[|inputs| - 1]
      case Call(action) => Do(p, action)
      case Response(file, script) => Receive(p, file, script)
  }

  // ----------------------------------------------------- the loader behaves so

  /** The scripts that wait are those of the loaded files which have not run. */
  predicate SameScripts(files: map<File, Js>, issued: seq<File>, from: nat, received: map<File, seq<Action>>) {
    && (forall k :: from <= k < |issued| ==> issued[k] in files && (issued[k] in received <==> files[issued[k]].loaded))
    && (forall k :: from <= k < |issued| && issued[k] in received ==> files[issued[k]].content == Some(received[issued[k]]))
    && (forall f :: f in received ==> exists k :: from <= k < |issued| && issued[k] == f)
  }

  /** The loader and the plain loader agree; `from` is the first file that has not begun to run. */
  predicate Agree(s: State, p: Plain, from: nat) {
    && s.files.Keys == (set f | f in p.issued)
    && s.log == p.log && s.registered == p.registered && Functions(s.callbacks) == p.waiting
    && SameScripts(s.files, p.issued, from, p.received)
  }

  lemma PerformAgrees(s: State, p: Plain, from: nat, a: Action)
    requires Agree(s, p, from)
    ensures Agree(Perform(s, a), Do(p, a), from)
  {
    match a
    case Require(file) =>
      if file !in s.files {
        NewFile(s.files, p.issued, from, p.received, file);
        assert Do(p, a).issued == p.issued + [file];
      }
    case OnReady(callback) =>
      FunctionsAppend(s.callbacks, [callback]);
      assert Functions([callback]) == (if callback.Func? then [callback] else []) + Functions([callback][1..]);
  }

  lemma NewFile(files: map<File, Js>, issued: seq<File>, from: nat, received: map<File, seq<Action>>, file: File)
    requires SameScripts(files, issued, from, received) && file !in files && files.Keys == (set f | f in issued)
    ensures var files' := files[file := Js(false, None, false)];
            SameScripts(files', issued + [file], from, received) && files'.Keys == (set f | f in issued + [file])
  {
    var issued' := issued + [file];
    forall f | f in received
      ensures exists k :: from <= k < |issued'| && issued'[k] == f
    {
      var k :| from <= k < |issued| && issued[k] == f;
      assert issued'[k] == f;
    }
    assert file !in received;
  }

  lemma {:induction false} PerformAllAgrees(s: State, p: Plain, from: nat, actions: seq<Action>)
    requires Agree(s, p, from)
    ensures Agree(PerformAll(s, actions), DoAll(p, actions), from)
    decreases |actions|
  {
    if actions != [] {
      PerformAgrees(s, p, from, actions[0]);
      PerformAllAgrees(Perform(s, actions[0]), Do(p, actions[0]), from, actions[1..]);
    }
  }

  /** One entry of the array: a function is the first that waits, anything else does not wait. */
  lemma CallOneAgrees(s: State, p: Plain, from: nat, i: nat)
    requires Agree(s, p, from) && i < |s.callbacks| && !s.callbacks[i].Falsy? && AllFalsy(s.callbacks[..i])
    ensures var c := s.callbacks[i];
            if c.Func? then
              && p.waiting != [] && p.waiting[0] == c
              && Agree(CallOne(s, i), DoAll(p.(waiting := p.waiting[1..], log := p.log + [Called(c)]), c.actions), from)
            else Agree(CallOne(s, i), p, from)
  {
    var c := s.callbacks[i];
    var rest := s.callbacks[..i] + s.callbacks[i + 1..];
    FunctionsSplice(s.callbacks, i);
    if c.Func? {
      var s1 := s.(log := s.log + [Called(c)]);
      assert Agree(s1.(callbacks := rest), p.(waiting := p.waiting[1..], log := p.log + [Called(c)]), from);
      PerformAllAgrees(s1.(callbacks := rest), p.(waiting := p.waiting[1..], log := p.log + [Called(c)]), from, c.actions);
      OtherCallbacks(s1, rest, c.actions);
      SpliceAppended(s.callbacks, Registrations(c.actions), i);
    }
  }

  /** What a body does to the loader does not depend on the callbacks before it. */
  lemma {:induction false} OtherCallbacks(s: State, callbacks: seq<Callback>, actions: seq<Action>)
    ensures PerformAll(s.(callbacks := callbacks), actions)
         == PerformAll(s, actions).(callbacks := callbacks + Registrations(actions))
    decreases |actions|
  {
    if actions == [] {
      assert callbacks + [] == callbacks;
    } else {
      var head := Registered(actions[0]);
      OneOther(s, callbacks, actions[0]);
      OtherCallbacks(Perform(s, actions[0]), callbacks + head, actions[1..]);
      Associate(callbacks, head, Registrations(actions[1..]));
    }
  }

  function Registered(a: Action): seq<Callback> {
    if a.OnReady? then [a.callback] else []
  }

  lemma OneOther(s: State, callbacks: seq<Callback>, a: Action)
    ensures Perform(s.(callbacks := callbacks), a) == Perform(s, a).(callbacks := callbacks + Registered(a))
  {
    assert callbacks + [] == callbacks;
  }

  lemma {:induction false} DrainAgrees(s: State, p: Plain, from: nat, i: nat)
    requires Agree(s, p, from) && i <= |s.callbacks| && AllFalsy(s.callbacks[..i])
    ensures Agree(Drain(s, i), CallWaiting(p), from)
    decreases CallbacksSize(s.callbacks[i..])
  {
    if i == |s.callbacks| {
      assert s.callbacks[..i] == s.callbacks;
      FunctionsOfFalsy(s.callbacks);
    } else if s.callbacks[i].Falsy? {
      assert s.callbacks[i..][1..] == s.callbacks[i + 1..];
      assert s.callbacks[..i + 1] == s.callbacks[..i] + [s.callbacks[i]];
      DrainAgrees(s, p, from, i + 1);
    } else {
      var c := s.callbacks[i];
      CallOneAgrees(s, p, from, i);
      CallOneQueues(s, i);
      if c.Func? {
        DrainAgrees(CallOne(s, i), DoAll(p.(waiting := p.waiting[1..], log := p.log + [Called(c)]), c.actions), from, i);
      } else {
        DrainAgrees(CallOne(s, i), p, from, i);
      }
    }
  }

  /** The plain loader knows what was seen to be requested. */
  predicate Seeing(p: Plain) {
    p.issued == Replay(p.log).issued
  }

  lemma {:induction false} DoAllSees(p: Plain, actions: seq<Action>)
    requires Seeing(p)
    ensures Seeing(DoAll(p, actions)) && p.issued <= DoAll(p, actions).issued
    decreases |actions|
  {
    if actions != [] {
      DoAllSees(Do(p, actions[0]), actions[1..]);
    }
  }

  lemma {:induction false} CallWaitingSees(p: Plain)
    requires Seeing(p)
    ensures Seeing(CallWaiting(p)) && p.issued <= CallWaiting(p).issued
    decreases CallbacksSize(p.waiting)
  {
    if p.waiting == [] {
      ReplaySnoc(p.log, Settled);
    } else {
      var c := p.waiting[0];
      if c.Func? {
        var called := p.(waiting := p.waiting[1..], log := p.log + [Called(c)]);
        ReplaySnoc(p.log, Called(c));
        DoAllSees(called, c.actions);
        CallWaitingSees(DoAll(called, c.actions));
      } else {
        CallWaitingSees(p.(waiting := p.waiting[1..]));
      }
    }
  }

  lemma BodySees(p: Plain)
    requires Seeing(p) && p.ran < |p.issued| && p.issued[p.ran] in p.received
    ensures Seeing(RunBody(p)) && p.issued <= RunBody(p).issued
  {
    var file := p.issued[p.ran];
    var done := DoAll(p, p.received[file]);
    DoAllSees(p, p.received[file]);
    ReplaySnoc(done.log, Ran(file));
  }

  /** The head of the levels is the next file of the plain loader. */
  predicate AtHead(s: State, p: Plain) {
    Agree(s, p, p.ran) && Seeing(p) && p.ran == s.currentLevel - 1
  }

  lemma HeadAgrees(s: State, p: Plain)
    requires Core(s, 0, false) && AtHead(s, p) && Loaded(s, s.currentLevel)
    ensures p.ran < |p.issued| && p.issued[p.ran] == s.levels[s.currentLevel] && p.issued[p.ran] in p.received
    ensures s.files[p.issued[p.ran]].content == Some(p.received[p.issued[p.ran]])
  {
    HeadIsNext(s.files, s.levels, s.levelOf, Replay(s.log), s.currentLevel, s.levelCounter);
  }

  lemma BodyAgrees(s: State, p: Plain)
    requires Core(s, 0, false) && AtHead(s, p) && Loaded(s, s.currentLevel)
    requires p.ran < |p.issued| && p.issued[p.ran] == s.levels[s.currentLevel] && p.issued[p.ran] in p.received
    requires s.files[p.issued[p.ran]].content == Some(p.received[p.issued[p.ran]])
    ensures Agree(ExecuteJs(s, p.issued[p.ran]), RunBody(p), p.ran + 1)
  {
    var file := p.issued[p.ran];
    var script := p.received[file];
    PerformAllAgrees(s, p, p.ran, script);
    PerformAllKeeps(s, script, 0, false);
    DoAllSees(p, script);
    RanAgrees(PerformAll(s, script), DoAll(p, script), file, Js(s.files[file].loaded, None, true));
  }

  lemma RoundAgrees(s: State, p: Plain)
    requires Core(s, 0, false) && AtHead(s, p) && Loaded(s, s.currentLevel)
    ensures p.ran < |p.issued| && p.issued[p.ran] in p.received
    ensures AtHead(Round(s), RunNext(p))
  {
    HeadAgrees(s, p);
    BodyRuns(s, p);
    AfterBody(ExecuteJs(s, p.issued[p.ran]), RunBody(p));
  }

  lemma BodyRuns(s: State, p: Plain)
    requires Core(s, 0, false) && AtHead(s, p) && Loaded(s, s.currentLevel)
    requires p.ran < |p.issued| && p.issued[p.ran] == s.levels[s.currentLevel] && p.issued[p.ran] in p.received
    requires s.files[p.issued[p.ran]].content == Some(p.received[p.issued[p.ran]])
    ensures var s1, p1 := ExecuteJs(s, p.issued[p.ran]), RunBody(p);
            Agree(s1, p1, p1.ran) && Seeing(p1) && p1.ran == s1.currentLevel && s1.levelCounter == |p1.issued| + 1
  {
    BodyAgrees(s, p);
    BodySees(p);
    ExecuteJsKeeps(s);
    assert RunBody(p).ran == p.ran + 1;
  }

  lemma AfterBody(s: State, p: Plain)
    requires Agree(s, p, p.ran) && Seeing(p) && p.ran == s.currentLevel && s.levelCounter == |p.issued| + 1
    ensures var s2 := if s.currentLevel == s.levelCounter - 1 then Drain(s, 0) else s;
            var p2 := if p.ran == |p.issued| then CallWaiting(p) else p;
            AtHead(s2.(currentLevel := s2.currentLevel + 1), p2)
  {
    if p.ran == |p.issued| {
      DrainAgrees(s, p, p.ran, 0);
      CallWaitingSees(p);
    }
  }

  lemma RanAgrees(s: State, p: Plain, file: File, js: Js)
    requires Agree(s, p, p.ran) && p.ran < |p.issued| && p.issued[p.ran] == file && Distinct(p.issued) && file in s.files
    ensures Agree(s.(files := s.files[file := js], log := s.log + [Ran(file)]),
                  p.(received := p.received - {file}, ran := p.ran + 1, log := p.log + [Ran(file)]), p.ran + 1)
  {
    var received := p.received - {file};
    forall f | f in received
      ensures exists k :: p.ran + 1 <= k < |p.issued| && p.issued[k] == f
    {
      var k :| p.ran <= k < |p.issued| && p.issued[k] == f;
      assert k != p.ran;
    }
  }

  lemma {:induction false} RunLevelsAgrees(s: State, p: Plain, level: nat)
    requires Core(s, 0, false) && AtHead(s, p)
    requires level == s.currentLevel || s.currentLevel == s.levelCounter || s.currentLevel !in s.levels
    ensures AtHead(RunLevels(s, level), RunAll(p))
    decreases Waiting(s)
  {
    HeadIsKnown(s);
    if level == s.currentLevel && Loaded(s, level) {
      RoundAgrees(s, p);
      RoundShrinks(s);
      RoundKeeps(s);
      HeadIsKnown(Round(s));
      RunLevelsAgrees(Round(s), RunNext(p), Round(s).currentLevel);
    }
  }

  function Arrive(s: State, file: File, script: seq<Action>): State
    requires file in s.files && file in s.levelOf
  {
    s.(files := s.files[file := s.files[file].(loaded := true, content := Some(script))],
       levels := s.levels[s.levelOf[file] := file])
  }

  lemma KnownAgrees(s: State, p: Plain, file: File, script: seq<Action>)
    requires Inv(s) && AtHead(s, p) && file in s.files && file in s.levelOf && Distinct(p.issued) && p.ran <= |p.issued|
    requires (file in p.issued[..p.ran] ==> s.levelOf[file] < s.currentLevel) && !Loaded(s, s.currentLevel)
    ensures AtHead(RunLevels(Arrive(s, file, script), s.levelOf[file]),
                   if file !in p.issued[..p.ran] then RunAll(p.(received := p.received[file := script])) else p)
  {
    if file in p.issued[..p.ran] {
      LateAgrees(s, p, file, script);
    } else {
      ArriveKeeps(s, file, s.files[file].(loaded := true, content := Some(script)));
      NewAgrees(s, p, file, script);
    }
  }

  lemma ReceiveAgrees(s: State, p: Plain, file: File, script: seq<Action>)
    requires Inv(s) && AtHead(s, p)
    ensures AtHead(Respond(s, file, script), Receive(p, file, script))
  {
    RanWithin(s, p);
    assert file in s.files.Keys <==> file in p.issued;
    if file in s.files {
      LevelOfFile(s, p, file);
      KnownAgrees(s, p, file, script);
      assert Respond(s, file, script) == RunLevels(Arrive(s, file, script), s.levelOf[file]);
    }
  }

  lemma RanWithin(s: State, p: Plain)
    requires Core(s, 0, false) && AtHead(s, p)
    ensures p.ran <= |p.issued|
  {
  }

  lemma LateAgrees(s: State, p: Plain, file: File, script: seq<Action>)
    requires file in s.files && file in s.levelOf && s.levelOf[file] != s.currentLevel
    requires AtHead(s, p) && Distinct(p.issued) && p.ran <= |p.issued| && file in p.issued[..p.ran]
    ensures AtHead(RunLevels(Arrive(s, file, script), s.levelOf[file]), p)
  {
  }

  lemma NewHead(s: State, p: Plain, file: File, script: seq<Action>)
    requires file in s.files && file in s.levelOf
    requires AtHead(s, p) && p.ran <= |p.issued| && file !in p.issued[..p.ran]
    ensures AtHead(Arrive(s, file, script), p.(received := p.received[file := script]))
  {
  }

  lemma NewAgrees(s: State, p: Plain, file: File, script: seq<Action>)
    requires file in s.files && file in s.levelOf && Core(Arrive(s, file, script), 0, false)
    requires AtHead(s, p) && p.ran <= |p.issued| && file !in p.issued[..p.ran]
    requires s.currentLevel == s.levelCounter || s.currentLevel !in s.levels
    ensures AtHead(RunLevels(Arrive(s, file, script), s.levelOf[file]), RunAll(p.(received := p.received[file := script])))
  {
    NewHead(s, p, file, script);
    RunLevelsAgrees(Arrive(s, file, script), p.(received := p.received[file := script]), s.levelOf[file]);
  }

  lemma LevelOfFile(s: State, p: Plain, file: File)
    requires Inv(s) && AtHead(s, p) && file in s.files && Distinct(p.issued) && p.ran <= |p.issued|
    ensures file in s.levelOf && (file in p.issued[..p.ran] ==> s.levelOf[file] < s.currentLevel) && !Loaded(s, s.currentLevel)
  {
    HeadIsKnown(s);
    if file in p.issued[..p.ran] {
      var i :| 0 <= i < p.ran && p.issued[..p.ran][i] == file;
      assert p.issued[i] == file;
    }
  }

  lemma StepAgrees(s: State, p: Plain, input: Input)
    requires Inv(s) && AtHead(s, p)
    ensures AtHead(Step(s, input), if input.Call? then Do(p, input.action) else Receive(p, input.file, input.script))
  {
    match input
    case Call(action) => CallAgrees(s, p, action);
    case Response(file, script) => ReceiveAgrees(s, p, file, script);
  }

  lemma CallAgrees(s: State, p: Plain, action: Action)
    requires AtHead(s, p)
    ensures AtHead(Perform(s, action), Do(p, action))
  {
    PerformAgrees(s, p, p.ran, action);
  }

  /** In every run the loader is where the plain loader is: they have seen the same, registered the same
      functions in the same order, and the same functions wait. */
  lemma {:induction false} BehavesPlainly(inputs: seq<Input>)
    ensures var s, p := Run(inputs), Behave(inputs);
            && AtHead(s, p)
            && s.log == p.log && s.registered == p.registered && Functions(s.callbacks) == p.waiting && s.currentLevel == p.ran + 1
  {
    if inputs != [] {
      var front := inputs[..|inputs| - 1];
      BehavesPlainly(front);
      RunKeeps(front);
      StepAgrees(Run(front), Behave(front), inputs[|inputs| - 1]);
    }
  }

  // -------------------------------------------------------- what scripts have done

  /** The functions that a body registers, in order. */
  function Registers(actions: seq<Action>): seq<Callback> {
    if actions == [] then []
    else
      (if actions[0].OnReady? && actions[0].callback.Func? then [actions[0].callback] else []) + Registers(actions[1..])
  }

  predicate Grown(p: Plain, r: Plain) {
    p.issued <= r.issued && p.registered <= r.registered && (Distinct(p.issued) ==> Distinct(r.issued))
  }

  lemma {:induction false} DoAllGrows(p: Plain, actions: seq<Action>)
    ensures Grown(p, DoAll(p, actions))
    decreases |actions|
  {
    if actions != [] {
      DoAllGrows(Do(p, actions[0]), actions[1..]);
    }
  }

  lemma {:induction false} DoAllRegisters(p: Plain, actions: seq<Action>)
    ensures DoAll(p, actions).registered == p.registered + Registers(actions)
    decreases |actions|
  {
    if actions != [] {
      DoAllRegisters(Do(p, actions[0]), actions[1..]);
    }
  }

  lemma {:induction false} DoAllRequests(p: Plain, actions: seq<Action>, file: File)
    requires Require(file) in actions
    ensures file in DoAll(p, actions).issued
    decreases |actions|
  {
    var first := Do(p, actions[0]);
    if actions[0] == Require(file) {
      assert file in first.issued;
      DoAllGrows(first, actions[1..]);
    } else {
      DoAllRequests(first, actions[1..], file);
    }
  }

  lemma DoAllDoes(p: Plain, actions: seq<Action>)
    ensures var r := DoAll(p, actions);
            && Grown(p, r) && r.registered == p.registered + Registers(actions)
            && forall g :: Require(g) in actions ==> g in r.issued
  {
    DoAllGrows(p, actions);
    DoAllRegisters(p, actions);
    forall g | Require(g) in actions
      ensures g in DoAll(p, actions).issued
    {
      DoAllRequests(p, actions, g);
    }
  }

  lemma {:induction false} CallWaitingGrows(p: Plain)
    ensures Grown(p, CallWaiting(p))
    decreases CallbacksSize(p.waiting)
  {
    if p.waiting != [] {
      var c := p.waiting[0];
      if c.Func? {
        var called := p.(waiting := p.waiting[1..], log := p.log + [Called(c)]);
        DoAllDoes(called, c.actions);
        CallWaitingGrows(DoAll(called, c.actions));
      } else {
        CallWaitingGrows(p.(waiting := p.waiting[1..]));
      }
    }
  }

  predicate StandsAt(part: seq<Callback>, whole: seq<Callback>, i: int) {
    0 <= i <= |whole| - |part| && whole[i..i + |part|] == part
  }

  /** What a script asks for has been requested, and its functions stand together in the order of
      registration, at `from` or later. */
  ghost predicate TookEffect(script: seq<Action>, issued: seq<File>, registered: seq<Callback>, from: nat) {
    && (forall g :: Require(g) in script ==> g in issued)
    && exists i :: from <= i && StandsAt(Registers(script), registered, i)
  }

  lemma EffectStays(script: seq<Action>, issued: seq<File>, registered: seq<Callback>, from: nat,
                    issued': seq<File>, registered': seq<Callback>, from': nat)
    requires TookEffect(script, issued, registered, from) && issued <= issued' && registered <= registered' && from' <= from
    ensures TookEffect(script, issued', registered', from')
  {
    var n := |Registers(script)|;
    var i :| from <= i && StandsAt(Registers(script), registered, i);
    assert registered'[i..i + n] == registered[i..i + n];
    assert StandsAt(Registers(script), registered', i);
  }

  lemma RunNextDoes(p: Plain)
    requires p.ran < |p.issued| && p.issued[p.ran] in p.received && Distinct(p.issued)
    ensures var r := RunNext(p);
            && Grown(p, r) && r.ran == p.ran + 1
            && r.received == p.received - {p.issued[p.ran]}
            && TookEffect(p.received[p.issued[p.ran]], r.issued, r.registered, |p.registered|)
  {
    var script := p.received[p.issued[p.ran]];
    var ran := RunBody(p);
    DoAllDoes(p, script);
    assert StandsAt(Registers(script), ran.registered, |p.registered|);
    assert TookEffect(script, ran.issued, ran.registered, |p.registered|);
    CallWaitingGrows(ran);
    EffectStays(script, ran.issued, ran.registered, |p.registered|, RunNext(p).issued, RunNext(p).registered, |p.registered|);
  }

  /** The k-th script was there to run, and it did. */
  ghost predicate RanWell(received: map<File, seq<Action>>, r: Plain, from: nat, k: int) {
    && 0 <= k < |r.issued| && r.issued[k] in received
    && TookEffect(received[r.issued[k]], r.issued, r.registered, from)
  }

  lemma RanWellStays(received: map<File, seq<Action>>, p: Plain, r: Plain, from: nat, from': nat, k: int)
    requires RanWell(received, p, from, k) && Grown(p, r) && from' <= from
    ensures RanWell(received, r, from', k)
  {
    EffectStays(received[p.issued[k]], p.issued, p.registered, from, r.issued, r.registered, from');
  }

  lemma RanWellBefore(received: map<File, seq<Action>>, file: File, r: Plain, from: nat, k: int)
    requires RanWell(received - {file}, r, from, k)
    ensures RanWell(received, r, from, k)
  {
  }

  lemma {:induction false} RunAllDoes(p: Plain)
    requires Distinct(p.issued)
    ensures var r := RunAll(p);
            && Grown(p, r) && p.ran <= r.ran
            && forall k :: p.ran <= k < r.ran ==> RanWell(p.received, r, |p.registered|, k)
    decreases |p.received|
  {
    if p.ran < |p.issued| && p.issued[p.ran] in p.received {
      var next, r := RunNext(p), RunAll(p);
      RunNextDoes(p);
      RunAllDoes(next);
      assert r == RunAll(next);
      forall k | p.ran <= k < r.ran
        ensures RanWell(p.received, r, |p.registered|, k)
      {
        if k == p.ran {
          assert next.issued[k] == p.issued[k];
          assert RanWell(p.received, next, |p.registered|, k);
          RanWellStays(p.received, next, r, |p.registered|, |p.registered|, k);
        } else {
          RanWellBefore(p.received, p.issued[p.ran], r, |next.registered|, k);
          RanWellStays(p.received, r, r, |next.registered|, |p.registered|, k);
        }
      }
    }
  }

  /** The content of the last response for a file. */
  function LastReceived(inputs: seq<Input>, file: File): Option<seq<Action>> {
    if inputs == [] then None
    else
      var last := inputs[|inputs| - 1];
      if last.Response? && last.file == file then Some(last.script) else LastReceived(inputs[..|inputs| - 1], file)
  }

  ghost predicate AllLast(inputs: seq<Input>, received: map<File, seq<Action>>) {
    forall f :: f in received ==> LastReceived(inputs, f) == Some(received[f])
  }

  lemma {:induction false} RunAllReceives(p: Plain)
    ensures RunAll(p).received.Keys <= p.received.Keys && forall f :: f in RunAll(p).received ==> RunAll(p).received[f] == p.received[f]
    decreases |p.received|
  {
    if p.ran < |p.issued| && p.issued[p.ran] in p.received {
      RunAllReceives(RunNext(p));
    }
  }

  lemma {:induction false} ReceivedIsLast(inputs: seq<Input>)
    ensures AllLast(inputs, Behave(inputs).received) && Distinct(Behave(inputs).issued)
  {
    if inputs != [] {
      var front, last := inputs[..|inputs| - 1], inputs[|inputs| - 1];
      var p := Behave(front);
      ReceivedIsLast(front);
      BehavesPlainly(front);
      if last.Response? {
        ReceiveIsLast(inputs, p, last.file, last.script);
      } else {
        assert Grown(p, Do(p, last.action));
      }
    }
  }

  lemma ReceiveIsLast(inputs: seq<Input>, p: Plain, file: File, script: seq<Action>)
    requires inputs != [] && inputs[|inputs| - 1] == Response(file, script)
    requires AllLast(inputs[..|inputs| - 1], p.received) && Distinct(p.issued)
    requires forall f :: f in p.received ==> exists k :: p.ran <= k < |p.issued| && p.issued[k] == f
    ensures AllLast(inputs, Receive(p, file, script).received) && Distinct(Receive(p, file, script).issued)
  {
    var q := p.(received := p.received[file := script]);
    RunAllReceives(q);
    RunAllDoes(q);
  }

  /** The k-th script was executed as it was last received. */
  ghost predicate RanAsReceived(inputs: seq<Input>, issued: seq<File>, registered: seq<Callback>, from: nat, k: int) {
    && 0 <= k < |issued| && LastReceived(inputs, issued[k]).Some?
    && TookEffect(LastReceived(inputs, issued[k]).value, issued, registered, from)
  }

  lemma RanWellAsReceived(inputs: seq<Input>, received: map<File, seq<Action>>, r: Plain, from: nat, k: int)
    requires AllLast(inputs, received) && RanWell(received, r, from, k)
    ensures RanAsReceived(inputs, r.issued, r.registered, from, k)
  {
  }

  lemma ResponseTakesEffect(inputs: seq<Input>, file: File, script: seq<Action>)
    ensures var p, r := Behave(inputs), Behave(inputs + [Response(file, script)]);
            forall k :: p.ran <= k < r.ran ==>
              RanAsReceived(inputs + [Response(file, script)], r.issued, r.registered, |p.registered|, k)
  {
    var all, p := inputs + [Response(file, script)], Behave(inputs);
    var q := p.(received := p.received[file := script]);
    assert all[..|all| - 1] == inputs;
    ReceivedIsLast(inputs);
    RunAllDoes(q);
    forall k | p.ran <= k < Behave(all).ran
      ensures RanAsReceived(all, Behave(all).issued, Behave(all).registered, |p.registered|, k)
    {
      RanWellAsReceived(all, q.received, RunAll(q), |p.registered|, k);
    }
  }

  /** Every script that a response makes run, its own or one that waited, is executed as it was last
      received: in the end all it asks for has been requested, and the functions it registers have been
      registered together and in its order. The files that ran are the first ones requested. */
  lemma ScriptsTakeEffect(inputs: seq<Input>, file: File, script: seq<Action>)
    ensures var all := inputs + [Response(file, script)];
            var before, after := Run(inputs), Run(all);
            var seen := Replay(after.log);
            && seen.ran <= seen.issued
            && forall k :: |Replay(before.log).ran| <= k < |seen.ran| ==>
              RanAsReceived(all, seen.issued, after.registered, |before.registered|, k)
  {
    SeenIsPlain(inputs);
    SeenIsPlain(inputs + [Response(file, script)]);
    ResponseTakesEffect(inputs, file, script);
  }

  lemma SeenIsPlain(inputs: seq<Input>)
    ensures var s, p := Run(inputs), Behave(inputs);
            && Replay(s.log).issued == p.issued && |Replay(s.log).ran| == p.ran <= |p.issued|
            && Replay(s.log).ran == p.issued[..p.ran] && s.registered == p.registered && s.log == p.log
  {
    BehavesPlainly(inputs);
    RunKeeps(inputs);
    ApprovedRun(Run(inputs).log);
  }

  /** Every function called so far took effect. */
  ghost predicate CalledWell(p: Plain) {
    forall c :: Called(c) in p.log && c.Func? ==> TookEffect(c.actions, p.issued, p.registered, 0)
  }

  lemma CalledWellStays(p: Plain, r: Plain)
    requires CalledWell(p) && Grown(p, r) && forall c :: Called(c) in r.log ==> Called(c) in p.log
    ensures CalledWell(r)
  {
    forall c | Called(c) in r.log && c.Func?
      ensures TookEffect(c.actions, r.issued, r.registered, 0)
    {
      EffectStays(c.actions, p.issued, p.registered, 0, r.issued, r.registered, 0);
    }
  }

  lemma {:induction false} DoAllCallsNothing(p: Plain, actions: seq<Action>)
    ensures forall c :: Called(c) in DoAll(p, actions).log ==> Called(c) in p.log
    decreases |actions|
  {
    if actions != [] {
      DoAllCallsNothing(Do(p, actions[0]), actions[1..]);
    }
  }

  lemma CallTakesEffect(p: Plain, called: Plain, c: Callback)
    requires CalledWell(p) && c.Func? && called.log == p.log + [Called(c)]
    requires called.issued == p.issued && called.registered == p.registered
    ensures CalledWell(DoAll(called, c.actions))
  {
    var r := DoAll(called, c.actions);
    DoAllDoes(called, c.actions);
    DoAllCallsNothing(called, c.actions);
    assert StandsAt(Registers(c.actions), r.registered, |p.registered|);
    forall d | Called(d) in r.log && d.Func?
      ensures TookEffect(d.actions, r.issued, r.registered, 0)
    {
      if d != c {
        assert Called(d) in p.log;
        EffectStays(d.actions, p.issued, p.registered, 0, r.issued, r.registered, 0);
      }
    }
  }

  lemma {:induction false} CallWaitingTakesEffect(p: Plain)
    requires CalledWell(p)
    ensures CalledWell(CallWaiting(p))
    decreases CallbacksSize(p.waiting)
  {
    if p.waiting == [] {
      CalledWellStays(p, CallWaiting(p));
    } else {
      var c := p.waiting[0];
      if c.Func? {
        var called := p.(waiting := p.waiting[1..], log := p.log + [Called(c)]);
        CallTakesEffect(p, called, c);
        CallWaitingTakesEffect(DoAll(called, c.actions));
      } else {
        CallWaitingTakesEffect(p.(waiting := p.waiting[1..]));
      }
    }
  }

  lemma {:induction false} RunAllTakesEffect(p: Plain)
    requires CalledWell(p)
    ensures CalledWell(RunAll(p))
    decreases |p.received|
  {
    if p.ran < |p.issued| && p.issued[p.ran] in p.received {
      var ran := RunBody(p);
      DoAllDoes(p, p.received[p.issued[p.ran]]);
      DoAllCallsNothing(p, p.received[p.issued[p.ran]]);
      CalledWellStays(p, ran);
      CallWaitingTakesEffect(ran);
      RunAllTakesEffect(RunNext(p));
    }
  }

  lemma {:induction false} BehaveTakesEffect(inputs: seq<Input>)
    ensures CalledWell(Behave(inputs))
  {
    if inputs != [] {
      var front, last := inputs[..|inputs| - 1], inputs[|inputs| - 1];
      var p := Behave(front);
      BehaveTakesEffect(front);
      match last
      case Call(action) => CalledWellStays(p, Do(p, action));
      case Response(file, script) =>
        CalledWellStays(p, p.(received := p.received[file := script]));
        RunAllTakesEffect(p.(received := p.received[file := script]));
    }
  }

  /** The same for every function that was called. */
  lemma CallbacksTakeEffect(inputs: seq<Input>)
    ensures var s := Run(inputs);
            forall c :: Called(c) in s.log && c.Func? ==> TookEffect(c.actions, Replay(s.log).issued, s.registered, 0)
  {
    BehaveTakesEffect(inputs);
    SeenIsPlain(inputs);
  }
}
