/** The local-call log of the service mock in gt_base.js (`InvokedMethod.invokeLocally`). A call takes the
    first record of its method out of the log and appends its own; the parameters of a longer earlier
    call stay behind those of a shorter later one. */
module InvokedMethods {

  type Arg = string

  datatype Call = Call(name: string, args: seq<Arg>)

  /** The log: method names by last call, and the parameters kept per method. */
  datatype Log = Log(order: seq<string>, params: map<string, seq<Arg>>)

  const EMPTY := Log([], map[])

  /** `localParams[i] = arguments[i]`: parameters beyond the arguments stay. */
  function Overlay(params: seq<Arg>, args: seq<Arg>): seq<Arg> {
    args + if |args| < |params| then params[|args|..] else []
  }

  function ParamsOf(log: Log, name: string): seq<Arg> {
    if name in log.params then log.params[name] else []
  }

  /** Removes the first occurrence. */
  function RemoveFirst(order: seq<string>, name: string): seq<string> {
    if order == [] then []
    else if order[0] == name then order[1..]
    else [order[0]] + RemoveFirst(order[1..], name)
  }

  function Invoke(log: Log, call: Call): Log {
    Log(RemoveFirst(log.order, call.name) + [call.name],
        log.params[call.name := Overlay(ParamsOf(log, call.name), call.args)])
  }

  function Replay(trace: seq<Call>): Log {
    if trace == [] then EMPTY else Invoke(Replay(trace[..|trace| - 1]), trace[|trace| - 1])
  }

  // -------------------------------------------------- the trace, last calls only

  predicate Calls(trace: seq<Call>, name: string) {
    exists i :: 0 <= i < |trace| && trace[i].name == name
  }

  /** The names of the trace with all but the last occurrence of each removed. */
  function LastCalls(trace: seq<Call>): seq<string> {
    if trace == [] then []
    else (if Calls(trace[1..], trace[0].name) then [] else [trace[0].name]) + LastCalls(trace[1..])
  }

  lemma {:induction false} RemoveFirstAbsent(order: seq<string>, name: string)
    requires name !in order
    ensures RemoveFirst(order, name) == order
  {
    if order != [] {
      RemoveFirstAbsent(order[1..], name);
    }
  }

  lemma {:induction false} LastCallsAreCalled(trace: seq<Call>, name: string)
    ensures name in LastCalls(trace) <==> Calls(trace, name)
  {
    if trace != [] {
      LastCallsAreCalled(trace[1..], name);
      CallsCons(trace, name);
    }
  }

  lemma CallsCons(trace: seq<Call>, name: string)
    requires trace != []
    ensures Calls(trace, name) <==> trace[0].name == name || Calls(trace[1..], name)
  {
    if Calls(trace[1..], name) {
      var i :| 0 <= i < |trace[1..]| && trace[1..][i].name == name;
      assert trace[i + 1].name == name;
    }
    if Calls(trace, name) && trace[0].name != name {
      var i :| 0 <= i < |trace| && trace[i].name == name;
      assert trace[1..][i - 1].name == name;
    }
  }

  lemma CallsSnoc(trace: seq<Call>, call: Call, name: string)
    ensures Calls(trace + [call], name) <==> call.name == name || Calls(trace, name)
  {
    if Calls(trace, name) {
      var i :| 0 <= i < |trace| && trace[i].name == name;
      assert (trace + [call])[i].name == name;
    }
    assert (trace + [call])[|trace|] == call;
  }

  /** One more call moves its name to the end. */
  lemma {:induction false} LastCallsSnoc(trace: seq<Call>, call: Call)
    ensures LastCalls(trace + [call]) == RemoveFirst(LastCalls(trace), call.name) + [call.name]
  {
    if trace == [] {
      assert trace + [call] == [call];
    } else {
      var head, tail := trace[0], trace[1..];
      assert (trace + [call])[1..] == tail + [call];
      LastCallsSnoc(tail, call);
      CallsSnoc(tail, call, head.name);
      LastCallsAreCalled(tail, head.name);
      LastCallsAreCalled(tail, call.name);
      var rest := LastCalls(tail);
      if Calls(tail, head.name) {
        assert LastCalls(trace) == rest;
      } else {
        assert LastCalls(trace) == [head.name] + rest && ([head.name] + rest)[1..] == rest;
        if head.name == call.name {
          RemoveFirstAbsent(rest, call.name);
        } else {
          assert [head.name] + (RemoveFirst(rest, call.name) + [call.name])
              == [head.name] + RemoveFirst(rest, call.name) + [call.name];
        }
      }
    }
  }

  predicate Distinct(order: seq<string>) {
    forall i, j :: 0 <= i < j < |order| ==> order[i] != order[j]
  }

  lemma {:induction false} LastCallsDistinct(trace: seq<Call>)
    ensures Distinct(LastCalls(trace))
  {
    if trace != [] {
      LastCallsDistinct(trace[1..]);
      LastCallsAreCalled(trace[1..], trace[0].name);
    }
  }

  /** The log holds each called method once, ordered by last call. */
  lemma {:induction false} LogIsLastCalls(trace: seq<Call>)
    ensures Replay(trace).order == LastCalls(trace)
    ensures Distinct(Replay(trace).order)
    ensures forall name :: name in Replay(trace).order <==> Calls(trace, name)
  {
    if trace != [] {
      var front, last := trace[..|trace| - 1], trace[|trace| - 1];
      LogIsLastCalls(front);
      LastCallsSnoc(front, last);
      assert front + [last] == trace;
    }
    LastCallsDistinct(trace);
    forall name
      ensures name in LastCalls(trace) <==> Calls(trace, name)
    {
      LastCallsAreCalled(trace, name);
    }
  }

  // ------------------------------------------------------------- the parameters

  /** The longest argument list with which a method was called. */
  function Longest(trace: seq<Call>, name: string): nat {
    if trace == [] then 0
    else
      var n := Longest(trace[..|trace| - 1], name);
      var last := trace[|trace| - 1];
      if last.name == name && n < |last.args| then |last.args| else n
  }

  lemma {:induction false} ParamsLength(trace: seq<Call>, name: string)
    ensures |ParamsOf(Replay(trace), name)| == Longest(trace, name)
  {
    if trace != [] {
      ParamsLength(trace[..|trace| - 1], name);
    }
  }

  /** What is kept for a method are the arguments of its last call exactly when no earlier call of
      it had more: the parameters of a longer call stay behind a shorter one. */
  lemma ParamsAreLastArgs(trace: seq<Call>, call: Call)
    ensures ParamsOf(Replay(trace + [call]), call.name) == call.args
       <==> Longest(trace, call.name) <= |call.args|
  {
    ParamsLength(trace, call.name);
    assert (trace + [call])[..|trace|] == trace;
    var kept := ParamsOf(Replay(trace), call.name);
    assert ParamsOf(Replay(trace + [call]), call.name) == Overlay(kept, call.args);
    assert |Overlay(kept, call.args)| == if |call.args| < |kept| then |kept| else |call.args|;
  }

  // ------------------------------------------------------------ the log in place

  /** One record per method; `invokeLocally` of the method always pushes this record. */
  class LocalMethodInfo {
    const localMethodName: string
    var localParams: seq<Arg>

    constructor (name: string)
      ensures localMethodName == name && localParams == []
    {
      localMethodName, localParams := name, [];
    }
  }

  function NamesOf(records: seq<LocalMethodInfo>): (names: seq<string>)
    ensures |names| == |records|
    ensures forall i :: 0 <= i < |names| ==> names[i] == records[i].localMethodName
  {
    seq(|records|, i requires 0 <= i < |records| => records[i].localMethodName)
  }

  predicate Records(records: seq<LocalMethodInfo>, name: string) {
    exists i :: 0 <= i < |records| && records[i].localMethodName == name
  }

  lemma RecordsSnoc(records: seq<LocalMethodInfo>, i: nat, name: string)
    requires i < |records| && !Records(records[..i], name) && records[i].localMethodName != name
    ensures !Records(records[..i + 1], name)
  {
    forall j | 0 <= j < i
      ensures records[j].localMethodName != name
    {
      assert records[..i][j] == records[j];
    }
  }

  /** The first record of the method is taken out, the others stay in place. */
  predicate FirstTaken(before: seq<LocalMethodInfo>, after: seq<LocalMethodInfo>, name: string) {
    if !Records(before, name) then after == before
    else exists i :: 0 <= i < |before| && TakenAt(before, after, name, i)
  }

  predicate TakenAt(before: seq<LocalMethodInfo>, after: seq<LocalMethodInfo>, name: string, i: nat)
    requires i < |before|
  {
    before[i].localMethodName == name && !Records(before[..i], name) && after == before[..i] + before[i + 1..]
  }

  lemma TakenHere(before: seq<LocalMethodInfo>, name: string, i: nat)
    requires i < |before| && before[i].localMethodName == name && !Records(before[..i], name)
    ensures FirstTaken(before, before[..i] + before[i + 1..], name)
  {
    assert TakenAt(before, before[..i] + before[i + 1..], name, i);
    assert Records(before, name);
  }

  lemma {:induction false} RemoveFirstAfter(order: seq<string>, name: string, rest: seq<string>)
    requires name !in order
    ensures RemoveFirst(order + ([name] + rest), name) == order + rest
  {
    if order != [] {
      RemoveFirstAfter(order[1..], name, rest);
      assert (order + ([name] + rest))[1..] == order[1..] + ([name] + rest);
    }
  }

  /** On the names, this is the removal of the first occurrence. */
  lemma FirstTakenNames(before: seq<LocalMethodInfo>, after: seq<LocalMethodInfo>, name: string)
    requires FirstTaken(before, after, name)
    ensures NamesOf(after) == RemoveFirst(NamesOf(before), name)
  {
    if !Records(before, name) {
      RemoveFirstAbsent(NamesOf(before), name);
    } else {
      var i :| 0 <= i < |before| && TakenAt(before, after, name, i);
      var front, rest := NamesOf(before[..i]), NamesOf(before[i + 1..]);
      assert name !in front;
      RemoveFirstAfter(front, name, rest);
      NamesAround(before, i);
      NamesJoin(before[..i], before[i + 1..]);
    }
  }

  /** No two records of one method. */
  predicate OneEach(records: seq<LocalMethodInfo>) {
    forall i, j :: 0 <= i < j < |records| ==> records[i].localMethodName != records[j].localMethodName
  }

  lemma RecordsAreOneEach(records: seq<LocalMethodInfo>, trace: seq<Call>)
    requires NamesOf(records) == Replay(trace).order
    ensures OneEach(records)
  {
    LogIsLastCalls(trace);
    forall i, j | 0 <= i < j < |records|
      ensures records[i].localMethodName != records[j].localMethodName
    {
      assert NamesOf(records)[i] != NamesOf(records)[j];
    }
  }

  /** What is left are records of other methods. */
  lemma OthersStay(before: seq<LocalMethodInfo>, after: seq<LocalMethodInfo>, name: string)
    requires FirstTaken(before, after, name) && OneEach(before)
    ensures forall i :: 0 <= i < |after| ==> after[i] in before && after[i].localMethodName != name
  {
    if Records(before, name) {
      var i :| 0 <= i < |before| && TakenAt(before, after, name, i);
      assert forall k :: 0 <= k < |after| ==> after[k] == if k < i then before[k] else before[k + 1];
    }
  }

  lemma NamesAround(records: seq<LocalMethodInfo>, i: nat)
    requires i < |records|
    ensures NamesOf(records) == NamesOf(records[..i]) + ([records[i].localMethodName] + NamesOf(records[i + 1..]))
  {
  }

  lemma NamesJoin(a: seq<LocalMethodInfo>, b: seq<LocalMethodInfo>)
    ensures NamesOf(a + b) == NamesOf(a) + NamesOf(b)
  {
  }

  lemma OverlayNext(before: seq<Arg>, args: seq<Arg>, i: nat)
    requires i < |args|
    ensures var now := Overlay(before, args[..i]);
            Overlay(before, args[..i + 1]) == if i < |now| then now[i := args[i]] else now + [args[i]]
  {
    assert args[..i + 1] == args[..i] + [args[i]];
  }

  /** The service object; `trace` records the calls made on it. */
  class Service {
    var invokedMethods: seq<LocalMethodInfo>
    ghost var trace: seq<Call>

    /** The records stand in the order of the log, with its parameters. */
    ghost predicate Valid()
      reads this, invokedMethods
    {
      && Order() == Replay(trace).order
      && forall i :: 0 <= i < |invokedMethods| ==> HoldsParams(invokedMethods[i])
    }

    ghost predicate HoldsParams(info: LocalMethodInfo)
      reads this, info
    {
      info.localParams == ParamsOf(Replay(trace), info.localMethodName)
    }

    /** `info` is the one record of its method. */
    ghost predicate IsRecord(info: LocalMethodInfo)
      reads this, invokedMethods, info
    {
      && HoldsParams(info)
      && forall i :: 0 <= i < |invokedMethods| && invokedMethods[i].localMethodName == info.localMethodName
           ==> invokedMethods[i] == info
    }

    ghost function Order(): seq<string>
      reads this
    {
      NamesOf(invokedMethods)
    }

    constructor ()
      ensures invokedMethods == [] && trace == [] && Valid()
    {
      invokedMethods, trace := [], [];
    }

    /** The first loop: the arguments are noted in the record. */
    method NoteArguments(info: LocalMethodInfo, args: seq<Arg>)
      modifies info
      ensures info.localParams == Overlay(old(info.localParams), args)
    {
      ghost var before := info.localParams;
      for i := 0 to |args|
        invariant info.localParams == Overlay(before, args[..i])
      {
        OverlayNext(before, args, i);
        if i < |info.localParams| {
          info.localParams := info.localParams[i := args[i]];
        } else {
          info.localParams := info.localParams + [args[i]];
        }
      }
      assert args[..|args|] == args;
    }

    /** The second loop: an earlier record of the method is spliced out. */
    method RemoveRepeated(name: string)
      modifies this
      ensures FirstTaken(old(invokedMethods), invokedMethods, name) && trace == old(trace)
    {
      var i := 0;
      while i < |invokedMethods|
        invariant 0 <= i <= |invokedMethods|
        invariant invokedMethods == old(invokedMethods) && trace == old(trace) && !Records(invokedMethods[..i], name)
      {
        if invokedMethods[i].localMethodName == name {
          TakenHere(invokedMethods, name, i);
          invokedMethods := invokedMethods[..i] + invokedMethods[i + 1..];
          return;
        }
        RecordsSnoc(invokedMethods, i, name);
        i := i + 1;
      }
      assert invokedMethods[..i] == invokedMethods;
    }

    /** A call is the next step of the log, and the log is that of all calls so far. */
    method InvokeLocally(info: LocalMethodInfo, args: seq<Arg>)
      requires Valid() && IsRecord(info)
      modifies this, info
      ensures trace == old(trace) + [Call(info.localMethodName, args)]
      ensures Valid() && IsRecord(info) && Order() == LastCalls(trace)
      ensures info.localParams == Overlay(old(info.localParams), args)
      ensures invokedMethods != [] && invokedMethods[|invokedMethods| - 1] == info
      ensures FirstTaken(old(invokedMethods), invokedMethods[..|invokedMethods| - 1], info.localMethodName)
    {
      NoteArguments(info, args);
      RemoveRepeated(info.localMethodName);
      ghost var others := invokedMethods;
      invokedMethods := invokedMethods + [info];
      trace := trace + [Call(info.localMethodName, args)];
      assert invokedMethods[..|others|] == others;
      Logged(info);
    }

    /** The records after a call are those of the log after it. */
    twostate lemma Logged(info: LocalMethodInfo)
      requires old(Valid() && IsRecord(info))
      requires trace != [] && trace == old(trace) + [trace[|trace| - 1]] && trace[|trace| - 1].name == info.localMethodName
      requires invokedMethods != [] && invokedMethods[|invokedMethods| - 1] == info
      requires FirstTaken(old(invokedMethods), invokedMethods[..|invokedMethods| - 1], info.localMethodName)
      requires info.localParams == Overlay(old(info.localParams), trace[|trace| - 1].args)
      requires forall other: LocalMethodInfo :: other in old(invokedMethods) && other != info ==>
                 old(allocated(other)) && other.localParams == old(other.localParams)
      ensures Valid() && IsRecord(info) && Order() == LastCalls(trace)
    {
      var others := invokedMethods[..|invokedMethods| - 1];
      assert invokedMethods == others + [info];
      RecordsAfter(old(invokedMethods), others, info, old(trace), trace[|trace| - 1]);
    }
  }

  /** What one call makes of the records and the log. */
  lemma RecordsAfter(before: seq<LocalMethodInfo>, others: seq<LocalMethodInfo>, info: LocalMethodInfo, trace: seq<Call>, call: Call)
    requires NamesOf(before) == Replay(trace).order && call.name == info.localMethodName
    requires FirstTaken(before, others, call.name)
    ensures var order := NamesOf(others + [info]);
            order == Replay(trace + [call]).order && order == LastCalls(trace + [call])
    ensures forall i :: 0 <= i < |others| ==>
              && others[i] in before && others[i].localMethodName != call.name
              && ParamsOf(Replay(trace + [call]), others[i].localMethodName) == ParamsOf(Replay(trace), others[i].localMethodName)
    ensures ParamsOf(Replay(trace + [call]), call.name) == Overlay(ParamsOf(Replay(trace), call.name), call.args)
  {
    RecordsAreOneEach(before, trace);
    FirstTakenNames(before, others, call.name);
    OthersStay(before, others, call.name);
    NamesJoin(others, [info]);
    assert NamesOf([info]) == [call.name];
    CallIsLogged(trace, call);
    forall i | 0 <= i < |others|
      ensures ParamsOf(Replay(trace + [call]), others[i].localMethodName) == ParamsOf(Replay(trace), others[i].localMethodName)
    {
      ParamsAfter(trace, call, others[i].localMethodName);
    }
    ParamsAfter(trace, call, call.name);
  }

  lemma CallIsLogged(trace: seq<Call>, call: Call)
    ensures var order := RemoveFirst(Replay(trace).order, call.name) + [call.name];
            Replay(trace + [call]).order == order && LastCalls(trace + [call]) == order
  {
    assert (trace + [call])[..|trace|] == trace;
    LogIsLastCalls(trace + [call]);
  }

  lemma ParamsAfter(trace: seq<Call>, call: Call, name: string)
    ensures ParamsOf(Replay(trace + [call]), name)
         == if name == call.name then Overlay(ParamsOf(Replay(trace), name), call.args) else ParamsOf(Replay(trace), name)
  {
    assert (trace + [call])[..|trace|] == trace;
  }
}
