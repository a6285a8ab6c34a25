/** `jQuery.active` of jquery-1.3.2.js under polls, timeouts, aborts and handlers. */
module AjaxCounter {

  datatype Trigger = AjaxStart | AjaxStop

  /** What all calls share; `triggers` records the global events. */
  datatype Shared = Shared(active: int, triggers: seq<Trigger>)

  /** Where the code of a call stands while user handlers may run: before `send`, nowhere, between
      `requestDone = true` and the count-down, or between the count-down and `xhr = null`. */
  datatype Place = Opening | Nowhere | Completing | Closing

  /** The closure of one call. `timer` is a pending timeout check; `countDowns` records how often
      the call has counted `jQuery.active` down. */
  datatype Call = Call(
    place: Place,
    readyState: nat,
    requestDone: bool,
    ival: bool,
    hasXhr: bool,
    timer: bool,
    isTimeout: bool,
    countDowns: nat)

  const OPENED := Call(Opening, 1, false, false, true, false, false, 0)

  // ---------------------------------------------------------- one call's steps

  /** `if ( s.global && ! jQuery.active++ ) trigger("ajaxStart")` */
  function CountUp(g: Shared): Shared {
    Shared(g.active + 1, if g.active == 0 then g.triggers + [AjaxStart] else g.triggers)
  }

  /** `if ( s.global && ! --jQuery.active ) trigger("ajaxStop")` */
  function CountDown(g: Shared): Shared {
    Shared(g.active - 1, if g.active == 1 then g.triggers + [AjaxStop] else g.triggers)
  }

  datatype Event =
    | Cancel                        // beforeSend returned false
    | Send(timeout: bool)           // the poll and, if asked for, the timeout check are set up
    | Progress(readyState: nat)     // the transfer moves on
    | Abort                         // user code calls xhr.abort()
    | Poll                          // the interval fires
    | TimeoutFires                  // the timeout check fires
    | Complete                      // the handlers have run
    | Release                       // the ajaxStop handlers have run

  /** Whether the event can occur at all. */
  predicate Enabled(c: Call, e: Event) {
    match e
    case Cancel => c.place == Opening
    case Send(_) => c.place == Opening
    case Progress(r) => 0 < c.readyState < r <= 4
    case Abort => true
    case Poll => c.ival
    case TimeoutFires => c.timer
    case Complete => c.place == Completing
    case Release => c.place == Closing
  }

  /** `onreadystatechange(isTimeout)` up to the first handler. */
  function CheckState(g: Shared, c: Call, isTimeout: bool): (Shared, Call) {
    if c.readyState == 0 then
      if c.ival then (CountDown(g), c.(ival := false, countDowns := c.countDowns + 1)) else (g, c)
    else if !c.requestDone && c.hasXhr && (c.readyState == 4 || isTimeout) then
      (g, c.(requestDone := true, ival := false, isTimeout := isTimeout, place := Completing))
    else (g, c)
  }

  function StepCall(g: Shared, c: Call, e: Event): (Shared, Call) {
    match e
    case Cancel => (CountDown(g), c.(place := Nowhere, readyState := 0, countDowns := c.countDowns + 1))
    case Send(timeout) => (g, c.(place := Nowhere, ival := true, timer := timeout))
    case Progress(r) => (g, c.(readyState := r))
    case Abort => (g, c.(readyState := 0))
    case Poll => CheckState(g, c, false)
    case TimeoutFires =>
      if c.hasXhr && !c.requestDone then CheckState(g, c.(timer := false), true)
      else (g, c.(timer := false))
    case Complete => (CountDown(g), c.(place := Closing, countDowns := c.countDowns + 1))
    case Release => (g, c.(place := Nowhere, hasXhr := false, readyState := if c.isTimeout then 0 else c.readyState))
  }

  // ---------------------------------------------------------------- all the calls

  datatype State = State(shared: Shared, calls: seq<Call>)

  const IDLE := State(Shared(0, []), [])

  /** A new call starts, or an event of call `i` occurs. */
  datatype Input = Start | Occur(i: nat, event: Event)

  function Step(s: State, input: Input): State {
    match input
    case Start => State(CountUp(s.shared), s.calls + [OPENED])
    case Occur(i, e) =>
      if i < |s.calls| && Enabled(s.calls[i], e) then
        var (g, c) := StepCall(s.shared, s.calls[i], e);
        State(g, s.calls[i := c])
      else s
  }

  function Run(inputs: seq<Input>): State {
    if inputs == [] then IDLE else Step(Run(inputs[..|inputs| - 1]), inputs[|inputs| - 1])
  }

  /** Started and not finished: in `beforeSend`, being polled, or running its completion handlers. */
  predicate Open(c: Call) {
    c.place == Opening || c.ival || c.place == Completing
  }

  function OpenCalls(calls: seq<Call>): nat {
    if calls == [] then 0 else OpenCalls(calls[..|calls| - 1]) + if Open(calls[|calls| - 1]) then 1 else 0
  }

  /** What each call keeps: an open call has not counted down, any other has, once; a polled call
      has its request object, so no poll ever meets a null. */
  predicate CallOk(c: Call) {
    && c.countDowns == (if Open(c) then 0 else 1)
    && (c.ival ==> c.place == Nowhere && c.hasXhr && !c.requestDone)
    && (c.place == Opening ==> !c.requestDone && c.hasXhr && !c.timer)
    && (c.place == Completing || c.place == Closing ==> c.requestDone && c.hasXhr)
    && (c.place == Nowhere && c.hasXhr && !c.requestDone && !c.ival ==> c.readyState == 0)
    && (c.place == Nowhere && c.requestDone ==> !c.hasXhr)
  }

  /** ajaxStart and ajaxStop alternate, starting with ajaxStart. */
  predicate Alternating(ts: seq<Trigger>) {
    forall k :: 0 <= k < |ts| ==> ts[k] == if k % 2 == 0 then AjaxStart else AjaxStop
  }

  /** The counter is the number of open calls, and its triggers alternate with it. */
  predicate CountersOk(g: Shared, open: int) {
    g.active == open && Alternating(g.triggers) && (|g.triggers| % 2 == 1 <==> 0 < g.active)
  }

  predicate AllOk(calls: seq<Call>) {
    forall i :: 0 <= i < |calls| ==> CallOk(calls[i])
  }

  predicate Inv(s: State) {
    CountersOk(s.shared, OpenCalls(s.calls)) && AllOk(s.calls)
  }

  lemma {:induction false} OpenCallsUpdate(calls: seq<Call>, i: nat, c: Call)
    requires i < |calls|
    ensures OpenCalls(calls[i := c])
         == OpenCalls(calls) - (if Open(calls[i]) then 1 else 0) + if Open(c) then 1 else 0
  {
    var last := |calls| - 1;
    var updated := calls[i := c];
    if i == last {
      assert updated[..last] == calls[..last];
    } else {
      OpenCallsUpdate(calls[..last], i, c);
      assert updated[..last] == calls[..last][i := c];
    }
  }

  lemma {:induction false} OpenCallIsCounted(calls: seq<Call>, i: nat)
    requires i < |calls| && Open(calls[i])
    ensures 1 <= OpenCalls(calls)
  {
    if i < |calls| - 1 {
      OpenCallIsCounted(calls[..|calls| - 1], i);
    }
  }

  /** An event keeps the rules of its call, and counts down exactly when it closes the call. */
  lemma StepCallKeeps(g: Shared, c: Call, e: Event)
    requires CallOk(c) && Enabled(c, e)
    ensures var (g', c') := StepCall(g, c, e);
            && CallOk(c')
            && (Open(c') ==> Open(c))
            && g' == if Open(c) && !Open(c') then CountDown(g) else g
  {
  }

  lemma StartKeeps(s: State)
    requires Inv(s)
    ensures Inv(Step(s, Start))
  {
  }

  lemma OccurKeeps(s: State, i: nat, e: Event)
    requires Inv(s) && i < |s.calls| && Enabled(s.calls[i], e)
    ensures Inv(Step(s, Occur(i, e)))
  {
    var before := s.calls[i];
    var (g, c) := StepCall(s.shared, before, e);
    assert CallOk(before);
    StepCallKeeps(s.shared, before, e);
    OpenCallsUpdate(s.calls, i, c);
    if Open(before) && !Open(c) {
      OpenCallIsCounted(s.calls, i);
    }
    assert CountersOk(g, OpenCalls(s.calls[i := c]));
  }

  lemma StepKeeps(s: State, input: Input)
    requires Inv(s)
    ensures Inv(Step(s, input))
  {
    match input
    case Start => StartKeeps(s);
    case Occur(i, e) =>
      if i < |s.calls| && Enabled(s.calls[i], e) {
        OccurKeeps(s, i, e);
      }
  }

  lemma {:induction false} RunKeeps(inputs: seq<Input>)
    ensures var s := Run(inputs); CountersOk(s.shared, OpenCalls(s.calls)) && AllOk(s.calls)
  {
    if inputs != [] {
      RunKeeps(inputs[..|inputs| - 1]);
      StepKeeps(Run(inputs[..|inputs| - 1]), inputs[|inputs| - 1]);
    }
  }

  function CountDowns(calls: seq<Call>): nat {
    if calls == [] then 0 else CountDowns(calls[..|calls| - 1]) + calls[|calls| - 1].countDowns
  }

  lemma {:induction false} CountDownsOfClosed(calls: seq<Call>)
    requires forall i :: 0 <= i < |calls| ==> CallOk(calls[i])
    ensures CountDowns(calls) + OpenCalls(calls) == |calls|
  {
    if calls != [] {
      CountDownsOfClosed(calls[..|calls| - 1]);
    }
  }

  /** In any interleaving the counter is the number of calls started minus those that have counted
      down, no call counts down twice, and ajaxStart and ajaxStop alternate, with an ajaxStart
      outstanding exactly while a call is open. */
  lemma CounterIsExact(inputs: seq<Input>)
    ensures var s := Run(inputs);
            && s.shared.active == |s.calls| - CountDowns(s.calls) == OpenCalls(s.calls)
            && (forall i :: 0 <= i < |s.calls| ==> s.calls[i].countDowns <= 1)
            && Alternating(s.shared.triggers)
            && (|s.shared.triggers| % 2 == 1 <==> 0 < s.shared.active)
  {
    RunKeeps(inputs);
    CountDownsOfClosed(Run(inputs).calls);
  }

  /** No call is forgotten: once the transfer has ended or was aborted, or the timeout fires, the
      next check closes the call or starts its completion, and completing closes it. */
  lemma CheckedCallCloses(g: Shared, c: Call, e: Event)
    requires CallOk(c) && c.ival && Enabled(c, e)
    requires (e == Poll && (c.readyState == 0 || c.readyState == 4)) || e == TimeoutFires
    ensures var (g', c') := StepCall(g, c, e);
            if c.readyState == 0 then !Open(c')
            else c'.place == Completing && !Open(StepCall(g', c', Complete).1)
  {
  }

  /** A poll waits while the transfer is under way. */
  lemma PollWaits(g: Shared, c: Call)
    requires CallOk(c) && c.ival && 0 < c.readyState < 4
    ensures StepCall(g, c, Poll) == (g, c)
  {
  }

  /** What becomes of one call; events that cannot occur are skipped. */
  function RunCall(g: Shared, c: Call, events: seq<Event>): (Shared, Call)
    decreases |events|
  {
    if events == [] then (g, c)
    else
      var (g', c') := if Enabled(c, events[0]) then StepCall(g, c, events[0]) else (g, c);
      RunCall(g', c', events[1..])
  }

  /** Sent with a timeout, a call keeps its timeout check as long as it is polled. */
  lemma {:induction false} TimerStays(g: Shared, c: Call, events: seq<Event>)
    requires CallOk(c) && c.place != Opening && (c.ival ==> c.timer)
    ensures var c' := RunCall(g, c, events).1;
            CallOk(c') && c'.place != Opening && (c'.ival ==> c'.timer)
    decreases |events|
  {
    if events != [] {
      var (g', c') := if Enabled(c, events[0]) then StepCall(g, c, events[0]) else (g, c);
      if Enabled(c, events[0]) { StepCallKeeps(g, c, events[0]); }
      TimerStays(g', c', events[1..]);
    }
  }

  /** Whatever happens after a call was sent with a timeout, its timeout check and the end of its
      completion leave it closed. */
  lemma TimedCallCloses(g: Shared, c: Call, events: seq<Event>)
    requires CallOk(c) && c.place == Opening
    ensures var (g', c') := RunCall(g, StepCall(g, c, Send(true)).1, events);
            !Open(RunCall(g', c', [TimeoutFires, Complete]).1)
  {
    var sent := StepCall(g, c, Send(true)).1;
    StepCallKeeps(g, c, Send(true));
    TimerStays(g, sent, events);
    var (g', c') := RunCall(g, sent, events);
    var (g2, c2) := if Enabled(c', TimeoutFires) then StepCall(g', c', TimeoutFires) else (g', c');
    assert RunCall(g', c', [TimeoutFires, Complete]) == RunCall(g2, c2, [Complete]);
    var (g3, c3) := if Enabled(c2, Complete) then StepCall(g2, c2, Complete) else (g2, c2);
    assert RunCall(g2, c2, [Complete]) == RunCall(g3, c3, []);
  }

  lemma {:induction false} StateStaysBounded(g: Shared, c: Call, events: seq<Event>)
    requires CallOk(c) && c.readyState <= 4 && c.place != Opening
    ensures var c' := RunCall(g, c, events).1;
            CallOk(c') && c'.readyState <= 4 && c'.place != Opening
    decreases |events|
  {
    if events != [] {
      var (g', c') := if Enabled(c, events[0]) then StepCall(g, c, events[0]) else (g, c);
      if Enabled(c, events[0]) { StepCallKeeps(g, c, events[0]); }
      StateStaysBounded(g', c', events[1..]);
    }
  }

  lemma ThreeEvents(g: Shared, c: Call, a: Event, b: Event, d: Event)
    ensures var (g1, c1) := if Enabled(c, a) then StepCall(g, c, a) else (g, c);
            var (g2, c2) := if Enabled(c1, b) then StepCall(g1, c1, b) else (g1, c1);
            RunCall(g, c, [a, b, d]) == if Enabled(c2, d) then StepCall(g2, c2, d) else (g2, c2)
  {
    var (g1, c1) := if Enabled(c, a) then StepCall(g, c, a) else (g, c);
    var (g2, c2) := if Enabled(c1, b) then StepCall(g1, c1, b) else (g1, c1);
    assert [a, b, d][1..] == [b, d] && [b, d][1..] == [d] && [d][1..] == [];
    assert RunCall(g, c, [a, b, d]) == RunCall(g1, c1, [b, d]);
    assert RunCall(g1, c1, [b, d]) == RunCall(g2, c2, [d]);
    var (g3, c3) := if Enabled(c2, d) then StepCall(g2, c2, d) else (g2, c2);
    assert RunCall(g2, c2, [d]) == RunCall(g3, c3, []);
  }

  /** Whatever happened to a call since it was sent, the end of its transfer, or an abort, then a poll and the
      end of its completion leave it closed. */
  lemma PolledCallCloses(g: Shared, c: Call, timeout: bool, events: seq<Event>)
    requires CallOk(c) && c.place == Opening && c.readyState <= 4
    ensures var (g', c') := RunCall(g, StepCall(g, c, Send(timeout)).1, events);
            && !Open(RunCall(g', c', [Progress(4), Poll, Complete]).1)
            && !Open(RunCall(g', c', [Abort, Poll, Complete]).1)
  {
    var sent := StepCall(g, c, Send(timeout)).1;
    StepCallKeeps(g, c, Send(timeout));
    StateStaysBounded(g, sent, events);
    var (g', c') := RunCall(g, sent, events);
    ThreeEvents(g', c', Progress(4), Poll, Complete);
    ThreeEvents(g', c', Abort, Poll, Complete);
  }

  /** A call that its timeout check made complete has its request aborted in the end. */
  lemma {:induction false} TimedOutIsAborted(g: Shared, c: Call, events: seq<Event>)
    requires CallOk(c) && c.requestDone && c.isTimeout && (!c.hasXhr ==> c.readyState == 0)
    ensures var c' := RunCall(g, c, events).1;
            c'.requestDone && c'.isTimeout && (!c'.hasXhr ==> c'.readyState == 0)
    decreases |events|
  {
    if events != [] {
      var (g', c') := if Enabled(c, events[0]) then StepCall(g, c, events[0]) else (g, c);
      if Enabled(c, events[0]) { StepCallKeeps(g, c, events[0]); }
      TimedOutIsAborted(g', c', events[1..]);
    }
  }

  /** What the timeout check starts is a completion by timeout; a poll starts none. */
  lemma TimeoutIsTold(g: Shared, c: Call, e: Event)
    requires CallOk(c) && Enabled(c, e) && (e == Poll || e == TimeoutFires)
    ensures var c' := StepCall(g, c, e).1;
            && (c'.place == Completing && c.place != Completing ==> c'.requestDone && (c'.isTimeout <==> e == TimeoutFires))
            && (e == TimeoutFires ==> !c'.timer)
  {
  }

  // -------------------------------------------------------- the code in place

  /** The part of the `jQuery` object that calls share; `calls` records the calls made so far. */
  class JQuery {
    var active: int
    ghost var triggers: seq<Trigger>
    ghost var calls: seq<AjaxCall>

    constructor ()
      ensures Valid() && Snapshot() == IDLE
    {
      active, triggers, calls := 0, [], [];
    }

    ghost function Value(): Shared
      reads this
    {
      Shared(active, triggers)
    }

    ghost function Snapshot(): State
      reads this, calls
    {
      State(Value(), ValuesOf(calls))
    }

    /** The calls are different closures over this object, and all of them keep the invariant of the runs. */
    ghost predicate Valid()
      reads this, calls
    {
      && (forall i :: 0 <= i < |calls| ==> calls[i].jq == this)
      && (forall i, j :: 0 <= i < j < |calls| ==> calls[i] != calls[j])
      && Inv(Snapshot())
    }

    /** When one call has made a step and the others have not, all together have made it. */
    twostate lemma Acted(input: Input)
      requires input.Occur?
      requires old(Valid()) && calls == old(calls) && input.i < |calls|
      requires forall k :: 0 <= k < |calls| ==> old(allocated(calls[k]))
      requires Enabled(old(calls[input.i].Value()), input.event)
      requires (Value(), calls[input.i].Value()) == StepCall(old(Value()), old(calls[input.i].Value()), input.event)
      requires forall k :: 0 <= k < |calls| && k != input.i ==> calls[k].Value() == old(calls[k].Value())
      ensures Valid() && Snapshot() == Step(old(Snapshot()), input)
    {
      var (g, c) := StepCall(old(Value()), old(calls[input.i].Value()), input.event);
      assert Snapshot().calls == old(Snapshot()).calls[input.i := c];
      StepKeeps(old(Snapshot()), input);
    }

    twostate lemma Joined(new call: AjaxCall)
      requires old(Valid()) && calls == old(calls) + [call]
      requires forall k :: 0 <= k < |calls| - 1 ==> old(allocated(calls[k])) && calls[k] != call
      requires Value() == CountUp(old(Value())) && call.Value() == OPENED && call.jq == this
      requires forall k :: 0 <= k < |calls| - 1 ==> calls[k].Value() == old(calls[k].Value())
      ensures Valid() && Snapshot() == Step(old(Snapshot()), Input.Start)
    {
      ValuesAppend(old(calls), call);
      assert ValuesOf(old(calls)) == old(ValuesOf(calls));
      StartKeeps(old(Snapshot()));
    }

    method Start()
      modifies this
      ensures Value() == CountUp(old(Value())) && calls == old(calls)
    {
      active := active + 1;
      if active - 1 == 0 {
        triggers := triggers + [AjaxStart];
      }
    }

    method Finish()
      modifies this
      ensures Value() == CountDown(old(Value())) && calls == old(calls)
    {
      active := active - 1;
      if active == 0 {
        triggers := triggers + [AjaxStop];
      }
    }
  }

  ghost function ValuesOf(calls: seq<AjaxCall>): (values: seq<Call>)
    reads calls
    ensures |values| == |calls| && forall i :: 0 <= i < |calls| ==> values[i] == calls[i].Value()
  {
    if calls == [] then [] else ValuesOf(calls[..|calls| - 1]) + [calls[|calls| - 1].Value()]
  }

  lemma ValuesAppend(calls: seq<AjaxCall>, call: AjaxCall)
    ensures ValuesOf(calls + [call]) == ValuesOf(calls) + [call.Value()]
  {
    assert (calls + [call])[..|calls|] == calls;
  }

  /** The closure of one `jQuery.ajax` call. Each method is one event of call `i`, seen from all calls. */
  class AjaxCall {
    const jq: JQuery
    var readyState: nat
    var requestDone: bool
    var ival: bool
    var hasXhr: bool
    var timer: bool
    var timedOut: bool
    ghost var place: Place
    ghost var countDowns: nat

    ghost function Value(): Call
      reads this
    {
      Call(place, readyState, requestDone, ival, hasXhr, timer, timedOut, countDowns)
    }

    ghost predicate IsCall(i: nat)
      reads jq
    {
      i < |jq.calls| && jq.calls[i] == this
    }

    /** From the start of `ajax` to `beforeSend`. */
    constructor (jq: JQuery)
      requires jq.Valid()
      modifies jq
      ensures this.jq == jq && jq.calls == old(jq.calls) + [this]
      ensures jq.Valid() && jq.Snapshot() == Step(old(jq.Snapshot()), Input.Start)
    {
      this.jq := jq;
      readyState, requestDone, ival, hasXhr, timer, timedOut := 1, false, false, true, false, false;
      place, countDowns := Opening, 0;
      new;
      jq.Start();
      jq.calls := jq.calls + [this];
      jq.Joined(this);
    }

    /** `beforeSend` returned false. */
    method CancelCall(ghost i: nat)
      requires jq.Valid() && IsCall(i) && place == Opening
      modifies this, jq
      ensures jq.Valid() && jq.calls == old(jq.calls)
      ensures jq.Snapshot() == Step(old(jq.Snapshot()), Occur(i, Cancel))
    {
      jq.Finish();
      countDowns := countDowns + 1;
      readyState := 0;
      place := Nowhere;
      jq.Acted(Occur(i, Cancel));
    }

    /** The rest of `ajax`. */
    method SendCall(ghost i: nat, timeout: bool)
      requires jq.Valid() && IsCall(i) && place == Opening
      modifies this
      ensures jq.Valid()
      ensures jq.Snapshot() == Step(old(jq.Snapshot()), Occur(i, Event.Send(timeout)))
    {
      ival := true;
      timer := timeout;
      place := Nowhere;
      jq.Acted(Occur(i, Event.Send(timeout)));
    }

    /** `onreadystatechange`, up to the first handler. */
    method OnReadyStateChange(isTimeout: bool)
      modifies this, jq
      ensures (jq.Value(), Value()) == CheckState(old(jq.Value()), old(Value()), isTimeout)
      ensures jq.calls == old(jq.calls)
    {
      if readyState == 0 {
        if ival {
          ival := false;
          jq.Finish();
          countDowns := countDowns + 1;
        }
      } else if !requestDone && hasXhr && (readyState == 4 || isTimeout) {
        requestDone := true;
        if ival {
          ival := false;
        }
        timedOut := isTimeout;
        place := Completing;
      }
    }

    /** The function given to `setInterval`. */
    method OnPoll(ghost i: nat)
      requires jq.Valid() && IsCall(i) && ival
      modifies this, jq
      ensures jq.Valid() && jq.calls == old(jq.calls)
      ensures jq.Snapshot() == Step(old(jq.Snapshot()), Occur(i, Poll))
    {
      OnReadyStateChange(false);
      jq.Acted(Occur(i, Poll));
    }

    /** The function given to `setTimeout`. */
    method OnTimer(ghost i: nat)
      requires jq.Valid() && IsCall(i) && timer
      modifies this, jq
      ensures jq.Valid() && jq.calls == old(jq.calls)
      ensures jq.Snapshot() == Step(old(jq.Snapshot()), Occur(i, TimeoutFires))
    {
      timer := false;
      if hasXhr && !requestDone {
        OnReadyStateChange(true);
      }
      jq.Acted(Occur(i, TimeoutFires));
    }

    /** The end of `complete`, after its handlers. */
    method CompleteHandlers(ghost i: nat)
      requires jq.Valid() && IsCall(i) && place == Completing
      modifies this, jq
      ensures jq.Valid() && jq.calls == old(jq.calls)
      ensures jq.Snapshot() == Step(old(jq.Snapshot()), Occur(i, Complete))
    {
      jq.Finish();
      countDowns := countDowns + 1;
      place := Closing;
      jq.Acted(Occur(i, Complete));
    }

    /** The end of `onreadystatechange`. */
    method ReleaseXhr(ghost i: nat)
      requires jq.Valid() && IsCall(i) && place == Closing
      modifies this
      ensures jq.Valid()
      ensures jq.Snapshot() == Step(old(jq.Snapshot()), Occur(i, Release))
    {
      if timedOut {
        readyState := 0;
      }
      hasXhr := false;
      place := Nowhere;
      jq.Acted(Occur(i, Release));
    }

    /** The transfer moves on; `abort` by user code is the move to 0. */
    method SetReadyState(ghost i: nat, to: nat)
      requires jq.Valid() && IsCall(i) && (to == 0 || 0 < readyState < to <= 4)
      modifies this
      ensures jq.Valid()
      ensures jq.Snapshot() == Step(old(jq.Snapshot()), Occur(i, if to == 0 then Abort else Progress(to)))
    {
      readyState := to;
      jq.Acted(Occur(i, if to == 0 then Abort else Progress(to)));
    }
  }
}
