/**
  The debounced diagnostics of pkg/lsp/handler.go as a protocol of interleaved steps: one message
  at a time on the server's thread, timer callbacks on threads of their own, and a `Stop` that
  comes too late once a timer has fired.
 */
module Debounce {
  import opened Bytes
  import opened Options
  import Documents

  const MAX_DOCUMENT_SIZE := 5 * 1024 * 1024

  /** The life of a timer: fired, its callback has taken itself off the map, and has validated. */
  datatype Phase = Waiting | Stopped | Fired | Forgotten | Validated

  /** A timer and what its callback has captured. */
  datatype Timer = Timer(uri: bytes, version: int, content: bytes, phase: Phase)

  /** Where the server's thread is: between messages, or inside one. */
  datatype Thread =
    | Idle
    | Reading(uri: bytes, version: int)
    | Scheduling(uri: bytes, version: int, content: bytes)
    | Closing(uri: bytes)

  datatype Validation = Validation(uri: bytes, version: int, content: bytes)

  datatype State = State(
    docs: map<bytes, bytes>,
    thread: Thread,
    timers: seq<Timer>,
    pending: map<bytes, nat>,
    validations: seq<Validation>)

  /** `Change` makes `content` of the document by its changes; a change to a document that is not open does nothing. */
  datatype Label =
    | Open(uri: bytes, languageID: bytes, version: int, content: bytes)
    | Change(uri: bytes, version: int, changes: seq<Documents.Change>, content: bytes)
    | Read
    | Schedule
    | Close(uri: bytes)
    | Drop(uri: bytes)
    | Fire(t: nat)
    | Forget(t: nat)
    | Validate(t: nat)

  const INITIAL := State(map[], Idle, [], map[], [])

  /** `Stop` on the pending timer of `uri`; it has no effect on a timer that has fired. */
  function StopPending(s: State, uri: bytes): seq<Timer> {
    if uri in s.pending && s.pending[uri] < |s.timers| && s.timers[s.pending[uri]].phase.Waiting? then
      s.timers[s.pending[uri] := s.timers[s.pending[uri]].(phase := Stopped)]
    else s.timers
  }

  predicate Enabled(s: State, l: Label) {
    match l
    case Open(_, _, _, _) => s.thread.Idle?
    case Change(_, _, _, _) => s.thread.Idle?
    case Read => s.thread.Reading?
    case Schedule => s.thread.Scheduling?
    case Close(_) => s.thread.Idle?
    case Drop(uri) => s.thread == Closing(uri)
    case Fire(t) => t < |s.timers| && s.timers[t].phase.Waiting?
    case Forget(t) => t < |s.timers| && s.timers[t].phase.Fired?
    case Validate(t) => t < |s.timers| && s.timers[t].phase.Forgotten?
  }

  /** The document is open and within the limit. */
  predicate Fits(s: State, uri: bytes) {
    uri in s.docs && |s.docs[uri]| <= MAX_DOCUMENT_SIZE
  }

  /**
    One step.  `Change` updates the manager, `Read` gets the content back and goes on to `Schedule`
    when it fits; `Close` stops the pending timer and goes on to `Drop` the document.
   */
  function Step(s: State, l: Label): State
    requires Enabled(s, l)
  {
    match l
    case Open(uri, _, _, content) => s.(docs := s.docs[uri := content])
    case Change(uri, version, _, content) =>
      s.(docs := if uri in s.docs then s.docs[uri := content] else s.docs, thread := Reading(uri, version))
    case Read =>
      var c := s.thread;
      s.(thread := if Fits(s, c.uri) then Scheduling(c.uri, c.version, s.docs[c.uri]) else Idle)
    case Schedule =>
      var c := s.thread;
      s.(thread := Idle,
         timers := StopPending(s, c.uri) + [Timer(c.uri, c.version, c.content, Waiting)],
         pending := s.pending[c.uri := |s.timers|])
    case Close(uri) => s.(thread := Closing(uri), timers := StopPending(s, uri), pending := s.pending - {uri})
    case Drop(uri) => s.(thread := Idle, docs := s.docs - {uri})
    case Fire(t) => s.(timers := s.timers[t := s.timers[t].(phase := Fired)])
    case Forget(t) =>
      s.(timers := s.timers[t := s.timers[t].(phase := Forgotten)], pending := s.pending - {s.timers[t].uri})
    case Validate(t) =>
      var c := s.timers[t];
      s.(timers := s.timers[t := c.(phase := Validated)],
         validations := s.validations + [Validation(c.uri, c.version, c.content)])
  }

  /** `ls` is a possible interleaving from `s`. */
  predicate Possible(s: State, ls: seq<Label>)
    decreases |ls|, 0
  {
    ls == [] || (Possible(s, ls[..|ls| - 1]) && Enabled(After(s, ls[..|ls| - 1]), ls[|ls| - 1]))
  }

  function After(s: State, ls: seq<Label>): State
    requires Possible(s, ls)
    decreases |ls|, 1
  {
    if ls == [] then s else Step(After(s, ls[..|ls| - 1]), ls[|ls| - 1])
  }

  // ---------------------------------------------------------------- what is validated was held

  /** Some change of the run put `content` into the manager as `version` of `uri`, within the limit. */
  ghost predicate Held(s: State, ls: seq<Label>, uri: bytes, version: int, content: bytes)
    requires Possible(s, ls)
  {
    exists k: nat :: HeldAfter(s, ls, k, uri, version, content)
  }

  /** Step `k` is a change to `version` of `uri`, after which the manager holds `content`. */
  ghost predicate HeldAfter(s: State, ls: seq<Label>, k: nat, uri: bytes, version: int, content: bytes)
    requires Possible(s, ls)
  {
    && k < |ls| && ls[k].Change? && ls[k].uri == uri && ls[k].version == version
    && Possible(s, ls[..k + 1])
    && uri in After(s, ls[..k + 1]).docs && After(s, ls[..k + 1]).docs[uri] == content
    && |content| <= MAX_DOCUMENT_SIZE
  }

  lemma HeldEarlier(s: State, ls: seq<Label>, uri: bytes, version: int, content: bytes)
    requires ls != [] && Possible(s, ls) && Held(s, ls[..|ls| - 1], uri, version, content)
    ensures Held(s, ls, uri, version, content)
  {
    var init := ls[..|ls| - 1];
    var k: nat :| HeldAfter(s, init, k, uri, version, content);
    assert init[..k + 1] == ls[..k + 1];
    assert HeldAfter(s, ls, k, uri, version, content);
  }

  /** `v` is about to be scheduled, carried by a timer, or validated. */
  predicate Captured(s: State, v: Validation) {
    || s.thread == Scheduling(v.uri, v.version, v.content)
    || v in s.validations
    || exists t :: 0 <= t < |s.timers| && CarriedBy(s.timers[t], v)
  }

  predicate CarriedBy(timer: Timer, v: Validation) {
    timer.uri == v.uri && timer.version == v.version && timer.content == v.content
  }

  /** `Read` captures what the manager holds, and nothing else captures anything. */
  lemma StepCaptures(s: State, l: Label, v: Validation)
    requires Enabled(s, l) && Captured(Step(s, l), v)
    ensures Captured(s, v) || (s.thread == Reading(v.uri, v.version) && Fits(s, v.uri) && s.docs[v.uri] == v.content)
  {
    var s' := Step(s, l);
    if v in s'.validations {
      assert v in s.validations || CarriedBy(s.timers[l.t], v);
    } else if t :| 0 <= t < |s'.timers| && CarriedBy(s'.timers[t], v) {
      assert t < |s.timers| ==> CarriedBy(s.timers[t], v);
    }
  }

  /** While a change is read back, the manager holds what it held right after the change. */
  lemma {:induction false} ReadingAfterChange(ls: seq<Label>) returns (k: nat)
    requires Possible(INITIAL, ls) && After(INITIAL, ls).thread.Reading?
    ensures k < |ls| && ls[k].Change? && After(INITIAL, ls).thread == Reading(ls[k].uri, ls[k].version)
    ensures Possible(INITIAL, ls[..k + 1]) && After(INITIAL, ls[..k + 1]).docs == After(INITIAL, ls).docs
    decreases |ls|
  {
    k := |ls| - 1;
    assert ls[..k + 1] == ls;
    if !ls[k].Change? {
      k := ReadingAfterChange(ls[..k]);
      assert ls[..|ls| - 1][..k + 1] == ls[..k + 1];
    }
  }

  lemma {:induction false} CapturedWasHeld(ls: seq<Label>, v: Validation)
    requires Possible(INITIAL, ls) && Captured(After(INITIAL, ls), v)
    ensures Held(INITIAL, ls, v.uri, v.version, v.content)
    decreases |ls|
  {
    var init, l := ls[..|ls| - 1], ls[|ls| - 1];
    if !Captured(After(INITIAL, init), v) {
      StepCaptures(After(INITIAL, init), l, v);
      var k := ReadingAfterChange(init);
      assert HeldAfter(INITIAL, init, k, v.uri, v.version, v.content);
    } else {
      CapturedWasHeld(init, v);
    }
    HeldEarlier(INITIAL, ls, v.uri, v.version, v.content);
  }

  /**
    In every interleaving, every validation by a timer of version v of a document uses exactly the
    content the manager held right after change v.
   */
  lemma ValidatedWasHeld(ls: seq<Label>, v: Validation)
    requires Possible(INITIAL, ls) && v in After(INITIAL, ls).validations
    ensures Held(INITIAL, ls, v.uri, v.version, v.content) && |v.content| <= 5242880
  {
    CapturedWasHeld(ls, v);
  }

  // ---------------------------------------------------------------- the newest change is validated

  /** The step changes the open document `uri`, within the limit. */
  predicate Changes(s: State, l: Label, uri: bytes) {
    l.Change? && l.uri == uri && uri in s.docs && |l.content| <= MAX_DOCUMENT_SIZE
  }

  /** The newest change to `uri` within the limit that no close follows. */
  function Newest(ls: seq<Label>, uri: bytes): Option<Validation>
    requires Possible(INITIAL, ls)
    decreases |ls|
  {
    if ls == [] then None
    else
      var (init, l) := (ls[..|ls| - 1], ls[|ls| - 1]);
      if Changes(After(INITIAL, init), l, uri) then Some(Validation(uri, l.version, l.content))
      else if l.Close? && l.uri == uri then None
      else Newest(init, uri)
  }

  predicate Schedules(s: State, uri: bytes) {
    s.thread.Scheduling? && s.thread.uri == uri
  }

  /** A timer for `uri` is about to be scheduled. */
  predicate Coming(s: State, uri: bytes) {
    Schedules(s, uri) || (s.thread.Reading? && s.thread.uri == uri && Fits(s, uri))
  }

  /** Change `v` is what is about to be scheduled. */
  predicate Comes(s: State, v: Validation) {
    || s.thread == Scheduling(v.uri, v.version, v.content)
    || (s.thread == Reading(v.uri, v.version) && Fits(s, v.uri) && s.docs[v.uri] == v.content)
  }

  /** Timer `t` carries change `v`, is not stopped, and is the last one of its document. */
  ghost predicate Carries(s: State, t: nat, v: Validation) {
    && t < |s.timers| && CarriedBy(s.timers[t], v) && !s.timers[t].phase.Stopped?
    && forall k :: t < k < |s.timers| ==> s.timers[k].uri != v.uri
  }

  /** Change `v` is about to be scheduled, or some timer carries it. */
  ghost predicate Alive(s: State, v: Validation) {
    Comes(s, v) || (!Coming(s, v.uri) && exists t: nat :: Carries(s, t, v))
  }

  /** The map points to timers of the right document, and a timer is done only once it has validated. */
  ghost predicate Tidy(s: State) {
    && (forall uri :: uri in s.pending ==> s.pending[uri] < |s.timers| && s.timers[s.pending[uri]].uri == uri)
    && (forall t :: 0 <= t < |s.timers| && s.timers[t].phase.Validated? ==>
          Validation(s.timers[t].uri, s.timers[t].version, s.timers[t].content) in s.validations)
  }

  lemma StepKeepsTidy(s: State, l: Label)
    requires Enabled(s, l) && Tidy(s)
    ensures Tidy(Step(s, l))
  {
  }

  /** A step that does not supersede change `v` keeps it alive. */
  lemma StepKeepsAlive(s: State, l: Label, v: Validation)
    requires Enabled(s, l) && Tidy(s) && Alive(s, v)
    requires !Changes(s, l, v.uri) && !(l.Close? && l.uri == v.uri)
    ensures Alive(Step(s, l), v)
  {
    var s' := Step(s, l);
    if Comes(s, v) && l.Schedule? {
      assert Carries(s', |s.timers|, v);
    } else if !Comes(s, v) {
      var t: nat :| Carries(s, t, v);
      assert Carries(s', t, v);
    }
  }

  lemma {:induction false} NewestIsAlive(ls: seq<Label>, uri: bytes)
    requires Possible(INITIAL, ls)
    ensures Tidy(After(INITIAL, ls))
    ensures Newest(ls, uri).Some? ==>
              Newest(ls, uri).value.uri == uri && Alive(After(INITIAL, ls), Newest(ls, uri).value)
    decreases |ls|
  {
    if ls != [] {
      var init, l := ls[..|ls| - 1], ls[|ls| - 1];
      var s := After(INITIAL, init);
      NewestIsAlive(init, uri);
      StepKeepsTidy(s, l);
      if Changes(s, l, uri) {
        assert Newest(ls, uri) == Some(Validation(uri, l.version, l.content));
      } else if Newest(ls, uri).Some? {
        StepKeepsAlive(s, l, Newest(init, uri).value);
      }
    }
  }

  /** No message is half handled and no timer is left to run. */
  predicate Quiet(s: State) {
    s.thread.Idle? && forall t :: 0 <= t < |s.timers| ==> s.timers[t].phase.Stopped? || s.timers[t].phase.Validated?
  }

  /**
    In every interleaving, once all timers have run, the newest change within the limit that no
    close follows has been validated, with its own content.
   */
  lemma NewestIsValidated(ls: seq<Label>, uri: bytes)
    requires Possible(INITIAL, ls) && Quiet(After(INITIAL, ls)) && Newest(ls, uri).Some?
    ensures Newest(ls, uri).value in After(INITIAL, ls).validations
  {
    NewestIsAlive(ls, uri);
    var s, v := After(INITIAL, ls), Newest(ls, uri).value;
    var t: nat :| Carries(s, t, v);
    assert s.timers[t].phase.Validated?;
  }

  // ---------------------------------------------------------------- what closing silences

  /** The timer validates in the end, unless it is stopped. */
  predicate Unfinished(timer: Timer) {
    timer.phase.Waiting? || timer.phase.Fired? || timer.phase.Forgotten?
  }

  /** The number of validations of `uri`. */
  function Count(vs: seq<Validation>, uri: bytes): nat {
    if vs == [] then 0 else Count(vs[..|vs| - 1], uri) + if vs[|vs| - 1].uri == uri then 1 else 0
  }

  predicate Unchanged(ls: seq<Label>, uri: bytes) {
    forall k :: 0 <= k < |ls| ==> !(ls[k].Change? && ls[k].uri == uri)
  }

  /** Whatever the threads do from `s` on, no timer validates `uri` again unless it is changed again. */
  ghost predicate Silent(s: State, uri: bytes) {
    forall ls :: Possible(s, ls) && Unchanged(ls, uri) ==>
      Count(After(s, ls).validations, uri) == Count(s.validations, uri)
  }

  /** Nothing of `uri` is under way. */
  predicate Done(s: State, uri: bytes) {
    !Coming(s, uri) && forall t :: 0 <= t < |s.timers| && s.timers[t].uri == uri ==> !Unfinished(s.timers[t])
  }

  lemma CountSnoc(vs: seq<Validation>, v: Validation, uri: bytes)
    ensures Count(vs + [v], uri) == Count(vs, uri) + if v.uri == uri then 1 else 0
  {
    assert (vs + [v])[..|vs|] == vs;
  }

  lemma StepKeepsDone(s: State, l: Label, uri: bytes)
    requires Enabled(s, l) && Done(s, uri) && !(l.Change? && l.uri == uri)
    ensures Done(Step(s, l), uri)
  {
  }

  lemma DoneAddsNothing(s: State, l: Label, uri: bytes)
    requires Enabled(s, l) && Done(s, uri)
    ensures Count(Step(s, l).validations, uri) == Count(s.validations, uri)
  {
    if l.Validate? {
      var timer := s.timers[l.t];
      CountSnoc(s.validations, Validation(timer.uri, timer.version, timer.content), uri);
    }
  }

  lemma {:induction false} DoneStays(s: State, ls: seq<Label>, uri: bytes)
    requires Done(s, uri) && Possible(s, ls) && Unchanged(ls, uri)
    ensures Done(After(s, ls), uri) && Count(After(s, ls).validations, uri) == Count(s.validations, uri)
    decreases |ls|
  {
    if ls != [] {
      var init := ls[..|ls| - 1];
      DoneStays(s, init, uri);
      StepKeepsDone(After(s, init), ls[|ls| - 1], uri);
      DoneAddsNothing(After(s, init), ls[|ls| - 1], uri);
    }
  }

  /** One more step of a run. */
  lemma Extend(s: State, ls: seq<Label>, l: Label) returns (longer: seq<Label>)
    requires Possible(s, ls) && Enabled(After(s, ls), l)
    ensures longer == ls + [l] && Possible(s, longer) && After(s, longer) == Step(After(s, ls), l)
  {
    longer := ls + [l];
    assert longer[..|longer| - 1] == ls;
  }

  /** `longer` is a run that validates `uri` once more than `ls`, with no further change to it. */
  ghost predicate GoesOn(s: State, ls: seq<Label>, longer: seq<Label>, uri: bytes)
    requires Possible(s, ls)
  {
    && Possible(s, longer) && (Unchanged(ls, uri) ==> Unchanged(longer, uri))
    && Count(After(s, longer).validations, uri) == Count(After(s, ls).validations, uri) + 1
  }

  lemma FinishForgotten(s: State, ls: seq<Label>, t: nat) returns (longer: seq<Label>)
    requires Possible(s, ls) && t < |After(s, ls).timers| && After(s, ls).timers[t].phase.Forgotten?
    ensures GoesOn(s, ls, longer, After(s, ls).timers[t].uri)
  {
    var timer := After(s, ls).timers[t];
    CountSnoc(After(s, ls).validations, Validation(timer.uri, timer.version, timer.content), timer.uri);
    longer := Extend(s, ls, Validate(t));
  }

  lemma FinishFired(s: State, ls: seq<Label>, t: nat) returns (longer: seq<Label>)
    requires Possible(s, ls) && t < |After(s, ls).timers| && After(s, ls).timers[t].phase.Fired?
    ensures GoesOn(s, ls, longer, After(s, ls).timers[t].uri)
  {
    longer := Extend(s, ls, Forget(t));
    longer := FinishForgotten(s, longer, t);
  }

  /** A timer that is not done can go on to validate. */
  lemma Finish(s: State, ls: seq<Label>, t: nat) returns (longer: seq<Label>)
    requires Possible(s, ls) && t < |After(s, ls).timers| && Unfinished(After(s, ls).timers[t])
    ensures GoesOn(s, ls, longer, After(s, ls).timers[t].uri)
  {
    match After(s, ls).timers[t].phase
    case Waiting =>
      longer := Extend(s, ls, Fire(t));
      longer := FinishFired(s, longer, t);
    case Fired => longer := FinishFired(s, ls, t);
    case Forgotten => longer := FinishForgotten(s, ls, t);
  }

  /** A timer about to be scheduled can go on to validate. */
  lemma FinishScheduling(s: State, ls: seq<Label>, uri: bytes) returns (longer: seq<Label>)
    requires Possible(s, ls) && Schedules(After(s, ls), uri)
    ensures GoesOn(s, ls, longer, uri)
  {
    var t := |After(s, ls).timers|;
    longer := Extend(s, ls, Schedule);
    assert After(s, longer).timers[t].uri == uri;
    longer := Finish(s, longer, t);
  }

  lemma FinishComing(s: State, uri: bytes) returns (ls: seq<Label>)
    requires Coming(s, uri)
    ensures GoesOn(s, [], ls, uri)
  {
    if s.thread.Reading? {
      ls := Extend(s, [], Read);
      ls := FinishScheduling(s, ls, uri);
    } else {
      ls := FinishScheduling(s, [], uri);
    }
  }

  /** Nothing validates `uri` any more exactly when nothing of it is under way. */
  lemma SilentExactly(s: State, uri: bytes)
    ensures Silent(s, uri) <==> Done(s, uri)
  {
    if Done(s, uri) {
      forall ls | Possible(s, ls) && Unchanged(ls, uri)
        ensures Count(After(s, ls).validations, uri) == Count(s.validations, uri)
      {
        DoneStays(s, ls, uri);
      }
    } else if Coming(s, uri) {
      var ls := FinishComing(s, uri);
    } else {
      var t: nat :| t < |s.timers| && s.timers[t].uri == uri && Unfinished(s.timers[t]);
      var ls := Finish(s, [], t);
    }
  }

  /** The state after a close. */
  function Closed(s: State, uri: bytes): State
    requires s.thread.Idle?
  {
    Step(Step(s, Close(uri)), Drop(uri))
  }

  /** All that is under way for `uri` is the pending timer, which `Stop` still stops. */
  predicate Stoppable(s: State, uri: bytes) {
    forall t :: 0 <= t < |s.timers| && s.timers[t].uri == uri && Unfinished(s.timers[t]) ==>
      s.timers[t].phase.Waiting? && uri in s.pending && s.pending[uri] == t
  }

  /**
    In every interleaving, a close keeps the timers from ever validating the document exactly when
    all that is under way for it is its pending timer.
   */
  lemma ClosingSilencesExactly(ls: seq<Label>, uri: bytes)
    requires Possible(INITIAL, ls) && After(INITIAL, ls).thread.Idle?
    ensures Silent(Closed(After(INITIAL, ls), uri), uri) <==> Stoppable(After(INITIAL, ls), uri)
  {
    var s := After(INITIAL, ls);
    NewestIsAlive(ls, uri);
    SilentExactly(Closed(s, uri), uri);
    ClosedIsDoneExactly(s, uri);
  }

  lemma ClosedIsDoneExactly(s: State, uri: bytes)
    requires Tidy(s) && s.thread.Idle?
    ensures Done(Closed(s, uri), uri) <==> Stoppable(s, uri)
  {
    var s' := Closed(s, uri);
    if Done(s', uri) {
      forall t | 0 <= t < |s.timers| && s.timers[t].uri == uri && Unfinished(s.timers[t])
        ensures s.timers[t].phase.Waiting? && uri in s.pending && s.pending[uri] == t
      {
        assert !Unfinished(s'.timers[t]);
      }
    }
  }

  // ---------------------------------------------------------------- when a timer escapes its close

  predicate HasFired(s: State, uri: bytes) {
    exists t :: 0 <= t < |s.timers| && s.timers[t].uri == uri && s.timers[t].phase.Fired?
  }

  /**
    The step schedules a timer for `uri` when an earlier one has fired and its callback has yet to
    delete the entry of the map.  The `Stop` that came too late for the earlier one may be that of
    this change or that of a close before it.
   */
  predicate Overtaken(s: State, l: Label, uri: bytes) {
    l.Schedule? && Schedules(s, uri) && HasFired(s, uri)
  }

  /** No step of the run is overtaken. */
  predicate InTime(s: State, ls: seq<Label>, uri: bytes)
    requires Possible(s, ls)
    decreases |ls|
  {
    ls == [] || (InTime(s, ls[..|ls| - 1], uri) && !Overtaken(After(s, ls[..|ls| - 1]), ls[|ls| - 1], uri))
  }

  /** No timer but the pending one waits. */
  predicate Pended(s: State, uri: bytes) {
    forall t :: 0 <= t < |s.timers| && s.timers[t].uri == uri && s.timers[t].phase.Waiting? ==>
      uri in s.pending && s.pending[uri] == t
  }

  /** The pending timer is the only one that waits, and none waits while another has fired. */
  predicate Kept(s: State, uri: bytes) {
    Pended(s, uri) && (NoneWaits(s, uri) || !HasFired(s, uri))
  }

  lemma StepKeepsPended(s: State, l: Label, uri: bytes)
    requires Enabled(s, l) && Tidy(s) && Kept(s, uri)
    ensures Pended(Step(s, l), uri)
  {
    var s' := Step(s, l);
    forall t | 0 <= t < |s'.timers| && s'.timers[t].uri == uri && s'.timers[t].phase.Waiting?
      ensures uri in s'.pending && s'.pending[uri] == t
    {
      assert t < |s.timers| ==> s.timers[t] == s'.timers[t];
    }
  }

  lemma StepKeepsKept(s: State, l: Label, uri: bytes)
    requires Enabled(s, l) && Tidy(s) && Kept(s, uri) && !Overtaken(s, l, uri)
    ensures Kept(Step(s, l), uri)
  {
    var s' := Step(s, l);
    StepKeepsPended(s, l, uri);
    if k :| 0 <= k < |s'.timers| && s'.timers[k].uri == uri && s'.timers[k].phase.Fired? {
      assert s.timers[k].uri == uri && (s.timers[k].phase.Fired? || (l == Fire(k) && s.timers[k].phase.Waiting?));
      forall t | 0 <= t < |s'.timers| && s'.timers[t].uri == uri
        ensures !s'.timers[t].phase.Waiting?
      {
        assert t < |s.timers| ==> s.timers[t].uri == uri;
      }
    }
  }

  lemma {:induction false} InTimeIsKept(ls: seq<Label>, uri: bytes)
    requires Possible(INITIAL, ls) && InTime(INITIAL, ls, uri)
    ensures Tidy(After(INITIAL, ls)) && Kept(After(INITIAL, ls), uri)
    decreases |ls|
  {
    NewestIsAlive(ls, uri);
    if ls != [] {
      var init := ls[..|ls| - 1];
      InTimeIsKept(init, uri);
      StepKeepsKept(After(INITIAL, init), ls[|ls| - 1], uri);
    }
  }

  /**
    In every interleaving without an overtaken scheduling, a close silences the document exactly
    when no callback of it is under way.
   */
  lemma ClosingInTime(ls: seq<Label>, uri: bytes)
    requires Possible(INITIAL, ls) && InTime(INITIAL, ls, uri) && After(INITIAL, ls).thread.Idle?
    ensures Silent(Closed(After(INITIAL, ls), uri), uri) <==>
            forall t :: 0 <= t < |After(INITIAL, ls).timers| && After(INITIAL, ls).timers[t].uri == uri ==>
              !After(INITIAL, ls).timers[t].phase.Fired? && !After(INITIAL, ls).timers[t].phase.Forgotten?
  {
    InTimeIsKept(ls, uri);
    ClosingSilencesExactly(ls, uri);
    var s := After(INITIAL, ls);
    assert forall t :: 0 <= t < |s.timers| && s.timers[t].uri == uri && s.timers[t].phase.Waiting? ==>
      s.pending[uri] == t;
  }

  predicate NoneWaits(s: State, uri: bytes) {
    forall t :: 0 <= t < |s.timers| && s.timers[t].uri == uri ==> !s.timers[t].phase.Waiting?
  }

  /** Whenever `uri` is closed next, without a change before, no timer of it is left waiting. */
  ghost predicate CloseStops(s: State, uri: bytes) {
    forall ls :: Possible(s, ls) && Unchanged(ls, uri) && ls != [] && ls[|ls| - 1] == Close(uri) ==>
      NoneWaits(After(s, ls), uri)
  }

  lemma CloseStopsKept(s: State, uri: bytes)
    requires s.thread.Idle? && Kept(s, uri)
    ensures NoneWaits(Step(s, Close(uri)), uri)
  {
    var s' := Step(s, Close(uri));
    assert forall t :: 0 <= t < |s'.timers| && s'.timers[t].phase.Waiting? ==> s'.timers[t] == s.timers[t];
  }

  lemma {:induction false} KeptStays(s: State, ls: seq<Label>, uri: bytes)
    requires Tidy(s) && Kept(s, uri) && !Coming(s, uri) && Possible(s, ls) && Unchanged(ls, uri)
    ensures Tidy(After(s, ls)) && Kept(After(s, ls), uri) && !Coming(After(s, ls), uri)
    decreases |ls|
  {
    if ls != [] {
      var init, l := ls[..|ls| - 1], ls[|ls| - 1];
      KeptStays(s, init, uri);
      StepKeepsTidy(After(s, init), l);
      StepKeepsKept(After(s, init), l, uri);
    }
  }

  /**
    In every interleaving without an overtaken scheduling so far, scheduling a timer leaves one that
    every close before the next change stops exactly when no earlier timer of the document has
    fired without its callback having run its `delete`, whichever `Stop` that timer outran.
   */
  lemma ScheduleIsSafeExactly(ls: seq<Label>, uri: bytes)
    requires Possible(INITIAL, ls) && InTime(INITIAL, ls, uri) && Schedules(After(INITIAL, ls), uri)
    ensures CloseStops(Step(After(INITIAL, ls), Schedule), uri) <==> !HasFired(After(INITIAL, ls), uri)
  {
    var s := After(INITIAL, ls);
    var s' := Step(s, Schedule);
    InTimeIsKept(ls, uri);
    if HasFired(s, uri) {
      var more := OvertakenEscapes(s, uri);
    } else {
      StepKeepsTidy(s, Schedule);
      StepKeepsKept(s, Schedule, uri);
      forall more | Possible(s', more) && Unchanged(more, uri) && more != [] && more[|more| - 1] == Close(uri)
        ensures NoneWaits(After(s', more), uri)
      {
        var init := more[..|more| - 1];
        KeptStays(s', init, uri);
        CloseStopsKept(After(s', init), uri);
      }
    }
  }

  /**
    From any overtaken scheduling on: the late callback takes the new timer off the map, and the
    close that follows does not see it.
   */
  lemma OvertakenEscapes(s: State, uri: bytes) returns (ls: seq<Label>)
    requires Schedules(s, uri) && HasFired(s, uri)
    ensures var s' := Step(s, Schedule);
            && Possible(s', ls) && Unchanged(ls, uri) && ls != [] && ls[|ls| - 1] == Close(uri)
            && !NoneWaits(After(s', ls), uri)
  {
    var s' := Step(s, Schedule);
    var t: nat :| t < |s.timers| && s.timers[t].uri == uri && s.timers[t].phase.Fired?;
    LateForget(s, uri, t);
    ls := TwoSteps(s', Forget(t), Close(uri));
  }

  lemma TwoSteps(s: State, l: Label, l': Label) returns (ls: seq<Label>)
    requires Enabled(s, l) && Enabled(Step(s, l), l')
    ensures ls == [l, l'] && Possible(s, ls) && After(s, ls) == Step(Step(s, l), l')
  {
    ls := Extend(s, [], l);
    ls := Extend(s, ls, l');
  }

  lemma LateForget(s: State, uri: bytes, t: nat)
    requires Schedules(s, uri) && t < |s.timers| && s.timers[t].uri == uri && s.timers[t].phase.Fired?
    ensures var s' := Step(s, Schedule);
            && Enabled(s', Forget(t)) && Enabled(Step(s', Forget(t)), Close(uri))
            && !NoneWaits(Step(Step(s', Forget(t)), Close(uri)), uri)
  {
    var s' := Step(s, Schedule);
    assert s'.timers[t] == s.timers[t];
    var s'' := Step(s', Forget(t));
    assert Step(s'', Close(uri)).timers[|s.timers|].phase.Waiting?;
  }

  // ---------------------------------------------------------------- two interleavings in which it does

  /** Open the document and change it. */
  lemma OpenAndChange(s: State, before: seq<Label>, uri: bytes, version: int, a: bytes) returns (ls: seq<Label>)
    requires Possible(s, before) && After(s, before).thread.Idle? && |a| <= MAX_DOCUMENT_SIZE
    ensures Possible(s, ls)
    ensures var was := After(s, before);
            After(s, ls) == was.(docs := was.docs[uri := a], thread := Scheduling(uri, version, a))
  {
    ls := Extend(s, before, Open(uri, [], 0, []));
    ls := ChangeAndRead(s, ls, uri, version, a);
    assert After(s, before).docs[uri := []][uri := a] == After(s, before).docs[uri := a];
  }

  lemma ChangeAndRead(s: State, before: seq<Label>, uri: bytes, version: int, a: bytes) returns (ls: seq<Label>)
    requires Possible(s, before) && After(s, before).thread.Idle? && uri in After(s, before).docs
    requires |a| <= MAX_DOCUMENT_SIZE
    ensures Possible(s, ls)
    ensures var was := After(s, before);
            After(s, ls) == was.(docs := was.docs[uri := a], thread := Scheduling(uri, version, a))
  {
    ls := Extend(s, before, Change(uri, version, [Documents.Full(a)], a));
    ls := Extend(s, ls, Read);
  }

  /** The second timer is scheduled while the callback of the first one is under way. */
  lemma ScheduleSecond(s: State, uri: bytes, a: bytes, b: bytes)
    requires s.thread == Scheduling(uri, 2, b) && s.timers == [Timer(uri, 1, a, Fired)]
    requires s.pending.Keys <= {uri} && (uri in s.pending ==> s.pending[uri] == 0)
    ensures Step(s, Schedule) ==
            s.(thread := Idle, timers := [Timer(uri, 1, a, Fired), Timer(uri, 2, b, Waiting)], pending := map[uri := 1])
  {
    assert s.pending[uri := 1] == map[uri := 1];
  }

  /** The callback then empties the map. */
  lemma ForgetBoth(s: State, uri: bytes, a: bytes, b: bytes)
    requires s.timers == [Timer(uri, 1, a, Fired), Timer(uri, 2, b, Waiting)] && s.pending == map[uri := 1]
    ensures Enabled(s, Forget(0))
    ensures Step(s, Forget(0)) ==
            s.(timers := [Timer(uri, 1, a, Forgotten), Timer(uri, 2, b, Waiting)], pending := map[])
  {
  }

  /** And the close finds nothing to stop. */
  lemma CloseStopsNothing(s: State, uri: bytes)
    requires s.thread.Idle? && s.pending == map[] && s.docs.Keys == {uri}
    ensures Step(s, Close(uri)) == s.(thread := Closing(uri))
    ensures Step(s.(thread := Closing(uri)), Drop(uri)) == s.(docs := map[])
  {
  }

  lemma LateCallback(before: seq<Label>, uri: bytes, a: bytes, b: bytes) returns (ls: seq<Label>)
    requires Possible(INITIAL, before)
    requires var s := After(INITIAL, before);
             && s.thread == Scheduling(uri, 2, b) && s.timers == [Timer(uri, 1, a, Fired)] && s.docs.Keys == {uri}
             && s.pending.Keys <= {uri} && (uri in s.pending ==> s.pending[uri] == 0) && s.validations == []
    ensures Possible(INITIAL, ls) && |ls| >= 2 && ls[|ls| - 2..] == [Close(uri), Drop(uri)]
    ensures After(INITIAL, ls) ==
            State(map[], Idle, [Timer(uri, 1, a, Forgotten), Timer(uri, 2, b, Waiting)], map[], [])
  {
    ScheduleSecond(After(INITIAL, before), uri, a, b);
    ls := Extend(INITIAL, before, Schedule);
    ForgetBoth(After(INITIAL, ls), uri, a, b);
    ls := Extend(INITIAL, ls, Forget(0));
    CloseStopsNothing(After(INITIAL, ls), uri);
    ls := Extend(INITIAL, ls, Close(uri));
    ls := Extend(INITIAL, ls, Drop(uri));
  }

  /**
    The first timer has fired when the second one is scheduled, so that the `Stop` of the change
    comes too late, and the callback takes the second timer off the map.
   */
  lemma CloseMissesTimer(uri: bytes, a: bytes, b: bytes) returns (ls: seq<Label>)
    requires |a| <= MAX_DOCUMENT_SIZE && |b| <= MAX_DOCUMENT_SIZE
    ensures Possible(INITIAL, ls) && |ls| >= 2 && ls[|ls| - 2..] == [Close(uri), Drop(uri)]
    ensures After(INITIAL, ls) ==
            State(map[], Idle, [Timer(uri, 1, a, Forgotten), Timer(uri, 2, b, Waiting)], map[], [])
  {
    ls := OpenAndChange(INITIAL, [], uri, 1, a);
    ls := Extend(INITIAL, ls, Schedule);
    ls := Extend(INITIAL, ls, Fire(0));
    ls := ChangeAndRead(INITIAL, ls, uri, 2, b);
    ls := LateCallback(ls, uri, a, b);
  }

  /** The first timer has fired when its document is closed, and it is opened and changed again. */
  lemma ReopenedBeforeCallback(uri: bytes, a: bytes, b: bytes) returns (ls: seq<Label>)
    requires |a| <= MAX_DOCUMENT_SIZE && |b| <= MAX_DOCUMENT_SIZE
    ensures Possible(INITIAL, ls)
    ensures After(INITIAL, ls) == State(map[uri := b], Scheduling(uri, 2, b), [Timer(uri, 1, a, Fired)], map[], [])
  {
    ls := OpenAndChange(INITIAL, [], uri, 1, a);
    ls := Extend(INITIAL, ls, Schedule);
    ls := Extend(INITIAL, ls, Fire(0));
    ls := Extend(INITIAL, ls, Close(uri));
    ls := Extend(INITIAL, ls, Drop(uri));
    ls := OpenAndChange(INITIAL, ls, uri, 2, b);
  }

  /**
    The `Stop` that came too late can also be that of an earlier close: here the map has no entry
    when the second timer is scheduled, so that the change stops nothing, and yet the close after
    it misses that timer.
   */
  lemma ReopenedTimerIsMissed(uri: bytes, a: bytes, b: bytes) returns (ls: seq<Label>)
    requires |a| <= MAX_DOCUMENT_SIZE && |b| <= MAX_DOCUMENT_SIZE
    ensures Possible(INITIAL, ls) && |ls| >= 2 && ls[|ls| - 2..] == [Close(uri), Drop(uri)]
    ensures After(INITIAL, ls) ==
            State(map[], Idle, [Timer(uri, 1, a, Forgotten), Timer(uri, 2, b, Waiting)], map[], [])
  {
    ls := ReopenedBeforeCallback(uri, a, b);
    ls := LateCallback(ls, uri, a, b);
  }

  /** So a closed document can be validated although its timer had not fired when it was closed. */
  lemma ClosedDocumentCanBeValidated(uri: bytes, a: bytes, b: bytes) returns (closed: seq<Label>, ls: seq<Label>)
    requires |a| <= MAX_DOCUMENT_SIZE && |b| <= MAX_DOCUMENT_SIZE
    ensures Possible(INITIAL, closed) && closed != [] && closed[|closed| - 1] == Drop(uri)
    ensures ls == closed + [Fire(1), Forget(1), Validate(1)]
    ensures Possible(INITIAL, ls) && After(INITIAL, ls).validations == [Validation(uri, 2, b)]
    ensures uri !in After(INITIAL, ls).docs
  {
    closed := CloseMissesTimer(uri, a, b);
    assert closed[|closed| - 1] == closed[|closed| - 2..][1];
    ls := Extend(INITIAL, closed, Fire(1));
    ls := Extend(INITIAL, ls, Forget(1));
    ls := Extend(INITIAL, ls, Validate(1));
  }
}
