/**
  The debounced diagnostics over the document manager: the content a timer validates is what the
  edits of the session make of the document.
 */
module DebouncedSessions {
  import opened Bytes
  import opened Debounce
  import Documents

  /** What a step tells the document manager. */
  function EventsOf(l: Label): seq<Documents.Event> {
    match l
    case Open(uri, languageID, version, content) => [Documents.Open(uri, languageID, version, content)]
    case Change(uri, version, changes, _) => [Documents.Update(uri, version, changes)]
    case Drop(uri) => [Documents.Close(uri)]
    case _ => []
  }

  function Events(ls: seq<Label>): seq<Documents.Event> {
    if ls == [] then [] else Events(ls[..|ls| - 1]) + EventsOf(ls[|ls| - 1])
  }

  /** The content of a change to an open document is what its changes make of the text held so far. */
  predicate Edited(s: State, l: Label) {
    l.Change? && l.uri in s.docs ==>
      Documents.AllApplicable(s.docs[l.uri], l.changes) && l.content == Documents.EditAll(s.docs[l.uri], l.changes)
  }

  predicate AllEdited(ls: seq<Label>)
    requires Possible(INITIAL, ls)
    decreases |ls|
  {
    ls == [] || (AllEdited(ls[..|ls| - 1]) && Edited(After(INITIAL, ls[..|ls| - 1]), ls[|ls| - 1]))
  }

  function Texts(m: Documents.Store): map<bytes, bytes> {
    map uri | uri in m :: m[uri].content
  }

  lemma {:induction false} SessionSnoc(m: Documents.Store, es: seq<Documents.Event>, e: Documents.Event)
    requires Documents.AllWelcome(m, es) && Documents.Welcome(Documents.Session(m, es), e)
    ensures Documents.AllWelcome(m, es + [e])
    ensures Documents.Session(m, es + [e]) == Documents.Next(Documents.Session(m, es), e)
    decreases |es|
  {
    if es == [] {
      assert es + [e] == [e] && [e][1..] == [];
    } else {
      assert (es + [e])[1..] == es[1..] + [e];
      SessionSnoc(Documents.Next(m, es[0]), es[1..], e);
    }
  }

  /** One step of the manager. */
  lemma NextTexts(s: State, l: Label, m: Documents.Store)
    requires Enabled(s, l) && Edited(s, l) && s.docs == Texts(m)
    ensures EventsOf(l) == [] ==> Step(s, l).docs == Texts(m)
    ensures EventsOf(l) != [] ==> |EventsOf(l)| == 1 && Documents.Welcome(m, EventsOf(l)[0])
                                  && Step(s, l).docs == Texts(Documents.Next(m, EventsOf(l)[0]))
  {
  }

  /** The texts that the protocol sees are those of the session of plain texts. */
  lemma {:induction false} TextsOfSession(ls: seq<Label>)
    requires Possible(INITIAL, ls) && AllEdited(ls)
    ensures Documents.AllWelcome(map[], Events(ls))
    ensures After(INITIAL, ls).docs == Texts(Documents.Session(map[], Events(ls)))
    decreases |ls|
  {
    if ls != [] {
      var init, l := ls[..|ls| - 1], ls[|ls| - 1];
      TextsOfSession(init);
      NextTexts(After(INITIAL, init), l, Documents.Session(map[], Events(init)));
      if EventsOf(l) == [] {
        assert Events(ls) == Events(init);
      } else {
        assert Events(ls) == Events(init) + [EventsOf(l)[0]];
        SessionSnoc(map[], Events(init), EventsOf(l)[0]);
      }
    }
  }

  lemma {:induction false} PrefixEdited(ls: seq<Label>, k: nat)
    requires Possible(INITIAL, ls) && AllEdited(ls) && k <= |ls|
    ensures Possible(INITIAL, ls[..k]) && AllEdited(ls[..k])
    decreases |ls|
  {
    if k < |ls| {
      PrefixEdited(ls[..|ls| - 1], k);
      assert ls[..|ls| - 1][..k] == ls[..k];
    } else {
      assert ls[..k] == ls;
    }
  }

  /** Step `k` is a change to version `v.version`, and the session up to it gives the document the content of `v`. */
  ghost predicate SessionGives(ls: seq<Label>, k: nat, v: Validation) {
    && k < |ls| && ls[k].Change? && ls[k].uri == v.uri && ls[k].version == v.version
    && Documents.AllWelcome(map[], Events(ls[..k + 1]))
    && v.uri in Documents.Session(map[], Events(ls[..k + 1]))
    && Documents.Session(map[], Events(ls[..k + 1]))[v.uri].content == v.content
  }

  /**
    In every interleaving, a timer that validates version v of a document uses what the session of
    opens, edits and closes up to change v makes of it.
   */
  lemma ValidatedIsSession(ls: seq<Label>, v: Validation) returns (k: nat)
    requires Possible(INITIAL, ls) && AllEdited(ls) && v in After(INITIAL, ls).validations
    ensures SessionGives(ls, k, v)
  {
    ValidatedWasHeld(ls, v);
    k :| HeldAfter(INITIAL, ls, k, v.uri, v.version, v.content);
    PrefixEdited(ls, k + 1);
    TextsOfSession(ls[..k + 1]);
  }

  // ---------------------------------------------------------------- every session is a run

  lemma ExtendEdited(ls: seq<Label>, l: Label) returns (longer: seq<Label>)
    requires Possible(INITIAL, ls) && AllEdited(ls) && Enabled(After(INITIAL, ls), l) && Edited(After(INITIAL, ls), l)
    ensures Possible(INITIAL, longer) && AllEdited(longer) && Events(longer) == Events(ls) + EventsOf(l)
    ensures After(INITIAL, longer) == Step(After(INITIAL, ls), l)
  {
    longer := Extend(INITIAL, ls, l);
    assert longer[..|longer| - 1] == ls;
  }

  /** Between two messages the manager holds the texts of `m`. */
  predicate Between(ls: seq<Label>, m: Documents.Store) {
    && Possible(INITIAL, ls) && AllEdited(ls)
    && After(INITIAL, ls).thread.Idle? && After(INITIAL, ls).docs == Texts(m)
  }

  lemma HandleOpen(ls: seq<Label>, m: Documents.Store, e: Documents.Event) returns (longer: seq<Label>)
    requires Between(ls, m) && e.Open?
    ensures Between(longer, Documents.Next(m, e)) && Events(longer) == Events(ls) + [e]
  {
    var l := Open(e.uri, e.languageID, e.version, e.content);
    NextTexts(After(INITIAL, ls), l, m);
    longer := ExtendEdited(ls, l);
  }

  lemma HandleClose(ls: seq<Label>, m: Documents.Store, e: Documents.Event) returns (longer: seq<Label>)
    requires Between(ls, m) && e.Close?
    ensures Between(longer, Documents.Next(m, e)) && Events(longer) == Events(ls) + [e]
  {
    longer := ExtendEdited(ls, Close(e.uri));
    assert Events(longer) == Events(ls);
    NextTexts(After(INITIAL, longer), Drop(e.uri), m);
    longer := ExtendEdited(longer, Drop(e.uri));
  }

  /** The last steps of a change leave the manager as it is. */
  lemma FinishUpdate(ls: seq<Label>) returns (longer: seq<Label>)
    requires Possible(INITIAL, ls) && AllEdited(ls) && After(INITIAL, ls).thread.Reading?
    ensures Possible(INITIAL, longer) && AllEdited(longer) && After(INITIAL, longer).thread.Idle?
    ensures Events(longer) == Events(ls) && After(INITIAL, longer).docs == After(INITIAL, ls).docs
  {
    longer := ExtendEdited(ls, Read);
    assert Events(longer) == Events(ls);
    if After(INITIAL, longer).thread.Scheduling? {
      longer := ExtendEdited(longer, Schedule);
    }
  }

  lemma HandleUpdate(ls: seq<Label>, m: Documents.Store, e: Documents.Event) returns (longer: seq<Label>)
    requires Between(ls, m) && e.Update? && Documents.Welcome(m, e)
    ensures Between(longer, Documents.Next(m, e)) && Events(longer) == Events(ls) + [e]
  {
    var content := if e.uri in m then Documents.EditAll(m[e.uri].content, e.changes) else [];
    var l := Change(e.uri, e.version, e.changes, content);
    NextTexts(After(INITIAL, ls), l, m);
    longer := ExtendEdited(ls, l);
    longer := FinishUpdate(longer);
  }

  /** One message, handled from start to end. */
  lemma HandleEvent(ls: seq<Label>, m: Documents.Store, e: Documents.Event) returns (longer: seq<Label>)
    requires Between(ls, m) && Documents.Welcome(m, e)
    ensures Between(longer, Documents.Next(m, e)) && Events(longer) == Events(ls) + [e]
  {
    match e
    case Open(_, _, _, _) => longer := HandleOpen(ls, m, e);
    case Update(_, _, _) => longer := HandleUpdate(ls, m, e);
    case Close(_) => longer := HandleClose(ls, m, e);
  }

  lemma EventsCons(before: seq<Documents.Event>, es: seq<Documents.Event>)
    requires es != []
    ensures before + [es[0]] + es[1..] == before + es
  {
  }

  lemma {:induction false} SessionRuns(ls: seq<Label>, m: Documents.Store, es: seq<Documents.Event>)
    returns (longer: seq<Label>)
    requires Between(ls, m) && Documents.AllWelcome(m, es)
    ensures Possible(INITIAL, longer) && AllEdited(longer) && Events(longer) == Events(ls) + es
    decreases |es|
  {
    if es == [] {
      longer := ls;
      assert Events(ls) + es == Events(ls);
    } else {
      longer := HandleEvent(ls, m, es[0]);
      longer := SessionRuns(longer, Documents.Next(m, es[0]), es[1..]);
      EventsCons(Events(ls), es);
    }
  }

  /** Every session of the document manager is one of the protocol. */
  lemma EverySessionRuns(es: seq<Documents.Event>) returns (ls: seq<Label>)
    requires Documents.AllWelcome(map[], es)
    ensures Possible(INITIAL, ls) && AllEdited(ls) && Events(ls) == es
  {
    assert Texts(map[]) == map[];
    ls := SessionRuns([], map[], es);
  }
}
