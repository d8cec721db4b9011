/** The extension object over time: the active editor, the one debounce
    timer slot, the persisted "colours enabled" flag, and how editor events,
    the toggle command, the passing of time and `dispose` change them.
    Time is an explicit clock; a timer is the time it is due at. */
module Lifecycle {
  import opened Options
  import opened Annotator

  /** `DEBOUNCE_DELAY`, in milliseconds. */
  const DebounceDelay: nat := 500

  const EnabledMessage := "shadcn/colors Enabled"
  const DisabledMessage := "shadcn/colors Disabled"

  /** Documents are told apart by identity only. */
  type DocId = nat

  /** The state: the clock, the document of the active editor (if any),
      the due time of the pending debounced update (if any), and the value
      stored under `shadcnColorsEnabled` (if it was ever written). */
  datatype Ext = Ext(now: nat, active: Option<DocId>, pending: Option<nat>, stored: Option<bool>)

  datatype Event =
    | ActiveEditorChanged(editor: Option<DocId>)   // onDidChangeActiveTextEditor
    | TextChanged(doc: DocId)                      // onDidChangeTextDocument
    | ToggleCommand                                // shadcn-colors.toggleColors
    | Elapse(dt: nat)                              // time passes
    | Dispose                                      // dispose()

  /** What the outside world sees: decorations set on the active editor's
      document with the flag as read at that moment, or an information
      message. `Render(doc, enabled)` stands for setting the payloads
      `Annotator.UpdateDecorations(n, Some(text), stored)` computes from the
      text of `doc`, with `enabled == Enabled(stored)`. */
  datatype Effect = Render(doc: DocId, enabled: bool) | Inform(message: string)

  /** The debounce timer's history: a timer set at `at` for `due`, one that
      fired at its due time, one cleared at `at` before its due time. */
  datatype TimerEvent = Armed(at: nat, due: nat) | Fired(at: nat, due: nat) | Cleared(at: nat, due: nat)

  datatype Reaction = Reaction(next: Ext, effects: seq<Effect>, timers: seq<TimerEvent>)

  /** `updateDecorations`: nothing without an active editor. */
  function Update(st: Ext): (effects: seq<Effect>)
    ensures st.active.None? <==> effects == []
    ensures st.active.Some? ==> effects == [Render(st.active.value, Enabled(st.stored))]
  {
    match st.active
    case None => []
    case Some(doc) => [Render(doc, Enabled(st.stored))]
  }

  /** `triggerUpdate`: clear the pending timer, if any, and set a new one
      `DebounceDelay` from now. */
  function TriggerUpdate(st: Ext): (r: Reaction)
    ensures r.next == st.(pending := Some(st.now + DebounceDelay))
    ensures r.effects == []
    ensures 1 <= |r.timers| <= 2
    ensures r.timers[|r.timers| - 1] == Armed(st.now, st.now + DebounceDelay)
    ensures st.pending.Some? <==> |r.timers| == 2
    ensures st.pending.Some? ==> r.timers[0] == Cleared(st.now, st.pending.value)
  {
    var cleared := match st.pending case None => [] case Some(due) => [Cleared(st.now, due)];
    Reaction(st.(pending := Some(st.now + DebounceDelay)), [], cleared + [Armed(st.now, st.now + DebounceDelay)])
  }

  /** `toggleColorDecorations`: store the negation of the flag as read,
      say which way it went, and redraw at once. */
  function Toggle(st: Ext): (r: Reaction)
    ensures r.next == st.(stored := Some(!Enabled(st.stored)))
    ensures |r.effects| >= 1
    ensures r.effects[0] == Inform(if Enabled(st.stored) then DisabledMessage else EnabledMessage)
    ensures r.effects[1..] == Update(r.next)
    ensures r.timers == []
  {
    var next := st.(stored := Some(!Enabled(st.stored)));
    Reaction(next, [Inform(if Enabled(st.stored) then DisabledMessage else EnabledMessage)] + Update(next), [])
  }

  /** Time passes; the pending update fires if it falls due, and redraws
      with the editor and flag of that moment. */
  function Advance(st: Ext, dt: nat): (r: Reaction)
    ensures r.next.now == st.now + dt
    ensures st.pending.Some? && st.pending.value <= st.now + dt ==>
              && r.next == st.(now := st.now + dt, pending := None)
              && r.timers == [Fired(st.pending.value, st.pending.value)]
              && r.effects == Update(st)
    ensures st.pending.None? || st.now + dt < st.pending.value ==>
              r.next == st.(now := st.now + dt) && r.effects == [] && r.timers == []
  {
    match st.pending
    case Some(due) =>
      if due <= st.now + dt then
        Reaction(Ext(st.now + dt, st.active, None, st.stored), Update(st), [Fired(due, due)])
      else Reaction(st.(now := st.now + dt), [], [])
    case None => Reaction(st.(now := st.now + dt), [], [])
  }

  /** One event. The editor listeners only trigger an update when there is
      an editor, and for text changes only in the active editor's
      document; `dispose` clears the pending timer. */
  function Step(st: Ext, e: Event): (r: Reaction)
    ensures e.ActiveEditorChanged? ==> r.next.active == e.editor
    ensures e.ActiveEditorChanged? ==> (r.timers != [] <==> e.editor.Some?)
    ensures e.ActiveEditorChanged? && e.editor.Some? ==> r.next.pending == Some(st.now + DebounceDelay)
    ensures e.TextChanged? ==> r.next.active == st.active
    ensures e.TextChanged? ==> (r.timers != [] <==> st.active == Some(e.doc))
    ensures e.TextChanged? && st.active == Some(e.doc) ==> r.next.pending == Some(st.now + DebounceDelay)
    ensures r.timers == [] ==> r.next.pending == st.pending
    ensures e.Dispose? ==> r.next.pending.None? && r.effects == []
    ensures e.ActiveEditorChanged? ==>
              && r.next == st.(active := e.editor, pending := if e.editor.Some? then Some(st.now + DebounceDelay) else st.pending)
              && r.effects == []
    ensures e.TextChanged? ==>
              && r.next == st.(pending := if st.active == Some(e.doc) then Some(st.now + DebounceDelay) else st.pending)
              && r.effects == []
    ensures e.Dispose? ==> r.next == st.(pending := None)
    ensures e.ToggleCommand? ==> r == Toggle(st)
    ensures e.Elapse? ==> r == Advance(st, e.dt)
  {
    match e
    case ActiveEditorChanged(editor) =>
      var st' := st.(active := editor);
      if editor.Some? then TriggerUpdate(st') else Reaction(st', [], [])
    case TextChanged(doc) =>
      if st.active == Some(doc) then TriggerUpdate(st) else Reaction(st, [], [])
    case ToggleCommand => Toggle(st)
    case Elapse(dt) => Advance(st, dt)
    case Dispose =>
      var cleared := match st.pending case None => [] case Some(due) => [Cleared(st.now, due)];
      Reaction(st.(pending := None), [], cleared)
  }

  /** A sequence of events, effects and timer history concatenated. */
  function Run(st: Ext, events: seq<Event>): (r: Reaction)
    decreases |events|
  {
    if |events| == 0 then Reaction(st, [], [])
    else
      var a := Step(st, events[0]);
      var b := Run(a.next, events[1..]);
      Reaction(b.next, a.effects + b.effects, a.timers + b.timers)
  }

  /** `activate`: the constructor takes the current editor, triggers an
      update if there is one and redraws at once with the flag as stored;
      only then is the flag written `true`. */
  function Activate(now: nat, editor: Option<DocId>, stored: Option<bool>): (r: Reaction)
    ensures r.next.stored == Some(true)
    ensures r.next.active == editor
    ensures r.next.pending.Some? <==> editor.Some?
    ensures editor.Some? ==> r.effects == [Render(editor.value, Enabled(stored))]
    ensures editor.None? ==> r.effects == [] && r.timers == []
    ensures editor.Some? ==> r.next.pending == Some(now + DebounceDelay)
    ensures Inv(r.next) && Valid(None, now, r.timers, r.next.pending) && Before(r.timers, r.next.now)
    ensures r.next.now == now
  {
    var st := Ext(now, editor, None, stored);
    var armed := if editor.Some? then TriggerUpdate(st) else Reaction(st, [], []);
    Reaction(armed.next.(stored := Some(true)), Update(armed.next), armed.timers)
  }

  // ---------------------------------------------------------------------
  // The debounce law

  /** A pending timer is due after now and at most one delay ahead. */
  predicate Inv(st: Ext) {
    st.pending.Some? ==> st.now < st.pending.value <= st.now + DebounceDelay
  }

  /** The timer history as the one-slot timer allows it, from slot `slot`
      at time `t` to slot `final`: a timer is set only when none is
      pending, is due one delay after it is set, and then either fires
      exactly when due or is cleared before; times never go back. */
  predicate Valid(slot: Option<nat>, t: nat, log: seq<TimerEvent>, final: Option<nat>)
    decreases |log|
  {
    if |log| == 0 then final == slot
    else
      match log[0]
      case Armed(at, due) =>
        slot.None? && t <= at && due == at + DebounceDelay && Valid(Some(due), at, log[1..], final)
      case Cleared(at, due) =>
        slot == Some(due) && t <= at < due && Valid(None, at, log[1..], final)
      case Fired(at, due) =>
        slot == Some(due) && t <= at == due && Valid(None, at, log[1..], final)
  }

  /** Every event of the history happens no later than `t`. */
  predicate Before(log: seq<TimerEvent>, t: nat) {
    forall k :: 0 <= k < |log| ==> log[k].at <= t
  }

  lemma {:induction false} ValidAppend(p: Option<nat>, t0: nat, a: seq<TimerEvent>, q: Option<nat>,
                                       t1: nat, b: seq<TimerEvent>, r: Option<nat>)
    requires Valid(p, t0, a, q) && Before(a, t1) && t0 <= t1 && Valid(q, t1, b, r)
    ensures Valid(p, t0, a + b, r)
    decreases |a|
  {
    if |a| > 0 {
      assert (a + b)[0] == a[0];
      assert (a + b)[1..] == a[1..] + b;
      var slot := match a[0] case Armed(_, due) => Some(due) case _ => None;
      ValidAppend(slot, a[0].at, a[1..], q, t1, b, r);
    } else {
      assert a + b == b;
    }
  }

  /** One event keeps the invariant, moves the clock forward only, and
      leaves a valid timer history no later than the new time. */
  lemma StepValid(st: Ext, e: Event)
    requires Inv(st)
    ensures var r := Step(st, e);
            && Inv(r.next) && st.now <= r.next.now
            && Valid(st.pending, st.now, r.timers, r.next.pending) && Before(r.timers, r.next.now)
  {
    var r := Step(st, e);
    match e
    case ActiveEditorChanged(editor) =>
    case TextChanged(doc) =>
    case ToggleCommand =>
    case Elapse(dt) =>
    case Dispose =>
  }

  /** Any run of events from a state satisfying the invariant leaves a timer
      history in which the slot holds at most one timer, every timer is due
      one delay after it is set, and every timer either fires when due or is
      cleared first. */
  lemma {:induction false} RunValid(st: Ext, events: seq<Event>)
    requires Inv(st)
    ensures var r := Run(st, events);
            && Inv(r.next) && st.now <= r.next.now
            && Valid(st.pending, st.now, r.timers, r.next.pending) && Before(r.timers, r.next.now)
    decreases |events|
  {
    if |events| > 0 {
      var a := Step(st, events[0]);
      StepValid(st, events[0]);
      RunValid(a.next, events[1..]);
      var b := Run(a.next, events[1..]);
      ValidAppend(st.pending, st.now, a.timers, a.next.pending, a.next.now, b.timers, b.next.pending);
      forall k | 0 <= k < |a.timers + b.timers|
        ensures (a.timers + b.timers)[k].at <= b.next.now
      {
        if k >= |a.timers| {
          assert (a.timers + b.timers)[k] == b.timers[k - |a.timers|];
        }
      }
    }
  }

  /** In a valid history a timer that fires is the one set just before it
      (or the one pending at the start): a cleared or replaced timer never
      fires. */
  lemma {:induction false} FiredWasLastArmed(slot: Option<nat>, t: nat, log: seq<TimerEvent>, final: Option<nat>, k: nat)
    requires Valid(slot, t, log, final) && k < |log| && log[k].Fired?
    ensures k == 0 ==> slot == Some(log[0].due)
    ensures k > 0 ==> log[k - 1].Armed? && log[k - 1].due == log[k].due
    decreases |log|
  {
    if k > 0 {
      var slot' := match log[0] case Armed(_, due) => Some(due) case _ => None;
      FiredWasLastArmed(slot', log[0].at, log[1..], final, k - 1);
      if k == 1 {
        assert log[0].Armed?;
      } else {
        assert log[k - 1] == log[1..][k - 2];
      }
    }
  }

  // ---------------------------------------------------------------------
  // Consequences

  /** After `dispose` no update is pending, so no amount of waiting
      redraws anything. */
  lemma DisposeThenWait(st: Ext, dt: nat)
    ensures Run(st, [Dispose, Elapse(dt)]).effects == []
    ensures Run(st, [Dispose, Elapse(dt)]).next.pending.None?
  {
    var evs := [Dispose, Elapse(dt)];
    var a := Step(st, Dispose);
    var b := Step(a.next, Elapse(dt));
    assert b.effects == [] && b.next.pending.None?;
    assert evs[1..][1..] == [];
    assert Run(a.next, evs[1..]) == Reaction(b.next, [], b.timers);
    assert evs[1..] == [Elapse(dt)];
  }

  /** From activation on, whatever events follow, the timer history is one
      the single slot allows: the debounce law holds for the whole life of
      the extension. */
  lemma ActivatedRunValid(now: nat, editor: Option<DocId>, stored: Option<bool>, events: seq<Event>)
    ensures var a := Activate(now, editor, stored);
            var b := Run(a.next, events);
            Valid(None, now, a.timers + b.timers, b.next.pending)
  {
    var a := Activate(now, editor, stored);
    RunValid(a.next, events);
    var b := Run(a.next, events);
    ValidAppend(None, now, a.timers, a.next.pending, a.next.now, b.timers, b.next.pending);
  }

  /** Toggling twice gives back the flag as it read before. */
  lemma ToggleTwice(st: Ext)
    ensures Enabled(Toggle(Toggle(st).next).next.stored) == Enabled(st.stored)
    ensures Toggle(Toggle(st).next).next.pending == st.pending
  {
  }

  /** The message says "Disabled" exactly when the flag read `true`; an
      unset flag reads `false`, so the first toggle enables. */
  lemma ToggleMessage(st: Ext)
    ensures Toggle(st).effects[0] == Inform(DisabledMessage) <==> st.stored == Some(true)
    ensures st.stored.None? ==> Toggle(st).next.stored == Some(true)
  {
  }

  /** Two edits 100 ms apart in the active document, then a second of
      quiet: one redraw, 500 ms after the second edit. */
  lemma Coalesce()
    ensures var r := Run(Ext(0, Some(7), None, Some(true)),
                         [TextChanged(7), Elapse(100), TextChanged(7), Elapse(1000)]);
            && r.effects == [Render(7, true)]
            && r.timers == [Armed(0, 500), Cleared(100, 500), Armed(100, 600), Fired(600, 600)]
  {
    var s0 := Ext(0, Some(7), None, Some(true));
    var evs := [TextChanged(7), Elapse(100), TextChanged(7), Elapse(1000)];
    var s1 := Ext(0, Some(7), Some(500), Some(true));
    var s2 := Ext(100, Some(7), Some(500), Some(true));
    var s3 := Ext(100, Some(7), Some(600), Some(true));
    var s4 := Ext(1100, Some(7), None, Some(true));
    assert Step(s3, Elapse(1000)) == Reaction(s4, [Render(7, true)], [Fired(600, 600)]);
    assert Run(s3, evs[3..]) == Reaction(s4, [Render(7, true)], [Fired(600, 600)]) by {
      assert evs[3..][1..] == [];
    }
    assert Step(s2, TextChanged(7)) == Reaction(s3, [], [Cleared(100, 500), Armed(100, 600)]);
    assert evs[2..][1..] == evs[3..];
    assert Step(s1, Elapse(100)) == Reaction(s2, [], []);
    assert evs[1..][1..] == evs[2..];
    assert Step(s0, TextChanged(7)) == Reaction(s1, [], [Armed(0, 500)]);
  }

  /** A change in a document that is not the active editor's does
      nothing. */
  lemma OtherDocumentIgnored(st: Ext, doc: DocId)
    requires st.active != Some(doc)
    ensures Step(st, TextChanged(doc)) == Reaction(st, [], [])
  {
  }
}
