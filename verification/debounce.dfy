/**
 The content script's input debounce (`attachTextFieldListeners` and its
 `inputHandler`) as an event-driven state machine. There is ONE timer for
 all fields: a new input on any field cancels whatever analysis is pending.
 When the timer fires, the captured text is analysed only if it is
 non-empty and differs from the last text recorded for its field.
 Time itself is not modelled: `TimerFired` is the expiry of the one-second
 timeout.
 */
module Debounce {
  import opened Wrappers

  /** A text field, identified by its element. */
  type FieldId = nat

  /** A call `analyzeText(field, text)`; the gate in `AnalysisGate` decides
      whether it turns into a request. */
  datatype Call = Call(field: FieldId, text: string)

  /** `activeTextFields` (field to its `lastText`) and the pending timeout,
      which carries the field and the text captured at input time. */
  datatype Watcher = Watcher(lastText: map<FieldId, string>, pending: Option<Call>)

  datatype Event =
    | Attach(field: FieldId, text: string)   // a text field is found; `text` is its current content
    | Input(field: FieldId, text: string)    // an `input` event; `text` is the content at that moment
    | TimerFired                             // the debounce timeout expires

  /** Every state the script can reach: the pending timeout belongs to a tracked field. */
  predicate Valid(w: Watcher)
  {
    w.pending.Some? ==> w.pending.value.field in w.lastText
  }

  /** One event, with `enabled` the current value of the global `isEnabled`.
      Returns the next state and the `analyzeText` call made, if any. */
  function Step(w: Watcher, enabled: bool, e: Event): (r: (Watcher, Option<Call>))
    requires Valid(w)
    ensures Valid(r.0)
    // tracked fields are never forgotten
    ensures w.lastText.Keys <= r.0.lastText.Keys
    // attaching: the field is tracked from then on; nothing else changes
    ensures e.Attach? && e.field !in w.lastText ==>
              && r.0 == w.(lastText := w.lastText[e.field := e.text])
              && (r.1.Some? <==> enabled && e.text != "")
              && (r.1.Some? ==> r.1.value == Call(e.field, e.text))
    ensures e.Attach? && e.field in w.lastText ==> r == (w, None)
    // an input on a tracked field, while enabled, replaces the pending timeout
    ensures e.Input? && enabled && e.field in w.lastText ==>
              r == (w.(pending := Some(Call(e.field, e.text))), None)
    // a disabled input returns before `clearTimeout`: the pending timeout survives
    ensures e.Input? && (!enabled || e.field !in w.lastText) ==> r == (w, None)
    // the timeout analyses a changed, non-empty text and records it
    ensures e.TimerFired? ==> r.0.pending == None
    ensures e.TimerFired? && w.pending.None? ==> r == (w, None)
    ensures e.TimerFired? && w.pending.Some? ==>
              var c := w.pending.value;
              && (r.1.Some? <==> c.text != "" && c.text != w.lastText[c.field])
              && (r.1.Some? ==> r.1.value == c && r.0.lastText == w.lastText[c.field := c.text])
              && (r.1.None? ==> r.0.lastText == w.lastText)
  {
    match e
    case Attach(f, text) =>
      if f in w.lastText then (w, None)
      else
        var call := if enabled && |text| > 0 then Some(Call(f, text)) else None;
        (w.(lastText := w.lastText[f := text]), call)
    case Input(f, text) =>
      if f !in w.lastText || !enabled then (w, None)
      else (w.(pending := Some(Call(f, text))), None)
    case TimerFired =>
      match w.pending
      case None => (w, None)
      case Some(c) =>
        if c.text != "" && c.text != w.lastText[c.field] then
          (Watcher(w.lastText[c.field := c.text], None), Some(c))
        else
          (w.(pending := None), None)
  }

  /** Runs a sequence of events; returns the final state and the calls made, in order. */
  function Run(w: Watcher, enabled: bool, events: seq<Event>): (r: (Watcher, seq<Call>))
    requires Valid(w)
    ensures Valid(r.0)
    ensures |r.1| <= |events|
    decreases |events|
  {
    if |events| == 0 then (w, [])
    else
      var (w1, cs) := Run(w, enabled, events[..|events| - 1]);
      var (w2, c) := Step(w1, enabled, events[|events| - 1]);
      (w2, cs + Emitted(c))
  }

  /** The call a step makes, as a list of zero or one calls. */
  function Emitted(c: Option<Call>): (cs: seq<Call>)
    ensures |cs| <= 1
  {
    if c.Some? then [c.value] else []
  }

  /** The inputs are all `Input` events on tracked fields. */
  predicate InputsOn(w: Watcher, events: seq<Event>)
  {
    forall k :: 0 <= k < |events| ==> events[k].Input? && events[k].field in w.lastText
  }

  /** A burst of inputs, while enabled, only ever leaves the last one pending. */
  lemma {:induction false} BurstKeepsLast(w: Watcher, events: seq<Event>)
    requires Valid(w) && |events| > 0 && InputsOn(w, events)
    ensures var last := events[|events| - 1];
            Run(w, true, events) == (w.(pending := Some(Call(last.field, last.text))), [])
    decreases |events|
  {
    if |events| > 1 {
      var prefix := events[..|events| - 1];
      assert InputsOn(w, prefix) by {
        forall k | 0 <= k < |prefix| ensures prefix[k].Input? && prefix[k].field in w.lastText {
          assert prefix[k] == events[k];
        }
      }
      BurstKeepsLast(w, prefix);
    }
  }

  /** However many inputs arrive before the timeout, at most one analysis
      follows, and it is of the text captured by the last input — and only
      when that text is non-empty and new for its field. */
  lemma BurstAnalysesOnce(w: Watcher, events: seq<Event>)
    requires Valid(w) && |events| > 0 && InputsOn(w, events)
    ensures var last := events[|events| - 1];
            var calls := Run(w, true, events + [TimerFired]).1;
            && |calls| <= 1
            && (|calls| == 1 <==> last.text != "" && last.text != w.lastText[last.field])
            && (|calls| == 1 ==> calls[0] == Call(last.field, last.text))
  {
    BurstKeepsLast(w, events);
    assert (events + [TimerFired])[..|events|] == events;
  }

  /** Once a text has been analysed, the same text typed again on that field
      (for instance an undo followed by a redo that lands on it) is not sent again. */
  lemma EchoSuppressed(w: Watcher, f: FieldId, text: string)
    requires Valid(w) && f in w.lastText && w.lastText[f] == text
    ensures Run(w, true, [Input(f, text), TimerFired]).1 == []
  {
    BurstAnalysesOnce(w, [Input(f, text)]);
    assert [Input(f, text)] + [TimerFired] == [Input(f, text), TimerFired];
  }
}
