/**
 * The body of the acquisition loop once an event has been decoded
 * (src/main.rs:85-102): the shift counter `shift_pressed` and the text a key
 * press emits.
 */
module Keys {
  import opened Wrappers
  import opened Evdev

  /**
   * The collaborators from src/input.rs, which is not part of this model:
   * the event classifiers and `get_key_text`. The model works for every
   * choice of them.
   */
  datatype Keymap = Keymap(
    isKeyEvent: u16 -> bool,
    isKeyPress: i32 -> bool,
    isKeyRelease: i32 -> bool,
    isShift: u16 -> bool,
    keyText: (u16, u8) -> seq<byte>)

  /**
   * How an iteration can end the program. `shift_pressed` is a `u8`
   * (src/main.rs:74), so `+= 1` at 255 and `-= 1` at 0 are arithmetic
   * overflow panics; the other three are the `panic!`/`unwrap` calls in the
   * loop.
   */
  datatype Fault = ShortRead | DecodeFailed | ShiftOverflow | ShiftUnderflow | ShortWrite

  /** The outcome of one event: the new count and the text to write, if any. */
  datatype StepResult = Next(count: u8, text: Option<seq<byte>>) | Abort(fault: Fault)

  predicate IsPress(km: Keymap, e: InputEvent)
  {
    km.isKeyEvent(e.kind) && km.isKeyPress(e.value)
  }

  predicate IsShiftPress(km: Keymap, e: InputEvent)
  {
    IsPress(km, e) && km.isShift(e.code)
  }

  /** A release is only seen when the value is not also a press (the `else if`). */
  predicate IsShiftRelease(km: Keymap, e: InputEvent)
  {
    km.isKeyEvent(e.kind) && !km.isKeyPress(e.value) && km.isKeyRelease(e.value) && km.isShift(e.code)
  }

  /** An event that can change neither the count nor the output. */
  predicate Inert(km: Keymap, e: InputEvent)
  {
    !IsPress(km, e) && !IsShiftRelease(km, e)
  }

  /** The change an event makes to the number of shift keys held. */
  function Delta(km: Keymap, e: InputEvent): (d: int)
    ensures -1 <= d <= 1
    ensures d != 0 ==> !Inert(km, e) && km.isShift(e.code)
  {
    if IsShiftPress(km, e) then 1 else if IsShiftRelease(km, e) then -1 else 0
  }

  /**
   * One event (src/main.rs:85-102): a shift press counts before the text is
   * looked up, a shift release uncounts, only presses write text.
   */
  function Step(km: Keymap, e: InputEvent, count: u8): (r: StepResult)
    ensures r.Abort? <==> !(0 <= count + Delta(km, e) < 0x100)
    ensures r.Abort? ==> r.fault == (if Delta(km, e) > 0 then ShiftOverflow else ShiftUnderflow)
    ensures r.Next? ==> r.count == count + Delta(km, e)
    ensures r.Next? ==> r.text == if IsPress(km, e) then Some(km.keyText(e.code, r.count)) else None
  {
    if km.isKeyEvent(e.kind) then
      if km.isKeyPress(e.value) then
        var c := if km.isShift(e.code) then count + 1 else count;
        if c >= 0x100 then Abort(ShiftOverflow)
        else Next(c, Some(km.keyText(e.code, c)))
      else if km.isKeyRelease(e.value) then
        if km.isShift(e.code) then
          if count == 0 then Abort(ShiftUnderflow) else Next(count - 1, None)
        else Next(count, None)
      else Next(count, None)
    else Next(count, None)
  }

  /** What a sequence of events leaves behind: the count, the texts written in order, and the fault that stopped it. */
  datatype Trace = Trace(count: u8, texts: seq<seq<byte>>, fault: Option<Fault>)

  function Prepend(texts: seq<seq<byte>>, t: Trace): Trace
  {
    t.(texts := texts + t.texts)
  }

  lemma PrependTwice(a: seq<seq<byte>>, b: seq<seq<byte>>, t: Trace)
    ensures Prepend(a, Prepend(b, t)) == Prepend(a + b, t)
  {
    assert a + (b + t.texts) == (a + b) + t.texts;
  }

  function AsList(text: Option<seq<byte>>): seq<seq<byte>>
  {
    if text.Some? then [text.value] else []
  }

  /** The events processed one after another from count `count`, stopping at the first fault. */
  function Fold(km: Keymap, events: seq<InputEvent>, count: u8): Trace
  {
    if events == [] then Trace(count, [], None)
    else
      match Step(km, events[0], count)
      case Abort(f) => Trace(count, [], Some(f))
      case Next(c, text) => Prepend(AsList(text), Fold(km, events[1..], c))
  }

  /** Shift presses minus shift releases among `events`. */
  function NetShift(km: Keymap, events: seq<InputEvent>): int
  {
    if events == [] then 0 else NetShift(km, events[..|events| - 1]) + Delta(km, events[|events| - 1])
  }

  /** The count stays a `u8` after every prefix. */
  predicate InRange(km: Keymap, events: seq<InputEvent>, count: u8)
  {
    forall i :: 0 <= i <= |events| ==> 0 <= count + NetShift(km, events[..i]) < 0x100
  }

  /**
   * The texts written for `events`: one per press, looked up with the count
   * as it is after that press.
   */
  function Emitted(km: Keymap, events: seq<InputEvent>, count: int): seq<seq<byte>>
  {
    if events == [] then []
    else
      var e := events[|events| - 1];
      var c := count + NetShift(km, events);
      Emitted(km, events[..|events| - 1], count)
        + (if IsPress(km, e) && 0 <= c < 0x100 then [km.keyText(e.code, c)] else [])
  }

  /** Fold, seen from its last event. */
  lemma {:induction false} FoldSnoc(km: Keymap, events: seq<InputEvent>, e: InputEvent, count: u8)
    ensures var t := Fold(km, events, count);
      Fold(km, events + [e], count) ==
        if t.fault.Some? then t
        else match Step(km, e, t.count)
          case Abort(f) => t.(fault := Some(f))
          case Next(c, text) => Trace(c, t.texts + AsList(text), None)
  {
    if events == [] {
      assert [e][1..] == [];
    } else {
      assert (events + [e])[1..] == events[1..] + [e];
      match Step(km, events[0], count)
      case Abort(f) =>
      case Next(c, text) =>
        FoldSnoc(km, events[1..], e, c);
    }
  }

  /**
   * The acquisition loop with unlimited input (src/main.rs:74-103): it runs
   * through the events without a fault exactly when the count stays within
   * a `u8` after every prefix; then the count is the initial count plus the
   * net number of shift presses, and each press wrote the text for its code
   * at the count after it.
   */
  lemma {:induction false} FoldSpec(km: Keymap, events: seq<InputEvent>, count: u8)
    ensures Fold(km, events, count).fault.None? <==> InRange(km, events, count)
    ensures InRange(km, events, count) ==>
      Fold(km, events, count).count == count + NetShift(km, events)
      && Fold(km, events, count).texts == Emitted(km, events, count)
  {
    if events == [] {
      assert InRange(km, events, count) by {
        assert forall i :: 0 <= i <= 0 ==> events[..i] == [];
      }
    } else {
      var init, e := events[..|events| - 1], events[|events| - 1];
      assert events == init + [e];
      FoldSpec(km, init, count);
      FoldSnoc(km, init, e, count);
      assert forall i :: 0 <= i <= |init| ==> events[..i] == init[..i];
      assert events[..|events|] == events;
      if InRange(km, events, count) {
        assert InRange(km, init, count) by {
          forall i | 0 <= i <= |init| ensures 0 <= count + NetShift(km, init[..i]) < 0x100 {
            assert events[..i] == init[..i];
          }
        }
      } else if InRange(km, init, count) {
        var i :| 0 <= i <= |events| && !(0 <= count + NetShift(km, events[..i]) < 0x100);
        assert i == |events|;
      }
    }
  }

  /** Running `a` then `b` is running `a + b`, unless `a` already faulted. */
  lemma {:induction false} FoldAppend(km: Keymap, a: seq<InputEvent>, b: seq<InputEvent>, count: u8)
    ensures var t := Fold(km, a, count);
      Fold(km, a + b, count) == if t.fault.Some? then t else Prepend(t.texts, Fold(km, b, t.count))
  {
    if a == [] {
      assert a + b == b;
      assert Prepend([], Fold(km, b, count)) == Fold(km, b, count);
    } else {
      assert (a + b)[0] == a[0] && (a + b)[1..] == a[1..] + b;
      match Step(km, a[0], count)
      case Abort(f) =>
      case Next(c, text) =>
        FoldAppend(km, a[1..], b, c);
        var t := Fold(km, a[1..], c);
        if t.fault.None? {
          PrependTwice(AsList(text), t.texts, Fold(km, b, t.count));
        }
    }
  }

  /**
   * The run that panics on the counter (src/main.rs:88, 99): when the `k`-th
   * event is the first to take the count out of a `u8`, the fault is an
   * overflow or an underflow according to the side it left by, and the
   * count and the texts written are those of the first `k - 1` events.
   */
  lemma FoldFault(km: Keymap, events: seq<InputEvent>, count: u8, k: nat)
    requires 0 < k <= |events|
    requires !(0 <= count + NetShift(km, events[..k]) < 0x100)
    requires forall i :: 0 <= i < k ==> 0 <= count + NetShift(km, events[..i]) < 0x100
    ensures var t := Fold(km, events, count);
      t.fault == Some(if count + NetShift(km, events[..k]) >= 0x100 then ShiftOverflow else ShiftUnderflow)
      && t.count == count + NetShift(km, events[..k - 1])
      && t.texts == Emitted(km, events[..k - 1], count)
  {
    var init, e := events[..k - 1], events[k - 1];
    assert events[..k] == init + [e];
    assert events[..k][..k - 1] == init;
    assert InRange(km, init, count) by {
      forall i | 0 <= i <= |init| ensures 0 <= count + NetShift(km, init[..i]) < 0x100 {
        assert init[..i] == events[..i];
      }
    }
    FoldSpec(km, init, count);
    FoldSnoc(km, init, e, count);
    assert events == events[..k] + events[k..];
    FoldAppend(km, events[..k], events[k..], count);
  }

  /** Events that are not key presses or shift releases leave everything unchanged (src/main.rs:85, 97-101). */
  lemma {:induction false} InertStep(km: Keymap, e: InputEvent, count: u8)
    requires Inert(km, e)
    ensures Step(km, e, count) == Next(count, None)
  {
  }

  function Relevant(km: Keymap, events: seq<InputEvent>): (r: seq<InputEvent>)
    ensures |r| <= |events|
    ensures forall i :: 0 <= i < |r| ==> !Inert(km, r[i])
  {
    if events == [] then []
    else if Inert(km, events[0]) then Relevant(km, events[1..])
    else [events[0]] + Relevant(km, events[1..])
  }

  /** Dropping every inert event changes neither the final count, the output nor the fault. */
  lemma {:induction false} FoldIgnoresInert(km: Keymap, events: seq<InputEvent>, count: u8)
    ensures Fold(km, Relevant(km, events), count) == Fold(km, events, count)
  {
    if events != [] {
      var e := events[0];
      if Inert(km, e) {
        InertStep(km, e, count);
        FoldIgnoresInert(km, events[1..], count);
      } else {
        assert ([e] + Relevant(km, events[1..]))[1..] == Relevant(km, events[1..]);
        match Step(km, e, count)
        case Abort(f) =>
        case Next(c, text) =>
          FoldIgnoresInert(km, events[1..], c);
      }
    }
  }

  /** The classifier facts the scenarios below rely on, with `kind` the key-event type. */
  predicate Classic(km: Keymap, kind: u16)
  {
    km.isKeyEvent(kind) && km.isKeyPress(1) && !km.isKeyPress(0) && km.isKeyRelease(0)
  }

  function Press(kind: u16, code: u16): InputEvent { InputEvent(0, 0, kind, code, 1) }

  function Release(kind: u16, code: u16): InputEvent { InputEvent(0, 0, kind, code, 0) }

  /** Press left shift, press right shift, release left shift: one shift is still held. */
  lemma ShiftsReleasedOutOfOrder(km: Keymap, kind: u16, left: u16, right: u16)
    requires Classic(km, kind) && km.isShift(left) && km.isShift(right)
    ensures var t := Fold(km, [Press(kind, left), Press(kind, right), Release(kind, left)], 0);
      t.fault.None? && t.count == 1
  {
    var es := [Press(kind, left), Press(kind, right), Release(kind, left)];
    assert es[1..] == [Press(kind, right), Release(kind, left)];
    assert es[1..][1..] == [Release(kind, left)];
    assert Fold(km, es[1..][1..], 2) == Trace(1, [], None);
    assert Fold(km, es[1..], 1).count == 1 && Fold(km, es[1..], 1).fault.None?;
  }

  /** A run without fault whose shift presses and releases balance ends at the count it started from. */
  lemma BalancedShifts(km: Keymap, events: seq<InputEvent>, count: u8)
    requires Fold(km, events, count).fault.None? && NetShift(km, events) == 0
    ensures Fold(km, events, count).count == count
  {
    FoldSpec(km, events, count);
  }

  /** A shift release with no shift counted is an underflow, not a clamp (src/main.rs:99). */
  lemma ReleaseAtZeroUnderflows(km: Keymap, kind: u16, shift: u16)
    requires Classic(km, kind) && km.isShift(shift)
    ensures Fold(km, [Release(kind, shift)], 0) == Trace(0, [], Some(ShiftUnderflow))
  {
  }

  /** Press and release of a letter with no shift held writes its unshifted text once. */
  lemma TypeLetter(km: Keymap, kind: u16, key: u16)
    requires Classic(km, kind) && !km.isShift(key)
    ensures Fold(km, [Press(kind, key), Release(kind, key)], 0) == Trace(0, [km.keyText(key, 0)], None)
  {
    var es := [Press(kind, key), Release(kind, key)];
    assert es[1..] == [Release(kind, key)];
    assert Step(km, es[0], 0) == Next(0, Some(km.keyText(key, 0)));
    assert Fold(km, es[1..], 0) == Trace(0, [], None);
  }

  /**
   * Shift, digit, release both: the shift press itself is looked up with
   * count 1, the digit is written shifted, and the count returns to 0.
   */
  lemma TypeShiftedDigit(km: Keymap, kind: u16, shift: u16, digit: u16)
    requires Classic(km, kind) && km.isShift(shift) && !km.isShift(digit)
    ensures Fold(km, [Press(kind, shift), Press(kind, digit), Release(kind, digit), Release(kind, shift)], 0)
      == Trace(0, [km.keyText(shift, 1), km.keyText(digit, 1)], None)
  {
    var es := [Press(kind, shift), Press(kind, digit), Release(kind, digit), Release(kind, shift)];
    assert es[1..] == [Press(kind, digit), Release(kind, digit), Release(kind, shift)];
    assert es[1..][1..] == [Release(kind, digit), Release(kind, shift)];
    assert es[1..][1..][1..] == [Release(kind, shift)];
    assert Fold(km, es[1..][1..][1..], 1) == Trace(0, [], None);
    assert Fold(km, es[1..][1..], 1) == Trace(0, [], None);
    assert Fold(km, es[1..], 1) == Trace(0, [km.keyText(digit, 1)], None);
  }

  /** An autorepeat (value 2, neither press nor release) writes nothing and keeps the count. */
  lemma AutorepeatIsInert(km: Keymap, kind: u16, key: u16, count: u8)
    requires km.isKeyEvent(kind) && !km.isKeyPress(2) && !km.isKeyRelease(2)
    ensures Step(km, InputEvent(0, 0, kind, key, 2), count) == Next(count, None)
  {
  }

  /**
   * The loop body of src/main.rs:76-103 run over a finite list of decoded
   * events, with the written texts collected in a list and no limit on the
   * log.
   */
  method Replay(km: Keymap, events: seq<InputEvent>) returns (count: u8, texts: seq<seq<byte>>, fault: Option<Fault>)
    ensures Trace(count, texts, fault) == Fold(km, events, 0)
    ensures fault.None? <==> InRange(km, events, 0)
    ensures fault.None? ==> count == NetShift(km, events) && texts == Emitted(km, events, 0)
  {
    FoldSpec(km, events, 0);
    count, texts, fault := 0, [], None;
    var i := 0;
    while i < |events|
      invariant i <= |events|
      invariant Fold(km, events, 0) == Prepend(texts, Fold(km, events[i..], count))
    {
      assert events[i..][1..] == events[i + 1..];
      match Step(km, events[i], count)
      case Abort(f) =>
        fault := Some(f);
        return;
      case Next(c, text) =>
        PrependTwice(texts, AsList(text), Fold(km, events[i + 1..], c));
        count, texts := c, texts + AsList(text);
      i := i + 1;
    }
  }
}
