/**
 * What the loop of src/main.rs:76-103 does to the stream the kernel
 * writes, set against the loop its authors evidently meant. Each iteration
 * reads one record into `buf` and then has `read_input_event` read the
 * next one, so only every second record is interpreted; the commented-out
 * `transmute(buf)` at line 84 shows that the record in `buf` was meant to
 * be the one decoded.
 */
module Intended {
  import opened Wrappers
  import opened Evdev
  import opened Keys
  import opened Acquisition

  /** The bytes the kernel writes for `events`, one record after another. */
  function EncodeAll(events: seq<InputEvent>): (s: seq<byte>)
    ensures |s| == RecordSize * |events|
  {
    if events == [] then [] else Encode(events[0]) + EncodeAll(events[1..])
  }

  /** The events at odd positions: the second, the fourth, ... */
  function Odds(events: seq<InputEvent>): seq<InputEvent>
  {
    if |events| < 2 then [] else [events[1]] + Odds(events[2..])
  }

  /** A record followed by anything decodes to the record's event. */
  lemma DecodeFront(e: InputEvent, rest: seq<byte>)
    ensures Decode(Encode(e) + rest) == Ok(e)
    ensures (Encode(e) + rest)[RecordSize..] == rest
  {
    DecodeEncode(e);
    DecodeSeesOneRecord(Encode(e) + rest, Encode(e));
  }

  /**
   * As written, the loop interprets the second, fourth, ... of the events
   * the kernel writes, and an odd number of events ends it with a failed
   * `read_exact` rather than a short `read`.
   */
  lemma {:induction false} InterpretedOfEncodeAll(events: seq<InputEvent>)
    ensures Interpreted(EncodeAll(events)) == Odds(events)
  {
    var s := EncodeAll(events);
    if |events| >= 2 {
      var rest := events[2..];
      EncodeTwo(events);
      InterpretedCons(Encode(events[0]), events[1], EncodeAll(rest));
      InterpretedOfEncodeAll(rest);
      assert Odds(events) == [events[1]] + Odds(rest);
    } else {
      FewRecords(s, |events|);
    }
  }

  /** Two records in front: the second is interpreted, the rest of the stream follows. */
  lemma InterpretedCons(a: seq<byte>, e: InputEvent, t: seq<byte>)
    requires |a| == RecordSize
    ensures Interpreted(a + (Encode(e) + t)) == [e] + Interpreted(t)
  {
    var s := a + (Encode(e) + t);
    assert s[RecordSize..] == Encode(e) + t;
    DecodeFront(e, t);
    var _ := InterpretedStep(s);
  }

  lemma EncodeTwo(events: seq<InputEvent>)
    requires |events| >= 2
    ensures EncodeAll(events) == Encode(events[0]) + (Encode(events[1]) + EncodeAll(events[2..]))
  {
    assert events[1..][1..] == events[2..];
  }

  lemma FewRecords(s: seq<byte>, n: nat)
    requires n < 2 && |s| == RecordSize * n
    ensures Interpreted(s) == []
  {
  }

  /** An odd number of records ends the loop in `read_exact`, an even one in `read`. */
  lemma EndOfEncodeAll(events: seq<InputEvent>)
    ensures EndOfStream(EncodeAll(events)) == if |events| % 2 == 0 then ShortRead else DecodeFailed
  {
    var n := |events|;
    assert RecordSize * n % (2 * RecordSize) == if n % 2 == 0 then 0 else RecordSize by {
      Halves(n);
    }
  }

  lemma Halves(n: nat)
    ensures 24 * n % 48 == if n % 2 == 0 then 0 else 24
  {
    var q := n / 2;
    assert n == 2 * q + n % 2;
    assert 24 * n == 48 * q + 24 * (n % 2);
  }

  /** On the kernel's stream the loop as written is the event loop over every second event. */
  lemma RunOnKernelStream(km: Keymap, events: seq<InputEvent>, count: u8, room: nat)
    ensures Run(km, EncodeAll(events), count, room)
      == Drive(km, Odds(events), if |events| % 2 == 0 then ShortRead else DecodeFailed, count, room)
  {
    RunIsDrive(km, EncodeAll(events), count, room);
    InterpretedOfEncodeAll(events);
    EndOfEncodeAll(events);
  }

  /** The records of `s`, every one of them, up to the last whole one. */
  function Records(s: seq<byte>): seq<InputEvent>
    decreases |s|
  {
    if |s| < RecordSize then [] else [Decode(s).value] + Records(s[RecordSize..])
  }

  /**
   * The loop as intended: each iteration reads one record and handles it;
   * a short read ends it.
   */
  function RunIntended(km: Keymap, s: seq<byte>, count: u8, room: nat): Halt
    decreases |s|
  {
    if |s| < RecordSize then Halt([], count, ShortRead)
    else
      var eff := EffectOf(km, Decode(s).value, count, room);
      if eff.stop.Some? then Halt(eff.written, eff.count, eff.stop.value)
      else Prefixed(eff.written, RunIntended(km, s[RecordSize..], eff.count, room - |eff.written|))
  }

  /** The intended loop is the event loop over every record of the stream. */
  lemma {:induction false} RunIntendedIsDrive(km: Keymap, s: seq<byte>, count: u8, room: nat)
    ensures RunIntended(km, s, count, room) == Drive(km, Records(s), ShortRead, count, room)
    decreases |s|
  {
    if |s| >= RecordSize {
      var es := Records(s);
      assert es[0] == Decode(s).value && es[1..] == Records(s[RecordSize..]);
      var eff := EffectOf(km, es[0], count, room);
      if eff.stop.None? {
        RunIntendedIsDrive(km, s[RecordSize..], eff.count, room - |eff.written|);
      }
    }
  }

  /** The records of the kernel's stream are the events it wrote. */
  lemma {:induction false} RecordsOfEncodeAll(events: seq<InputEvent>)
    ensures Records(EncodeAll(events)) == events
  {
    if events != [] {
      DecodeFront(events[0], EncodeAll(events[1..]));
      RecordsOfEncodeAll(events[1..]);
    }
  }

  /**
   * On the kernel's stream the intended loop handles every event, and with
   * room enough in the log writes the texts of all of them.
   */
  lemma RunIntendedOnKernelStream(km: Keymap, events: seq<InputEvent>, count: u8, room: nat)
    ensures RunIntended(km, EncodeAll(events), count, room) == Drive(km, events, ShortRead, count, room)
    ensures |Flatten(Fold(km, events, count).texts)| <= room ==>
      RunIntended(km, EncodeAll(events), count, room).written == Flatten(Fold(km, events, count).texts)
  {
    RunIntendedIsDrive(km, EncodeAll(events), count, room);
    RecordsOfEncodeAll(events);
    if |Flatten(Fold(km, events, count).texts)| <= room {
      DriveViaFold(km, events, ShortRead, count, room);
    }
  }

  /**
   * Pressing and releasing one letter: the loop as written reads the press
   * into `buf`, interprets only the release and logs nothing; the intended
   * loop logs the letter.
   */
  lemma DoubleReadDropsKeys(km: Keymap, kind: u16, key: u16, room: nat)
    requires Classic(km, kind) && !km.isShift(key)
    requires km.keyText(key, 0) != [] && |km.keyText(key, 0)| <= room
    ensures var s := Encode(Press(kind, key)) + Encode(Release(kind, key));
      Run(km, s, 0, room).written == []
      && RunIntended(km, s, 0, room).written == km.keyText(key, 0)
  {
    var events := [Press(kind, key), Release(kind, key)];
    assert EncodeAll(events[1..][1..]) == [];
    assert EncodeAll(events) == Encode(Press(kind, key)) + Encode(Release(kind, key));
    RunOnKernelStream(km, events, 0, room);
    assert Odds(events[2..]) == [];
    assert Odds(events) == [Release(kind, key)];
    DriveViaFold(km, [Release(kind, key)], ShortRead, 0, room);
    TypeLetter(km, kind, key);
    assert Flatten([km.keyText(key, 0)]) == km.keyText(key, 0) + Flatten([]);
    RunIntendedOnKernelStream(km, events, 0, room);
  }
}
