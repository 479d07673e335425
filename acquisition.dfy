/**
 * The acquisition loop of `main` (src/main.rs:72-103) over a finite device
 * stream, with the device file and the log file as objects, and the
 * decoder `read_input_event` (src/main.rs:39-54) reading from the device.
 */
module Acquisition {
  import opened Wrappers
  import opened Evdev
  import opened Keys

  /** The opened device file: the bytes it will ever yield and how many have been read. */
  class Device {
    var data: seq<byte>
    var pos: nat

    ghost predicate Valid()
      reads this
    {
      pos <= |data|
    }

    /** The bytes not yet read. */
    ghost function Rest(): seq<byte>
      reads this
      requires Valid()
    {
      data[pos..]
    }

    constructor (data: seq<byte>)
      ensures Valid() && this.data == data && pos == 0
    {
      this.data := data;
      pos := 0;
    }

    /** `Read::read`: fills as much of `buf` as the stream still holds, 0 at the end. */
    method Read(buf: array<byte>) returns (n: nat)
      requires Valid()
      modifies this, buf
      ensures Valid() && data == old(data)
      ensures n == if buf.Length <= |old(Rest())| then buf.Length else |old(Rest())|
      ensures pos == old(pos) + n
      ensures buf[..n] == old(Rest())[..n] && buf[n..] == old(buf[n..])
    {
      n := if buf.Length <= |data| - pos then buf.Length else |data| - pos;
      forall k | 0 <= k < n {
        buf[k] := data[pos + k];
      }
      pos := pos + n;
    }

    /** `Read::read_exact`: fills all of `buf`, or fails at the end of the stream. */
    method ReadExact(buf: array<byte>) returns (ok: bool)
      requires Valid()
      modifies this, buf
      ensures Valid() && data == old(data)
      ensures ok <==> buf.Length <= |old(Rest())|
      ensures ok ==> pos == old(pos) + buf.Length && buf[..] == old(Rest())[..buf.Length]
      ensures !ok ==> pos == |data|
    {
      ok := buf.Length <= |data| - pos;
      if ok {
        forall k | 0 <= k < buf.Length {
          buf[k] := data[pos + k];
        }
        pos := pos + buf.Length;
      } else {
        pos := |data|;
      }
    }
  }

  /**
   * The log file opened for appending. `room` is how many more bytes the
   * file accepts; `Write::write` may write fewer bytes than asked.
   */
  class LogSink {
    var log: seq<byte>
    var room: nat

    constructor (room: nat)
      ensures log == [] && this.room == room
    {
      log := [];
      this.room := room;
    }

    method Write(text: seq<byte>) returns (n: nat)
      modifies this
      ensures n == if |text| <= old(room) then |text| else old(room)
      ensures log == old(log) + text[..n] && room == old(room) - n
    {
      n := if |text| <= room then |text| else room;
      log := log + text[..n];
      room := room - n;
    }
  }

  /** `read_input_event`: one record read with `read_exact` and decoded. */
  method ReadInputEvent(device: Device) returns (r: Result<InputEvent, DecodeError>)
    requires device.Valid()
    modifies device
    ensures device.Valid() && device.data == old(device.data)
    ensures r == Decode(old(device.Rest()))
    ensures r.Ok? ==> device.pos == old(device.pos) + RecordSize
  {
    var buffer := new byte[RecordSize];
    var ok := device.ReadExact(buffer);
    if !ok {
      return Err(UnexpectedEof);
    }
    ghost var bs := old(device.Rest());
    var b := buffer[..];
    var tvSec := I64Of(U64At(b, 0));
    var tvUsec := I64Of(U64At(b, 8));
    var kind := U16At(b, 16);
    var code := U16At(b, 18);
    var value := I32Of(U32At(b, 20));
    r := Ok(InputEvent(tvSec, tvUsec, kind, code, value));
    assert b == bs[..RecordSize];
  }

  /** How the loop ends: the bytes it wrote to the log, the final count, and the fault. */
  datatype Halt = Halt(written: seq<byte>, count: u8, fault: Fault)

  function Prefixed(written: seq<byte>, h: Halt): Halt
  {
    h.(written := written + h.written)
  }

  /** What one decoded event does: the count after it, the bytes it wrote to the log, and the fault it ended with, if any. */
  datatype Effect = Effect(count: u8, written: seq<byte>, stop: Option<Fault>)

  /**
   * One event with `room` bytes left in the log: the `Step`, then a write
   * of the key's text that is fatal if the log takes fewer bytes.
   */
  function EffectOf(km: Keymap, e: InputEvent, count: u8, room: nat): (r: Effect)
    ensures |r.written| <= room
  {
    match Step(km, e, count)
    case Abort(f) => Effect(count, [], Some(f))
    case Next(c, None) => Effect(c, [], None)
    case Next(c, Some(text)) =>
      if |text| <= room then Effect(c, text, None) else Effect(c, text[..room], Some(ShortWrite))
  }

  /**
   * The loop from count `count` on the stream `s` with `room` bytes left in
   * the log. Each iteration reads a record into `buf` and stops unless it
   * got all 24 bytes, then has `read_input_event` read and decode the NEXT
   * 24 bytes; only that second record is looked at.
   */
  function Run(km: Keymap, s: seq<byte>, count: u8, room: nat): Halt
    decreases |s|
  {
    if |s| < RecordSize then Halt([], count, ShortRead)
    else
      var rest := s[RecordSize..];
      match Decode(rest)
      case Err(_) => Halt([], count, DecodeFailed)
      case Ok(e) =>
        var eff := EffectOf(km, e, count, room);
        if eff.stop.Some? then Halt(eff.written, eff.count, eff.stop.value)
        else Prefixed(eff.written, Run(km, rest[RecordSize..], eff.count, room - |eff.written|))
  }

  /**
   * Lines 85-102 of src/main.rs for one decoded event: the count update and
   * the checked write of the key's text to the log.
   */
  method HandleEvent(km: Keymap, e: InputEvent, count: u8, sink: LogSink)
    returns (next: u8, stop: Option<Fault>, ghost w: seq<byte>)
    modifies sink
    ensures sink.log == old(sink.log) + w && sink.room == old(sink.room) - |w|
    ensures Effect(next, w, stop) == EffectOf(km, e, count, old(sink.room))
  {
    next, stop, w := count, None, [];
    if km.isKeyEvent(e.kind) {
      if km.isKeyPress(e.value) {
        if km.isShift(e.code) {
          if next == 0xFF {
            stop := Some(ShiftOverflow);
            return;
          }
          next := next + 1;
        }
        var text := km.keyText(e.code, next);
        var m := sink.Write(text);
        w := text[..m];
        if m != |text| {
          stop := Some(ShortWrite);
          return;
        }
      } else if km.isKeyRelease(e.value) {
        if km.isShift(e.code) {
          if next == 0 {
            stop := Some(ShiftUnderflow);
            return;
          }
          next := next - 1;
        }
      }
    }
  }

  /**
   * One pass of the loop body (src/main.rs:78-102): read a record into
   * `buf`, read and decode the next one, handle it. `stop` is the fault that
   * ends the program, if any.
   */
  method Iterate(km: Keymap, device: Device, sink: LogSink, buf: array<byte>, count: u8)
    returns (next: u8, stop: Option<Fault>, ghost w: seq<byte>)
    requires device.Valid() && buf.Length == RecordSize
    modifies device, sink, buf
    ensures device.Valid() && device.data == old(device.data)
    ensures sink.log == old(sink.log) + w && sink.room == old(sink.room) - |w|
    ensures stop.Some? ==> Run(km, old(device.Rest()), count, old(sink.room)) == Halt(w, next, stop.value)
    ensures |old(device.Rest())| >= RecordSize ==> buf[..] == old(device.Rest())[..RecordSize]
    ensures stop.None? ==> device.pos == old(device.pos) + 2 * RecordSize
    ensures stop.None? ==> Run(km, old(device.Rest()), count, old(sink.room)) == Prefixed(w, Run(km, device.Rest(), next, sink.room))
  {
    ghost var s, room := device.Rest(), sink.room;
    var n := device.Read(buf);
    if n != RecordSize {
      return count, Some(ShortRead), [];
    }
    var r := ReadInputEvent(device);
    if r.Err? {
      return count, Some(DecodeFailed), [];
    }
    next, stop, w := HandleEvent(km, r.value, count, sink);
    RunIteration(km, s, count, room);
    assert device.Rest() == s[RecordSize..][RecordSize..];
  }

  /**
   * The loop of `main` (src/main.rs:72-103) run on what `device` still holds.
   * A finite stream always ends the loop: at its end `read` returns fewer
   * than 24 bytes.
   */
  method Acquire(km: Keymap, device: Device, sink: LogSink) returns (count: u8, fault: Fault)
    requires device.Valid()
    modifies device, sink
    ensures var h := Run(km, old(device.Rest()), 0, old(sink.room));
      sink.log == old(sink.log) + h.written && sink.room == old(sink.room) - |h.written|
      && count == h.count && fault == h.fault
  {
    var buf := new byte[RecordSize];
    count := 0;
    ghost var s0, log0, room0 := device.Rest(), sink.log, sink.room;
    ghost var written: seq<byte> := [];
    while true
      invariant device.Valid() && device.data == old(device.data)
      invariant sink.log == log0 + written && sink.room == room0 - |written|
      invariant Run(km, s0, 0, room0) == Prefixed(written, Run(km, device.Rest(), count, sink.room))
      decreases |device.data| - device.pos
    {
      ghost var cur, room := device.Rest(), sink.room;
      var next, stop, w := Iterate(km, device, sink, buf, count);
      Associative(log0, written, w);
      if stop.None? {
        PrefixedTwice(written, w, Run(km, device.Rest(), next, sink.room));
      }
      written := written + w;
      count := next;
      if stop.Some? {
        fault := stop.value;
        return;
      }
    }
  }

  lemma Associative(a: seq<byte>, b: seq<byte>, c: seq<byte>)
    ensures a + (b + c) == (a + b) + c
  {
  }

  lemma PrefixOfConcat(a: seq<byte>, b: seq<byte>, c: seq<byte>)
    requires b <= c
    ensures a + b <= a + c
  {
    assert a + c == (a + b) + c[|b|..];
  }

  lemma PrefixedTwice(a: seq<byte>, b: seq<byte>, h: Halt)
    ensures Prefixed(a, Prefixed(b, h)) == Prefixed(a + b, h)
  {
    Associative(a, b, h.written);
  }

  /** One iteration of the loop on a stream that holds two whole records. */
  lemma RunIteration(km: Keymap, s: seq<byte>, count: u8, room: nat)
    requires |s| >= 2 * RecordSize
    ensures var eff := EffectOf(km, Decode(s[RecordSize..]).value, count, room);
      Run(km, s, count, room) ==
        if eff.stop.Some? then Halt(eff.written, eff.count, eff.stop.value)
        else Prefixed(eff.written, Run(km, s[RecordSize..][RecordSize..], eff.count, room - |eff.written|))
  {
  }

  /** The records the loop decodes: those at offsets 24, 72, 120, ... followed by a whole record. */
  function Interpreted(s: seq<byte>): (es: seq<InputEvent>)
  {
    if |s| < 2 * RecordSize then []
    else [Decode(s[RecordSize..]).value] + Interpreted(s[2 * RecordSize..])
  }

  /** How the loop ends when the events run out: `read` came up short, or `read_exact` did. */
  function EndOfStream(s: seq<byte>): Fault
  {
    if |s| % (2 * RecordSize) < RecordSize then ShortRead else DecodeFailed
  }

  /** The loop over already decoded events, ending with `end` when they run out. */
  function Drive(km: Keymap, events: seq<InputEvent>, end: Fault, count: u8, room: nat): Halt
  {
    if events == [] then Halt([], count, end)
    else
      var eff := EffectOf(km, events[0], count, room);
      if eff.stop.Some? then Halt(eff.written, eff.count, eff.stop.value)
      else Prefixed(eff.written, Drive(km, events[1..], end, eff.count, room - |eff.written|))
  }

  /** The loop on bytes is the loop on the records it interprets. */
  lemma {:induction false} RunIsDrive(km: Keymap, s: seq<byte>, count: u8, room: nat)
    ensures Run(km, s, count, room) == Drive(km, Interpreted(s), EndOfStream(s), count, room)
    decreases |s|
  {
    if |s| >= 2 * RecordSize {
      var rest := s[2 * RecordSize..];
      var e := InterpretedStep(s);
      RunIteration(km, s, count, room);
      var eff := EffectOf(km, e, count, room);
      if eff.stop.None? {
        RunIsDrive(km, rest, eff.count, room - |eff.written|);
      }
    } else {
      RunNearEnd(km, s, count, room);
    }
  }

  /** A stream holding fewer than two records stops the loop before anything is decoded. */
  lemma RunNearEnd(km: Keymap, s: seq<byte>, count: u8, room: nat)
    requires |s| < 2 * RecordSize
    ensures Run(km, s, count, room) == Halt([], count, EndOfStream(s))
  {
    if |s| >= RecordSize {
      assert Decode(s[RecordSize..]).Err?;
    }
  }

  /** The first record `Interpreted` yields and where the rest come from. */
  lemma InterpretedStep(s: seq<byte>) returns (e: InputEvent)
    requires |s| >= 2 * RecordSize
    ensures e == Decode(s[RecordSize..]).value
    ensures s[RecordSize..][RecordSize..] == s[2 * RecordSize..]
    ensures Interpreted(s) == [e] + Interpreted(s[2 * RecordSize..])
    ensures EndOfStream(s) == EndOfStream(s[2 * RecordSize..])
  {
    e := Decode(s[RecordSize..]).value;
    ModAfterRecords(|s|);
  }

  lemma ModAfterRecords(n: nat)
    requires n >= 2 * RecordSize
    ensures n % (2 * RecordSize) == (n - 2 * RecordSize) % (2 * RecordSize)
  {
  }

  function Flatten(texts: seq<seq<byte>>): seq<byte>
  {
    if texts == [] then [] else texts[0] + Flatten(texts[1..])
  }

  lemma {:induction false} FlattenAppend(a: seq<seq<byte>>, b: seq<seq<byte>>)
    ensures Flatten(a + b) == Flatten(a) + Flatten(b)
  {
    if a != [] {
      assert (a + b)[0] == a[0] && (a + b)[1..] == a[1..] + b;
      assert Flatten(a + b) == a[0] + Flatten(a[1..] + b);
      FlattenAppend(a[1..], b);
      Associative(a[0], Flatten(a[1..]), Flatten(b));
    } else {
      assert a + b == b;
    }
  }

  /** One event of `Drive` next to one step of `Fold`. */
  lemma DriveStep(km: Keymap, events: seq<InputEvent>, end: Fault, count: u8, room: nat) returns (r: StepResult)
    requires events != []
    ensures r == Step(km, events[0], count)
    ensures r.Abort? ==>
      Drive(km, events, end, count, room) == Halt([], count, r.fault)
      && Fold(km, events, count) == Trace(count, [], Some(r.fault))
    ensures r.Next? ==>
      var text := Flatten(AsList(r.text));
      Drive(km, events, end, count, room) ==
        if |text| <= room then Prefixed(text, Drive(km, events[1..], end, r.count, room - |text|))
        else Halt(text[..room], r.count, ShortWrite)
    ensures r.Next? ==>
      var t := Fold(km, events[1..], r.count);
      Flatten(Fold(km, events, count).texts) == Flatten(AsList(r.text)) + Flatten(t.texts)
      && Fold(km, events, count).count == t.count && Fold(km, events, count).fault == t.fault
  {
    r := Step(km, events[0], count);
    EffectOfStep(km, events[0], count, room);
    if r.Next? {
      FoldFlatten(km, events, count, r);
    }
  }

  /** `EffectOf` in terms of the `Step` it takes: the key's text, cut short when the log is nearly full. */
  lemma EffectOfStep(km: Keymap, e: InputEvent, count: u8, room: nat)
    ensures var r := Step(km, e, count);
      EffectOf(km, e, count, room) ==
        if r.Abort? then Effect(count, [], Some(r.fault))
        else
          var text := Flatten(AsList(r.text));
          if |text| <= room then Effect(r.count, text, None)
          else Effect(r.count, text[..room], Some(ShortWrite))
  {
    var r := Step(km, e, count);
    if r.Next? && r.text.Some? {
      assert AsList(r.text)[1..] == [];
    }
  }

  lemma FoldFlatten(km: Keymap, events: seq<InputEvent>, count: u8, r: StepResult)
    requires events != [] && r == Step(km, events[0], count) && r.Next?
    ensures var t := Fold(km, events[1..], r.count);
      Flatten(Fold(km, events, count).texts) == Flatten(AsList(r.text)) + Flatten(t.texts)
      && Fold(km, events, count).count == t.count && Fold(km, events, count).fault == t.fault
  {
    var t := Fold(km, events[1..], r.count);
    assert Fold(km, events, count) == Prepend(AsList(r.text), t);
    FlattenAppend(AsList(r.text), t.texts);
  }

  /**
   * With room enough in the log, the loop writes the texts of the events,
   * in order, and stops at their first fault or else with `end`.
   */
  lemma {:induction false} DriveViaFold(km: Keymap, events: seq<InputEvent>, end: Fault, count: u8, room: nat)
    requires |Flatten(Fold(km, events, count).texts)| <= room
    ensures var t := Fold(km, events, count);
      Drive(km, events, end, count, room)
        == Halt(Flatten(t.texts), t.count, if t.fault.Some? then t.fault.value else end)
  {
    if events != [] {
      var r := DriveStep(km, events, end, count, room);
      if r.Next? {
        DriveViaFold(km, events[1..], end, r.count, room - |Flatten(AsList(r.text))|);
      }
    }
  }

  /** Never more than the log accepts is written, and it is the start of what the events produce. */
  lemma {:induction false} DriveWritesPrefix(km: Keymap, events: seq<InputEvent>, end: Fault, count: u8, room: nat)
    ensures var w := Drive(km, events, end, count, room).written;
      |w| <= room && w <= Flatten(Fold(km, events, count).texts)
  {
    if events != [] {
      var r := DriveStep(km, events, end, count, room);
      if r.Next? {
        var text := Flatten(AsList(r.text));
        var t := Fold(km, events[1..], r.count);
        if |text| <= room {
          DriveWritesPrefix(km, events[1..], end, r.count, room - |text|);
          PrefixOfConcat(text, Drive(km, events[1..], end, r.count, room - |text|).written, Flatten(t.texts));
        } else {
          assert text[..room] <= text + Flatten(t.texts);
        }
      }
    }
  }

  /**
   * When the texts of the events do not fit in the log, the loop stops at
   * the write that comes up short, having written exactly as much of the
   * texts as the log accepts.
   */
  lemma {:induction false} DriveShortWrite(km: Keymap, events: seq<InputEvent>, end: Fault, count: u8, room: nat)
    requires |Flatten(Fold(km, events, count).texts)| > room
    ensures var h := Drive(km, events, end, count, room);
      h.fault == ShortWrite && h.written == Flatten(Fold(km, events, count).texts)[..room]
  {
    var r := DriveStep(km, events, end, count, room);
    var text := Flatten(AsList(r.text));
    var rest := Flatten(Fold(km, events[1..], r.count).texts);
    if |text| <= room {
      DriveShortWrite(km, events[1..], end, r.count, room - |text|);
      assert (text + rest)[..room] == text + rest[..room - |text|];
    } else {
      assert (text + rest)[..room] == text[..room];
    }
  }

  /**
   * When the texts of the interpreted records do not fit in the log, the
   * loop on bytes ends in a short write after filling the log with them.
   */
  lemma RunShortWrite(km: Keymap, s: seq<byte>, count: u8, room: nat)
    requires |Flatten(Fold(km, Interpreted(s), count).texts)| > room
    ensures var h := Run(km, s, count, room);
      h.fault == ShortWrite && h.written == Flatten(Fold(km, Interpreted(s), count).texts)[..room]
  {
    RunIsDrive(km, s, count, room);
    DriveShortWrite(km, Interpreted(s), EndOfStream(s), count, room);
  }

  /**
   * With room enough in the log, the loop writes the texts the interpreted
   * records produce, in order, and stops at their first fault or else at
   * the end of the stream.
   */
  lemma RunViaFold(km: Keymap, s: seq<byte>, count: u8, room: nat)
    requires |Flatten(Fold(km, Interpreted(s), count).texts)| <= room
    ensures var t := Fold(km, Interpreted(s), count);
      Run(km, s, count, room)
        == Halt(Flatten(t.texts), t.count, if t.fault.Some? then t.fault.value else EndOfStream(s))
  {
    RunIsDrive(km, s, count, room);
    DriveViaFold(km, Interpreted(s), EndOfStream(s), count, room);
  }

  /** The loop never writes more than the log accepts, and what it writes is the start of what the records produce. */
  lemma RunWritesPrefix(km: Keymap, s: seq<byte>, count: u8, room: nat)
    ensures var w := Run(km, s, count, room).written;
      |w| <= room && w <= Flatten(Fold(km, Interpreted(s), count).texts)
  {
    RunIsDrive(km, s, count, room);
    DriveWritesPrefix(km, Interpreted(s), EndOfStream(s), count, room);
  }

  /** Two decoders' inputs that agree on their first record decode alike. */
  lemma DecodeSeesOneRecord(a: seq<byte>, b: seq<byte>)
    requires |a| >= RecordSize && |b| >= RecordSize
    requires forall k :: 0 <= k < RecordSize ==> a[k] == b[k]
    ensures Decode(a) == Decode(b)
  {
  }

  /** Streams of one length that agree on the bytes at offsets 24..48 of every 48 interpret the same records. */
  lemma {:induction false} InterpretedIgnoresBuf(s: seq<byte>, s': seq<byte>)
    requires |s| == |s'|
    requires forall k :: 0 <= k < |s| && k % (2 * RecordSize) >= RecordSize ==> s[k] == s'[k]
    ensures Interpreted(s) == Interpreted(s')
    decreases |s|
  {
    if |s| >= 2 * RecordSize {
      var a, b := s[RecordSize..], s'[RecordSize..];
      forall k | 0 <= k < RecordSize ensures a[k] == b[k] {
        Offsets(k);
      }
      DecodeSeesOneRecord(a, b);
      var rest, rest' := s[2 * RecordSize..], s'[2 * RecordSize..];
      forall k | 0 <= k < |rest| && k % (2 * RecordSize) >= RecordSize ensures rest[k] == rest'[k] {
        Offsets(k);
      }
      InterpretedIgnoresBuf(rest, rest');
      var _ := InterpretedStep(s);
      var _ := InterpretedStep(s');
    }
  }

  lemma Offsets(k: nat)
    ensures k < RecordSize ==> (k + RecordSize) % (2 * RecordSize) >= RecordSize
    ensures (k + 2 * RecordSize) % (2 * RecordSize) == k % (2 * RecordSize)
  {
  }

  /**
   * The record read into `buf` is never looked at: streams of one length
   * that agree on the bytes at offsets 24..48 of every 48 end the loop alike.
   */
  lemma RunIgnoresBuf(km: Keymap, s: seq<byte>, s': seq<byte>, count: u8, room: nat)
    requires |s| == |s'|
    requires forall k :: 0 <= k < |s| && k % (2 * RecordSize) >= RecordSize ==> s[k] == s'[k]
    ensures Run(km, s, count, room) == Run(km, s', count, room)
  {
    InterpretedIgnoresBuf(s, s');
    RunIsDrive(km, s, count, room);
    RunIsDrive(km, s', count, room);
  }
}
