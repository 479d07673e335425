# kl — a keylogger over Linux evdev, modelled in Dafny

`kl` opens a keyboard's event device (`/dev/input/eventN`), reads the
24-byte `struct input_event` records the kernel writes there, tracks how
many shift keys are held, and is meant to append the text of every key
press to a log file. As written, the loop looks at only every second
record (see "## Findings"). When no device is given on the command line it picks one from the
output of a shell pipeline over `/proc/bus/input/devices`.

This project models the three pieces of logic in `src/main.rs`:

- **the record decoder** `read_input_event` (`evdev.dfy`, module `Evdev`):
  a 24-byte little-endian record becomes an `InputEvent`. All five fields
  are read at their fixed offsets with two's complement for the signed
  ones. Fewer than 24 bytes is an `UnexpectedEof` error. `Encode` is its
  inverse, and both round trips are proved.
- **the acquisition loop** of `main`:
  - `keys.dfy`, module `Keys`, is the per-event step on the `u8` counter
    `shift_pressed`, and `Fold` runs it over a list of events.
  - `acquisition.dfy`, module `Acquisition`, is the loop over the device's
    byte stream. The device and the log file are classes (`Device`,
    `LogSink`) whose methods change them in place. `Acquire` is proved
    against the function `Run`.
  - Each iteration of the source reads one record into `buf` and then
    decodes the next record. The loop therefore consumes 48 bytes per
    iteration, and only the records at offsets 24, 72, 120, … are
    interpreted.
  - A shift release at count 0 is an underflow fault, and a shift press at
    255 is an overflow fault; neither is clamped.
  - A short `read`, a failed `read_exact` and a short `write` are the other
    faults that end the loop.
- **the device list** (`devices.dfy`, module `Devices`): the shell output is
  trimmed, split on `'\n'` and each piece is prefixed with `/dev/input/`.
  A default device is chosen only when exactly one candidate results.

`intended.dfy` (module `Intended`) holds the two loops of the first
finding below side by side on the stream the kernel writes.

The classifiers `is_key_event`, `is_key_press`, `is_key_release`,
`is_shift` and the table `get_key_text` are defined in `src/input.rs`,
which is not part of this model. They are passed in as the fields of a
`Keymap` value, and every result holds for every choice of them.

The code has no floor on the shift counter: `shift_pressed -= 1` on a `u8`
at 0 is an overflow panic in a debug build. The model follows the code.

## Model

| member | source | states |
|---|---|---|
| Evdev.Decode | src/main.rs:39-41 | decoding fails exactly when fewer than 24 bytes are available |
| Evdev.FixedWidth | src/main.rs:42-46 | the `u16`, `u32` and `u64` read at an offset equal the little-endian value of the 2, 4 and 8 bytes there |
| Evdev.DecodeEncode | src/main.rs:42-53 | decoding the 24 bytes encoded for any event gives that event back, every field in its full signed or unsigned range |
| Evdev.EncodeDecode | src/main.rs:42-53 | on 24 bytes or more, decoding succeeds and encoding the result reproduces the first 24 bytes |
| Acquisition.ReadInputEvent | src/main.rs:39-54 | `read_exact` of a 24-byte buffer then decoding returns the decoding of what the device still holds, and on success advances the device by exactly 24 bytes |
| Acquisition.DecodeSeesOneRecord | src/main.rs:39-46 | the decoder looks at the first 24 bytes only: inputs that agree there decode alike |
| Keys.Delta | src/main.rs:85-101 | an event changes the count by -1, 0 or +1, and only a shift press or a shift release changes it |
| Keys.Step | src/main.rs:85-102 | one event faults exactly when the count would leave 0..255 (overflow on a press, underflow on a release); otherwise the new count is the old count plus the event's change, and text is produced exactly for presses, looked up with the count after the press |
| Keys.FoldAppend | src/main.rs:77-103 | running two lists of events one after the other is running their concatenation, unless the first already faulted |
| Keys.FoldFault | src/main.rs:86-100 | when the `k`-th event is the first to take the count out of 0..255, the run ends in an overflow or underflow according to the side it left by, with the count and the texts of the first `k - 1` events |
| Keys.InertStep | src/main.rs:85-102 | an event that is not a key event, not a press, and not a shift release leaves the count unchanged and writes nothing |
| Keys.FoldSpec | src/main.rs:76-103 | running the events ends without fault exactly when the count stays in 0..255 after every prefix; then the final count is the initial one plus the net shift presses, and the texts are one per press, each looked up with the count after it |
| Keys.FoldIgnoresInert | src/main.rs:85-102 | removing every inert event from the input changes neither the final count, the texts nor the fault |
| Keys.ShiftsReleasedOutOfOrder | src/main.rs:74-75 | press left shift, press right shift, release left shift: no fault, and the count is 1 |
| Keys.BalancedShifts | src/main.rs:86-100 | a run without fault whose shift presses and releases balance ends at the count it started from |
| Keys.ReleaseAtZeroUnderflows | src/main.rs:97-100 | a shift release at count 0 is the underflow fault, not a clamp |
| Keys.TypeLetter | src/main.rs:86-96 | pressing and releasing a non-shift key writes its unshifted text once |
| Keys.TypeShiftedDigit | src/main.rs:86-100 | the shift press is looked up with count 1, the digit pressed while shift is held is written shifted, and releasing both brings the count back to 0 |
| Keys.AutorepeatIsInert | src/main.rs:85-101 | a key event whose value is neither a press nor a release (autorepeat) changes nothing |
| Keys.Replay | src/main.rs:76-103 | the loop over decoded events computes the trace of `Fold`, ends without fault exactly when the count stays in range, and then returns the net shift count and the emitted texts |
| Acquisition.Device.Read | src/main.rs:78-80 | `read` fills as much of the buffer as the stream still holds and advances by that much |
| Acquisition.Device.ReadExact | src/main.rs:41 | `read_exact` succeeds exactly when the whole buffer can be filled; the buffer then holds the next bytes of the stream |
| Acquisition.LogSink.Write | src/main.rs:92 | a write appends a prefix of the text, as long as the log still accepts |
| Acquisition.EffectOf | src/main.rs:91-96 | an event never writes more than the log accepts |
| Acquisition.HandleEvent | src/main.rs:85-102 | handling one event appends exactly the bytes `EffectOf` says to the log, and returns its count and fault |
| Acquisition.Iterate | src/main.rs:78-102 | one pass reads `buf`, which then holds the next record when one is there, then reads and decodes the record after it and handles it; it either ends the loop as `Run` does, or has consumed exactly 48 bytes and leaves the state from which `Run` continues |
| Acquisition.Acquire | src/main.rs:72-103 | on a finite stream the loop ends, the log grows by exactly what `Run` writes, and the returned count and fault are `Run`'s |
| Acquisition.RunNearEnd | src/main.rs:78-84 | a stream with fewer than 48 bytes left ends the loop before anything is decoded: a short `read` below 24 bytes, a failed `read_exact` from 24 to 47 |
| Acquisition.RunIsDrive | src/main.rs:77-103 | the loop on bytes is the loop on the records at offsets 24, 72, 120, …, ended by a short `read` or a failed `read_exact` according to the stream's length modulo 48 |
| Acquisition.DriveViaFold | src/main.rs:85-102 | with room enough in the log, the loop over events writes the concatenated texts of `Fold` and stops with `Fold`'s count and fault, or the end-of-input fault |
| Acquisition.DriveWritesPrefix | src/main.rs:91-96 | the loop over events never writes more than the log accepts, and what it writes is a prefix of the texts the events produce |
| Acquisition.DriveShortWrite | src/main.rs:91-96 | when the texts of the events do not fit in the log, the loop over events ends in a short write, having written exactly the first `room` bytes of those texts |
| Acquisition.RunShortWrite | src/main.rs:77-103 | when the texts of the interpreted records do not fit in the log, the loop on bytes ends in a short write after filling the log with the start of them |
| Acquisition.RunViaFold | src/main.rs:77-103 | with room enough in the log, the loop on bytes writes the texts the interpreted records produce and stops at their first fault or at the end of the stream |
| Acquisition.RunWritesPrefix | src/main.rs:91-96 | the loop on bytes never writes more than the log accepts, and what it writes is a prefix of the texts of the interpreted records |
| Acquisition.InterpretedIgnoresBuf | src/main.rs:78-84 | streams of one length that agree on bytes 24..47 of every 48 have the same interpreted records |
| Acquisition.RunIgnoresBuf | src/main.rs:78-84 | the record read into `buf` never influences the loop: streams that agree on bytes 24..47 of every 48 end alike |
| Intended.InterpretedOfEncodeAll | src/main.rs:78-84 | of the events the kernel writes, exactly the second, fourth, … are interpreted |
| Intended.EndOfEncodeAll | src/main.rs:78-84 | on the kernel's stream an even number of events ends the loop in a short `read`, an odd number in a failed `read_exact` |
| Intended.RunOnKernelStream | src/main.rs:76-103 | on the kernel's stream the loop as written is the event loop over every second event |
| Intended.DoubleReadDropsKeys | src/main.rs:78-84 | a press and release of one letter is logged as nothing by the loop as written, and as the letter by the intended loop |
| Intended.RecordsOfEncodeAll | src/main.rs:39-54 | the records of the kernel's stream, taken one after another, are the events it wrote |
| Intended.RunIntendedIsDrive | src/main.rs:76-103 | the intended loop is the event loop over every record of the stream |
| Intended.RunIntendedOnKernelStream | src/main.rs:76-103 | on the kernel's stream the intended loop handles every event, and with room enough in the log writes the texts of all of them |
| Devices.TrimStart | src/main.rs:170 | `trim_start` returns a suffix that does not start with whitespace, and all it removed is whitespace |
| Devices.TrimEnd | src/main.rs:170 | `trim_end` returns a prefix that does not end with whitespace, and all it removed is whitespace |
| Devices.TrimSpec | src/main.rs:170 | `trim` returns a slice of its input with only whitespace outside it |
| Devices.TrimEnds | src/main.rs:170 | what `trim` returns neither starts nor ends with whitespace |
| Devices.TrimIdempotent | src/main.rs:170 | trimming twice is trimming once |
| Devices.TrimWhitespace | src/main.rs:170 | output that is all whitespace trims to the empty string |
| Devices.Split | src/main.rs:170 | `split('\n')` yields at least one piece, and no piece contains the separator |
| Devices.JoinSplit | src/main.rs:170 | the pieces joined with the separator give the input back |
| Devices.SplitJoin | src/main.rs:170 | separator-free pieces joined and split again give the same pieces |
| Devices.SplitCount | src/main.rs:170 | there is one piece more than there are separators |
| Devices.KeyboardDeviceFilenames | src/main.rs:169-175 | the filenames built by the loop are `/dev/input/` followed by each piece of the trimmed output split on newlines, in order |
| Devices.CandidatesUnderDevDir | src/main.rs:171-173 | every candidate starts with `/dev/input/` and the rest of it holds no newline |
| Devices.CandidatesRecoverOutput | src/main.rs:169-175 | there is one candidate more than the trimmed output has newlines, and the names after `/dev/input/` joined with newlines give the trimmed output back |
| Devices.Select | src/main.rs:141-149 | the selection succeeds exactly when there is one candidate and then returns it; otherwise the error carries the whole list |
| Devices.DefaultDevice | src/main.rs:137-150 | `get_default_device` makes the selection from the list `get_keyboard_device_filenames` builds |
| Devices.DefaultDeviceSpec | src/main.rs:137-150 | a default device is found exactly when the trimmed output holds no newline, and it is that output under `/dev/input/` |
| Devices.EmptyOutputSelectsDirectory | src/main.rs:169-175 | output that is empty or all whitespace selects `/dev/input/` itself as the device |
| Devices.SelectCheckedSpec | src/main.rs:141-149 | with empty output counted as no device, a device is chosen exactly when the trimmed output is one non-empty line; it is then a file inside `/dev/input/`, and empty output yields an empty error list |

## Left out

- Privilege escalation with `sudo`, `env_logger`, the `debug!` logging and the opening of the log and device files (src/main.rs:57-70) are calls into the OS and foreign crates.
- Argument parsing in `parse_args` (src/main.rs:106-135) is a wrapper around the `getopts` crate, with `println!` and `exit`.
- Running the shell pipeline and `from_utf8` on its output (src/main.rs:155-167) are process and OS calls. The model starts from the pipeline's standard output as a string, so invalid UTF-8, which panics in the source, is not modelled.
- The device is a finite byte sequence, and the infinite `loop` is run until the stream is exhausted.
  - An I/O error from `read` or `write`, which panics in the source, is not modelled.
  - The kernel's rule that a read of an event device returns whole records is not modelled either; `Device.Read` is a plain file read.
- Acquisition.LogSink.Write: the log accepts a fixed number of further bytes (`room`). This is one way a `write` can come up short; the other reasons the OS may have are not modelled.
- Keys.Step: the loop body in an optimised build is not modelled. There the `u8` counter wraps from 255 to 0 and from 0 to 255; the model follows a debug build, where both wraps are overflow panics.
- `tv_sec` and `tv_usec` are `isize`, which the model takes to be 64 bits wide. Other target widths are not modelled.
- The contents of `src/input.rs` (the classifiers, the key table and `InputEvent`'s declaration) are not part of this model; they are an abstract `Keymap` parameter.
- `swap_remove(0)` on a one-element vector is modelled as taking its only element; `swap_remove` in general is not modelled.

## Findings

| source | as written | input that shows it | evidently intended | confidence | as-written member | corrected member |
|---|---|---|---|---|---|---|
| src/main.rs:78-84 | each iteration reads a record into `buf` with `read`, then decodes the next record with `read_input_event`, so every other record is never looked at | a key press record followed by its release record: the press lands in `buf`, only the release is decoded, and nothing is logged | decode the record just read into `buf`, one record per iteration, as the commented-out `transmute(buf)` on line 84 shows | high, not executed | Intended.DoubleReadDropsKeys | Intended.RunIntendedOnKernelStream |
| src/main.rs:141-142, 169-175 | empty (or all-whitespace) pipeline output trims to `""`, which splits into one empty piece, so the only candidate is `/dev/input/` and it is selected as the device | the pipeline prints nothing because no device has `EV=120013` | report that no keyboard device was detected, as the panic at line 144 does for any count other than one | medium, not executed | Devices.EmptyOutputSelectsDirectory | Devices.SelectCheckedSpec |

`Acquire`, `Run` and `DefaultDevice` model the code as written. `RunIntended` and `SelectChecked` are the corrected definitions, and the intended properties are proved about them.
