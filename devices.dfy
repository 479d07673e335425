/**
 * Choosing the keyboard device when none is given with `-d`
 * (src/main.rs:137-150 and 155-176). A shell pipeline prints the names of
 * the `eventN` handlers whose `EV` bitmap says "keyboard"; its standard
 * output is trimmed, split on '\n' and each piece becomes a path under
 * /dev/input/. A default is chosen only when there is exactly one.
 */
module Devices {
  import opened Wrappers

  /** Where the kernel puts the event device files. */
  const DevDir: string := "/dev/input/"

  /** Rust's `char::is_whitespace`: the Unicode White_Space property. */
  predicate IsWhitespace(c: char)
  {
    var n := c as int;
    (0x09 <= n <= 0x0D) || n == 0x20 || n == 0x85 || n == 0xA0 || n == 0x1680
    || (0x2000 <= n <= 0x200A) || n == 0x2028 || n == 0x2029 || n == 0x202F
    || n == 0x205F || n == 0x3000
  }

  /** `str::trim_start`: the longest suffix of `s` that does not start with whitespace. */
  function TrimStart(s: string): (t: string)
    ensures |t| <= |s| && t == s[|s| - |t|..]
    ensures t == [] || !IsWhitespace(t[0])
    ensures forall i :: 0 <= i < |s| - |t| ==> IsWhitespace(s[i])
  {
    if s != [] && IsWhitespace(s[0]) then TrimStart(s[1..]) else s
  }

  /** `str::trim_end`: the longest prefix of `s` that does not end with whitespace. */
  function TrimEnd(s: string): (t: string)
    ensures |t| <= |s| && t == s[..|t|]
    ensures t == [] || !IsWhitespace(t[|t| - 1])
    ensures forall i :: |t| <= i < |s| ==> IsWhitespace(s[i])
  {
    if s != [] && IsWhitespace(s[|s| - 1]) then TrimEnd(s[..|s| - 1]) else s
  }

  /** `str::trim`. */
  function Trim(s: string): string
  {
    TrimEnd(TrimStart(s))
  }

  /**
   * `s.trim()` is the slice of `s` left once the whitespace at both ends is
   * removed: all that was cut off is whitespace.
   */
  lemma TrimSpec(s: string) returns (lo: nat, hi: nat)
    ensures lo <= hi <= |s| && Trim(s) == s[lo..hi]
    ensures forall i :: 0 <= i < lo ==> IsWhitespace(s[i])
    ensures forall i :: hi <= i < |s| ==> IsWhitespace(s[i])
  {
    var u := TrimStart(s);
    lo, hi := Trimmed(s, u, TrimEnd(u));
  }

  /** A piece cut off the front of `s`, then one cut off its back, leave a slice of `s`. */
  lemma Trimmed(s: string, u: string, t: string) returns (lo: nat, hi: nat)
    requires |u| <= |s| && u == s[|s| - |u|..]
    requires forall i :: 0 <= i < |s| - |u| ==> IsWhitespace(s[i])
    requires |t| <= |u| && t == u[..|t|]
    requires forall i :: |t| <= i < |u| ==> IsWhitespace(u[i])
    ensures lo <= hi <= |s| && t == s[lo..hi]
    ensures forall i :: 0 <= i < lo ==> IsWhitespace(s[i])
    ensures forall i :: hi <= i < |s| ==> IsWhitespace(s[i])
  {
    lo, hi := |s| - |u|, |s| - |u| + |t|;
    forall i | hi <= i < |s| ensures IsWhitespace(s[i]) {
      assert s[i] == u[i - lo];
    }
  }

  /** `s.trim()` neither starts nor ends with whitespace. */
  lemma TrimEnds(s: string)
    ensures Trim(s) == [] || (!IsWhitespace(Trim(s)[0]) && !IsWhitespace(Trim(s)[|Trim(s)| - 1]))
  {
    var u := TrimStart(s);
    var t := TrimEnd(u);
    if t != [] {
      assert t[0] == u[0];
    }
  }

  /** Trimming twice is trimming once. */
  lemma TrimIdempotent(s: string)
    ensures Trim(Trim(s)) == Trim(s)
  {
    var t := Trim(s);
    assert TrimStart(t) == t;
    assert TrimEnd(t) == t;
  }

  /** Output that is all whitespace trims to nothing. */
  lemma TrimWhitespace(s: string)
    requires forall i :: 0 <= i < |s| ==> IsWhitespace(s[i])
    ensures Trim(s) == []
  {
  }

  /**
   * `str::split` on a single character: the pieces between the separators,
   * in order, empty pieces included; the empty string splits into one empty
   * piece.
   */
  function Split(s: string, sep: char): (ps: seq<string>)
    ensures |ps| >= 1
    ensures forall i :: 0 <= i < |ps| ==> sep !in ps[i]
  {
    if s == [] then [[]]
    else
      var rest := Split(s[1..], sep);
      if s[0] == sep then [[]] + rest
      else [[s[0]] + rest[0]] + rest[1..]
  }

  /** The pieces put back together with the separator between them. */
  function Join(ps: seq<string>, sep: char): string
    requires |ps| >= 1
  {
    if |ps| == 1 then ps[0] else ps[0] + [sep] + Join(ps[1..], sep)
  }

  /** Splitting loses nothing: the pieces joined again give the input back. */
  lemma {:induction false} JoinSplit(s: string, sep: char)
    ensures Join(Split(s, sep), sep) == s
  {
    if s != [] {
      var rest := Split(s[1..], sep);
      JoinSplit(s[1..], sep);
      if s[0] == sep {
        assert Join([[]] + rest, sep) == [] + [sep] + Join(rest, sep);
      } else {
        var ps := [[s[0]] + rest[0]] + rest[1..];
        assert ps[1..] == rest[1..];
        if |rest| > 1 {
          assert Join(rest, sep) == rest[0] + [sep] + Join(rest[1..], sep);
          assert Join(ps, sep) == [s[0]] + (rest[0] + [sep] + Join(rest[1..], sep));
        }
      }
    }
  }

  /** A piece without the separator stays in front of what follows it. */
  lemma {:induction false} SplitPrefix(p: string, s: string, sep: char)
    requires sep !in p
    ensures Split(p + s, sep) == [p + Split(s, sep)[0]] + Split(s, sep)[1..]
  {
    if p == [] {
      var ps := Split(s, sep);
      assert p + s == s && p + ps[0] == ps[0];
      assert [ps[0]] + ps[1..] == ps;
    } else {
      assert (p + s)[1..] == p[1..] + s;
      SplitPrefix(p[1..], s, sep);
      assert [p[0]] + (p[1..] + Split(s, sep)[0]) == p + Split(s, sep)[0];
    }
  }

  /** Joining pieces that hold no separator and splitting again gives the pieces back. */
  lemma {:induction false} SplitJoin(ps: seq<string>, sep: char)
    requires |ps| >= 1
    requires forall i :: 0 <= i < |ps| ==> sep !in ps[i]
    ensures Split(Join(ps, sep), sep) == ps
  {
    if |ps| == 1 {
      SplitPrefix(ps[0], [], sep);
      assert ps[0] + [] == ps[0];
    } else {
      var j := Join(ps[1..], sep);
      SplitJoin(ps[1..], sep);
      assert ([sep] + j)[1..] == j;
      assert Split([sep] + j, sep) == [[]] + ps[1..];
      assert Join(ps, sep) == ps[0] + ([sep] + j);
      SplitPrefix(ps[0], [sep] + j, sep);
      assert ps[0] + [] == ps[0];
    }
  }

  /** There is one piece more than there are separators. */
  lemma {:induction false} SplitCount(s: string, sep: char)
    ensures |Split(s, sep)| == multiset(s)[sep] + 1
  {
    if s != [] {
      SplitCount(s[1..], sep);
      assert s == [s[0]] + s[1..];
      assert multiset(s) == multiset([s[0]]) + multiset(s[1..]);
    }
  }

  /** The device files `get_keyboard_device_filenames` lists for the pipeline output `stdout`. */
  function Candidates(stdout: string): (fs: seq<string>)
  {
    var pieces := Split(Trim(stdout), '\n');
    seq(|pieces|, i requires 0 <= i < |pieces| => DevDir + pieces[i])
  }

  /**
   * `get_keyboard_device_filenames` (src/main.rs:155-176) once the pipeline
   * has printed `stdout`: one "/dev/input/" path per line of the trimmed
   * output, in order.
   */
  method KeyboardDeviceFilenames(stdout: string) returns (filenames: seq<string>)
    ensures filenames == Candidates(stdout)
  {
    var pieces := Split(Trim(stdout), '\n');
    filenames := [];
    for i := 0 to |pieces|
      invariant |filenames| == i
      invariant forall j :: 0 <= j < i ==> filenames[j] == DevDir + pieces[j]
    {
      var filename := DevDir;
      filename := filename + pieces[i];
      filenames := filenames + [filename];
    }
  }

  /** Every candidate is a path directly under /dev/input/ whose name holds no newline. */
  lemma CandidatesUnderDevDir(stdout: string)
    ensures forall i :: 0 <= i < |Candidates(stdout)| ==>
      DevDir <= Candidates(stdout)[i] && '\n' !in Candidates(stdout)[i][|DevDir|..]
  {
    var pieces := Split(Trim(stdout), '\n');
    forall i | 0 <= i < |Candidates(stdout)|
      ensures DevDir <= Candidates(stdout)[i] && '\n' !in Candidates(stdout)[i][|DevDir|..]
    {
      assert Candidates(stdout)[i][|DevDir|..] == pieces[i];
    }
  }

  /**
   * The list is the trimmed output, line by line: the names after
   * /dev/input/, joined with '\n', give the trimmed output back, and there
   * is one candidate more than it has newlines.
   */
  lemma CandidatesRecoverOutput(stdout: string)
    ensures var fs := Candidates(stdout);
      |fs| == multiset(Trim(stdout))['\n'] + 1
      && Join(seq(|fs|, i requires 0 <= i < |fs| => fs[i][|DevDir|..]), '\n') == Trim(stdout)
  {
    var pieces := Split(Trim(stdout), '\n');
    var fs := Candidates(stdout);
    SplitCount(Trim(stdout), '\n');
    JoinSplit(Trim(stdout), '\n');
    assert seq(|fs|, i requires 0 <= i < |fs| => fs[i][|DevDir|..]) == pieces;
  }

  /** The selection `get_default_device` makes from the list: the one candidate, or an error naming them all. */
  function Select(filenames: seq<string>): (r: Result<string, seq<string>>)
    ensures r.Ok? <==> |filenames| == 1
    ensures r.Ok? ==> r.value == filenames[0]
    ensures r.Err? ==> r.error == filenames
  {
    if |filenames| == 1 then Ok(filenames[0]) else Err(filenames)
  }

  /**
   * `get_default_device` (src/main.rs:137-150): the single detected device;
   * the panic for zero or several becomes `Err` with the list it reports.
   */
  method DefaultDevice(stdout: string) returns (r: Result<string, seq<string>>)
    ensures r == Select(Candidates(stdout))
  {
    var filenames := KeyboardDeviceFilenames(stdout);
    if |filenames| == 1 {
      var device := filenames[0];
      filenames := filenames[1..];
      r := Ok(device);
    } else {
      r := Err(filenames);
    }
  }

  /**
   * A default device exists exactly when the trimmed output is a single
   * line, and it is that line under /dev/input/.
   */
  lemma DefaultDeviceSpec(stdout: string)
    ensures Select(Candidates(stdout)).Ok? <==> '\n' !in Trim(stdout)
    ensures Select(Candidates(stdout)).Ok? ==> Select(Candidates(stdout)).value == DevDir + Trim(stdout)
  {
    SplitCount(Trim(stdout), '\n');
    JoinSplit(Trim(stdout), '\n');
  }

  /**
   * No keyboard in the pipeline output (it prints nothing, or only
   * whitespace) still yields one candidate, the directory /dev/input/
   * itself, and it is chosen as the device.
   */
  lemma EmptyOutputSelectsDirectory(stdout: string)
    requires forall i :: 0 <= i < |stdout| ==> IsWhitespace(stdout[i])
    ensures Select(Candidates(stdout)) == Ok(DevDir)
  {
    TrimWhitespace(stdout);
    assert DevDir + [] == DevDir;
  }

  /** The selection with the empty output counted as no device found. */
  function SelectChecked(stdout: string): (r: Result<string, seq<string>>)
  {
    if Trim(stdout) == [] then Err([]) else Select(Candidates(stdout))
  }

  /**
   * With the empty case checked, a device is chosen exactly when the
   * trimmed output is one non-empty line, and it is then a file inside
   * /dev/input/, never the directory; no output reports an empty list.
   */
  lemma SelectCheckedSpec(stdout: string)
    ensures SelectChecked(stdout).Ok? <==> Trim(stdout) != [] && '\n' !in Trim(stdout)
    ensures SelectChecked(stdout).Ok? ==>
      SelectChecked(stdout).value == DevDir + Trim(stdout) && |SelectChecked(stdout).value| > |DevDir|
    ensures Trim(stdout) == [] ==> SelectChecked(stdout) == Err([])
  {
    DefaultDeviceSpec(stdout);
  }
}
