/**
 * The record framer (src/main.rs lines 86-91): the accumulation buffer
 * is cut at each line feed; every cut-off line is trimmed and, when
 * something is left, handed on as a record. Text after the last line
 * feed stays in the buffer for the next read.
 */
module Framer {
  import opened Wrappers
  import opened Text
  import opened Sequences

  /** The complete lines cut from a buffer, without their line feeds,
      and the unterminated text after the last one. */
  datatype Frames = Frames(lines: seq<string>, rest: string)

  /** `str::find('\n')`: the index of the first line feed. */
  function FirstNewline(s: string): (r: Option<nat>)
    ensures r.None? <==> '\n' !in s
    ensures r.Some? ==> r.value < |s| && s[r.value] == '\n' && '\n' !in s[..r.value]
  {
    if s == [] then None
    else if s[0] == '\n' then Some(0)
    else match FirstNewline(s[1..])
      case None => None
      case Some(k) =>
        assert s[..k + 1] == [s[0]] + s[1..][..k];
        Some(k + 1)
  }

  /** The text a sequence of lines occupies: each line followed by its line feed. */
  function Join(lines: seq<string>): string {
    if lines == [] then [] else lines[0] + "\n" + Join(lines[1..])
  }

  lemma {:induction false} JoinAppend(a: seq<string>, b: seq<string>)
    ensures Join(a + b) == Join(a) + Join(b)
    decreases |a|
  {
    if a != [] {
      assert (a + b)[1..] == a[1..] + b;
      JoinAppend(a[1..], b);
    } else {
      assert a + b == b;
    }
  }

  /** `f` is a faithful framing of `buffer`: its lines and line feeds,
      followed by its rest, spell the buffer exactly, and no line feed
      is left inside a line or in the rest. */
  predicate IsFraming(buffer: string, f: Frames) {
    && Join(f.lines) + f.rest == buffer
    && (forall i :: 0 <= i < |f.lines| ==> '\n' !in f.lines[i])
    && '\n' !in f.rest
  }

  /** Prepending a line and its line feed to a framed buffer frames the longer buffer. */
  lemma FramingCons(buffer: string, pos: nat, next: Frames)
    requires pos < |buffer| && buffer[pos] == '\n' && '\n' !in buffer[..pos]
    requires IsFraming(buffer[pos + 1..], next)
    ensures IsFraming(buffer, Frames([buffer[..pos]] + next.lines, next.rest))
  {
    var lines := [buffer[..pos]] + next.lines;
    assert lines[1..] == next.lines;
    calc {
      Join(lines) + next.rest;
      buffer[..pos] + "\n" + Join(next.lines) + next.rest;
      buffer[..pos] + "\n" + buffer[pos + 1..];
      buffer;
    }
    forall i | 0 <= i < |lines| ensures '\n' !in lines[i] {
      if i > 0 {
        assert lines[i] == next.lines[i - 1];
      }
    }
  }

  /** Cuts the buffer at every line feed, as the drain loop does. */
  function Split(buffer: string): (f: Frames)
    ensures IsFraming(buffer, f)
    decreases |buffer|
  {
    match FirstNewline(buffer)
    case None => Frames([], buffer)
    case Some(pos) =>
      var next := Split(buffer[pos + 1..]);
      FramingCons(buffer, pos, next);
      Frames([buffer[..pos]] + next.lines, next.rest)
  }

  /** A buffer has only one framing, so `Split` is fully characterised
      by conservation and the absence of leftover line feeds. */
  lemma {:induction false} SplitUnique(buffer: string, f: Frames)
    requires IsFraming(buffer, f)
    ensures f == Split(buffer)
    decreases |buffer|
  {
    if f.lines == [] {
      assert f.rest == buffer;
    } else {
      var head := f.lines[0];
      var tail := Frames(f.lines[1..], f.rest);
      var after := Join(f.lines[1..]) + f.rest;
      assert buffer == head + "\n" + after;
      assert buffer[..|head|] == head;
      assert buffer[|head|] == '\n';
      var pos := FirstNewline(buffer).value;
      forall i | 0 <= i < |head| ensures buffer[i] != '\n' {
        assert buffer[i] == head[i];
      }
      forall i | 0 <= i < pos ensures buffer[i] != '\n' {
        assert buffer[i] == buffer[..pos][i];
      }
      assert pos == |head|;
      assert buffer[|head| + 1..] == after;
      assert forall i :: 0 <= i < |tail.lines| ==> tail.lines[i] == f.lines[i + 1];
      SplitUnique(after, tail);
    }
  }

  /** Conservation carries over when the rest of one framing, extended
      by `y`, is framed again. */
  lemma JoinThenRest(a: Frames, b: Frames, x: string, y: string)
    requires Join(a.lines) + a.rest == x
    requires Join(b.lines) + b.rest == a.rest + y
    ensures Join(a.lines + b.lines) + b.rest == x + y
  {
    JoinAppend(a.lines, b.lines);
    calc {
      Join(a.lines + b.lines) + b.rest;
      (Join(a.lines) + Join(b.lines)) + b.rest;
      { ConcatAssoc(Join(a.lines), Join(b.lines), b.rest); }
      Join(a.lines) + (Join(b.lines) + b.rest);
      Join(a.lines) + (a.rest + y);
      { ConcatAssoc(Join(a.lines), a.rest, y); }
      (Join(a.lines) + a.rest) + y;
      x + y;
    }
  }

  /** Framing is compositional: framing `x + y` frames `x`, then frames
      the rest of `x` followed by `y`. This is why the framer's output
      does not depend on where reads end. */
  lemma {:induction false} SplitAppend(x: string, y: string)
    ensures Split(x + y).lines == Split(x).lines + Split(Split(x).rest + y).lines
    ensures Split(x + y).rest == Split(Split(x).rest + y).rest
  {
    var a := Split(x);
    var b := Split(a.rest + y);
    var f := Frames(a.lines + b.lines, b.rest);
    JoinThenRest(a, b, x, y);
    forall i | 0 <= i < |f.lines| ensures '\n' !in f.lines[i] {
      if i >= |a.lines| {
        assert f.lines[i] == b.lines[i - |a.lines|];
      }
    }
    SplitUnique(x + y, f);
  }

  /** What is left over ends the buffer, so it ends with the buffer's last character. */
  lemma LastOfRest(buffer: string)
    ensures var rest := Split(buffer).rest;
            rest != [] ==> buffer[|buffer| - 1] == rest[|rest| - 1]
  {
    var f := Split(buffer);
    var j := Join(f.lines);
    assert buffer == j + f.rest;
    assert |buffer| == |j| + |f.rest|;
    if f.rest != [] {
      assert buffer[|buffer| - 1] == (j + f.rest)[|j| + |f.rest| - 1];
    }
  }

  /** A buffer with no line feed yields no line and stays whole. */
  lemma SplitNoNewline(buffer: string)
    requires '\n' !in buffer
    ensures Split(buffer) == Frames([], buffer)
  {
    SplitUnique(buffer, Frames([], buffer));
  }

  /** The records handed to the JSON stage: each line trimmed, blank ones dropped. */
  function Records(lines: seq<string>): (r: seq<string>)
    ensures |r| <= |lines|
    ensures forall i :: 0 <= i < |r| ==> r[i] != [] && IsTrimmed(r[i])
  {
    if lines == [] then []
    else
      var line := Trim(lines[0]);
      var tail := Records(lines[1..]);
      (if line == [] then [] else [line]) + tail
  }

  /** There are no records exactly when every line is blank. */
  lemma {:induction false} RecordsEmptyIff(lines: seq<string>)
    ensures Records(lines) == [] <==> forall i :: 0 <= i < |lines| ==> All(lines[i], IsWs)
    decreases |lines|
  {
    if lines != [] {
      RecordsEmptyIff(lines[1..]);
      assert forall i :: 1 <= i < |lines| ==> lines[i] == lines[1..][i - 1];
    }
  }

  lemma {:induction false} RecordsAppend(a: seq<string>, b: seq<string>)
    ensures Records(a + b) == Records(a) + Records(b)
    decreases |a|
  {
    if a == [] {
      assert a + b == b;
    } else {
      DropConcat(a, b);
      RecordsAppend(a[1..], b);
      var line := Trim(a[0]);
      var head := if line == [] then [] else [line];
      assert Records(a + b) == head + Records(a[1..] + b);
      assert Records(a) == head + Records(a[1..]);
      ConcatAssoc(head, Records(a[1..]), Records(b));
    }
  }

  /** One step of framing: the first line is cut off and the rest framed. */
  lemma SplitStep(buffer: string, pos: nat)
    requires FirstNewline(buffer) == Some(pos)
    ensures Split(buffer).lines == [buffer[..pos]] + Split(buffer[pos + 1..]).lines
    ensures Split(buffer).rest == Split(buffer[pos + 1..]).rest
  {
  }

  /** A single line is one record when it is not blank, and none otherwise. */
  lemma RecordsOfLine(line: string)
    ensures Records([line]) == if Trim(line) == [] then [] else [Trim(line)]
  {
    assert [line][1..] == [];
  }

  /** The drain loop of the source over one buffer: find the first line
      feed, trim what precedes it, remove it and its line feed from the
      buffer, and keep the trimmed line unless it is empty. */
  method DrainReady(buffer: string) returns (records: seq<string>, rest: string)
    ensures '\n' !in rest
    ensures Join(Split(buffer).lines) + rest == buffer
    ensures rest == Split(buffer).rest
    ensures records == Records(Split(buffer).lines)
  {
    rest := buffer;
    records := [];
    ghost var lines: seq<string> := [];
    var pos := FirstNewline(rest);
    while pos.Some?
      invariant pos == FirstNewline(rest)
      invariant Split(buffer).lines == lines + Split(rest).lines
      invariant Split(buffer).rest == Split(rest).rest
      invariant records == Records(lines)
      decreases |rest|
    {
      var p := pos.value;
      var line := Trim(rest[..p]);
      SplitStep(rest, p);
      RecordsAppend(lines, [rest[..p]]);
      RecordsOfLine(rest[..p]);
      ConcatAssoc(lines, [rest[..p]], Split(rest[p + 1..]).lines);
      lines := lines + [rest[..p]];
      rest := rest[p + 1..];
      if line != [] {
        records := records + [line];
      }
      pos := FirstNewline(rest);
    }
    SplitNoNewline(rest);
    assert lines + [] == lines;
  }
}
