/**
 * The stream consumer (src/main.rs lines 74-99) as a pure fold over the
 * outcomes of successive reads of the response body. Each non-empty
 * read is decoded as UTF-8 on its own, appended to the buffer, and the
 * buffer is drained; each record whose parsed `response` field is a
 * string contributes that string to the output, in order.
 *
 * UTF-8 decoding (`std::str::from_utf8`) and JSON parsing
 * (`serde_json::from_str`) are parameters: `decode` returns `None` on
 * invalid input, `parse` returns `None` when the text is not JSON.
 */
module Consumer {
  import opened Wrappers
  import opened Text
  import opened Framer
  import opened Sequences
  import opened Json

  newtype byte = b: int | 0 <= b < 256

  /** The outcome of one `reader.read`: the bytes read (none at end of
      stream), or an I/O error. */
  datatype Read = Data(bytes: seq<byte>) | ReadError

  /** The fatal errors that end an exchange through `?`. */
  datatype Error = Io | InvalidUtf8

  /** `Reading` when the reads given ran out before a stop was seen. */
  datatype Status = Reading | Ended | Aborted(error: Error)

  /** What an exchange has produced: the fragments written so far, the
      unterminated text left in the buffer, and how the loop stands. */
  datatype Exchange = Exchange(output: seq<string>, buffer: string, status: Status)

  /** The text a record contributes, if any. */
  function Token(record: string, parse: string -> Option<Json>): (t: Option<string>)
    ensures t.Some? <==> parse(record).Some? && ResponseField(parse(record).value).Some?
    ensures t.Some? ==> t == ResponseField(parse(record).value)
  {
    match parse(record)
    case None => None
    case Some(v) => ResponseField(v)
  }

  /** The fragments written for a sequence of records: the token of each
      record that has one, in order, unchanged. */
  function Emit(records: seq<string>, parse: string -> Option<Json>): (out: seq<string>)
    ensures |out| <= |records|
    ensures out == [] <==> forall i :: 0 <= i < |records| ==> Token(records[i], parse).None?
  {
    if records == [] then []
    else
      var tail := Emit(records[1..], parse);
      var head := match Token(records[0], parse) case Some(s) => [s] case None => [];
      assert forall i :: 1 <= i < |records| ==> records[i] == records[1..][i - 1];
      head + tail
  }

  /** Every fragment written is the token of some record. */
  lemma {:induction false} EmitFromRecords(records: seq<string>, parse: string -> Option<Json>)
    ensures forall k :: 0 <= k < |Emit(records, parse)| ==>
              exists i :: 0 <= i < |records| && Token(records[i], parse) == Some(Emit(records, parse)[k])
    decreases |records|
  {
    if records != [] {
      EmitFromRecords(records[1..], parse);
      var tail := Emit(records[1..], parse);
      var head := match Token(records[0], parse) case Some(s) => [s] case None => [];
      assert Emit(records, parse) == head + tail;
      forall k | 0 <= k < |Emit(records, parse)|
        ensures exists i :: 0 <= i < |records| && Token(records[i], parse) == Some(Emit(records, parse)[k])
      {
        if k < |head| {
          assert Token(records[0], parse) == Some((head + tail)[k]);
        } else {
          assert (head + tail)[k] == tail[k - |head|];
          var i' :| 0 <= i' < |records[1..]| && Token(records[1..][i'], parse) == Some(tail[k - |head|]);
          assert records[i' + 1] == records[1..][i'];
        }
      }
    } else {
      assert |Emit(records, parse)| == 0;
    }
  }

  lemma {:induction false} EmitAppend(a: seq<string>, b: seq<string>, parse: string -> Option<Json>)
    ensures Emit(a + b, parse) == Emit(a, parse) + Emit(b, parse)
    decreases |a|
  {
    if a == [] {
      assert a + b == b;
    } else {
      DropConcat(a, b);
      EmitAppend(a[1..], b, parse);
      var head := match Token(a[0], parse) case Some(s) => [s] case None => [];
      assert Emit(a + b, parse) == head + Emit(a[1..] + b, parse);
      assert Emit(a, parse) == head + Emit(a[1..], parse);
      ConcatAssoc(head, Emit(a[1..], parse), Emit(b, parse));
    }
  }

  /** The fragments a whole text yields when framed in one piece: the
      reference against which the chunked consumer is measured. */
  function Responses(text: string, parse: string -> Option<Json>): seq<string> {
    Emit(Records(Split(text).lines), parse)
  }

  /** The read loop, from a buffer holding what earlier reads left. */
  function Run(buffer: string, stream: seq<Read>, decode: seq<byte> -> Option<string>,
               parse: string -> Option<Json>): (e: Exchange)
    ensures e.buffer == buffer || '\n' !in e.buffer
    ensures e.status == Reading ==> forall i :: 0 <= i < |stream| ==> stream[i].Data? && stream[i].bytes != []
    decreases |stream|
  {
    if stream == [] then Exchange([], buffer, Reading)
    else match stream[0]
      case ReadError => Exchange([], buffer, Aborted(Io))
      case Data(bytes) =>
        if bytes == [] then Exchange([], buffer, Ended)
        else match decode(bytes)
          case None => Exchange([], buffer, Aborted(InvalidUtf8))
          case Some(text) =>
            var f := Split(buffer + text);
            var next := Run(f.rest, stream[1..], decode, parse);
            assert forall i :: 1 <= i < |stream| ==> stream[i] == stream[1..][i - 1];
            Exchange(Emit(Records(f.lines), parse) + next.output, next.buffer, next.status)
  }

  /** The whole exchange: the loop from an empty buffer. */
  function Consume(stream: seq<Read>, decode: seq<byte> -> Option<string>,
                   parse: string -> Option<Json>): (e: Exchange)
    ensures '\n' !in e.buffer
  {
    Run([], stream, decode, parse)
  }

  /** What the reads deliver as text: the decoded chunks concatenated up
      to the first stop, and how the reading stopped. */
  datatype Received = Received(text: string, status: Status)

  function Receive(stream: seq<Read>, decode: seq<byte> -> Option<string>): (r: Received)
    decreases |stream|
  {
    if stream == [] then Received([], Reading)
    else match stream[0]
      case ReadError => Received([], Aborted(Io))
      case Data(bytes) =>
        if bytes == [] then Received([], Ended)
        else match decode(bytes)
          case None => Received([], Aborted(InvalidUtf8))
          case Some(text) =>
            var next := Receive(stream[1..], decode);
            Received(text + next.text, next.status)
  }

  /** The consumer's output depends only on the text the reads deliver:
      it is what framing that text in one piece yields, and the buffer
      keeps exactly the text after its last line feed. */
  lemma {:induction false} RunMatchesText(buffer: string, stream: seq<Read>,
                                          decode: seq<byte> -> Option<string>,
                                          parse: string -> Option<Json>)
    requires '\n' !in buffer
    ensures var r := Receive(stream, decode);
            Run(buffer, stream, decode, parse)
            == Exchange(Responses(buffer + r.text, parse), Split(buffer + r.text).rest, r.status)
    decreases |stream|
  {
    var r := Receive(stream, decode);
    if stream == [] || stream[0].ReadError? || stream[0].bytes == [] || decode(stream[0].bytes).None? {
      assert r.text == [];
      assert buffer + r.text == buffer;
      SplitNoNewline(buffer);
      assert Records([]) == [];
    } else {
      var text := decode(stream[0].bytes).value;
      var next := Receive(stream[1..], decode);
      assert r == Received(text + next.text, next.status);
      var f := Split(buffer + text);
      RunMatchesText(f.rest, stream[1..], decode, parse);
      StepMatchesText(buffer, text, next.text, parse);
    }
  }

  /** One decoded chunk: emitting its complete records, then framing
      the remainder with everything later, frames the whole text. */
  lemma {:induction false} StepMatchesText(buffer: string, text: string, later: string, parse: string -> Option<Json>)
    ensures var f := Split(buffer + text);
            && Emit(Records(f.lines), parse) + Responses(f.rest + later, parse)
               == Responses(buffer + (text + later), parse)
            && Split(f.rest + later).rest == Split(buffer + (text + later)).rest
  {
    var f := Split(buffer + text);
    ConcatAssoc(buffer, text, later);
    SplitAppend(buffer + text, later);
    var g := Split(f.rest + later);
    RecordsAppend(f.lines, g.lines);
    EmitAppend(Records(f.lines), Records(g.lines), parse);
  }

  lemma ConsumeMatchesText(stream: seq<Read>, decode: seq<byte> -> Option<string>,
                           parse: string -> Option<Json>)
    ensures var r := Receive(stream, decode);
            Consume(stream, decode, parse)
            == Exchange(Responses(r.text, parse), Split(r.text).rest, r.status)
  {
    RunMatchesText([], stream, decode, parse);
    assert [] + Receive(stream, decode).text == Receive(stream, decode).text;
  }

  /** Two streams that deliver the same text and stop the same way give
      the same exchange, however the text was cut into reads. */
  lemma ChunkingInvariant(s1: seq<Read>, s2: seq<Read>, decode: seq<byte> -> Option<string>,
                          parse: string -> Option<Json>)
    requires Receive(s1, decode) == Receive(s2, decode)
    ensures Consume(s1, decode, parse) == Consume(s2, decode, parse)
  {
    ConsumeMatchesText(s1, decode, parse);
    ConsumeMatchesText(s2, decode, parse);
  }

  /** Decoding that maps a concatenation of valid inputs to the
      concatenation of their decodings, as UTF-8 decoding does. */
  ghost predicate Homomorphic(decode: seq<byte> -> Option<string>) {
    forall a, b {:trigger decode(a + b)} :: decode(a).Some? && decode(b).Some? ==>
      decode(a + b) == Some(decode(a).value + decode(b).value)
  }

  /** Every read delivered bytes that decode on their own. */
  predicate ValidChunks(stream: seq<Read>, decode: seq<byte> -> Option<string>) {
    forall i :: 0 <= i < |stream| ==>
      stream[i].Data? && stream[i].bytes != [] && decode(stream[i].bytes).Some?
  }

  /** The bytes of a stream, read by read. */
  function Flatten(stream: seq<Read>): seq<byte> {
    if stream == [] then []
    else (if stream[0].Data? then stream[0].bytes else []) + Flatten(stream[1..])
  }

  lemma {:induction false} DecodeFlatten(stream: seq<Read>, decode: seq<byte> -> Option<string>)
    requires Homomorphic(decode) && ValidChunks(stream, decode) && stream != []
    ensures decode(Flatten(stream)) == Some(Receive(stream, decode).text)
    ensures Receive(stream, decode).status == Reading
    decreases |stream|
  {
    var bytes := stream[0].bytes;
    var text := decode(bytes).value;
    assert Flatten(stream) == bytes + Flatten(stream[1..]);
    if |stream| == 1 {
      assert stream[1..] == [];
      assert bytes + [] == bytes;
      assert Receive(stream, decode) == Received(text + [], Reading);
      assert text + [] == text;
    } else {
      assert ValidChunks(stream[1..], decode) by {
        forall i | 0 <= i < |stream[1..]| ensures stream[1..][i] == stream[i + 1] { }
      }
      DecodeFlatten(stream[1..], decode);
      var rest := Flatten(stream[1..]);
      assert decode(bytes).Some? && decode(rest).Some?;
      assert decode(bytes + rest) == Some(text + decode(rest).value);
    }
  }

  /** The loop is still reading exactly when every read so far delivered
      bytes that decode on their own. */
  lemma {:induction false} ReadingIffValid(stream: seq<Read>, decode: seq<byte> -> Option<string>)
    ensures Receive(stream, decode).status == Reading <==> ValidChunks(stream, decode)
    decreases |stream|
  {
    if stream != [] {
      ReadingIffValid(stream[1..], decode);
      forall i | 0 <= i < |stream[1..]|
        ensures stream[1..][i] == stream[i + 1]
      {
      }
    }
  }

  /** Valid reads are never empty, so they flatten to nothing only when there are none. */
  lemma FlattenEmpty(stream: seq<Read>, decode: seq<byte> -> Option<string>)
    requires ValidChunks(stream, decode)
    ensures Flatten(stream) == [] <==> stream == []
  {
    if stream != [] {
      assert Flatten(stream) == stream[0].bytes + Flatten(stream[1..]);
    }
  }

  /** Once reads that keep the loop going are done, the rest of the
      stream is received after them. */
  lemma {:induction false} ReceiveAppend(s: seq<Read>, t: seq<Read>, decode: seq<byte> -> Option<string>)
    requires Receive(s, decode).status == Reading
    ensures Receive(s + t, decode)
            == Received(Receive(s, decode).text + Receive(t, decode).text, Receive(t, decode).status)
    decreases |s|
  {
    if s == [] {
      assert s + t == t;
    } else {
      DropConcat(s, t);
      ReceiveAppend(s[1..], t, decode);
    }
  }

  /** Chunking invariance at the level of bytes: as long as every read
      decodes on its own, the exchange depends only on the bytes, not on
      where the reads split them. */
  lemma ByteChunkingInvariant(s1: seq<Read>, s2: seq<Read>, rest: seq<Read>,
                              decode: seq<byte> -> Option<string>, parse: string -> Option<Json>)
    requires Homomorphic(decode)
    requires ValidChunks(s1, decode) && ValidChunks(s2, decode)
    requires Flatten(s1) == Flatten(s2)
    ensures Consume(s1 + rest, decode, parse) == Consume(s2 + rest, decode, parse)
  {
    FlattenEmpty(s1, decode);
    FlattenEmpty(s2, decode);
    if s1 != [] {
      DecodeFlatten(s1, decode);
      DecodeFlatten(s2, decode);
      ReceiveAppend(s1, rest, decode);
      ReceiveAppend(s2, rest, decode);
      ChunkingInvariant(s1 + rest, s2 + rest, decode, parse);
    }
  }

  /** A stop is final: reads after it are never looked at. */
  lemma {:induction false} StopIsFinal(buffer: string, p: seq<Read>, q: seq<Read>,
                                       decode: seq<byte> -> Option<string>, parse: string -> Option<Json>)
    requires Run(buffer, p, decode, parse).status != Reading
    ensures Run(buffer, p + q, decode, parse) == Run(buffer, p, decode, parse)
    decreases |p|
  {
    DropConcat(p, q);
    if p[0].Data? && p[0].bytes != [] && decode(p[0].bytes).Some? {
      var f := Split(buffer + decode(p[0].bytes).value);
      RunStep(buffer, p, decode, parse);
      RunStep(buffer, p + q, decode, parse);
      StopIsFinal(f.rest, p[1..], q, decode, parse);
    }
  }

  /** While reading continues, later reads pick up from the buffer the
      earlier ones left, and their output follows the earlier output. */
  lemma {:induction false} RunCompose(buffer: string, p: seq<Read>, q: seq<Read>,
                                      decode: seq<byte> -> Option<string>, parse: string -> Option<Json>)
    requires Run(buffer, p, decode, parse).status == Reading
    ensures var e := Run(buffer, p, decode, parse);
            var later := Run(e.buffer, q, decode, parse);
            Run(buffer, p + q, decode, parse) == Exchange(e.output + later.output, later.buffer, later.status)
    decreases |p|
  {
    if p == [] {
      assert p + q == q;
    } else {
      var f := Split(buffer + decode(p[0].bytes).value);
      var out := Emit(Records(f.lines), parse);
      DropConcat(p, q);
      RunStep(buffer, p, decode, parse);
      RunStep(buffer, p + q, decode, parse);
      RunCompose(f.rest, p[1..], q, decode, parse);
      var tail := Run(f.rest, p[1..], decode, parse);
      ConcatAssoc(out, tail.output, Run(tail.buffer, q, decode, parse).output);
    }
  }

  /** Output is written as it arrives and never retracted: reading more
      only appends to it. */
  lemma OutputOnlyGrows(buffer: string, p: seq<Read>, q: seq<Read>,
                        decode: seq<byte> -> Option<string>, parse: string -> Option<Json>)
    ensures Run(buffer, p, decode, parse).output <= Run(buffer, p + q, decode, parse).output
  {
    if Run(buffer, p, decode, parse).status == Reading {
      RunCompose(buffer, p, q, decode, parse);
    } else {
      StopIsFinal(buffer, p, q, decode, parse);
    }
  }

  /** A read that delivers valid text emits the records it completes and
      carries the rest of the buffer on to the next read. */
  lemma RunStep(buffer: string, stream: seq<Read>, decode: seq<byte> -> Option<string>,
                parse: string -> Option<Json>)
    requires stream != [] && stream[0].Data? && stream[0].bytes != []
    requires decode(stream[0].bytes).Some?
    ensures var f := Split(buffer + decode(stream[0].bytes).value);
            var next := Run(f.rest, stream[1..], decode, parse);
            Run(buffer, stream, decode, parse)
            == Exchange(Emit(Records(f.lines), parse) + next.output, next.buffer, next.status)
  {
  }

  /** How each kind of stop ends the exchange, after reads that all
      delivered valid bytes: a zero-length read ends it
      cleanly, a read error or a chunk that is not valid UTF-8 on its own
      aborts it; either way the output written before stays and nothing
      read afterwards counts. A chunk is judged alone, so one that ends
      inside a multi-byte character aborts even if the next read would
      complete the character. */
  lemma StopRead(before: seq<Read>, s: Read, after: seq<Read>,
                 decode: seq<byte> -> Option<string>, parse: string -> Option<Json>)
    requires ValidChunks(before, decode)
    ensures var e := Consume(before, decode, parse);
            s == Data([]) ==>
              Consume(before + [s] + after, decode, parse) == Exchange(e.output, e.buffer, Ended)
    ensures var e := Consume(before, decode, parse);
            s == ReadError ==>
              Consume(before + [s] + after, decode, parse) == Exchange(e.output, e.buffer, Aborted(Io))
    ensures var e := Consume(before, decode, parse);
            s.Data? && s.bytes != [] && decode(s.bytes).None? ==>
              Consume(before + [s] + after, decode, parse) == Exchange(e.output, e.buffer, Aborted(InvalidUtf8))
  {
    ValidKeepsReading(before, decode, parse);
    var e := Consume(before, decode, parse);
    assert before + [s] + after == before + ([s] + after);
    RunCompose([], before, [s] + after, decode, parse);
    var later := Run(e.buffer, [s] + after, decode, parse);
    assert Consume(before + [s] + after, decode, parse)
           == Exchange(e.output + later.output, later.buffer, later.status);
    StopFirst(e.buffer, s, after, decode, parse);
    if s == Data([]) || s == ReadError || (s.Data? && s.bytes != [] && decode(s.bytes).None?) {
      assert later.output == [] && later.buffer == e.buffer;
      assert e.output + [] == e.output;
    }
  }

  /** Reads that all deliver valid bytes leave the loop reading. */
  lemma ValidKeepsReading(stream: seq<Read>, decode: seq<byte> -> Option<string>,
                          parse: string -> Option<Json>)
    requires ValidChunks(stream, decode)
    ensures Consume(stream, decode, parse).status == Reading
  {
    ReadingIffValid(stream, decode);
    ConsumeMatchesText(stream, decode, parse);
  }

  /** A stopping read at the head of the stream writes nothing and keeps the buffer. */
  lemma StopFirst(buffer: string, s: Read, after: seq<Read>,
                  decode: seq<byte> -> Option<string>, parse: string -> Option<Json>)
    ensures s == Data([]) ==> Run(buffer, [s] + after, decode, parse) == Exchange([], buffer, Ended)
    ensures s == ReadError ==> Run(buffer, [s] + after, decode, parse) == Exchange([], buffer, Aborted(Io))
    ensures s.Data? && s.bytes != [] && decode(s.bytes).None? ==>
              Run(buffer, [s] + after, decode, parse) == Exchange([], buffer, Aborted(InvalidUtf8))
  {
    assert ([s] + after)[0] == s;
  }

  /** Text after the last line feed is never emitted. */
  lemma TrailingPartialNotEmitted(text: string, partial: string, parse: string -> Option<Json>)
    requires text == [] || text[|text| - 1] == '\n'
    requires '\n' !in partial
    ensures Responses(text + partial, parse) == Responses(text, parse)
    ensures Split(text + partial).rest == partial
  {
    var f := Split(text);
    LastOfRest(text);
    assert f.rest + partial == partial;
    SplitAppend(text, partial);
    SplitNoNewline(partial);
    assert f.lines + [] == f.lines;
  }

  /** A record followed by others contributes its token first. */
  lemma EmitOne(records: seq<string>, j: nat, parse: string -> Option<Json>)
    requires j < |records|
    ensures Emit(records[..j + 1], parse)
            == Emit(records[..j], parse)
               + (match Token(records[j], parse) case Some(t) => [t] case None => [])
  {
    assert records[..j + 1] == records[..j] + [records[j]];
    EmitAppend(records[..j], [records[j]], parse);
    assert [records[j]][1..] == [];
  }

  /** One valid read keeps the read loop's invariant: the records the
      read completes are written, and the rest of the buffer is kept. */
  lemma ReadStepKeepsInvariant(stream: seq<Read>, i: nat, buffer: string, text: string,
                               before: seq<string>, decode: seq<byte> -> Option<string>,
                               parse: string -> Option<Json>)
    requires i < |stream| && stream[i].Data? && stream[i].bytes != []
    requires decode(stream[i].bytes) == Some(text)
    ensures var e := Run(buffer, stream[i..], decode, parse);
            var f := Split(buffer + text);
            var e' := Run(f.rest, stream[i + 1..], decode, parse);
            Exchange(before + e.output, e.buffer, e.status)
            == Exchange((before + Emit(Records(f.lines), parse)) + e'.output, e'.buffer, e'.status)
  {
    var f := Split(buffer + text);
    assert stream[i..][0] == stream[i] && stream[i..][1..] == stream[i + 1..];
    RunStep(buffer, stream[i..], decode, parse);
    ConcatAssoc(before, Emit(Records(f.lines), parse), Run(f.rest, stream[i + 1..], decode, parse).output);
  }

  /** Each chunk is decoded on its own: bytes that are valid UTF-8 only
      together, such as a character split across two reads, abort the
      exchange, while the same bytes in one read are accepted. */
  lemma SplitCharacterAborts(d1: seq<byte>, d2: seq<byte>,
                             decode: seq<byte> -> Option<string>, parse: string -> Option<Json>)
    requires d1 != [] && d2 != [] && decode(d1).None? && decode(d1 + d2).Some?
    ensures Consume([Data(d1), Data(d2)], decode, parse).status == Aborted(InvalidUtf8)
    ensures Consume([Data(d1 + d2)], decode, parse).status == Reading
  {
    ConsumeMatchesText([Data(d1), Data(d2)], decode, parse);
    ConsumeMatchesText([Data(d1 + d2)], decode, parse);
    assert [Data(d1 + d2)][1..] == [];
  }

  /** The JSON stage of the drain loop: for each record in turn, write
      the string `response` field of the parsed record, if there is one. */
  method WriteTokens(records: seq<string>, parse: string -> Option<Json>) returns (written: seq<string>)
    ensures written == Emit(records, parse)
  {
    written := [];
    var j := 0;
    while j < |records|
      invariant 0 <= j <= |records|
      invariant written == Emit(records[..j], parse)
    {
      EmitOne(records, j, parse);
      var token := Token(records[j], parse);
      if token.Some? {
        written := written + [token.value];
      }
      j := j + 1;
    }
    assert records[..j] == records;
  }

  /** The read loop as the source writes it: read, stop on a zero-length
      read, decode the chunk, append it to the buffer, drain the buffer,
      and write the `response` string of each record. Returns what was
      written, the final buffer, and how the loop stopped. */
  method ConsumeStream(stream: seq<Read>, decode: seq<byte> -> Option<string>,
                       parse: string -> Option<Json>)
    returns (output: seq<string>, buffer: string, status: Status)
    ensures '\n' !in buffer
    ensures Exchange(output, buffer, status) == Consume(stream, decode, parse)
  {
    output := [];
    buffer := [];
    var i := 0;
    while i < |stream|
      invariant 0 <= i <= |stream|
      invariant '\n' !in buffer
      invariant var e := Run(buffer, stream[i..], decode, parse);
                Consume(stream, decode, parse) == Exchange(output + e.output, e.buffer, e.status)
    {
      assert stream[i..][0] == stream[i];
      match stream[i] {
        case ReadError =>
          assert output + [] == output;
          return output, buffer, Aborted(Io);
        case Data(bytes) =>
          if |bytes| == 0 {
            assert output + [] == output;
            return output, buffer, Ended;
          }
          match decode(bytes) {
            case None =>
              assert output + [] == output;
              return output, buffer, Aborted(InvalidUtf8);
            case Some(text) =>
              var records, rest := DrainReady(buffer + text);
              var written := WriteTokens(records, parse);
              ghost var before := output;
              output := output + written;
              ReadStepKeepsInvariant(stream, i, buffer, text, before, decode, parse);
              buffer := rest;
          }
      }
      i := i + 1;
    }
    assert stream[i..] == [];
    assert output + [] == output;
    status := Reading;
  }

  /** The two-read example of a record split across reads: the first
      read completes one record and starts another, the second completes
      it. Each record is emitted once, whole, in order, and a zero-length
      read then ends the exchange with nothing left over. */
  lemma SplitRecordScenario(d1: seq<byte>, d2: seq<byte>, r1: string, a: string, b: string,
                            decode: seq<byte> -> Option<string>, parse: string -> Option<Json>)
    requires d1 != [] && d2 != []
    requires decode(d1) == Some(r1 + "\n" + a) && decode(d2) == Some(b + "\n")
    requires '\n' !in r1 && '\n' !in a + b
    requires IsTrimmed(r1) && IsTrimmed(a + b) && r1 != [] && a + b != []
    requires Token(r1, parse).Some? && Token(a + b, parse).Some?
    ensures Consume([Data(d1), Data(d2), Data([])], decode, parse)
            == Exchange([Token(r1, parse).value, Token(a + b, parse).value], [], Ended)
  {
    ReceiveTwoReads(d1, d2, r1 + "\n" + a, b + "\n", decode);
    ConsumeMatchesText([Data(d1), Data(d2), Data([])], decode, parse);
    ResponsesOfTwoLines(r1, a, b, parse);
  }

  lemma ResponsesOfTwoLines(r1: string, a: string, b: string, parse: string -> Option<Json>)
    requires '\n' !in r1 && '\n' !in a + b
    requires IsTrimmed(r1) && IsTrimmed(a + b) && r1 != [] && a + b != []
    requires Token(r1, parse).Some? && Token(a + b, parse).Some?
    ensures var text := (r1 + "\n" + a) + (b + "\n");
            && Split(text).rest == []
            && Responses(text, parse) == [Token(r1, parse).value, Token(a + b, parse).value]
  {
    var text := (r1 + "\n" + a) + (b + "\n");
    TwoLines(r1, a, b);
    SplitUnique(text, Frames([r1, a + b], []));
    RecordsOfTrimmed(r1, a + b);
    EmitOfTokens(r1, a + b, parse);
  }

  lemma ReceiveTwoReads(d1: seq<byte>, d2: seq<byte>, t1: string, t2: string,
                        decode: seq<byte> -> Option<string>)
    requires d1 != [] && d2 != []
    requires decode(d1) == Some(t1) && decode(d2) == Some(t2)
    ensures Receive([Data(d1), Data(d2), Data([])], decode) == Received(t1 + t2, Ended)
  {
    var stream := [Data(d1), Data(d2), Data([])];
    assert stream[1..] == [Data(d2), Data([])] && stream[1..][1..] == [Data([])];
    assert Receive(stream[1..][1..], decode) == Received([], Ended);
    assert t2 + [] == t2;
  }

  lemma TwoLines(r1: string, a: string, b: string)
    ensures Join([r1, a + b]) + [] == (r1 + "\n" + a) + (b + "\n")
  {
    assert [r1, a + b][1..] == [a + b] && [a + b][1..] == [];
    assert Join([a + b]) == (a + b) + "\n" + [];
  }

  lemma RecordsOfTrimmed(x: string, y: string)
    requires IsTrimmed(x) && IsTrimmed(y) && x != [] && y != []
    ensures Records([x, y]) == [x, y]
  {
    TrimTrimmed(x);
    TrimTrimmed(y);
    assert [x, y][1..] == [y] && [y][1..] == [];
    assert Records([y]) == [y];
  }

  lemma EmitOfTokens(x: string, y: string, parse: string -> Option<Json>)
    requires Token(x, parse).Some? && Token(y, parse).Some?
    ensures Emit([x, y], parse) == [Token(x, parse).value, Token(y, parse).value]
  {
    assert [x, y] == [x] + [y];
    EmitAppend([x], [y], parse);
    assert [x][1..] == [] && [y][1..] == [];
  }
}
