/**
  The response-stream log of a task (tasks.py): a Redis string holding one snapshot line and the
  deltas since, extended by a script that compares the length before it appends.

  One object is one task's key together with the single writer that streams into it.  Every method
  is one Redis command (or one client call with its retries), so every run of writer, readers,
  clearing and expiry is a sequence of calls, and what `Valid` says holds throughout.
 */
module ResponseStream {
  import opened Prelude
  import opened ResponseDelta

  // ---------- Lines and framing ----------

  datatype Line = Snapshot(output: Output) | Delta(event: Event)

  /** The JSON codec: lines come back as they were, and their text has no newline. */
  datatype Codec = Codec(encode: Line -> string, decode: string -> Option<Line>) {
    ghost predicate Good() {
      forall l {:trigger encode(l)} :: encode(l) != [] && '\n' !in encode(l) && decode(encode(l)) == Some(l)
    }

    function Framed(l: Line): (r: string)
      ensures |r| > 0
    {
      encode(l) + "\n"
    }

    function Frame(lines: seq<Line>): string {
      if lines == [] then [] else Framed(lines[0]) + Frame(lines[1..])
    }
  }

  function NonEmpty(lines: seq<string>): seq<string> {
    if lines == [] then []
    else (if lines[0] == [] then [] else [lines[0]]) + NonEmpty(lines[1..])
  }

  function DecodeAll(codec: Codec, lines: seq<string>): Option<seq<Line>> {
    if lines == [] then Some([])
    else
      var first, rest := codec.decode(lines[0]), DecodeAll(codec, lines[1..]);
      if first.None? || rest.None? then None else Some([first.value] + rest.value)
  }

  /** Splitting, dropping blanks and decoding undoes framing. */
  lemma {:induction false} FrameRoundTrip(codec: Codec, lines: seq<Line>)
    requires codec.Good()
    ensures DecodeAll(codec, NonEmpty(Split(codec.Frame(lines), '\n'))) == Some(lines)
  {
    if lines == [] {
      assert NonEmpty([[]]) == NonEmpty([]);
    } else {
      var a, b := codec.encode(lines[0]), codec.Frame(lines[1..]);
      SplitSegment(a, b, '\n');
      FrameRoundTrip(codec, lines[1..]);
      assert ([a] + Split(b, '\n'))[1..] == Split(b, '\n');
      assert NonEmpty([a] + Split(b, '\n')) == [a] + NonEmpty(Split(b, '\n'));
      assert ([a] + NonEmpty(Split(b, '\n')))[1..] == NonEmpty(Split(b, '\n'));
      assert [lines[0]] + lines[1..] == lines;
    }
  }

  lemma {:induction false} FrameAppend(codec: Codec, lines: seq<Line>, l: Line)
    ensures codec.Frame(lines + [l]) == codec.Frame(lines) + codec.Framed(l)
  {
    if lines == [] {
      assert [l][1..] == [];
    } else {
      assert (lines + [l])[1..] == lines[1..] + [l];
      FrameAppend(codec, lines[1..], l);
    }
  }

  // ---------- Decoding a stored value ----------

  function DeltasOf(lines: seq<Line>): Option<seq<Event>> {
    if lines == [] then Some([])
    else
      var rest := DeltasOf(lines[1..]);
      if lines[0].Snapshot? || rest.None? then None else Some([lines[0].event] + rest.value)
  }

  /** The meaning of a decoded log: its snapshot with the deltas applied in order. */
  ghost function Replay(lines: seq<Line>): Result<Output> {
    if lines == [] || lines[0].Delta? || DeltasOf(lines[1..]).None? then Err
    else Sequential(DeltasOf(lines[1..]).value, lines[0].output)
  }

  /** What decoding makes of it. */
  ghost function Decoded(lines: seq<Line>): Result<Output> {
    if lines == [] || lines[0].Delta? || DeltasOf(lines[1..]).None? then Err
    else Grouped(DeltasOf(lines[1..]).value, lines[0].output)
  }

  ghost predicate AllAppend(lines: seq<Line>) {
    forall k :: 0 <= k < |lines| && lines[k].Delta? ==> Appends(lines[k].event)
  }

  lemma {:induction false} DeltasOfAppend(lines: seq<Line>)
    requires DeltasOf(lines).Some? && AllAppend(lines)
    ensures forall k :: 0 <= k < |DeltasOf(lines).value| ==> Appends(DeltasOf(lines).value[k])
  {
    if lines != [] {
      DeltasOfAppend(lines[1..]);
    }
  }

  method Load(codec: Codec, value: string) returns (r: Result<Output>)
    requires codec.Good()
    ensures forall lines :: value == codec.Frame(lines) ==>
              r == Decoded(lines) && (AllAppend(lines) ==> r == Replay(lines))
  {
    var decoded := DecodeAll(codec, NonEmpty(Split(value, '\n')));
    forall lines | value == codec.Frame(lines)
      ensures decoded == Some(lines)
    {
      FrameRoundTrip(codec, lines);
    }
    if decoded.None? || decoded.value == [] || decoded.value[0].Delta? {
      return Err;
    }
    var deltas := DeltasOf(decoded.value[1..]);
    if deltas.None? {
      return Err;
    }
    if AllAppend(decoded.value) {
      DeltasOfAppend(decoded.value[1..]);
    }
    r := LoadDeltas(decoded.value[0].output, deltas.value);
  }

  // ---------- Logs of a writer's history ----------

  /** The snapshot taken at `start` and the `length` deltas that followed it. */
  ghost function Log(history: seq<Output>, events: seq<Option<Event>>, start: nat, length: nat): seq<Line>
    requires start < |history| && start + length <= |events|
    requires forall k :: start <= k < start + length ==> events[k].Some?
  {
    [Snapshot(history[start])] + seq(length, k requires 0 <= k < length => Delta(events[start + k].value))
  }

  /** Step k of the history applied delta k, or did something the log does not record. */
  ghost predicate Follows(history: seq<Output>, events: seq<Option<Event>>) {
    |history| == |events| + 1 &&
    forall k :: 0 <= k < |events| && events[k].Some? ==>
      EndsWith(events[k].value.eventType, SUFFIX) && Handle(events[k].value, history[k]) == Ok(history[k + 1])
  }

  lemma {:induction false} DeltasOfSeq(es: seq<Event>)
    ensures DeltasOf(seq(|es|, k requires 0 <= k < |es| => Delta(es[k]))) == Some(es)
  {
    if es != [] {
      DeltasOfSeq(es[1..]);
      var lines := seq(|es|, k requires 0 <= k < |es| => Delta(es[k]));
      assert lines[0] == Delta(es[0]);
      assert [es[0]] + es[1..] == es;
      assert lines[1..] == seq(|es[1..]|, k requires 0 <= k < |es[1..]| => Delta(es[1..][k]));
    }
  }

  lemma {:induction false} SequentialFollows(history: seq<Output>, events: seq<Option<Event>>, start: nat, es: seq<Event>)
    requires Follows(history, events) && start + |es| <= |events|
    requires forall k :: 0 <= k < |es| ==> events[start + k] == Some(es[k])
    ensures Sequential(es, history[start]) == Ok(history[start + |es|])
    decreases |es|
  {
    if es != [] {
      assert events[start + 0] == Some(es[0]);
      assert forall k :: 0 <= k < |es| - 1 ==> es[1..][k] == es[k + 1];
      SequentialFollows(history, events, start + 1, es[1..]);
    }
  }

  /** Such a log replays to the position in the history right after its last delta. */
  lemma LogReplays(history: seq<Output>, events: seq<Option<Event>>, start: nat, length: nat)
    requires Follows(history, events) && start + length <= |events|
    requires forall k :: start <= k < start + length ==> events[k].Some?
    ensures Replay(Log(history, events, start, length)) == Ok(history[start + length])
  {
    var es := seq(length, k requires 0 <= k < length => events[start + k].value);
    DeltasOfSeq(es);
    SequentialFollows(history, events, start, es);
    assert Log(history, events, start, length)[1..] == seq(|es|, k requires 0 <= k < |es| => Delta(es[k]));
  }

  lemma FollowsStep(history: seq<Output>, events: seq<Option<Event>>, output: Output, e: Option<Event>)
    requires Follows(history, events)
    requires e.Some? ==> EndsWith(e.value.eventType, SUFFIX) && Handle(e.value, history[|events|]) == Ok(output)
    ensures Follows(history + [output], events + [e])
  {
  }

  /** A later step leaves the stored log what it was, and a logged delta extends a current one. */
  lemma LogStep(codec: Codec, history: seq<Output>, events: seq<Option<Event>>, start: nat, length: nat, output: Output,
                e: Option<Event>)
    requires |history| == |events| + 1 && start + length <= |events|
    requires forall k :: start <= k < start + length ==> events[k].Some?
    ensures var history', events' := history + [output], events + [e];
            (forall k :: start <= k < start + length ==> events'[k].Some?) &&
            Log(history', events', start, length) == Log(history, events, start, length) &&
            (start + length == |events| && e.Some? ==>
               (forall k :: start <= k < start + length + 1 ==> events'[k].Some?) &&
               codec.Frame(Log(history', events', start, length + 1)) ==
               codec.Frame(Log(history, events, start, length)) + codec.Framed(Delta(e.value)))
  {
    var history', events' := history + [output], events + [e];
    var lines := Log(history, events, start, length);
    assert Log(history', events', start, length) == lines;
    if start + length == |events| && e.Some? {
      assert Log(history', events', start, length + 1) == lines + [Delta(e.value)];
      FrameAppend(codec, lines, Delta(e.value));
    }
  }

  // ---------- The stream ----------

  class Stream {
    const codec: Codec
    var stored: Option<string>   // the Redis string, None when the key does not exist
    var streamSize: nat          // 0 says that the next write must be a snapshot
    var snapshotSize: nat
    var output: Output           // what the writer has assembled so far
    ghost var history: seq<Output>
    ghost var events: seq<Option<Event>>
    ghost var start: nat         // the stored log is Log(history, events, start, length)
    ghost var length: nat

    ghost predicate LogFits()
      reads this
    {
      start < |history| && start + length <= |events| && forall k :: start <= k < start + length ==> events[k].Some?
    }

    ghost predicate Valid()
      reads this
    {
      codec.Good() && Follows(history, events) && output == history[|events|] &&
      (stored.Some? ==>
         LogFits() && stored.value == codec.Frame(Log(history, events, start, length)) &&
         |stored.value| <= 2 * |codec.Framed(Snapshot(history[start]))|) &&
      (stored.Some? && streamSize > 0 ==>
         start + length == |events| && |stored.value| == streamSize &&
         snapshotSize == |codec.Framed(Snapshot(history[start]))|)
    }

    constructor (codec: Codec, output: Output)
      requires codec.Good()
      ensures Valid() && this.codec == codec && this.output == output && stored == None
      ensures history == [output] && events == []
    {
      this.codec, this.output := codec, output;
      stored, streamSize, snapshotSize := None, 0, 0;
      history, events, start, length := [output], [], 0, 0;
    }

    /** Write a snapshot.  The command may be lost, and its acknowledgement may be lost. */
    method Save(delivered: bool, acknowledged: bool)
      requires Valid() && (acknowledged ==> delivered)
      modifies this
      ensures Valid()
      ensures history == old(history) && events == old(events) && output == old(output)
      ensures stored == if delivered then Some(codec.Frame([Snapshot(output)])) else old(stored)
      ensures streamSize == snapshotSize == if acknowledged then |codec.Framed(Snapshot(output))| else 0
    {
      var snapshot := codec.Framed(Snapshot(output));
      if delivered {
        stored := Some(snapshot);
        start, length := |events|, 0;
        assert Log(history, events, start, 0) == [Snapshot(output)];
        assert [Snapshot(output)][1..] == [];
        assert codec.Frame([Snapshot(output)]) == snapshot + [];
      }
      streamSize := if acknowledged then |snapshot| else 0;
      snapshotSize := streamSize;
    }

    /** The script: append only to a value of the expected length. */
    method Append(line: string, size: nat) returns (reply: bool)
      modifies this`stored
      ensures reply <==> |if old(stored).Some? then old(stored).value else []| == size
      ensures stored == if !reply then old(stored)
                        else Some((if old(stored).Some? then old(stored).value else []) + line)
    {
      var value := if stored.Some? then stored.value else [];
      if |value| != size {
        return false;
      }
      stored := Some(value + line);
      return true;
    }

    /**
      The client runs the script once for each entry of `vanished`, a true entry meaning that the
      key was cleared or expired just before; the last reply is the one it sees.
     */
    method AppendWithRetries(line: string, size: nat, vanished: seq<bool>) returns (reply: bool)
      requires size > 0 && line != [] && (stored.Some? ==> |stored.value| == size)
      modifies this`stored
      ensures stored.Some? ==>
                old(stored).Some? && (stored == old(stored) || stored.value == old(stored).value + line)
      ensures reply ==> old(stored).Some? && stored == Some(old(stored).value + line)
      ensures old(stored).Some? && vanished == [false] ==> reply
      ensures old(stored).Some? && vanished != [] && true !in vanished ==> stored == Some(old(stored).value + line)
    {
      reply := false;
      for k := 0 to |vanished|
        invariant stored.Some? ==>
                    old(stored).Some? && (stored == old(stored) || stored.value == old(stored).value + line)
        invariant reply ==> old(stored).Some? && stored == Some(old(stored).value + line)
        invariant k == 0 ==> stored == old(stored)
        invariant k == 1 && old(stored).Some? && !vanished[0] ==> reply
        invariant old(stored).Some? && k > 0 && true !in vanished[..k] ==> stored == Some(old(stored).value + line)
      {
        if vanished[k] {
          stored := None;
        }
        assert vanished[..k + 1] == vanished[..k] + [vanished[k]];
        reply := Append(line, size);
      }
      assert vanished[..|vanished|] == vanished;
    }

    /**
      `save_response_delta`: send a line when the log stays within twice its snapshot; after anything
      but a line known to have been appended the next write is a snapshot.
     */
    method SendLine(line: string, vanished: seq<bool>, acknowledged: bool)
      requires line != [] && (acknowledged ==> vanished != [])
      requires stored.Some? && streamSize > 0 ==> |stored.value| == streamSize
      modifies this`stored, this`streamSize
      ensures stored.Some? ==>
                old(stored).Some? && (stored == old(stored) || stored.value == old(stored).value + line)
      ensures var fits := old(streamSize) > 0 && old(streamSize) + |line| <= 2 * snapshotSize;
              (!fits ==> stored == old(stored) && streamSize == 0) &&
              (old(stored).Some? && fits && vanished != [] && true !in vanished ==>
                 stored == Some(old(stored).value + line)) &&
              (old(stored).Some? && fits && vanished == [false] && acknowledged ==> streamSize > 0) &&
              (streamSize > 0 ==>
                 fits && acknowledged && streamSize == old(streamSize) + |line| &&
                 old(stored).Some? && stored == Some(old(stored).value + line))
    {
      var appended := false;
      if streamSize > 0 && streamSize + |line| <= 2 * snapshotSize {
        appended := AppendWithRetries(line, streamSize, vanished);
        appended := appended && acknowledged;
      }
      streamSize := if appended then streamSize + |line| else 0;
    }

    /** The writer applies delta e and tries to log it; an unacknowledged attempt is an error to it. */
    method Apply(e: Event, vanished: seq<bool>, acknowledged: bool)
      requires Valid() && EndsWith(e.eventType, SUFFIX) && Handle(e, output).Ok?
      requires acknowledged ==> vanished != []
      modifies this
      ensures Valid()
      ensures output == Handle(e, old(output)).value
      ensures history == old(history) + [output] && events == old(events) + [Some(e)]
      // A key that does not exist is not created, and no log line is ever duplicated or skipped.
      ensures old(stored).None? ==> stored.None?
      ensures stored.Some? ==> stored.value == old(stored).value || stored.value == old(stored).value + codec.Framed(Delta(e))
      // It fits when the log stays within twice its snapshot.  Whatever was retried, a delta that fits and
      // reached the log is there once; one that does not fit is not sent, and a snapshot comes next.
      ensures var size := |codec.encode(Delta(e))| + 1;
              var fits := old(streamSize) > 0 && old(streamSize) + size <= 2 * old(snapshotSize);
              (old(stored).Some? && fits && vanished != [] && true !in vanished ==>
                 stored == Some(old(stored).value + (codec.encode(Delta(e)) + "\n"))) &&
              (!fits ==> stored == old(stored) && streamSize == 0) &&
              (streamSize == 0 || (acknowledged && streamSize == old(streamSize) + size)) &&
              (old(stored).Some? && fits && vanished == [false] && acknowledged ==> streamSize > 0)
      ensures snapshotSize == old(snapshotSize)
    {
      FollowsStep(history, events, Handle(e, output).value, Some(e));
      if stored.Some? {
        LogStep(codec, history, events, start, length, Handle(e, output).value, Some(e));
      }
      output := Handle(e, output).value;
      history, events := history + [output], events + [Some(e)];
      SendLine(codec.Framed(Delta(e)), vanished, acknowledged);
      if stored.Some? && stored != old(stored) {
        length := length + 1;
      }
    }

    /** Any other change of the output, or an event that is not logged, forces a new snapshot. */
    method Change(output': Output)
      requires Valid()
      modifies this
      ensures Valid()
      ensures output == output' && history == old(history) + [output'] && events == old(events) + [None]
      ensures stored == old(stored) && streamSize == 0
    {
      FollowsStep(history, events, output', None);
      if stored.Some? {
        LogStep(codec, history, events, start, length, output', None);
      }
      output := output';
      history, events := history + [output'], events + [None];
      streamSize := 0;
    }

    /** Clearing by any process, or expiry. */
    method Vanish()
      requires Valid()
      modifies this`stored
      ensures Valid() && stored == None
    {
      stored := None;
    }

    /** A reader sees a position of the writer's history, the current one while appends succeed. */
    method Read() returns (r: Option<Result<Output>>, ghost position: nat)
      requires Valid()
      ensures r.None? <==> stored.None?
      ensures r.Some? ==> start <= position < |history| && position == start + length
      ensures r.Some? && AllAppend(Log(history, events, start, length)) ==> r.value == Ok(history[position])
      ensures r.Some? && streamSize > 0 ==> history[position] == output
    {
      position := 0;
      if stored.None? {
        return None, 0;
      }
      var value := Load(codec, stored.value);
      LogReplays(history, events, start, length);
      position := start + length;
      r := Some(value);
    }
  }
}
