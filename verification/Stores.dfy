/** Stores that follow one another: what they leave on the disk, and how far they
    take a script. Both backends write this way. */
module Stores {
  import opened Bytes
  import opened RestoreScript

  /** Stores that lay exactly `data` down from `offset` on, part after part. */
  ghost predicate Streams(events: seq<Event>, offset: nat, data: seq<Byte>)
    decreases |events|
  {
    if events == [] then data == []
    else
      var last := events[|events| - 1];
      && last.Stored? && 0 < |last.data| <= |data|
      && var before := |data| - |last.data|;
      && last.offset == offset + before && last.data == data[before..]
      && Streams(events[..|events| - 1], offset, data[..before])
  }

  lemma StreamsMore(events: seq<Event>, offset: nat, data: seq<Byte>, more: seq<Byte>)
    requires Streams(events, offset, data) && more != []
    ensures Streams(events + [Stored(offset + |data|, more)], offset, data + more)
  {
    var all, whole := events + [Stored(offset + |data|, more)], data + more;
    assert all[..|events|] == events && whole[..|data|] == data && whole[|data|..] == more;
  }

  /** The last store of a stream, and the stream before it. */
  lemma LastOfStream(events: seq<Event>, offset: nat, data: seq<Byte>)
    requires Streams(events, offset, data) && events != []
    ensures var last := events[|events| - 1];
            && last.Stored? && 0 < |last.data| <= |data| && last == Stored(offset + |data| - |last.data|, last.data)
            && data[|data| - |last.data|..] == last.data
            && Streams(events[..|events| - 1], offset, data[..|data| - |last.data|])
  {}

  lemma {:induction false} StreamsJoin(a: seq<Event>, b: seq<Event>, offset: nat, x: seq<Byte>, y: seq<Byte>)
    requires Streams(a, offset, x) && Streams(b, offset + |x|, y)
    ensures Streams(a + b, offset, x + y)
    decreases |b|
  {
    if b == [] {
      assert a + b == a && x + y == x;
    } else {
      LastOfStream(b, offset + |x|, y);
      hide Streams;
      var last, k := b[|b| - 1], |y| - |b[|b| - 1].data|;
      StreamsJoin(a, b[..|b| - 1], offset, x, y[..k]);
      JoinLast(a, b);
      JoinSplit(x, y, k);
      StreamsMore(a + b[..|b| - 1], offset, x + y[..k], last.data);
    }
  }

  lemma JoinLast<T>(a: seq<T>, b: seq<T>)
    requires b != []
    ensures a + b == (a + b[..|b| - 1]) + [b[|b| - 1]]
  {}

  lemma JoinSplit<T>(x: seq<T>, y: seq<T>, k: nat)
    requires k <= |y|
    ensures x + y == (x + y[..k]) + y[k..]
  {}

  /** Two states of a disk and its log between which exactly `data` was stored from `offset` on. */
  ghost predicate Wrote(disk: seq<Byte>, log: seq<Event>, disk': seq<Byte>, log': seq<Event>, offset: nat, data: seq<Byte>)
  {
    && (data != [] ==> offset + |data| <= |disk|)
    && disk' == Laid(disk, offset, data)
    && log <= log' && Streams(log'[|log|..], offset, data)
  }

  lemma WroteNothing(disk: seq<Byte>, log: seq<Event>, offset: nat)
    ensures Wrote(disk, log, disk, log, offset, [])
  {
    assert log[|log|..] == [];
  }

  lemma WroteOnce(disk: seq<Byte>, log: seq<Event>, disk': seq<Byte>, log': seq<Event>, offset: nat, data: seq<Byte>)
    requires data != [] ==> offset + |data| <= |disk|
    requires disk' == Laid(disk, offset, data) && log' == log + if data == [] then [] else [Stored(offset, data)]
    ensures Wrote(disk, log, disk', log', offset, data)
  {
    if data == [] {
      assert log'[|log|..] == [];
    } else {
      assert log'[|log|..] == [Stored(offset, data)];
      assert data[0..] == data && data[..0] == [];
      assert [Stored(offset, data)][..0] == [];
    }
  }

  /** Storing a part and then the next is storing both. */
  lemma WroteJoin(disk: seq<Byte>, log: seq<Event>, disk': seq<Byte>, log': seq<Event>,
                  disk'': seq<Byte>, log'': seq<Event>, offset: nat, x: seq<Byte>, y: seq<Byte>)
    requires Wrote(disk, log, disk', log', offset, x)
    requires Wrote(disk', log', disk'', log'', offset + |x|, y)
    ensures Wrote(disk, log, disk'', log'', offset, x + y)
  {
    hide Streams, Laid;
    StreamsJoin(log'[|log|..], log''[|log'|..], offset, x, y);
    assert log'' == log' + log''[|log'|..];
    assert log''[|log|..] == log'[|log|..] + log''[|log'|..];
    LaidJoin(disk, offset, x, y);
  }

  lemma JoinSlices(data: seq<Byte>, written: nat, more: nat)
    requires written + more <= |data|
    ensures data[..written] + data[written..][..more] == data[..written + more]
  {}

  /** A store that goes on where the last one stopped. */
  lemma WroteMore(disk: seq<Byte>, log: seq<Event>, disk': seq<Byte>, log': seq<Event>,
                  disk'': seq<Byte>, log'': seq<Event>, offset: nat, data: seq<Byte>, written: nat, more: nat)
    requires written + more <= |data| && Wrote(disk, log, disk', log', offset, data[..written])
    requires var part := data[written..][..more];
             && (more > 0 ==> offset + written + more <= |disk'|)
             && disk'' == Laid(disk', offset + written, part)
             && log'' == log' + if more == 0 then [] else [Stored(offset + written, part)]
    ensures Wrote(disk, log, disk'', log'', offset, data[..written + more])
  {
    hide Wrote, Laid;
    var part := data[written..][..more];
    JoinSlices(data, written, more);
    WroteOnce(disk', log', disk'', log'', offset + written, part);
    WroteJoin(disk, log, disk', log', disk'', log'', offset, data[..written], part);
  }

  lemma LaidJoin(disk: seq<Byte>, offset: nat, x: seq<Byte>, y: seq<Byte>)
    requires x != [] ==> offset + |x| <= |disk|
    requires y != [] ==> offset + |x| + |y| <= |disk|
    ensures Laid(Laid(disk, offset, x), offset + |x|, y) == Laid(disk, offset, x + y)
  {
    if y == [] {
      assert x + y == x;
    } else if x == [] {
      assert x + y == y;
    }
  }

  /** Between two such states the disk differs in the stored range only, and holds the data there. */
  lemma WroteExactly(disk: seq<Byte>, log: seq<Event>, disk': seq<Byte>, log': seq<Event>, offset: nat, data: seq<Byte>)
    requires Wrote(disk, log, disk', log', offset, data)
    ensures |disk'| == |disk|
    ensures forall i :: 0 <= i < |disk| ==>
              disk'[i] == if offset <= i < offset + |data| then data[i - offset] else disk[i]
  {
    hide Streams;
  }

  /** Storing the first bytes of the data of a store task takes a script that far. */
  lemma {:induction false} StreamWalks(script: seq<Task>, log: seq<Event>, events: seq<Event>, task: nat, stored: nat)
    requires task < |script| && script[task].Store? && stored <= |script[task].data| && script[task].data != []
    requires Walk(script, log) == Running(task, 0)
    requires Streams(events, script[task].offset, script[task].data[..stored])
    ensures Walk(script, log + events) == StoredUpTo(script, task, stored)
    decreases |events|
  {
    hide Advance, StoredUpTo, Replay, StepsReported, Answers;
    var data := script[task].data;
    if events == [] {
      hide Walk;
      assert log + events == log;
      NothingStoredTo(script, task);
    } else {
      var rest, last := events[..|events| - 1], events[|events| - 1];
      var before := stored - |last.data|;
      LastOfStream(events, script[task].offset, data[..stored]);
      assert data[..stored][..before] == data[..before];
      assert data[..stored][before..] == data[before..stored];
      hide Walk, Streams;
      StreamWalks(script, log, rest, task, before);
      JoinLast(log, events);
      Logged(script, [], log + rest, last);
      StoreAllowed(script, task, before, last);
    }
  }

  lemma NothingStoredTo(script: seq<Task>, task: nat)
    requires task < |script| && script[task].Store? && script[task].data != []
    ensures StoredUpTo(script, task, 0) == Running(task, 0)
  {}

  lemma StoreAllowed(script: seq<Task>, task: nat, written: nat, event: Event)
    requires task < |script| && script[task].Store? && event.Stored? && event.data != []
    requires event.offset == script[task].offset + written && written + |event.data| <= |script[task].data|
    requires event.data == script[task].data[written..written + |event.data|]
    ensures Advance(script, StoredUpTo(script, task, written), event) == StoredUpTo(script, task, written + |event.data|)
  {
    assert event.data <= script[task].data[written..];
  }
}
