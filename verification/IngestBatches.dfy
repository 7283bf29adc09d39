/**
 Splitting a pass into bounded batches: the greedy splitter, its bounds, and why no other
 contiguous split does with fewer batches.
 */
module IngestBatches {
  import opened Common

  /** A canonical event as it is landed: the identity of its occurrence, which is a namespace and
      a native identifier, or a parser and a fingerprint, and the file it was read from. */
  datatype PersistEvent = PersistEvent(identity: string, sourceFile: string)

  type Batch = seq<PersistEvent>

  function Files(batch: Batch): set<string> {
    set e | e in batch :: e.sourceFile
  }

  function Flatten(batches: seq<Batch>): Batch {
    if batches == [] then [] else Flatten(batches[..|batches| - 1]) + batches[|batches| - 1]
  }

  /** At most `maxEvents` events from at most `maxFiles` distinct files. */
  ghost predicate Fits(batch: Batch, maxEvents: nat, maxFiles: nat) {
    |batch| <= maxEvents && |Files(batch)| <= maxFiles
  }

  /** A bound of zero cannot be met by a batch that holds an event; the splitter treats it
      as one. */
  function AtLeastOne(bound: nat): nat {
    if bound == 0 then 1 else bound
  }

  /** Every batch but the last is full: its successor's first event does not fit. */
  ghost predicate Greedy(batches: seq<Batch>, maxEvents: nat, maxFiles: nat) {
    && (forall j :: 0 <= j < |batches| ==> batches[j] != [])
    && (forall j :: 0 <= j < |batches| - 1 ==> !Fits(batches[j] + [batches[j + 1][0]], maxEvents, maxFiles))
  }

  lemma FilesPush(batch: Batch, e: PersistEvent)
    ensures Files(batch + [e]) == Files(batch) + {e.sourceFile}
  {
    assert forall x :: x in batch + [e] <==> x in batch || x == e;
  }

  lemma FitsPush(batch: Batch, e: PersistEvent, maxEvents: nat, maxFiles: nat)
    requires Fits(batch, AtLeastOne(maxEvents), AtLeastOne(maxFiles))
    requires batch != []
    ensures Fits(batch + [e], AtLeastOne(maxEvents), AtLeastOne(maxFiles)) <==>
      !(|batch| >= maxEvents || (e.sourceFile !in Files(batch) && |Files(batch)| >= maxFiles))
  {
    FilesPush(batch, e);
    assert batch[0].sourceFile in Files(batch);
    if e.sourceFile in Files(batch) {
      assert Files(batch) + {e.sourceFile} == Files(batch);
    }
  }

  lemma OneFits(e: PersistEvent, maxEvents: nat, maxFiles: nat)
    ensures Fits([e], AtLeastOne(maxEvents), AtLeastOne(maxFiles))
  {
    assert Files([e]) == {e.sourceFile};
  }

  ghost predicate AllFit(batches: seq<Batch>, maxEvents: nat, maxFiles: nat) {
    forall j :: 0 <= j < |batches| ==> Fits(batches[j], maxEvents, maxFiles)
  }

  /** The state of the loop: closed batches, and the batch being filled. */
  ghost predicate Filling(batches: seq<Batch>, current: Batch, maxEvents: nat, maxFiles: nat) {
    && AllFit(batches, maxEvents, maxFiles) && Greedy(batches, maxEvents, maxFiles)
    && Fits(current, maxEvents, maxFiles)
    && (batches != [] ==> current != [] && !Fits(batches[|batches| - 1] + [current[0]], maxEvents, maxFiles))
  }

  lemma CloseBatch(batches: seq<Batch>, current: Batch, maxEvents: nat, maxFiles: nat)
    requires Filling(batches, current, maxEvents, maxFiles) && current != []
    ensures AllFit(batches + [current], maxEvents, maxFiles)
    ensures Greedy(batches + [current], maxEvents, maxFiles)
    ensures Flatten(batches + [current]) == Flatten(batches) + current
  {
    hide Fits;
    assert (batches + [current])[..|batches|] == batches;
  }

  /** One more event either still fits the open batch or, when a bound would overflow, closes
      it and opens the next. */
  lemma NextEvent(batches: seq<Batch>, current: Batch, event: PersistEvent, maxEvents: nat, maxFiles: nat)
    requires Filling(batches, current, AtLeastOne(maxEvents), AtLeastOne(maxFiles))
    ensures Files(current + [event]) == Files(current) + {event.sourceFile}
    ensures Files([event]) == {event.sourceFile}
    ensures
      if current != [] &&
         (|current| >= maxEvents || (event.sourceFile !in Files(current) && |Files(current)| >= maxFiles))
      then
        Filling(batches + [current], [event], AtLeastOne(maxEvents), AtLeastOne(maxFiles))
        && Flatten(batches + [current]) == Flatten(batches) + current
      else
        Filling(batches, current + [event], AtLeastOne(maxEvents), AtLeastOne(maxFiles))
  {
    FilesPush(current, event);
    OneFits(event, maxEvents, maxFiles);
    assert Files([event]) == {event.sourceFile};
    if current != [] {
      FitsPush(current, event, maxEvents, maxFiles);
      CloseBatch(batches, current, AtLeastOne(maxEvents), AtLeastOne(maxFiles));
      hide Fits;
      assert (current + [event])[0] == current[0];
    } else {
      assert current + [event] == [event];
    }
  }

  method SplitIntoBatches(events: Batch, maxEvents: nat, maxFiles: nat) returns (batches: seq<Batch>)
    ensures Flatten(batches) == events
    ensures events == [] ==> batches == [[]]
    ensures events != [] ==> Greedy(batches, AtLeastOne(maxEvents), AtLeastOne(maxFiles))
    ensures AllFit(batches, AtLeastOne(maxEvents), AtLeastOne(maxFiles))
  {
    NothingYet(maxEvents, maxFiles);
    hide *;
    if events == [] {
      return [[]];
    }
    batches := [];
    var batchStart := 0;
    var batchFiles: set<string> := {};
    ghost var current: Batch := [];
    Slices(events, 0, 0);
    for index := 0 to |events|
      invariant batchStart <= index && (index > 0 ==> batchStart < index)
      invariant current == events[batchStart..index]
      invariant batchFiles == Files(current)
      invariant Flatten(batches) == events[..batchStart]
      invariant Filling(batches, current, AtLeastOne(maxEvents), AtLeastOne(maxFiles))
    {
      var event := events[index];
      var eventsInBatch := index - batchStart;
      var isNewFile := event.sourceFile !in batchFiles;
      var wouldOverflowEvents := eventsInBatch >= maxEvents;
      var wouldOverflowFiles := isNewFile && |batchFiles| >= maxFiles;
      Slices(events, batchStart, index);
      NextEvent(batches, current, event, maxEvents, maxFiles);
      if eventsInBatch > 0 && (wouldOverflowEvents || wouldOverflowFiles) {
        batches := batches + [events[batchStart..index]];
        batchStart := index;
        batchFiles := {};
        current := [event];
      } else {
        current := current + [event];
      }
      batchFiles := batchFiles + {event.sourceFile};
    }
    Slices(events, batchStart, |events|);
    CloseBatch(batches, current, AtLeastOne(maxEvents), AtLeastOne(maxFiles));
    batches := batches + [events[batchStart..]];
  }

  lemma NothingYet(maxEvents: nat, maxFiles: nat)
    ensures Files([]) == {} && Flatten([]) == []
    ensures Filling([], [], AtLeastOne(maxEvents), AtLeastOne(maxFiles))
    ensures Flatten([[]]) == [] && AllFit([[]], AtLeastOne(maxEvents), AtLeastOne(maxFiles))
  {
    var one: seq<Batch> := [[]];
    assert one[..0] == [];
  }

  lemma Slices(events: Batch, a: nat, i: nat)
    requires a <= i <= |events|
    ensures events[..a] + events[a..i] == events[..i]
    ensures i < |events| ==> events[a..i + 1] == events[a..i] + [events[i]]
    ensures i < |events| ==> events[i..i + 1] == [events[i]]
    ensures i == |events| ==> events[..i] == events && events[a..i] == events[a..]
  {
  }

  // ---------------------------------------------------------------- optimality

  /** Where the batch `m` starts. */
  function Offset(batches: seq<Batch>, m: nat): nat
    requires m <= |batches|
  {
    |Flatten(batches[..m])|
  }

  lemma {:induction false} OffsetsAreSlices(batches: seq<Batch>, m: nat)
    requires m <= |batches|
    ensures Offset(batches, m) <= |Flatten(batches)|
    ensures Flatten(batches[..m]) == Flatten(batches)[..Offset(batches, m)]
    ensures m < |batches| ==>
      && Offset(batches, m + 1) == Offset(batches, m) + |batches[m]| <= |Flatten(batches)|
      && batches[m] == Flatten(batches)[Offset(batches, m)..Offset(batches, m + 1)]
    decreases |batches| - m
  {
    if m == |batches| {
      assert batches[..m] == batches;
    } else {
      OffsetsAreSlices(batches, m + 1);
      assert batches[..m + 1][..m] == batches[..m];
      assert Flatten(batches[..m + 1]) == Flatten(batches[..m]) + batches[m];
    }
  }

  lemma PartFits(batch: Batch, part: Batch, maxEvents: nat, maxFiles: nat, from: nat, to: nat)
    requires from <= to <= |batch| && part == batch[from..to]
    requires Fits(batch, maxEvents, maxFiles)
    ensures Fits(part, maxEvents, maxFiles)
  {
    assert Files(part) <= Files(batch);
    SubsetIsSmaller(Files(part), Files(batch));
  }

  lemma SliceOfSlice(s: Batch, a: nat, b: nat, x: nat, y: nat)
    requires a <= x <= y <= b <= |s|
    ensures s[a..b][x - a..y - a] == s[x..y]
  {
    var t := s[a..b];
    assert forall j :: 0 <= j < b - a ==> t[j] == s[a + j];
  }

  /** A batch that starts no later than a full one and ends beyond it does not fit. */
  lemma BeyondFullDoesNotFit(events: Batch, full: Batch, from: nat, to: nat, batch: Batch, start: nat, end: nat,
                             maxEvents: nat, maxFiles: nat)
    requires start <= from <= to < end <= |events|
    requires batch == events[start..end] && full == events[from..to]
    requires !Fits(full + [events[to]], maxEvents, maxFiles)
    ensures !Fits(batch, maxEvents, maxFiles)
  {
    assert full + [events[to]] == events[from..to + 1];
    SliceOfSlice(events, start, end, from, to + 1);
    if Fits(batch, maxEvents, maxFiles) {
      PartFits(batch, full + [events[to]], maxEvents, maxFiles, from - start, to + 1 - start);
    }
  }

  /** After the same number of batches a greedy split is never behind. */
  lemma {:induction false} GreedyStaysAhead(greedy: seq<Batch>, other: seq<Batch>, maxEvents: nat, maxFiles: nat,
                                            m: nat)
    requires Flatten(greedy) == Flatten(other)
    requires Greedy(greedy, maxEvents, maxFiles) && AllFit(other, maxEvents, maxFiles)
    requires m <= |greedy| && m <= |other|
    ensures Offset(other, m) <= Offset(greedy, m)
  {
    hide Fits;
    if m > 0 {
      GreedyStaysAhead(greedy, other, maxEvents, maxFiles, m - 1);
      OffsetsAreSlices(greedy, m - 1);
      OffsetsAreSlices(other, m - 1);
      OffsetsAreSlices(greedy, m);
      var events := Flatten(greedy);
      if m == |greedy| {
        assert greedy[..m] == greedy;
      } else {
        assert greedy[m][0] == events[Offset(greedy, m)];
        hide Flatten, Offset;
        if Offset(other, m) > Offset(greedy, m) {
          BeyondFullDoesNotFit(events, greedy[m - 1], Offset(greedy, m - 1), Offset(greedy, m),
                               other[m - 1], Offset(other, m - 1), Offset(other, m), maxEvents, maxFiles);
        }
      }
    } else {
      assert other[..0] == greedy[..0] == [];
    }
  }

  /** No split into contiguous batches that respects both bounds uses fewer batches than the
      greedy one. */
  lemma GreedyIsOptimal(greedy: seq<Batch>, other: seq<Batch>, maxEvents: nat, maxFiles: nat)
    requires Flatten(greedy) == Flatten(other)
    requires Greedy(greedy, maxEvents, maxFiles) && AllFit(other, maxEvents, maxFiles)
    ensures |greedy| <= |other|
  {
    var m := |other|;
    assert other[..m] == other;
    if m < |greedy| {
      GreedyStaysAhead(greedy, other, maxEvents, maxFiles, m);
      OffsetsAreSlices(greedy, m);
    }
  }
}
