/**
 What every prefix of the transaction log of a pass leaves in the store, and when a pass that
 is interrupted and run again ends where an uninterrupted pass does.
 */
module IngestCrashSafety {
  import opened Common
  import opened IngestBatches
  import opened IngestLanding

  // ---------------------------------------------------------------- chains

  lemma PrefixOfChain(pass: Pass, chunks: seq<Batch>, log: seq<Txn>, k: nat)
    requires Chain(pass, chunks, log) && k <= |log|
    ensures Chain(pass, chunks, log[..k])
  {
    hide IsTxn, Reached;
    forall i | 0 <= i < k ensures PlaceOf(log[..k][i]) == Reached(chunks, log[..k][..i]) {
      assert log[..k][..i] == log[..i];
    }
  }

  ghost predicate Precedes(a: Place, b: Place) {
    a.chunk < b.chunk || (a.chunk == b.chunk && a.cursor < b.cursor)
  }

  /** Unless its chunk is empty, a transaction moves strictly forward inside it. */
  lemma AfterIsLater(pass: Pass, chunks: seq<Batch>, t: Txn)
    requires IsTxn(pass, chunks, t)
    ensures Precedes(PlaceOf(t), After(chunks, t))
    ensures After(chunks, t).chunk <= |chunks|
    ensures After(chunks, t).chunk < |chunks| ==> After(chunks, t).cursor <= |chunks[After(chunks, t).chunk]|
  {
    hide TxnAt;
  }

  /** Along a chain the places only move forward. */
  lemma {:induction false} ChainMovesForward(pass: Pass, chunks: seq<Batch>, log: seq<Txn>, i: nat, j: nat)
    requires Chain(pass, chunks, log) && i < j <= |log|
    ensures Precedes(PlaceOf(log[i]), Reached(chunks, log[..j]))
    decreases j
  {
    AfterIsLater(pass, chunks, log[j - 1]);
    assert log[..j][|log[..j]| - 1] == log[j - 1];
    hide IsTxn;
    if i < j - 1 {
      ChainMovesForward(pass, chunks, log, i, j - 1);
    }
  }

  lemma ChainOrders(pass: Pass, chunks: seq<Batch>, log: seq<Txn>, i: nat, j: nat)
    requires Chain(pass, chunks, log) && i < j < |log|
    ensures Precedes(PlaceOf(log[i]), PlaceOf(log[j]))
  {
    ChainMovesForward(pass, chunks, log, i, j);
    hide IsTxn, Reached;
  }

  // ---------------------------------------------------------------- events and watermarks

  /** The events a log lands, in order. */
  function LandedEvents(log: seq<Txn>): Batch {
    if log == [] then [] else LandedEvents(log[..|log| - 1]) + log[|log| - 1].events
  }

  /** The events before a place. */
  ghost function EventsBefore(chunks: seq<Batch>, p: Place): Batch
    requires p.chunk <= |chunks| && (p.chunk < |chunks| ==> p.cursor <= |chunks[p.chunk]|)
  {
    Flatten(chunks[..p.chunk]) + (if p.chunk < |chunks| then chunks[p.chunk][..p.cursor] else [])
  }

  lemma SliceAppends(chunk: Batch, from: nat, to: nat)
    requires from <= to <= |chunk|
    ensures chunk[..from] + chunk[from..to] == chunk[..to]
    ensures to == |chunk| ==> chunk[..to] == chunk
  {
  }

  lemma WholeChunk(chunks: seq<Batch>, c: nat)
    requires c < |chunks|
    ensures Flatten(chunks[..c + 1]) == Flatten(chunks[..c]) + chunks[c]
  {
    assert chunks[..c + 1][..c] == chunks[..c];
  }

  lemma EventsBeforeNext(pass: Pass, chunks: seq<Batch>, t: Txn)
    requires IsTxn(pass, chunks, t)
    ensures After(chunks, t).chunk <= |chunks|
    ensures After(chunks, t).chunk < |chunks| ==> After(chunks, t).cursor <= |chunks[After(chunks, t).chunk]|
    ensures EventsBefore(chunks, After(chunks, t)) == EventsBefore(chunks, PlaceOf(t)) + t.events
  {
    var to := t.cursor + |t.events|;
    assert t.events == chunks[t.chunk][t.cursor..to];
    SliceAppends(chunks[t.chunk], t.cursor, to);
    WholeChunk(chunks, t.chunk);
    hide IsTxn, Flatten;
    var front, middle := Flatten(chunks[..t.chunk]), chunks[t.chunk][..t.cursor];
    assert EventsBefore(chunks, PlaceOf(t)) == front + middle;
    assert (front + middle) + t.events == front + (middle + t.events);
    if t.chunk + 1 < |chunks| {
      assert chunks[t.chunk + 1][..0] == [];
    }
    assert front + chunks[t.chunk] + [] == front + chunks[t.chunk];
  }

  /** A chain has landed exactly the events before the place it has reached. */
  lemma {:induction false} ChainLands(pass: Pass, chunks: seq<Batch>, log: seq<Txn>)
    requires Chain(pass, chunks, log)
    ensures Reached(chunks, log).chunk <= |chunks|
    ensures Reached(chunks, log).chunk < |chunks| ==>
      Reached(chunks, log).cursor <= |chunks[Reached(chunks, log).chunk]|
    ensures LandedEvents(log) == EventsBefore(chunks, Reached(chunks, log))
  {
    if log == [] {
      assert chunks[..0] == [];
    } else {
      var n := |log| - 1;
      PrefixOfChain(pass, chunks, log, n);
      ChainLands(pass, chunks, log[..n]);
      EventsBeforeNext(pass, chunks, log[n]);
      hide IsTxn, EventsBefore;
    }
  }

  lemma {:induction false} WatermarksOfChain(pass: Pass, chunks: seq<Batch>, log: seq<Txn>, store: Store)
    requires chunks != [] && Chain(pass, chunks, log)
    ensures CommitAll(store, log).watermarks ==
      store.watermarks + (if Reached(chunks, log) == Place(|chunks|, 0) then pass.watermarks else [])
  {
    hide IsTxn, Insert, Delete, After;
    if log != [] {
      var n := |log| - 1;
      PrefixOfChain(pass, chunks, log, n);
      WatermarksOfChain(pass, chunks, log[..n], store);
      TxnStores(pass, chunks, log[n]);
      hide Chain;
      var before := CommitAll(store, log[..n]);
      assert CommitAll(store, log).watermarks == before.watermarks + log[n].watermarks;
      assert Reached(chunks, log[..n]) == PlaceOf(log[n]);
      assert before.watermarks == store.watermarks + [];
    }
  }

  lemma TxnStores(pass: Pass, chunks: seq<Batch>, t: Txn)
    requires chunks != [] && IsTxn(pass, chunks, t)
    ensures t.chunk < |chunks|
    ensures t.watermarks == (if After(chunks, t) == Place(|chunks|, 0) then pass.watermarks else [])
    ensures t.wholeFiles == (if t.cursor == 0 then DeletedWith(pass, chunks, t.chunk) else [])
    ensures forall e :: e in t.events ==> e in chunks[t.chunk]
  {
  }

  /** A complete log lands every event of the pass exactly once and in order; any prefix of it
      has landed a prefix of them, and has stored no watermark unless it is the whole log. */
  lemma WatermarksComeLast(pass: Pass, chunks: seq<Batch>, log: seq<Txn>, store: Store, k: nat)
    requires chunks != [] && Flatten(chunks) == pass.events
    requires Complete(pass, chunks, log) && k <= |log|
    ensures LandedEvents(log) == pass.events
    ensures LandedEvents(log[..k]) <= pass.events
    ensures CommitAll(store, log[..k]).watermarks == store.watermarks + (if k < |log| then [] else pass.watermarks)
  {
    PrefixOfChain(pass, chunks, log, k);
    ChainLands(pass, chunks, log);
    WatermarksOfChain(pass, chunks, log[..k], store);
    LandedPrefix(log, k);
    assert chunks[..|chunks|] == chunks;
    if k < |log| {
      ChainMovesForward(pass, chunks, log, k, |log|);
      assert log[..|log|] == log && PlaceOf(log[k]) == Reached(chunks, log[..k]);
    } else {
      assert log[..k] == log;
    }
  }

  lemma TxnQuarantines(pass: Pass, chunks: seq<Batch>, t: Txn)
    requires IsTxn(pass, chunks, t)
    ensures t.quarantine == if t.chunk == 0 && After(chunks, t).chunk > 0 then pass.quarantine else []
  {
  }

  /** Any prefix of a log has stored the pass's quarantine records once the first chunk is drained
      and not before, and has raised the ledger's generation once a transaction. */
  lemma {:induction false} QuarantineComesWithTheFirstChunk(pass: Pass, chunks: seq<Batch>, log: seq<Txn>, store: Store)
    requires chunks != [] && Chain(pass, chunks, log)
    ensures CommitAll(store, log).quarantine ==
      store.quarantine + (if Reached(chunks, log).chunk > 0 then pass.quarantine else [])
    ensures CommitAll(store, log).generation == store.generation + |log|
  {
    if log == [] {
      assert store.quarantine + [] == store.quarantine;
    } else {
      var n := |log| - 1;
      PrefixOfChain(pass, chunks, log, n);
      QuarantineComesWithTheFirstChunk(pass, chunks, log[..n], store);
      TxnQuarantines(pass, chunks, log[n]);
      AfterIsLater(pass, chunks, log[n]);
      hide IsTxn, Insert, Delete, After, Chain;
      var before := CommitAll(store, log[..n]);
      assert CommitAll(store, log) == Commit(before, log[n]);
      assert PlaceOf(log[n]) == Reached(chunks, log[..n]);
      assert before.quarantine + [] == before.quarantine;
      assert store.quarantine + [] == store.quarantine;
    }
  }

  lemma {:induction false} LandedPrefix(log: seq<Txn>, k: nat)
    requires k <= |log|
    ensures LandedEvents(log[..k]) <= LandedEvents(log)
    decreases |log|
  {
    if k == |log| {
      assert log[..k] == log;
    } else {
      LandedPrefix(log[..|log| - 1], k);
      assert log[..|log| - 1][..k] == log[..k];
    }
  }

  // ---------------------------------------------------------------- deletions

  lemma HasFileInChunk(part: Batch, chunk: Batch, file: string)
    requires HasFile(part, file) && forall e :: e in part ==> e in chunk
    ensures HasFile(chunk, file)
  {
    var p :| 0 <= p < |part| && part[p].sourceFile == file;
    assert part[p] in chunk;
  }

  /** A chain that has moved beyond the start of a chunk has a transaction there. */
  lemma {:induction false} ChunkStarts(pass: Pass, chunks: seq<Batch>, log: seq<Txn>, c: nat) returns (i: nat)
    requires Chain(pass, chunks, log) && Precedes(Place(c, 0), Reached(chunks, log))
    ensures i < |log| && PlaceOf(log[i]) == Place(c, 0)
  {
    var n := |log| - 1;
    PrefixOfChain(pass, chunks, log, n);
    assert PlaceOf(log[n]) == Reached(chunks, log[..n]);
    hide IsTxn;
    if PlaceOf(log[n]) == Place(c, 0) {
      i := n;
    } else {
      i := ChunkStarts(pass, chunks, log[..n], c);
    }
  }

  /** A reparsed file's old rows are deleted by exactly one transaction, and no row of that file
      lands before it. */
  lemma DeletionPrecedesLanding(pass: Pass, chunks: seq<Batch>, log: seq<Txn>, file: string) returns (d: nat)
    requires chunks != [] && file in pass.wholeFiles && Complete(pass, chunks, log)
    ensures d < |log| && file in log[d].wholeFiles
    ensures forall i :: 0 <= i < |log| && file in log[i].wholeFiles ==> i == d
    ensures forall j :: 0 <= j < |log| && HasFile(log[j].events, file) ==> d <= j
  {
    var c := DeletionChunk(chunks, file);
    d := ChunkStarts(pass, chunks, log, c);
    TxnStores(pass, chunks, log[d]);
    hide FirstChunk, Riding, IsTxn, Reached, HasFile;
    forall i | 0 <= i < |log| && file in log[i].wholeFiles ensures i == d {
      TxnStores(pass, chunks, log[i]);
      if i < d { ChainOrders(pass, chunks, log, i, d); }
      if d < i { ChainOrders(pass, chunks, log, d, i); }
    }
    forall j | 0 <= j < |log| && HasFile(log[j].events, file) ensures d <= j {
      TxnStores(pass, chunks, log[j]);
      HasFileInChunk(log[j].events, chunks[log[j].chunk], file);
      if j < d { ChainOrders(pass, chunks, log, j, d); }
    }
  }
}
