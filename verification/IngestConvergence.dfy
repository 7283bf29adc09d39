/**
 Where a pass leaves each identity, whatever the clock did, and when running an interrupted
 pass again ends in the same rows.
 */
module IngestConvergence {
  import opened Common
  import opened IngestBatches
  import opened IngestLanding
  import opened IngestCrashSafety

  // ---------------------------------------------------------------- rows along a chain

  lemma {:induction false} InsertConcat(rows: Rows, a: Batch, b: Batch)
    ensures Insert(Insert(rows, a), b) == Insert(rows, a + b)
  {
    if b == [] {
      assert a + b == a;
    } else {
      InsertConcat(rows, a, b[..|b| - 1]);
      assert (a + b)[..|a + b| - 1] == a + b[..|b| - 1];
    }
  }

  /** The rows after the first `n` chunks: each deletes, then inserts. */
  ghost function RowsAfter(pass: Pass, chunks: seq<Batch>, rows: Rows, n: nat): Rows
    requires n <= |chunks|
  {
    if n == 0 then rows
    else Insert(Delete(RowsAfter(pass, chunks, rows, n - 1), DeletedWith(pass, chunks, n - 1)), chunks[n - 1])
  }

  ghost predicate InChunks(chunks: seq<Batch>, p: Place) {
    p.chunk <= |chunks| && (p.chunk < |chunks| ==> p.cursor <= |chunks[p.chunk]|)
  }

  ghost function RowsAt(pass: Pass, chunks: seq<Batch>, rows: Rows, p: Place): Rows
    requires InChunks(chunks, p)
  {
    var whole := RowsAfter(pass, chunks, rows, p.chunk);
    if p.cursor == 0 || p.chunk == |chunks| then whole
    else Insert(Delete(whole, DeletedWith(pass, chunks, p.chunk)), chunks[p.chunk][..p.cursor])
  }

  /** Where the chunk's deletion has been made and its first `k` events have landed. */
  ghost function RowsWithin(pass: Pass, chunks: seq<Batch>, rows: Rows, c: nat, k: nat): Rows
    requires c < |chunks| && k <= |chunks[c]|
  {
    Insert(Delete(RowsAfter(pass, chunks, rows, c), DeletedWith(pass, chunks, c)), chunks[c][..k])
  }

  lemma RowsOnceDeleted(pass: Pass, chunks: seq<Batch>, rows: Rows, t: Txn)
    requires IsTxn(pass, chunks, t)
    ensures InChunks(chunks, PlaceOf(t))
    ensures Delete(RowsAt(pass, chunks, rows, PlaceOf(t)), t.wholeFiles)
         == RowsWithin(pass, chunks, rows, t.chunk, t.cursor)
  {
    assert t.wholeFiles == if t.cursor == 0 then DeletedWith(pass, chunks, t.chunk) else [];
    hide IsTxn, Delete, DeletedWith, RowsAfter;
    if t.cursor == 0 {
      assert chunks[t.chunk][..0] == [];
    } else {
      DeleteNothing(RowsWithin(pass, chunks, rows, t.chunk, t.cursor));
    }
  }

  lemma RowsOnceLanded(pass: Pass, chunks: seq<Batch>, rows: Rows, t: Txn)
    requires IsTxn(pass, chunks, t)
    ensures InChunks(chunks, After(chunks, t))
    ensures RowsAt(pass, chunks, rows, After(chunks, t))
         == RowsWithin(pass, chunks, rows, t.chunk, t.cursor + |t.events|)
  {
    var chunk := chunks[t.chunk];
    assert t.cursor + |t.events| == |chunk| ==> chunk[..t.cursor + |t.events|] == chunk;
    hide TxnAt, Delete, DeletedWith, Insert;
  }

  lemma TxnRows(pass: Pass, chunks: seq<Batch>, rows: Rows, t: Txn)
    requires IsTxn(pass, chunks, t)
    ensures InChunks(chunks, PlaceOf(t)) && InChunks(chunks, After(chunks, t))
    ensures Insert(Delete(RowsAt(pass, chunks, rows, PlaceOf(t)), t.wholeFiles), t.events)
         == RowsAt(pass, chunks, rows, After(chunks, t))
  {
    var chunk, to := chunks[t.chunk], t.cursor + |t.events|;
    assert t.events == chunk[t.cursor..to];
    hide IsTxn, Delete, DeletedWith, RowsAfter, RowsAt, Insert;
    RowsOnceDeleted(pass, chunks, rows, t);
    RowsOnceLanded(pass, chunks, rows, t);
    SliceAppends(chunk, t.cursor, to);
    InsertConcat(Delete(RowsAfter(pass, chunks, rows, t.chunk), DeletedWith(pass, chunks, t.chunk)),
                 chunk[..t.cursor], t.events);
  }

  lemma DeleteNothing(rows: Rows)
    ensures Delete(rows, []) == rows
  {
  }

  /** The rows a chain leaves depend only on the place it has reached, not on how the clock cut
      its transactions. */
  lemma {:induction false} ChainRows(pass: Pass, chunks: seq<Batch>, log: seq<Txn>, store: Store)
    requires Chain(pass, chunks, log)
    ensures InChunks(chunks, Reached(chunks, log))
    ensures CommitAll(store, log).rows == RowsAt(pass, chunks, store.rows, Reached(chunks, log))
  {
    if log != [] {
      var n := |log| - 1;
      PrefixOfChain(pass, chunks, log, n);
      ChainRows(pass, chunks, log[..n], store);
      TxnRows(pass, chunks, store.rows, log[n]);
      assert PlaceOf(log[n]) == Reached(chunks, log[..n]);
      hide IsTxn, Chain, RowsAt, Insert, Delete;
    }
  }

  // ---------------------------------------------------------------- one identity's fate

  function Stored(rows: Rows, id: string): Option<string> {
    if id in rows then Some(rows[id]) else None
  }

  /** The file of the batch's first event of an identity. */
  function FileOf(batch: Batch, id: string): Option<string> {
    if batch == [] then None
    else
      match FileOf(batch[..|batch| - 1], id)
      case Some(f) => Some(f)
      case None => if batch[|batch| - 1].identity == id then Some(batch[|batch| - 1].sourceFile) else None
  }

  datatype Home = Home(chunk: nat, file: string)

  /** The first chunk that carries an event of an identity, and the file of that event. */
  function HomeOf(chunks: seq<Batch>, id: string): Option<Home> {
    if chunks == [] then None
    else
      match HomeOf(chunks[..|chunks| - 1], id)
      case Some(h) => Some(h)
      case None =>
        match FileOf(chunks[|chunks| - 1], id)
        case Some(f) => Some(Home(|chunks| - 1, f))
        case None => None
  }

  ghost predicate DistinctEvents(events: Batch) {
    forall i, j :: 0 <= i < j < |events| ==> events[i].identity != events[j].identity
  }

  lemma {:induction false} InsertStores(rows: Rows, batch: Batch, id: string)
    ensures Stored(Insert(rows, batch), id) == if id in rows then Some(rows[id]) else FileOf(batch, id)
  {
    if batch != [] {
      InsertStores(rows, batch[..|batch| - 1], id);
    }
  }

  lemma {:induction false} FileOfPrefix(batch: Batch, k: nat, id: string)
    requires k <= |batch|
    ensures FileOf(batch[..k], id).Some? ==> FileOf(batch[..k], id) == FileOf(batch, id)
    decreases |batch|
  {
    if k == |batch| {
      assert batch[..k] == batch;
    } else {
      FileOfPrefix(batch[..|batch| - 1], k, id);
      assert batch[..|batch| - 1][..k] == batch[..k];
    }
  }

  lemma {:induction false} FileOfIsHeld(batch: Batch, id: string) returns (i: nat)
    requires FileOf(batch, id).Some?
    ensures i < |batch| && batch[i] == PersistEvent(id, FileOf(batch, id).value)
  {
    var n := |batch| - 1;
    if FileOf(batch[..n], id).Some? {
      i := FileOfIsHeld(batch[..n], id);
    } else {
      i := n;
    }
  }

  lemma {:induction false} HomeIsHeld(chunks: seq<Batch>, id: string)
    requires HomeOf(chunks, id).Some?
    ensures
      var h := HomeOf(chunks, id).value;
      h.chunk < |chunks| && FileOf(chunks[h.chunk], id) == Some(h.file)
  {
    var n := |chunks| - 1;
    if HomeOf(chunks[..n], id).Some? {
      HomeIsHeld(chunks[..n], id);
    }
  }

  lemma EventAt(chunks: seq<Batch>, c: nat, i: nat)
    requires c < |chunks| && i < |chunks[c]|
    ensures Offset(chunks, c) + i < Offset(chunks, c + 1) <= |Flatten(chunks)|
    ensures Flatten(chunks)[Offset(chunks, c) + i] == chunks[c][i]
  {
    OffsetsAreSlices(chunks, c);
    hide Offset, Flatten;
    assert chunks[c][i] == Flatten(chunks)[Offset(chunks, c)..Offset(chunks, c + 1)][i];
  }

  /** With distinct identities no other chunk carries the identity. */
  lemma HomeIsOnly(chunks: seq<Batch>, id: string, c: nat)
    requires DistinctEvents(Flatten(chunks)) && c < |chunks| && FileOf(chunks[c], id).Some?
    ensures HomeOf(chunks, id) == Some(Home(c, FileOf(chunks[c], id).value))
  {
    HomeExists(chunks, id, c);
    HomeIsHeld(chunks, id);
    var h := HomeOf(chunks, id).value;
    var i := FileOfIsHeld(chunks[c], id);
    var j := FileOfIsHeld(chunks[h.chunk], id);
    hide Flatten, FileOf, HomeOf, Offset;
    EventAt(chunks, c, i);
    EventAt(chunks, h.chunk, j);
    if h.chunk < c {
      OffsetsGrow(chunks, h.chunk + 1, c);
    } else if c < h.chunk {
      OffsetsGrow(chunks, c + 1, h.chunk);
    }
  }

  lemma {:induction false} OffsetsGrow(chunks: seq<Batch>, m: nat, n: nat)
    requires m <= n <= |chunks|
    ensures Offset(chunks, m) <= Offset(chunks, n)
    decreases n
  {
    if m < n {
      OffsetsGrow(chunks, m, n - 1);
      OffsetsAreSlices(chunks, n - 1);
    }
  }

  lemma {:induction false} HomeExists(chunks: seq<Batch>, id: string, c: nat)
    requires c < |chunks| && FileOf(chunks[c], id).Some?
    ensures HomeOf(chunks, id).Some?
  {
    if c < |chunks| - 1 {
      HomeExists(chunks[..|chunks| - 1], id, c);
    }
  }

  /** A file's old rows are deleted no later than with any chunk that carries one of its
      events. */
  lemma HomeDeletion(chunks: seq<Batch>, id: string)
    requires HomeOf(chunks, id).Some?
    ensures chunks != [] && DeletionChunk(chunks, HomeOf(chunks, id).value.file) <= HomeOf(chunks, id).value.chunk
  {
    var h := HomeOf(chunks, id).value;
    HomeIsHeld(chunks, id);
    var i := FileOfIsHeld(chunks[h.chunk], id);
    assert HasFile(chunks[h.chunk], h.file);
  }

  /** What the first `n` chunks make of an identity, from what is stored for it. An event whose
      identity is already stored changes nothing, even when the stored row is about to go. */
  ghost function FateAfter(pass: Pass, chunks: seq<Batch>, n: nat, id: string, stored: Option<string>): Option<string>
    requires chunks != []
  {
    var home := HomeOf(chunks, id);
    var landed := home.Some? && home.value.chunk < n;
    match stored
    case None => if landed then Some(home.value.file) else None
    case Some(f) =>
      if !(f in pass.wholeFiles && DeletionChunk(chunks, f) < n) then stored
      else if landed && DeletionChunk(chunks, f) <= home.value.chunk then Some(home.value.file)
      else None
  }

  lemma DeleteStores(rows: Rows, files: seq<string>, id: string)
    ensures Stored(Delete(rows, files), id) ==
      if id in rows && rows[id] !in files then Some(rows[id]) else None
  {
  }

  lemma FateStep(pass: Pass, chunks: seq<Batch>, c: nat, id: string, stored: Option<string>)
    requires DistinctEvents(Flatten(chunks)) && c < |chunks|
    ensures
      var before := FateAfter(pass, chunks, c, id, stored);
      var kept := if before.Some? && before.value !in DeletedWith(pass, chunks, c) then before else None;
      FateAfter(pass, chunks, c + 1, id, stored) == if kept.Some? then kept else FileOf(chunks[c], id)
  {
    if HomeOf(chunks, id).Some? {
      HomeDeletion(chunks, id);
      HomeIsHeld(chunks, id);
    }
    if FileOf(chunks[c], id).Some? {
      HomeIsOnly(chunks, id, c);
    }
    hide Flatten, FileOf, HomeOf, DeletionChunk;
  }

  /** One chunk: its deletion, then its events. */
  lemma ChunkStores(rows: Rows, gone: seq<string>, chunk: Batch, id: string)
    ensures
      var before := Stored(rows, id);
      var kept := if before.Some? && before.value !in gone then before else None;
      Stored(Insert(Delete(rows, gone), chunk), id) == if kept.Some? then kept else FileOf(chunk, id)
  {
    DeleteStores(rows, gone, id);
    InsertStores(Delete(rows, gone), chunk, id);
    hide Insert, Delete, FileOf;
  }

  lemma NextRows(pass: Pass, chunks: seq<Batch>, rows: Rows, c: nat)
    requires c < |chunks|
    ensures RowsAfter(pass, chunks, rows, c + 1)
         == Insert(Delete(RowsAfter(pass, chunks, rows, c), DeletedWith(pass, chunks, c)), chunks[c])
  {
    hide Insert, Delete, DeletedWith;
  }

  lemma FateAtStart(pass: Pass, chunks: seq<Batch>, rows: Rows, id: string)
    requires chunks != []
    ensures Stored(RowsAfter(pass, chunks, rows, 0), id) == FateAfter(pass, chunks, 0, id, Stored(rows, id))
  {
    hide HomeOf, DeletionChunk;
  }

  lemma {:induction false} RowsFollowFate(pass: Pass, chunks: seq<Batch>, rows: Rows, n: nat, id: string)
    requires chunks != [] && DistinctEvents(Flatten(chunks)) && n <= |chunks|
    ensures Stored(RowsAfter(pass, chunks, rows, n), id) == FateAfter(pass, chunks, n, id, Stored(rows, id))
  {
    hide *;
    if n == 0 {
      FateAtStart(pass, chunks, rows, id);
    } else {
      var c := n - 1;
      RowsFollowFate(pass, chunks, rows, c, id);
      NextRows(pass, chunks, rows, c);
      ChunkStores(RowsAfter(pass, chunks, rows, c), DeletedWith(pass, chunks, c), chunks[c], id);
      FateStep(pass, chunks, c, id, Stored(rows, id));
    }
  }

  // ---------------------------------------------------------------- what a pass loses

  /** The pass carries an event of a stored identity, but the stored row's file is one it
      reparses whole and deletes with a later chunk: the event lands as already ingested, and
      then the row it was taken for goes. */
  ghost predicate Lost(pass: Pass, chunks: seq<Batch>, rows: Rows, id: string)
    requires chunks != []
  {
    && id in rows && rows[id] in pass.wholeFiles
    && HomeOf(chunks, id).Some?
    && HomeOf(chunks, id).value.chunk < DeletionChunk(chunks, rows[id])
  }

  ghost predicate NothingLost(pass: Pass, chunks: seq<Batch>, rows: Rows)
    requires chunks != []
  {
    forall id :: !Lost(pass, chunks, rows, id)
  }

  /** After a complete pass an identity of the pass is in the store exactly when it was not
      lost; an identity the pass does not carry, exactly when its row's file was not reparsed
      whole. */
  lemma CompletePassKeeps(pass: Pass, chunks: seq<Batch>, store: Store, log: seq<Txn>, id: string)
    requires chunks != [] && Flatten(chunks) == pass.events && DistinctEvents(pass.events)
    requires Complete(pass, chunks, log)
    ensures
      var rows := CommitAll(store, log).rows;
      id in rows <==>
        if HomeOf(chunks, id).Some? then !Lost(pass, chunks, store.rows, id)
        else id in store.rows && store.rows[id] !in pass.wholeFiles
  {
    ChainRows(pass, chunks, log, store);
    RowsFollowFate(pass, chunks, store.rows, |chunks|, id);
    DeletionIsInside(chunks, id, store.rows);
    hide CommitAll, Flatten, Chain;
    assert Stored(CommitAll(store, log).rows, id) == FateAfter(pass, chunks, |chunks|, id, Stored(store.rows, id));
  }

  /** A batch that holds an identity has a file for it, and the other way round. */
  lemma {:induction false} FileOfHeld(batch: Batch, i: nat)
    requires i < |batch|
    ensures FileOf(batch, batch[i].identity).Some?
  {
    if i < |batch| - 1 {
      FileOfHeld(batch[..|batch| - 1], i);
    }
  }

  lemma {:induction false} HomeOfEvent(chunks: seq<Batch>, i: nat)
    requires i < |Flatten(chunks)|
    ensures HomeOf(chunks, Flatten(chunks)[i].identity).Some?
  {
    var n := |chunks| - 1;
    var front := Flatten(chunks[..n]);
    assert Flatten(chunks) == front + chunks[n];
    if i < |front| {
      HomeOfEvent(chunks[..n], i);
    } else {
      FileOfHeld(chunks[n], i - |front|);
      HomeExists(chunks, chunks[n][i - |front|].identity, n);
    }
  }

  lemma EventOfHome(chunks: seq<Batch>, id: string) returns (i: nat)
    requires HomeOf(chunks, id).Some?
    ensures i < |Flatten(chunks)| && Flatten(chunks)[i].identity == id
  {
    HomeIsHeld(chunks, id);
    var c := HomeOf(chunks, id).value.chunk;
    var k := FileOfIsHeld(chunks[c], id);
    OffsetsAreSlices(chunks, c);
    i := Offset(chunks, c) + k;
  }

  /** The store holds every event's occurrence. */
  ghost predicate HoldsAll(rows: Rows, events: Batch) {
    forall i :: 0 <= i < |events| ==> events[i].identity in rows
  }

  /** A complete pass leaves every one of its events stored exactly when it loses nothing. */
  lemma CompletePassHoldsAllExactlyWhen(pass: Pass, chunks: seq<Batch>, store: Store, log: seq<Txn>)
    requires chunks != [] && Flatten(chunks) == pass.events && DistinctEvents(pass.events)
    requires Complete(pass, chunks, log)
    ensures HoldsAll(CommitAll(store, log).rows, pass.events) <==> NothingLost(pass, chunks, store.rows)
  {
    hide Flatten, CommitAll, Chain, HomeOf, DeletionChunk, Complete;
    forall i | 0 <= i < |pass.events|
      ensures pass.events[i].identity in CommitAll(store, log).rows
         <==> !Lost(pass, chunks, store.rows, pass.events[i].identity)
    {
      HomeOfEvent(chunks, i);
      CompletePassKeeps(pass, chunks, store, log, pass.events[i].identity);
    }
    if id :| Lost(pass, chunks, store.rows, id) {
      var i := EventOfHome(chunks, id);
    }
  }

  // ---------------------------------------------------------------- canonical events

  /** An event is stored while one of its occurrences is. */
  ghost predicate EventStored(rows: Rows, canonical: string -> string, event: string) {
    exists id :: id in rows && canonical(id) == event
  }

  /** Deduplication leaves one occurrence of an event. */
  ghost predicate OneOccurrenceEach(events: Batch, canonical: string -> string) {
    forall i, j :: 0 <= i < j < |events| ==> canonical(events[i].identity) != canonical(events[j].identity)
  }

  /** Another occurrence of the event, stored from a file the pass does not reparse whole. */
  ghost predicate HeldElsewhere(pass: Pass, rows: Rows, canonical: string -> string, id: string) {
    exists other :: other in rows && other != id && canonical(other) == canonical(id) && rows[other] !in pass.wholeFiles
  }

  lemma OtherIsNotCarried(chunks: seq<Batch>, canonical: string -> string, id: string, other: string)
    requires OneOccurrenceEach(Flatten(chunks), canonical) && HomeOf(chunks, id).Some?
    requires other != id && canonical(other) == canonical(id)
    ensures HomeOf(chunks, other).None?
  {
    hide Flatten, HomeOf;
    if HomeOf(chunks, other).Some? {
      var i := EventOfHome(chunks, id);
      var j := EventOfHome(chunks, other);
    }
  }

  /** After a complete pass an event of the pass is stored exactly when its own occurrence was
      not lost, or another namespace's occurrence of it stays. */
  lemma CompletePassKeepsEvent(pass: Pass, chunks: seq<Batch>, store: Store, log: seq<Txn>,
                               canonical: string -> string, id: string)
    requires chunks != [] && Flatten(chunks) == pass.events && OneOccurrenceEach(pass.events, canonical)
    requires Complete(pass, chunks, log) && HomeOf(chunks, id).Some?
    ensures EventStored(CommitAll(store, log).rows, canonical, canonical(id)) <==>
      !Lost(pass, chunks, store.rows, id) || HeldElsewhere(pass, store.rows, canonical, id)
  {
    hide Flatten, CommitAll, Chain, HomeOf, DeletionChunk, Complete, Lost;
    var rows := CommitAll(store, log).rows;
    CompletePassKeeps(pass, chunks, store, log, id);
    forall other | other != id && canonical(other) == canonical(id)
      ensures other in rows <==> other in store.rows && store.rows[other] !in pass.wholeFiles
    {
      OtherIsNotCarried(chunks, canonical, id, other);
      CompletePassKeeps(pass, chunks, store, log, other);
    }
  }

  lemma DeletionIsInside(chunks: seq<Batch>, id: string, rows: Rows)
    requires chunks != []
    ensures HomeOf(chunks, id).Some? ==> HomeOf(chunks, id).value.chunk < |chunks|
    ensures forall f :: DeletionChunk(chunks, f) < |chunks|
  {
    if HomeOf(chunks, id).Some? {
      HomeIsHeld(chunks, id);
    }
  }

  /** A pass that fits one batch deletes before it lands anything, so it loses nothing. */
  lemma OneBatchLosesNothing(pass: Pass, chunks: seq<Batch>, rows: Rows)
    requires |chunks| == 1
    ensures NothingLost(pass, chunks, rows)
  {
    forall id ensures !Lost(pass, chunks, rows, id) {
      DeletionIsInside(chunks, id, rows);
    }
  }

  // ---------------------------------------------------------------- running again

  lemma {:induction false} FileOfConcat(a: Batch, b: Batch, id: string)
    ensures FileOf(a + b, id) == if FileOf(a, id).Some? then FileOf(a, id) else FileOf(b, id)
  {
    if b == [] {
      assert a + b == a;
    } else {
      FileOfConcat(a, b[..|b| - 1], id);
      assert (a + b)[..|a + b| - 1] == a + b[..|b| - 1];
    }
  }

  function HomeFile(chunks: seq<Batch>, id: string): Option<string> {
    if HomeOf(chunks, id).Some? then Some(HomeOf(chunks, id).value.file) else None
  }

  /** An identity's file is that of its first event, however the events are split. */
  lemma {:induction false} HomeIsOfTheEvents(chunks: seq<Batch>, id: string)
    ensures HomeFile(chunks, id) == FileOf(Flatten(chunks), id)
  {
    if chunks != [] {
      var n := |chunks| - 1;
      HomeIsOfTheEvents(chunks[..n], id);
      FileOfConcat(Flatten(chunks[..n]), chunks[n], id);
      hide FileOf;
    }
  }

  /** What a complete pass makes of an identity it does not lose: its own file's row, unless a
      row of a file it leaves alone stays. */
  function FinalFate(pass: Pass, file: Option<string>, stored: Option<string>): Option<string> {
    if stored.Some? && stored.value !in pass.wholeFiles then stored else file
  }

  lemma KeptFate(pass: Pass, chunks: seq<Batch>, id: string, stored: Option<string>)
    requires chunks != []
    requires stored.Some? && stored.value in pass.wholeFiles && HomeOf(chunks, id).Some? ==>
      DeletionChunk(chunks, stored.value) <= HomeOf(chunks, id).value.chunk
    ensures FateAfter(pass, chunks, |chunks|, id, stored) == FinalFate(pass, HomeFile(chunks, id), stored)
  {
    DeletionIsInside(chunks, id, map[]);
    hide HomeOf, DeletionChunk;
  }

  /** What a crash can leave stored for an identity that is not lost: what was there, nothing,
      or the row of the pass's own event. */
  ghost predicate LeftBy(pass: Pass, file: Option<string>, stored: Option<string>, left: Option<string>) {
    || left == stored
    || ((left.None? || left == file) && (stored.Some? ==> stored.value in pass.wholeFiles))
  }

  lemma PartialFate(pass: Pass, chunks: seq<Batch>, rows: Rows, p: Place, id: string)
    requires chunks != [] && DistinctEvents(Flatten(chunks)) && InChunks(chunks, p)
    requires !Lost(pass, chunks, rows, id)
    ensures LeftBy(pass, HomeFile(chunks, id), Stored(rows, id), Stored(RowsAt(pass, chunks, rows, p), id))
  {
    var c := p.chunk;
    var whole := RowsAfter(pass, chunks, rows, c);
    RowsFollowFate(pass, chunks, rows, c, id);
    if p.cursor > 0 && c < |chunks| {
      var gone := DeletedWith(pass, chunks, c);
      DeleteStores(whole, gone, id);
      InsertStores(Delete(whole, gone), chunks[c][..p.cursor], id);
      FileOfPrefix(chunks[c], p.cursor, id);
      if FileOf(chunks[c], id).Some? {
        HomeIsOnly(chunks, id, c);
      }
      hide RowsAfter, Insert, Delete, FileOf, HomeOf, DeletionChunk, Flatten;
    } else {
      hide RowsAfter, Insert, Delete, FileOf, HomeOf, DeletionChunk, Flatten;
    }
  }

  /** Unless the identity is lost under either split, running the whole pass again from what a
      crash left ends where the pass would have. */
  lemma FateOfFate(pass: Pass, chunks: seq<Batch>, other: seq<Batch>, rows: Rows, p: Place, id: string)
    requires chunks != [] && other != [] && DistinctEvents(Flatten(chunks)) && Flatten(other) == Flatten(chunks)
    requires InChunks(chunks, p) && !Lost(pass, chunks, rows, id) && !Lost(pass, other, rows, id)
    ensures FateAfter(pass, other, |other|, id, Stored(RowsAt(pass, chunks, rows, p), id))
         == FateAfter(pass, chunks, |chunks|, id, Stored(rows, id))
  {
    var stored, left := Stored(rows, id), Stored(RowsAt(pass, chunks, rows, p), id);
    PartialFate(pass, chunks, rows, p, id);
    HomeIsOfTheEvents(chunks, id);
    HomeIsOfTheEvents(other, id);
    if HomeOf(other, id).Some? {
      HomeDeletion(other, id);
    }
    hide RowsAt, HomeOf, DeletionChunk, Flatten, FileOf, FateAfter;
    KeptFate(pass, chunks, id, stored);
    KeptFate(pass, other, id, left);
  }

  lemma RowsByIdentity(a: Rows, b: Rows)
    requires forall id :: Stored(a, id) == Stored(b, id)
    ensures a == b
  {
    forall id ensures id in a <==> id in b {
      assert Stored(a, id) == Stored(b, id);
    }
    forall id | id in a ensures a[id] == b[id] {
      assert Stored(a, id) == Stored(b, id);
    }
  }

  lemma CompleteRows(pass: Pass, chunks: seq<Batch>, store: Store, log: seq<Txn>, id: string)
    requires chunks != [] && DistinctEvents(Flatten(chunks)) && Complete(pass, chunks, log)
    ensures Stored(CommitAll(store, log).rows, id) == FateAfter(pass, chunks, |chunks|, id, Stored(store.rows, id))
  {
    ChainRows(pass, chunks, log, store);
    RowsFollowFate(pass, chunks, store.rows, |chunks|, id);
    hide CommitAll, Flatten, Chain, FateAfter;
  }

  /** A pass interrupted after any number of its transactions and run again in full, split
      under the same or other bounds, ends with the rows of an uninterrupted pass, however the
      clock cut either, exactly when neither split loses anything from what was stored. */
  lemma InterruptedPassConverges(pass: Pass, chunks: seq<Batch>, other: seq<Batch>, store: Store,
                                 log: seq<Txn>, again: seq<Txn>)
    requires chunks != [] && Flatten(chunks) == pass.events && DistinctEvents(pass.events)
    requires other != [] && Flatten(other) == pass.events
    requires Complete(pass, chunks, log) && Complete(pass, other, again)
    ensures
      (forall k :: 0 <= k <= |log| ==>
         CommitAll(CommitAll(store, log[..k]), again).rows == CommitAll(store, log).rows)
      <==> NothingLost(pass, chunks, store.rows) && NothingLost(pass, other, store.rows)
  {
    hide CommitAll, Flatten, Chain, Complete, Lost;
    if !NothingLost(pass, chunks, store.rows) {
      LossShowsAgain(pass, chunks, other, store, log, again);
    } else if !NothingLost(pass, other, store.rows) {
      LossShowsAtOnce(pass, chunks, other, store, log, again);
    } else {
      forall k | 0 <= k <= |log|
        ensures CommitAll(CommitAll(store, log[..k]), again).rows == CommitAll(store, log).rows
      {
        CrashThenRerun(pass, chunks, other, store, log, again, k);
      }
    }
  }

  /** What the pass lost, running it again after its end puts back. */
  lemma LossShowsAgain(pass: Pass, chunks: seq<Batch>, other: seq<Batch>, store: Store, log: seq<Txn>, again: seq<Txn>)
    requires chunks != [] && Flatten(chunks) == pass.events && DistinctEvents(pass.events)
    requires other != [] && Flatten(other) == pass.events
    requires Complete(pass, chunks, log) && Complete(pass, other, again)
    requires !NothingLost(pass, chunks, store.rows)
    ensures CommitAll(CommitAll(store, log[..|log|]), again).rows != CommitAll(store, log).rows
  {
    var id :| Lost(pass, chunks, store.rows, id);
    var once := CommitAll(store, log);
    assert log[..|log|] == log;
    HomeIsOfTheEvents(chunks, id);
    HomeIsOfTheEvents(other, id);
    CompletePassKeeps(pass, chunks, store, log, id);
    CompletePassKeeps(pass, other, once, again, id);
    assert id !in once.rows && id in CommitAll(once, again).rows;
  }

  /** What the other split loses, it loses when the first run did nothing. */
  lemma LossShowsAtOnce(pass: Pass, chunks: seq<Batch>, other: seq<Batch>, store: Store, log: seq<Txn>, again: seq<Txn>)
    requires chunks != [] && Flatten(chunks) == pass.events && DistinctEvents(pass.events)
    requires other != [] && Flatten(other) == pass.events
    requires Complete(pass, chunks, log) && Complete(pass, other, again)
    requires NothingLost(pass, chunks, store.rows) && !NothingLost(pass, other, store.rows)
    ensures CommitAll(CommitAll(store, log[..0]), again).rows != CommitAll(store, log).rows
  {
    var id :| Lost(pass, other, store.rows, id);
    HomeIsOfTheEvents(chunks, id);
    HomeIsOfTheEvents(other, id);
    CompletePassKeeps(pass, chunks, store, log, id);
    CompletePassKeeps(pass, other, store, again, id);
    assert CommitAll(store, log[..0]) == store;
  }

  /** The rows it then ends with hold every event of the pass. */
  lemma InterruptedPassHoldsAll(pass: Pass, chunks: seq<Batch>, other: seq<Batch>, store: Store,
                                log: seq<Txn>, again: seq<Txn>, k: nat)
    requires chunks != [] && Flatten(chunks) == pass.events && DistinctEvents(pass.events)
    requires other != [] && Flatten(other) == pass.events
    requires Complete(pass, chunks, log) && Complete(pass, other, again) && k <= |log|
    requires NothingLost(pass, chunks, store.rows) && NothingLost(pass, other, store.rows)
    ensures HoldsAll(CommitAll(CommitAll(store, log[..k]), again).rows, pass.events)
  {
    hide CommitAll, Chain, NothingLost, Flatten, HoldsAll, DistinctEvents;
    CrashThenRerun(pass, chunks, other, store, log, again, k);
    CompletePassHoldsAllExactlyWhen(pass, chunks, store, log);
  }

  lemma CrashThenRerun(pass: Pass, chunks: seq<Batch>, other: seq<Batch>, store: Store,
                       log: seq<Txn>, again: seq<Txn>, k: nat)
    requires chunks != [] && Flatten(chunks) == pass.events && DistinctEvents(pass.events)
    requires other != [] && Flatten(other) == pass.events
    requires Complete(pass, chunks, log) && Complete(pass, other, again) && k <= |log|
    requires NothingLost(pass, chunks, store.rows) && NothingLost(pass, other, store.rows)
    ensures CommitAll(CommitAll(store, log[..k]), again).rows == CommitAll(store, log).rows
  {
    var partial := CommitAll(store, log[..k]);
    PrefixOfChain(pass, chunks, log, k);
    ChainRows(pass, chunks, log[..k], store);
    hide CommitAll, Chain, FateAfter, RowsAt, Flatten, DistinctEvents;
    forall id ensures Stored(CommitAll(partial, again).rows, id) == Stored(CommitAll(store, log).rows, id) {
      CompleteRows(pass, other, partial, again, id);
      CompleteRows(pass, chunks, store, log, id);
      FateOfFate(pass, chunks, other, store.rows, Reached(chunks, log[..k]), id);
    }
    RowsByIdentity(CommitAll(partial, again).rows, CommitAll(store, log).rows);
  }

  /** A pass that loses: the message stored from a reparsed file now comes from another file,
      lands in the first of the two batches a bound of one event makes, and the reparsed file,
      which produced nothing, is deleted with the last. However the clock cuts it, the complete
      pass leaves the message unstored. */
  lemma MovedMessageIsLost(store: Store, log: seq<Txn>)
    requires store.rows == map["message" := "old"]
    ensures
      var chunks := [[PersistEvent("message", "new")], [PersistEvent("other", "new")]];
      var pass := Pass(chunks[0] + chunks[1], ["old"], [], []);
      && Flatten(chunks) == pass.events && Greedy(chunks, 1, 1)
      && Lost(pass, chunks, store.rows, "message")
      && (Complete(pass, chunks, log) ==> "message" !in CommitAll(store, log).rows)
  {
    var first, second := [PersistEvent("message", "new")], [PersistEvent("other", "new")];
    var chunks := [first, second];
    var pass := Pass(first + second, ["old"], [], []);
    MovedMessageLost(first, second, pass, store.rows);
    TwoSingles(first, second);
    assert DistinctEvents(pass.events);
    hide Flatten, CommitAll, Complete, Lost, HomeOf;
    if Complete(pass, chunks, log) {
      CompletePassKeeps(pass, chunks, store, log, "message");
    }
  }

  lemma TwoSingles(first: Batch, second: Batch)
    requires |first| == 1 && |second| == 1
    ensures Flatten([first, second]) == first + second && Greedy([first, second], 1, 1)
  {
    assert [first, second][..1] == [first] && [first][..0] == [];
    assert Flatten([]) == [] && Flatten([first]) == first;
  }

  lemma MovedMessageLost(first: Batch, second: Batch, pass: Pass, rows: Rows)
    requires first == [PersistEvent("message", "new")] && second == [PersistEvent("other", "new")]
    requires pass.wholeFiles == ["old"] && rows == map["message" := "old"]
    ensures Lost(pass, [first, second], rows, "message") && HomeOf([first, second], "message").Some?
  {
    var chunks := [first, second];
    var none: seq<Batch> := [];
    assert chunks[..1] == [first] && [first][..0] == none;
    assert first[..0] == [] && FileOf(first, "message") == Some("new");
    assert HomeOf([first], "message") == Some(Home(0, "new"));
    assert !HasFile(first, "old") && !HasFile(second, "old");
    assert FirstChunk([first], "old").None?;
    assert FirstChunk(chunks, "old").None?;
  }
}
