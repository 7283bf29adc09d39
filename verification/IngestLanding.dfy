/**
 Landing a pass: which side effects ride with which transaction, and what a crash between two
 transactions leaves behind. A transaction commits whole or not at all, so a crash leaves the
 effect of a prefix of the transaction log.
 */
module IngestLanding {
  import opened Common
  import opened IngestBatches

  /** The stored occurrences: the source file each was read from, by the occurrence's identity. */
  type Rows = map<string, string>

  /** What one transaction commits. `chunk` and `cursor` say which events it was given. */
  datatype Txn = Txn(
    chunk: nat, cursor: nat, wholeFiles: seq<string>, events: Batch,
    watermarks: seq<string>, quarantine: seq<string>)

  datatype Store = Store(rows: Rows, watermarks: seq<string>, quarantine: seq<string>, generation: nat)

  /** A pass after deduplication: its events in landing order, the files it reparsed whole, the
      watermarks to store once everything has landed, and its quarantine records. */
  datatype Pass = Pass(events: Batch, wholeFiles: seq<string>, watermarks: seq<string>, quarantine: seq<string>)

  // ---------------------------------------------------------------- one transaction

  function Delete(rows: Rows, files: seq<string>): Rows {
    map id | id in rows && rows[id] !in files :: rows[id]
  }

  /** An identity already stored keeps the occurrence it has. */
  function Insert(rows: Rows, events: Batch): Rows {
    if events == [] then rows
    else
      var before := Insert(rows, events[..|events| - 1]);
      var e := events[|events| - 1];
      if e.identity in before then before else before[e.identity := e.sourceFile]
  }

  function Commit(store: Store, txn: Txn): Store {
    Store(Insert(Delete(store.rows, txn.wholeFiles), txn.events),
          store.watermarks + txn.watermarks, store.quarantine + txn.quarantine, store.generation + 1)
  }

  function CommitAll(store: Store, log: seq<Txn>): Store {
    if log == [] then store else Commit(CommitAll(store, log[..|log| - 1]), log[|log| - 1])
  }

  /** How many of `n` events a transaction lands when the clock allows it `allowance`: all of
      them or, of a batch cut short, at least one. */
  function Landed(n: nat, allowance: nat): (k: nat)
    ensures k <= n && (n > 0 ==> k > 0)
  {
    if allowance >= n then n else if allowance == 0 then 1 else allowance
  }

  // ---------------------------------------------------------------- the log of a pass

  predicate HasFile(batch: Batch, file: string) {
    exists i :: 0 <= i < |batch| && batch[i].sourceFile == file
  }

  /** The first chunk that carries an event of `file`. */
  function FirstChunk(chunks: seq<Batch>, file: string): (c: Option<nat>)
    ensures c.Some? ==> c.value < |chunks| && HasFile(chunks[c.value], file)
    ensures c.Some? ==> forall j :: 0 <= j < c.value ==> !HasFile(chunks[j], file)
    ensures c.None? ==> forall j :: 0 <= j < |chunks| ==> !HasFile(chunks[j], file)
  {
    if chunks == [] then None
    else
      match FirstChunk(chunks[..|chunks| - 1], file)
      case Some(c) => Some(c)
      case None => if HasFile(chunks[|chunks| - 1], file) then Some(|chunks| - 1) else None
  }

  /** The chunk a reparsed file's old rows are deleted with: the one that carries its first
      event, or the last when it produced none. */
  function DeletionChunk(chunks: seq<Batch>, file: string): nat
    requires chunks != []
  {
    match FirstChunk(chunks, file)
    case Some(c) => c
    case None => |chunks| - 1
  }

  function DeletedWith(pass: Pass, chunks: seq<Batch>, c: nat): seq<string>
    requires c < |chunks|
  {
    Riding(pass.wholeFiles, chunks, c)
  }

  function Riding(files: seq<string>, chunks: seq<Batch>, c: nat): (r: seq<string>)
    requires c < |chunks|
    ensures forall f :: f in r <==> f in files && DeletionChunk(chunks, f) == c
  {
    if files == [] then []
    else
      var f := files[|files| - 1];
      Riding(files[..|files| - 1], chunks, c) + (if DeletionChunk(chunks, f) == c then [f] else [])
  }

  /** The transaction that chunk `c` hands over from `cursor`, when `k` of its events land. */
  function TxnAt(pass: Pass, chunks: seq<Batch>, c: nat, cursor: nat, k: nat): Txn
    requires c < |chunks| && cursor + k <= |chunks[c]|
  {
    var drained := cursor + k == |chunks[c]|;
    Txn(c, cursor,
        if cursor == 0 then DeletedWith(pass, chunks, c) else [],
        chunks[c][cursor..cursor + k],
        if drained && c == |chunks| - 1 then pass.watermarks else [],
        if drained && c == 0 then pass.quarantine else [])
  }

  /** The place in the chunks a landing has reached: all chunks before `chunk`, and `cursor`
      events of that one. */
  datatype Place = Place(chunk: nat, cursor: nat)

  function PlaceOf(t: Txn): Place {
    Place(t.chunk, t.cursor)
  }

  /** Where the next transaction takes over. */
  function After(chunks: seq<Batch>, t: Txn): Place {
    if t.chunk < |chunks| && t.cursor + |t.events| < |chunks[t.chunk]|
    then Place(t.chunk, t.cursor + |t.events|) else Place(t.chunk + 1, 0)
  }

  /** A transaction of this pass; of a chunk that holds events it lands at least one. */
  ghost predicate IsTxn(pass: Pass, chunks: seq<Batch>, t: Txn) {
    && t.chunk < |chunks| && t.cursor + |t.events| <= |chunks[t.chunk]|
    && (t.events == [] ==> chunks[t.chunk] == [])
    && t == TxnAt(pass, chunks, t.chunk, t.cursor, |t.events|)
  }

  /** Transactions of this pass, from its start, each where the one before left off. */
  ghost predicate Chain(pass: Pass, chunks: seq<Batch>, log: seq<Txn>) {
    && (forall i :: 0 <= i < |log| ==> IsTxn(pass, chunks, log[i]))
    && (forall i :: 0 <= i < |log| ==> PlaceOf(log[i]) == Reached(chunks, log[..i]))
  }

  function Reached(chunks: seq<Batch>, log: seq<Txn>): Place {
    if log == [] then Place(0, 0) else After(chunks, log[|log| - 1])
  }

  /** The log of a pass that ran to its end. */
  ghost predicate Complete(pass: Pass, chunks: seq<Batch>, log: seq<Txn>) {
    Chain(pass, chunks, log) && Reached(chunks, log) == Place(|chunks|, 0)
  }

  lemma ChainPush(pass: Pass, chunks: seq<Batch>, log: seq<Txn>, t: Txn)
    requires Chain(pass, chunks, log) && IsTxn(pass, chunks, t) && PlaceOf(t) == Reached(chunks, log)
    ensures Chain(pass, chunks, log + [t])
    ensures Reached(chunks, log + [t]) == After(chunks, t)
  {
    hide IsTxn, Reached;
    var longer := log + [t];
    forall i | 0 <= i < |longer| ensures PlaceOf(longer[i]) == Reached(chunks, longer[..i]) {
      assert longer[..i] == log[..i];
      assert log[..|log|] == log;
    }
    assert Reached(chunks, longer) == After(chunks, t) by { ReachedPush(chunks, log, t); }
  }

  lemma ReachedPush(chunks: seq<Batch>, log: seq<Txn>, t: Txn)
    ensures Reached(chunks, log + [t]) == After(chunks, t)
  {
  }

  // ---------------------------------------------------------------- the ledger

  class Ledger {
    var rows: Rows
    var watermarks: seq<string>
    var quarantine: seq<string>
    var generation: nat

    ghost function Contents(): Store
      reads this
    {
      Store(rows, watermarks, quarantine, generation)
    }

    /** One transaction: whole-file replacement, then events until the clock runs out, and the
        pass-level records only when every event given was drained. */
    method PersistIngestBatch(wholeFiles: seq<string>, events: Batch, watermarks: seq<string>, quarantine: seq<string>,
                              allowance: nat) returns (consumed: nat)
      modifies this
      ensures consumed == Landed(|events|, allowance)
      ensures Contents() == Commit(old(Contents()),
        Txn(0, 0, wholeFiles, events[..consumed],
            if consumed == |events| then watermarks else [],
            if consumed == |events| then quarantine else []))
    {
      rows := Delete(rows, wholeFiles);
      ghost var deleted := rows;
      consumed := 0;
      while consumed < |events| && !(consumed > 0 && consumed >= allowance)
        invariant consumed <= |events|
        invariant consumed <= Landed(|events|, allowance)
        invariant rows == Insert(deleted, events[..consumed])
        invariant this.watermarks == old(this.watermarks) && this.quarantine == old(this.quarantine)
        invariant generation == old(generation)
        decreases |events| - consumed
      {
        var e := events[consumed];
        assert events[..consumed + 1][..consumed] == events[..consumed];
        if e.identity !in rows {
          rows := rows[e.identity := e.sourceFile];
        }
        consumed := consumed + 1;
      }
      if consumed == |events| {
        this.watermarks := this.watermarks + watermarks;
        this.quarantine := this.quarantine + quarantine;
      }
      generation := generation + 1;
    }

    /** The landing loop of a pass: chunk after chunk, and within a chunk transaction after
        transaction until its events are drained. */
    method LandPass(pass: Pass, chunks: seq<Batch>, clock: nat -> nat) returns (log: seq<Txn>)
      requires chunks != [] && Flatten(chunks) == pass.events
      modifies this
      ensures Complete(pass, chunks, log)
      ensures Contents() == CommitAll(old(Contents()), log)
    {
      log := [];
      for index := 0 to |chunks|
        invariant Chain(pass, chunks, log) && Reached(chunks, log) == Place(index, 0)
        invariant Contents() == CommitAll(old(Contents()), log)
      {
        log := LandChunk(pass, chunks, index, log, clock, old(Contents()));
      }
    }

    /** The inner loop. */
    method LandChunk(pass: Pass, chunks: seq<Batch>, c: nat, log: seq<Txn>, clock: nat -> nat, ghost origin: Store)
      returns (log': seq<Txn>)
      requires c < |chunks|
      requires Chain(pass, chunks, log) && Reached(chunks, log) == Place(c, 0)
      requires Contents() == CommitAll(origin, log)
      modifies this
      ensures Chain(pass, chunks, log') && Reached(chunks, log') == Place(c + 1, 0)
      ensures Contents() == CommitAll(origin, log')
    {
      hide *;
      var chunk := chunks[c];
      var last := c + 1 == |chunks|;
      var chunkWatermarks := if last then pass.watermarks else [];
      var chunkQuarantine := if c == 0 then pass.quarantine else [];
      var cursor := 0;
      log' := log;
      while true
        invariant cursor <= |chunk| && (cursor == |chunk| ==> chunk == [])
        invariant Chain(pass, chunks, log') && Reached(chunks, log') == Place(c, cursor)
        invariant Contents() == CommitAll(origin, log')
        decreases |chunk| - cursor
      {
        var wholeFiles := if cursor == 0 then DeletedWith(pass, chunks, c) else [];
        label Before:
        var consumed := PersistIngestBatch(
          wholeFiles, chunk[cursor..], chunkWatermarks, chunkQuarantine, clock(|log'|));
        var txn := TxnAt(pass, chunks, c, cursor, consumed);
        CommitIsTxn(old@Before(Contents()), pass, chunks, c, cursor, consumed);
        CommitPush(origin, log', txn);
        ChainPush(pass, chunks, log', txn);
        log' := log' + [txn];
        cursor := cursor + consumed;
        if cursor >= |chunk| {
          return;
        }
      }
    }
  }

  lemma CommitPush(store: Store, log: seq<Txn>, txn: Txn)
    ensures CommitAll(store, log + [txn]) == Commit(CommitAll(store, log), txn)
  {
    assert (log + [txn])[..|log|] == log;
  }

  /** What the ledger commits for a chunk's events from `cursor` is that transaction. */
  lemma CommitIsTxn(store: Store, pass: Pass, chunks: seq<Batch>, c: nat, cursor: nat, k: nat)
    requires c < |chunks| && cursor + k <= |chunks[c]|
    ensures
      var given := chunks[c][cursor..];
      var watermarks := if c + 1 == |chunks| then pass.watermarks else [];
      var quarantine := if c == 0 then pass.quarantine else [];
      Commit(store, TxnAt(pass, chunks, c, cursor, k)) ==
        Commit(store, Txn(0, 0, if cursor == 0 then DeletedWith(pass, chunks, c) else [], given[..k],
                          if k == |given| then watermarks else [], if k == |given| then quarantine else []))
    ensures k > 0 || chunks[c] == [] ==> IsTxn(pass, chunks, TxnAt(pass, chunks, c, cursor, k))
    ensures PlaceOf(TxnAt(pass, chunks, c, cursor, k)) == Place(c, cursor)
    ensures After(chunks, TxnAt(pass, chunks, c, cursor, k)) ==
      if cursor + k < |chunks[c]| then Place(c, cursor + k) else Place(c + 1, 0)
  {
    assert chunks[c][cursor..][..k] == chunks[c][cursor..cursor + k];
  }
}
