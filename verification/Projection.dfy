/**
 Publishing the status projection: a snapshot, a private temporary file and a rename, with any
 number of publishers, commits and crashes interleaved. `serialize` stands for the file format.
 */
module Projection {
  import opened Common

  type MeterState = string
  type Text = string
  type Serializer = (nat, MeterState) -> Text

  // ---------------------------------------------------------------- many publishers

  /** Where a publisher stands; `bytes` is what it serialized from its snapshot. */
  datatype Stage =
    | Resting
    | Snapped(generation: nat, bytes: Text)
    | Writing(generation: nat, bytes: Text, written: nat)
    | Synced(generation: nat, bytes: Text)

  /** `commits[g]` is the meter state of generation `g`; temporaries are named by process. */
  datatype World = World(
    commits: seq<MeterState>, target: Option<Text>, temporaries: map<nat, Text>, stages: map<nat, Stage>)

  datatype Action =
    | Commit(state: MeterState)
    | Snapshot(publisher: nat)
    | Open(publisher: nat)
    | Write(publisher: nat, count: nat)
    | Sync(publisher: nat)
    | Rename(publisher: nat)
    | FailRename(publisher: nat)
    | Crash(publisher: nat)

  /** The process each publisher runs in; its number names the publisher's temporary. */
  type Processes = map<nat, nat>

  ghost predicate Takes(w: World, a: Action, x: World, processes: Processes, serialize: Serializer) {
    match a
    case Commit(state) =>
      x == w.(commits := w.commits + [state])
    case Snapshot(p) =>
      && p in w.stages && w.stages[p].Resting? && w.commits != []
      && (var g := |w.commits| - 1;
          x == w.(stages := w.stages[p := Snapped(g, serialize(g, w.commits[g]))]))
    case Open(p) =>
      && p in w.stages && p in processes && w.stages[p].Snapped?
      && x == w.(temporaries := w.temporaries[processes[p] := ""],
                 stages := w.stages[p := Writing(w.stages[p].generation, w.stages[p].bytes, 0)])
    case Write(p, count) =>
      && p in w.stages && p in processes && w.stages[p].Writing? && processes[p] in w.temporaries
      && (var s := w.stages[p];
          && s.written + count <= |s.bytes|
          && x == w.(temporaries := w.temporaries[processes[p] :=
                       w.temporaries[processes[p]] + s.bytes[s.written..s.written + count]],
                     stages := w.stages[p := s.(written := s.written + count)]))
    case Sync(p) =>
      && p in w.stages && w.stages[p].Writing? && w.stages[p].written == |w.stages[p].bytes|
      && x == w.(stages := w.stages[p := Synced(w.stages[p].generation, w.stages[p].bytes)])
    case Rename(p) =>
      && p in w.stages && p in processes && w.stages[p].Synced? && processes[p] in w.temporaries
      && x == w.(target := Some(w.temporaries[processes[p]]),
                 temporaries := w.temporaries - {processes[p]},
                 stages := w.stages[p := Resting])
    case FailRename(p) =>
      && p in w.stages && p in processes && w.stages[p].Synced?
      && x == w.(temporaries := w.temporaries - {processes[p]}, stages := w.stages[p := Resting])
    case Crash(p) =>
      p in w.stages && x == w.(stages := w.stages[p := Resting])
  }

  /** The text is the complete serialization of one committed state, under its generation, which
      the database has reached. */
  ghost predicate Published(w: World, text: Text, serialize: Serializer) {
    exists g :: 0 <= g < |w.commits| && text == serialize(g, w.commits[g])
  }

  ghost predicate TargetIsWhole(w: World, serialize: Serializer) {
    w.target.Some? ==> Published(w, w.target.value, serialize)
  }

  ghost predicate Consistent(w: World, p: nat, processes: Processes, serialize: Serializer)
    requires p in w.stages && p in processes
  {
    var s := w.stages[p];
    && (!s.Resting? ==> s.generation < |w.commits| && s.bytes == serialize(s.generation, w.commits[s.generation]))
    && (s.Writing? ==>
          && processes[p] in w.temporaries && s.written <= |s.bytes|
          && w.temporaries[processes[p]] == s.bytes[..s.written])
    && (s.Synced? ==> processes[p] in w.temporaries && w.temporaries[processes[p]] == s.bytes)
  }

  ghost predicate Sound(w: World, processes: Processes, serialize: Serializer) {
    && w.stages.Keys <= processes.Keys
    && (forall p :: p in w.stages ==> Consistent(w, p, processes, serialize))
    && TargetIsWhole(w, serialize)
  }

  /** No two publishers share a process. */
  ghost predicate PrivateTemporaries(w: World, processes: Processes)
    requires w.stages.Keys <= processes.Keys
  {
    forall p, q :: p in w.stages && q in w.stages && p != q ==> processes[p] != processes[q]
  }

  /** A step of any publisher keeps every publisher consistent: nobody else writes, truncates
      or removes a private temporary. */
  lemma StepIsConsistent(w: World, a: Action, x: World, processes: Processes, serialize: Serializer, p: nat)
    requires Sound(w, processes, serialize) && PrivateTemporaries(w, processes)
    requires Takes(w, a, x, processes, serialize) && p in x.stages
    ensures p in w.stages && p in processes && Consistent(x, p, processes, serialize)
  {
    assert p in w.stages && Consistent(w, p, processes, serialize);
    hide TargetIsWhole;
    if a.Write? && p == a.publisher {
      var s := w.stages[p];
      assert s.bytes[..s.written] + s.bytes[s.written..s.written + a.count] == s.bytes[..s.written + a.count];
    }
    if a.Sync? && p == a.publisher {
      assert w.stages[p].bytes[..w.stages[p].written] == w.stages[p].bytes;
    }
  }

  lemma StepKeepsTargetWhole(w: World, a: Action, x: World, processes: Processes, serialize: Serializer)
    requires Sound(w, processes, serialize) && Takes(w, a, x, processes, serialize)
    ensures TargetIsWhole(x, serialize)
  {
    if a.Rename? {
      assert Consistent(w, a.publisher, processes, serialize);
      var g := w.stages[a.publisher].generation;
      assert x.target.value == serialize(g, x.commits[g]);
    } else if w.target.Some? {
      var g :| 0 <= g < |w.commits| && w.target.value == serialize(g, w.commits[g]);
      assert x.commits[g] == w.commits[g];
    }
  }

  lemma StepIsSound(w: World, a: Action, x: World, processes: Processes, serialize: Serializer)
    requires Sound(w, processes, serialize) && PrivateTemporaries(w, processes)
    requires Takes(w, a, x, processes, serialize)
    ensures Sound(x, processes, serialize) && PrivateTemporaries(x, processes)
  {
    StepKeepsTargetWhole(w, a, x, processes, serialize);
    assert x.stages.Keys == w.stages.Keys;
    hide Takes, Consistent, TargetIsWhole;
    forall p | p in x.stages ensures Consistent(x, p, processes, serialize) {
      StepIsConsistent(w, a, x, processes, serialize, p);
    }
  }

  /** The database may commit at any time, a publisher that has not finished can always go on, and
      a rename that fails leaves the target as it was and no temporary behind. */
  lemma NobodyWaits(w: World, processes: Processes, serialize: Serializer, p: nat, state: MeterState)
    requires Sound(w, processes, serialize) && p in w.stages && w.commits != []
    ensures exists x :: Takes(w, Commit(state), x, processes, serialize) && x.commits == w.commits + [state]
    ensures exists a, x :: a in {Snapshot(p), Open(p), Write(p, 1), Sync(p), Rename(p)}
                           && Takes(w, a, x, processes, serialize)
    ensures w.stages[p].Synced? ==>
      exists x :: Takes(w, FailRename(p), x, processes, serialize)
        && x.target == w.target && processes[p] !in x.temporaries && x.stages[p].Resting?
  {
    assert Takes(w, Commit(state), w.(commits := w.commits + [state]), processes, serialize);
    assert p in processes && Consistent(w, p, processes, serialize);
    PublisherGoesOn(w, processes, serialize, p);
    if w.stages[p].Synced? {
      var x := w.(temporaries := w.temporaries - {processes[p]}, stages := w.stages[p := Resting]);
      assert Takes(w, FailRename(p), x, processes, serialize);
    }
  }

  lemma PublisherGoesOn(w: World, processes: Processes, serialize: Serializer, p: nat)
    requires p in w.stages && p in processes && w.commits != [] && Consistent(w, p, processes, serialize)
    ensures exists a, x :: a in {Snapshot(p), Open(p), Write(p, 1), Sync(p), Rename(p)}
                           && Takes(w, a, x, processes, serialize)
  {
    var pid := processes[p];
    match w.stages[p]
    case Resting =>
      var g := |w.commits| - 1;
      var x := w.(stages := w.stages[p := Snapped(g, serialize(g, w.commits[g]))]);
      assert Takes(w, Snapshot(p), x, processes, serialize);
    case Snapped(g, bytes) =>
      var x := w.(temporaries := w.temporaries[pid := ""], stages := w.stages[p := Writing(g, bytes, 0)]);
      assert Takes(w, Open(p), x, processes, serialize);
    case Writing(g, bytes, written) =>
      if written == |bytes| {
        assert Takes(w, Sync(p), w.(stages := w.stages[p := Synced(g, bytes)]), processes, serialize);
      } else {
        var longer := w.temporaries[pid] + bytes[written..written + 1];
        var x := w.(temporaries := w.temporaries[pid := longer],
                    stages := w.stages[p := Writing(g, bytes, written + 1)]);
        assert Takes(w, Write(p, 1), x, processes, serialize);
      }
    case Synced(g, bytes) =>
      var x := w.(target := Some(w.temporaries[pid]), temporaries := w.temporaries - {pid},
                  stages := w.stages[p := Resting]);
      assert Takes(w, Rename(p), x, processes, serialize);
  }

  ghost predicate History(worlds: seq<World>, actions: seq<Action>, processes: Processes, serialize: Serializer) {
    && |worlds| == |actions| + 1
    && forall i :: 0 <= i < |actions| ==> Takes(worlds[i], actions[i], worlds[i + 1], processes, serialize)
  }

  // ---------------------------------------------------------------- a publication as a history

  /** A history leads from one world to the other. */
  ghost predicate Leads(w: World, x: World, processes: Processes, serialize: Serializer) {
    exists worlds, actions :: History(worlds, actions, processes, serialize) && worlds[0] == w && worlds[|actions|] == x
  }

  lemma LeadsNowhere(w: World, processes: Processes, serialize: Serializer)
    ensures Leads(w, w, processes, serialize)
  {
    var none: seq<Action> := [];
    assert History([w], none, processes, serialize) && [w][0] == w && [w][|none|] == w;
  }

  lemma LeadsOn(w: World, x: World, a: Action, y: World, processes: Processes, serialize: Serializer)
    requires Leads(w, x, processes, serialize) && Takes(x, a, y, processes, serialize)
    ensures Leads(w, y, processes, serialize)
  {
    hide Takes;
    var worlds, actions :| History(worlds, actions, processes, serialize) && worlds[0] == w && worlds[|actions|] == x;
    var n := |actions|;
    var longer, more := worlds + [y], actions + [a];
    forall i | 0 <= i < |more| ensures Takes(longer[i], more[i], longer[i + 1], processes, serialize) {
      if i < n {
        assert longer[i] == worlds[i] && longer[i + 1] == worlds[i + 1] && more[i] == actions[i];
      }
    }
    assert History(longer, more, processes, serialize) && longer[0] == w && longer[|more|] == y;
  }

  lemma WriteLeads(w: World, begun: World, processes: Processes, serialize: Serializer, p: nat, g: nat, bytes: Text)
    requires p in processes && p in begun.stages && begun.stages[p] == Writing(g, bytes, 0)
    requires processes[p] in begun.temporaries && begun.temporaries[processes[p]] == ""
    requires Leads(w, begun, processes, serialize)
    ensures Leads(w, begun.(target := Some(bytes), temporaries := begun.temporaries - {processes[p]},
                             stages := begun.stages[p := Resting]), processes, serialize)
  {
    hide Leads;
    var pid := processes[p];
    var written := begun.(temporaries := begun.temporaries[pid := bytes],
                          stages := begun.stages[p := Writing(g, bytes, |bytes|)]);
    assert "" + bytes[0..|bytes|] == bytes;
    LeadsOn(w, begun, Write(p, |bytes|), written, processes, serialize);
    var synced := written.(stages := written.stages[p := Synced(g, bytes)]);
    LeadsOn(w, written, Sync(p), synced, processes, serialize);
    var renamed := synced.(target := Some(bytes), temporaries := synced.temporaries - {pid},
                           stages := synced.stages[p := Resting]);
    LeadsOn(w, synced, Rename(p), renamed, processes, serialize);
    assert renamed.temporaries == begun.temporaries - {pid};
    assert renamed.stages == begun.stages[p := Resting];
  }

  /** A publication left alone is the history that snapshots, opens, writes, syncs and renames. */
  lemma PublishLeads(w: World, processes: Processes, serialize: Serializer, p: nat)
    requires w.commits != [] && p in processes && p in w.stages && w.stages[p].Resting?
    ensures var g := |w.commits| - 1;
            Leads(w, w.(target := Some(serialize(g, w.commits[g])), temporaries := w.temporaries - {processes[p]}),
                  processes, serialize)
  {
    hide Leads;
    var g := |w.commits| - 1;
    var bytes, pid := serialize(g, w.commits[g]), processes[p];
    var snapped := w.(stages := w.stages[p := Snapped(g, bytes)]);
    LeadsNowhere(w, processes, serialize);
    LeadsOn(w, w, Snapshot(p), snapped, processes, serialize);
    var begun := snapped.(temporaries := snapped.temporaries[pid := ""],
                          stages := snapped.stages[p := Writing(g, bytes, 0)]);
    LeadsOn(w, snapped, Open(p), begun, processes, serialize);
    WriteLeads(w, begun, processes, serialize, p, g, bytes);
    assert begun.temporaries - {pid} == w.temporaries - {pid};
    assert begun.stages[p := Resting] == w.stages;
  }

  // ---------------------------------------------------------------- one publisher alone

  class StateDir {
    var target: Option<Text>
    var temporaries: map<nat, Text>

    /** The directory and one resting publisher, beside the database's commits. */
    ghost function Standing(commits: seq<MeterState>): World
      reads this
    {
      World(commits, target, temporaries, map[0 := Resting])
    }

    /** Writes a temporary piece by piece, then renames it over the target. */
    method AtomicWrite(pid: nat, bytes: Text, piece: nat)
      modifies this
      ensures target == Some(bytes)
      ensures temporaries == old(temporaries) - {pid}
    {
      temporaries := temporaries[pid := ""];
      var written := 0;
      while written < |bytes|
        invariant written <= |bytes|
        invariant temporaries == old(temporaries)[pid := bytes[..written]]
        invariant target == old(target)
      {
        var next := if written + piece + 1 < |bytes| then written + piece + 1 else |bytes|;
        temporaries := temporaries[pid := temporaries[pid] + bytes[written..next]];
        assert bytes[..written] + bytes[written..next] == bytes[..next];
        written := next;
      }
      assert bytes[..written] == bytes;
      target := Some(temporaries[pid]);
      temporaries := temporaries - {pid};
    }

    /** The generation and the state come from one snapshot, so the file records exactly the
        generation of the state it holds. */
    method Publish(commits: seq<MeterState>, serialize: Serializer, pid: nat, piece: nat) returns (generation: nat)
      requires commits != []
      modifies this
      ensures generation == |commits| - 1
      ensures target == Some(serialize(generation, commits[generation]))
      ensures Leads(old(Standing(commits)), Standing(commits), map[0 := pid], serialize)
    {
      generation := |commits| - 1;
      PublishLeads(Standing(commits), map[0 := pid], serialize, 0);
      AtomicWrite(pid, serialize(generation, commits[generation]), piece);
    }
  }

  // ---------------------------------------------------------------- every history

  /** Before anything is published: nothing on disk but dead processes' temporaries. */
  ghost predicate Starts(w: World, processes: Processes) {
    && w.target.None? && w.stages.Keys <= processes.Keys
    && forall p :: p in w.stages ==> w.stages[p].Resting?
  }

  lemma {:induction false} HistoryIsSound(worlds: seq<World>, actions: seq<Action>, processes: Processes,
                                          serialize: Serializer)
    requires History(worlds, actions, processes, serialize) && Starts(worlds[0], processes)
    requires PrivateTemporaries(worlds[0], processes)
    ensures Sound(worlds[|actions|], processes, serialize) && PrivateTemporaries(worlds[|actions|], processes)
    decreases |actions|
  {
    if actions != [] {
      var n := |actions| - 1;
      forall i | 0 <= i < n
        ensures Takes(worlds[..n + 1][i], actions[..n][i], worlds[..n + 1][i + 1], processes, serialize)
      {
        assert Takes(worlds[i], actions[i], worlds[i + 1], processes, serialize);
      }
      HistoryIsSound(worlds[..n + 1], actions[..n], processes, serialize);
      assert Takes(worlds[n], actions[n], worlds[n + 1], processes, serialize);
      StepIsSound(worlds[n], actions[n], worlds[n + 1], processes, serialize);
    }
  }

  /** Every history from `start` ends with no projection file or with a whole one. */
  ghost predicate AlwaysWhole(start: World, processes: Processes, serialize: Serializer) {
    forall worlds: seq<World>, actions: seq<Action> ::
      History(worlds, actions, processes, serialize) && worlds[0] == start ==>
        TargetIsWhole(worlds[|actions|], serialize)
  }

  /** The first publisher writes its bytes whole while the second has only taken its snapshot. */
  lemma FirstWrites(start: World, processes: Processes, serialize: Serializer, p: nat, q: nat)
    returns (w1: World, w2: World, w3: World, w4: World)
    requires Starts(start, processes) && start.commits != []
    requires p in start.stages && q in start.stages && p != q
    requires forall g, state :: serialize(g, state) != ""
    ensures var g := |start.commits| - 1;
            var bytes := serialize(g, start.commits[g]);
            && Takes(start, Snapshot(p), w1, processes, serialize)
            && Takes(w1, Snapshot(q), w2, processes, serialize)
            && Takes(w2, Open(p), w3, processes, serialize)
            && Takes(w3, Write(p, |bytes|), w4, processes, serialize)
            && w4 == start.(temporaries := start.temporaries[processes[p] := bytes],
                            stages := start.stages[p := Writing(g, bytes, |bytes|)][q := Snapped(g, bytes)])
  {
    var g := |start.commits| - 1;
    var bytes := serialize(g, start.commits[g]);
    var pid := processes[p];
    w1 := start.(stages := start.stages[p := Snapped(g, bytes)]);
    w2 := w1.(stages := w1.stages[q := Snapped(g, bytes)]);
    w3 := w2.(temporaries := w2.temporaries[pid := ""], stages := w2.stages[p := Writing(g, bytes, 0)]);
    w4 := w3.(temporaries := w3.temporaries[pid := bytes], stages := w3.stages[p := Writing(g, bytes, |bytes|)]);
    assert "" + bytes[0..|bytes|] == bytes;
    assert w4.stages == start.stages[p := Writing(g, bytes, |bytes|)][q := Snapped(g, bytes)];
    assert w4.temporaries == start.temporaries[pid := bytes];
  }

  /** The second opens the shared temporary, truncating it, before the first renames it. */
  lemma SecondTruncates(w4: World, processes: Processes, serialize: Serializer, p: nat, q: nat, g: nat, bytes: string)
    returns (w5: World, w6: World, w7: World)
    requires p in processes && q in processes && p != q && processes[p] == processes[q]
    requires p in w4.stages && w4.stages[p] == Writing(g, bytes, |bytes|)
    requires q in w4.stages && w4.stages[q] == Snapped(g, bytes)
    requires processes[p] in w4.temporaries
    ensures Takes(w4, Sync(p), w5, processes, serialize)
    ensures Takes(w5, Open(q), w6, processes, serialize)
    ensures Takes(w6, Rename(p), w7, processes, serialize)
    ensures w7.target == Some("")
  {
    var pid := processes[p];
    w5 := w4.(stages := w4.stages[p := Synced(g, bytes)]);
    w6 := w5.(temporaries := w5.temporaries[pid := ""], stages := w5.stages[q := Writing(g, bytes, 0)]);
    w7 := w6.(target := Some(""), temporaries := w6.temporaries - {pid}, stages := w6.stages[p := Resting]);
  }

  /** Two publishers in one process: the second truncates the temporary the first is about to
      rename. */
  lemma SharedTemporaryTears(start: World, processes: Processes, serialize: Serializer, p: nat, q: nat)
    returns (worlds: seq<World>, actions: seq<Action>)
    requires Starts(start, processes) && start.commits != []
    requires p in start.stages && q in start.stages && p != q && processes[p] == processes[q]
    requires forall g, state :: serialize(g, state) != ""
    ensures History(worlds, actions, processes, serialize) && worlds[0] == start
    ensures !TargetIsWhole(worlds[|actions|], serialize)
  {
    hide Takes;
    var g := |start.commits| - 1;
    var bytes := serialize(g, start.commits[g]);
    var w1, w2, w3, w4 := FirstWrites(start, processes, serialize, p, q);
    var w5, w6, w7 := SecondTruncates(w4, processes, serialize, p, q, g, bytes);
    worlds := [start, w1, w2, w3, w4, w5, w6, w7];
    actions := [Snapshot(p), Snapshot(q), Open(p), Write(p, |bytes|), Sync(p), Open(q), Rename(p)];
  }

  /** In every reachable state of concurrent publishers, commits and crashes the projection file
      is absent or is the complete serialization of one committed generation, none above the
      database's, exactly when no two publishers share a process. */
  lemma WholeExactlyWhenPrivate(start: World, processes: Processes, serialize: Serializer)
    requires Starts(start, processes) && start.commits != []
    requires forall g, state :: serialize(g, state) != ""
    ensures AlwaysWhole(start, processes, serialize) <==> PrivateTemporaries(start, processes)
  {
    if PrivateTemporaries(start, processes) {
      forall worlds: seq<World>, actions: seq<Action> |
        History(worlds, actions, processes, serialize) && worlds[0] == start
        ensures TargetIsWhole(worlds[|actions|], serialize)
      {
        HistoryIsSound(worlds, actions, processes, serialize);
      }
    } else {
      var p, q :| p in start.stages && q in start.stages && p != q && processes[p] == processes[q];
      var worlds, actions := SharedTemporaryTears(start, processes, serialize, p, q);
    }
  }
}
