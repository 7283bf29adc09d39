/**
 The greedy file-name matcher of the local-file source, proved against the
 declarative meaning of a glob.
 */
module LocalSource {
  import opened Common
  import opened Orders

  // ---------------------------------------------------------------- the glob relation

  /** `pattern[i..]` describes `name[j..]`: `*` stands for any run of characters, `?` for
      any one character, and every other character for itself. */
  ghost predicate MatchesFrom(pattern: string, i: nat, name: string, j: nat)
    requires i <= |pattern| && j <= |name|
    decreases |pattern| - i
  {
    if i == |pattern| then
      j == |name|
    else if pattern[i] == '*' then
      var rest := i + 1;
      exists k :: j <= k <= |name| && MatchesFrom(pattern, rest, name, k)
    else
      j < |name| && Fits(pattern[i], name[j]) && MatchesFrom(pattern, i + 1, name, j + 1)
  }

  ghost predicate Matches(pattern: string, name: string) {
    MatchesFrom(pattern, 0, name, 0)
  }

  predicate Fits(p: char, c: char) {
    p == '?' || p == c
  }

  /** A pattern of ordinary characters describes itself alone. */
  lemma {:induction false} OrdinaryMatchesItself(pattern: string, i: nat, name: string, j: nat)
    requires '*' !in pattern && '?' !in pattern && i <= |pattern| && j <= |name|
    ensures MatchesFrom(pattern, i, name, j) <==> pattern[i..] == name[j..]
    decreases |pattern| - i
  {
    if i < |pattern| {
      assert pattern[i] in pattern;
      if j < |name| {
        OrdinaryMatchesItself(pattern, i + 1, name, j + 1);
        assert pattern[i..] == [pattern[i]] + pattern[i + 1..] && name[j..] == [name[j]] + name[j + 1..];
      }
    }
  }

  /** A star describes every name, a mark every name of one character. */
  lemma StarAndMark(name: string)
    ensures Matches("*", name)
    ensures Matches("?", name) <==> |name| == 1
  {
    assert MatchesFrom("*", 1, name, |name|);
    if |name| > 0 {
      assert MatchesFrom("?", 1, name, 1) <==> 1 == |name|;
    }
  }

  predicate AllStars(pattern: string, i: nat)
    requires i <= |pattern|
    decreases |pattern| - i
  {
    i == |pattern| || (pattern[i] == '*' && AllStars(pattern, i + 1))
  }

  // ---------------------------------------------------------------- the matcher

  /** What the matcher's loop answers from the state (`pi`, `ni`, `star`, `mark`). */
  function Greedy(pattern: string, name: string, pi: nat, ni: nat, star: Option<nat>, mark: nat): bool
    requires pi <= |pattern| && mark <= ni <= |name|
    requires star.Some? ==> star.value < pi && pattern[star.value] == '*'
    decreases |pattern| - (if star.Some? then star.value else -1), |name| - mark, |name| - ni
  {
    if ni < |name| then
      if pi < |pattern| && Fits(pattern[pi], name[ni]) then
        Greedy(pattern, name, pi + 1, ni + 1, star, mark)
      else if pi < |pattern| && pattern[pi] == '*' then
        Greedy(pattern, name, pi + 1, ni, Some(pi), ni)
      else if star.Some? then
        Greedy(pattern, name, star.value + 1, mark + 1, star, mark + 1)
      else
        false
    else
      AllStars(pattern, pi)
  }

  function GlobMatch(pattern: string, name: string): bool {
    Greedy(pattern, name, 0, 0, None, 0)
  }

  /** The loop itself. It terminates on every input, and it answers `GlobMatch`. */
  method LocalFileGlobMatch(pattern: string, name: string) returns (matched: bool)
    ensures matched == GlobMatch(pattern, name)
    ensures matched ==> Matches(pattern, name)
    ensures '*' !in name ==> matched == Matches(pattern, name)
  {
    MatchIsSound(pattern, name);
    if '*' !in name {
      MatchIsExact(pattern, name);
    }
    var pi, ni := 0, 0;
    var star: Option<nat> := None;
    var mark := 0;
    while ni < |name|
      invariant 0 <= pi <= |pattern| && 0 <= mark <= ni <= |name|
      invariant star.Some? ==> star.value < pi && pattern[star.value] == '*'
      invariant Greedy(pattern, name, pi, ni, star, mark) == GlobMatch(pattern, name)
      decreases |pattern| - (if star.Some? then star.value else -1), |name| - mark, |name| - ni
    {
      if pi < |pattern| && (pattern[pi] == '?' || pattern[pi] == name[ni]) {
        pi := pi + 1;
        ni := ni + 1;
      } else if pi < |pattern| && pattern[pi] == '*' {
        star := Some(pi);
        mark := ni;
        pi := pi + 1;
      } else if star.Some? {
        pi := star.value + 1;
        mark := mark + 1;
        ni := mark;
      } else {
        return false;
      }
    }
    while pi < |pattern| && pattern[pi] == '*'
      invariant 0 <= pi <= |pattern|
      invariant AllStars(pattern, pi) == GlobMatch(pattern, name)
    {
      pi := pi + 1;
    }
    matched := pi == |pattern|;
  }

  // ---------------------------------------------------------------- soundness, for every name

  lemma {:induction false} AllStarsMatchNothing(pattern: string, i: nat, name: string)
    requires i <= |pattern| && AllStars(pattern, i)
    ensures MatchesFrom(pattern, i, name, |name|)
    decreases |pattern| - i
  {
    if i < |pattern| {
      AllStarsMatchNothing(pattern, i + 1, name);
    }
  }

  /** An answer of "match" is witnessed at the current position or at the last star. */
  lemma {:induction false} GreedySound(pattern: string, name: string, pi: nat, ni: nat, star: Option<nat>, mark: nat)
    requires pi <= |pattern| && mark <= ni <= |name|
    requires star.Some? ==> star.value < pi && pattern[star.value] == '*'
    requires Greedy(pattern, name, pi, ni, star, mark)
    ensures MatchesFrom(pattern, pi, name, ni)
         || (star.Some? && MatchesFrom(pattern, star.value, name, mark))
    decreases |pattern| - (if star.Some? then star.value else -1), |name| - mark, |name| - ni
  {
    if ni == |name| {
      AllStarsMatchNothing(pattern, pi, name);
    } else if pi < |pattern| && Fits(pattern[pi], name[ni]) {
      GreedySound(pattern, name, pi + 1, ni + 1, star, mark);
    } else if pi < |pattern| && pattern[pi] == '*' {
      GreedySound(pattern, name, pi + 1, ni, Some(pi), ni);
    } else {
      GreedySound(pattern, name, star.value + 1, mark + 1, star, mark + 1);
      if MatchesFrom(pattern, star.value, name, mark + 1) {
        var k :| mark + 1 <= k <= |name| && MatchesFrom(pattern, star.value + 1, name, k);
        assert MatchesFrom(pattern, star.value, name, mark);
      }
    }
  }

  lemma MatchIsSound(pattern: string, name: string)
    ensures GlobMatch(pattern, name) ==> Matches(pattern, name)
  {
    if GlobMatch(pattern, name) {
      GreedySound(pattern, name, 0, 0, None, 0);
    }
  }

  // ---------------------------------------------------------------- completeness

  /** The star-free stretch of the pattern after `star` has matched `name[mark..ni]`. */
  ghost predicate Consumed(pattern: string, star: nat, pi: nat, name: string, mark: nat, ni: nat)
    requires star < pi <= |pattern| && mark <= ni <= |name|
  {
    && ni - mark == pi - star - 1
    && (forall t :: star < t < pi ==> pattern[t] != '*')
    && (forall t :: star < t < pi ==> Fits(pattern[t], name[mark + (t - star - 1)]))
  }

  /** A star-free stretch of the pattern consumes exactly its own length. */
  lemma {:induction false} StarFreeStretch(pattern: string, i: nat, pi: nat, name: string, k: nat)
    requires i <= pi <= |pattern| && k <= |name|
    requires forall t :: i <= t < pi ==> pattern[t] != '*'
    requires MatchesFrom(pattern, i, name, k)
    ensures k + (pi - i) <= |name| && MatchesFrom(pattern, pi, name, k + (pi - i))
    decreases pi - i
  {
    if i < pi {
      StarFreeStretch(pattern, i + 1, pi, name, k + 1);
    }
  }

  lemma {:induction false} NothingMatchesOnlyStars(pattern: string, i: nat, name: string)
    requires i <= |pattern| && MatchesFrom(pattern, i, name, |name|)
    ensures AllStars(pattern, i)
    decreases |pattern| - i
  {
    if i < |pattern| {
      NothingMatchesOnlyStars(pattern, i + 1, name);
    }
  }

  /** Backtracking only to the last star loses no match. */
  lemma {:induction false} GreedyComplete(pattern: string, name: string, pi: nat, ni: nat, star: Option<nat>, mark: nat)
    requires pi <= |pattern| && mark <= ni <= |name|
    requires star.Some? ==> star.value < pi && pattern[star.value] == '*'
    requires '*' !in name
    requires star.Some? ==> Consumed(pattern, star.value, pi, name, mark, ni)
    requires if star.Some? then MatchesFrom(pattern, star.value, name, mark) else MatchesFrom(pattern, pi, name, ni)
    ensures Greedy(pattern, name, pi, ni, star, mark)
    decreases |pattern| - (if star.Some? then star.value else -1), |name| - mark, |name| - ni
  {
    if star.Some? {
      var k :| mark <= k <= |name| && MatchesFrom(pattern, star.value + 1, name, k);
      StarFreeStretch(pattern, star.value + 1, pi, name, k);
      if ni == |name| {
        NothingMatchesOnlyStars(pattern, pi, name);
      } else if pi < |pattern| && Fits(pattern[pi], name[ni]) {
        GreedyComplete(pattern, name, pi + 1, ni + 1, star, mark);
      } else if pi < |pattern| && pattern[pi] == '*' {
        var l :| k + (pi - star.value - 1) <= l <= |name| && MatchesFrom(pattern, pi + 1, name, l);
        assert MatchesFrom(pattern, pi, name, ni);
        GreedyComplete(pattern, name, pi + 1, ni, Some(pi), ni);
      } else {
        assert k != mark;
        GreedyComplete(pattern, name, star.value + 1, mark + 1, star, mark + 1);
      }
    } else if ni == |name| {
      NothingMatchesOnlyStars(pattern, pi, name);
    } else if pi < |pattern| && pattern[pi] == '*' {
      GreedyComplete(pattern, name, pi + 1, ni, Some(pi), ni);
    } else {
      GreedyComplete(pattern, name, pi + 1, ni + 1, star, mark);
    }
  }

  lemma MatchIsExact(pattern: string, name: string)
    requires '*' !in name
    ensures GlobMatch(pattern, name) == Matches(pattern, name)
  {
    MatchIsSound(pattern, name);
    if Matches(pattern, name) {
      GreedyComplete(pattern, name, 0, 0, None, 0);
    }
  }

  // ---------------------------------------------------------------- names that hold a star

  function Marks(n: nat): (s: string)
    ensures |s| == n && forall i :: 0 <= i < n ==> s[i] == '?'
  {
    seq(n, _ => '?')
  }

  /** The pattern that defeats the matcher on a name whose first star is at `k`: as many `?`
      as characters before it, a star, and one `?` more than there are characters after it. */
  function Defeating(name: string, k: nat): string
    requires k < |name|
  {
    Marks(k) + "*" + Marks(|name| - k)
  }

  lemma {:induction false} MarksMatch(pattern: string, i: nat, name: string, j: nat)
    requires i <= |pattern| && j <= |name| && |pattern| - i == |name| - j
    requires forall t :: i <= t < |pattern| ==> pattern[t] == '?'
    ensures MatchesFrom(pattern, i, name, j)
    decreases |pattern| - i
  {
    if i < |pattern| {
      MarksMatch(pattern, i + 1, name, j + 1);
    }
  }

  lemma {:induction false} DefeatingMatches(name: string, k: nat, i: nat)
    requires k < |name| && i <= k
    ensures MatchesFrom(Defeating(name, k), i, name, i)
    decreases k - i
  {
    if i == k {
      MarksMatch(Defeating(name, k), k + 1, name, k);
    } else {
      DefeatingMatches(name, k, i + 1);
    }
  }

  lemma {:induction false} DefeatingFails(name: string, k: nat, i: nat)
    requires k < |name| && i <= |name| && name[k] == '*'
    ensures !Greedy(Defeating(name, k), name, i, i, None, 0)
    decreases |name| - i
  {
    if i < |name| {
      DefeatingFails(name, k, i + 1);
    } else {
      assert !AllStars(Defeating(name, k), i);
    }
  }

  /** The matcher decides the glob relation for every pattern exactly on the names that hold
      no star: a star in the name meets a star in the pattern as an ordinary character. */
  lemma ExactOnStarFreeNames(name: string)
    ensures '*' !in name <==> forall pattern :: GlobMatch(pattern, name) == Matches(pattern, name)
  {
    if '*' in name {
      var k :| 0 <= k < |name| && name[k] == '*';
      DefeatingMatches(name, k, 0);
      DefeatingFails(name, k, 0);
      assert GlobMatch(Defeating(name, k), name) != Matches(Defeating(name, k), name);
    } else {
      forall pattern ensures GlobMatch(pattern, name) == Matches(pattern, name) {
        MatchIsExact(pattern, name);
      }
    }
  }

  // ---------------------------------------------------------------- the newest matching file

  /** A directory entry as the walk meets it. A symbolic link is never a `Directory`;
      `modified` is absent when the file cannot be examined, and `name` when the file name is
      not text. */
  datatype Entry =
    | Directory(path: Path, readable: bool, children: seq<Entry>)
    | File(path: Path, name: Option<string>, modified: Option<int>)
    | Untyped

  datatype Hit = Hit(path: Path, modified: int)

  predicate Newer(a: Hit, b: Hit) {
    a.modified > b.modified || (a.modified == b.modified && PathLess(b.path, a.path))
  }

  /** The matching files at or below an entry. */
  ghost function FoundIn(pattern: string, entry: Entry): set<Hit>
    decreases entry, 0
  {
    match entry
    case Directory(_, readable, children) => if readable then Found(pattern, children) else {}
    case File(path, name, modified) =>
      if name.Some? && modified.Some? && GlobMatch(pattern, name.value)
      then {Hit(path, modified.value)} else {}
    case Untyped => {}
  }

  ghost function Found(pattern: string, entries: seq<Entry>): set<Hit>
    decreases entries, 1
  {
    if entries == [] then {} else FoundIn(pattern, entries[0]) + Found(pattern, entries[1..])
  }

  ghost function Weight(entries: seq<Entry>): nat
    decreases entries
  {
    if entries == [] then 0
    else
      1 + (if entries[0].Directory? then Weight(entries[0].children) else 0) + Weight(entries[1..])
  }

  lemma {:induction false} FoundConcat(pattern: string, a: seq<Entry>, b: seq<Entry>)
    ensures Found(pattern, a + b) == Found(pattern, a) + Found(pattern, b)
    ensures Weight(a + b) == Weight(a) + Weight(b)
  {
    if a == [] {
      assert a + b == b;
    } else {
      FoundConcat(pattern, a[1..], b);
      assert (a + b)[1..] == a[1..] + b;
    }
  }

  ghost predicate IsNewest(newest: Option<Hit>, hits: set<Hit>) {
    match newest
    case None => hits == {}
    case Some(h) => h in hits && forall x :: x in hits && x != h ==> Newer(h, x)
  }

  /** The answer is a function of the set of matching files, so the order in which the
      directories list their entries cannot change it. */
  lemma NewestIsUnique(a: Option<Hit>, b: Option<Hit>, hits: set<Hit>)
    requires IsNewest(a, hits) && IsNewest(b, hits)
    ensures a == b
  {
    PathLessIsTotal();
  }

  lemma NewestExtends(newest: Option<Hit>, hits: set<Hit>, h: Hit)
    requires IsNewest(newest, hits)
    ensures IsNewest(if newest.None? || Newer(h, newest.value) then Some(h) else newest, hits + {h})
  {
    PathLessIsTotal();
  }

  lemma PushedEntry(pattern: string, pending: seq<Entry>, entry: Entry)
    ensures Found(pattern, pending + [entry]) == Found(pattern, pending) + FoundIn(pattern, entry)
    ensures Weight(pending + [entry]) ==
      Weight(pending) + 1 + if entry.Directory? then Weight(entry.children) else 0
  {
    FoundConcat(pattern, pending, [entry]);
    assert Found(pattern, [entry]) == FoundIn(pattern, entry) + Found(pattern, [entry][1..]);
  }

  lemma NextEntry(pattern: string, entries: seq<Entry>, k: nat)
    requires k < |entries|
    ensures Found(pattern, entries[k..]) == FoundIn(pattern, entries[k]) + Found(pattern, entries[k + 1..])
    ensures Weight(entries[k..]) ==
      1 + (if entries[k].Directory? then Weight(entries[k].children) else 0) + Weight(entries[k + 1..])
  {
    assert entries[k..][0] == entries[k] && entries[k..][1..] == entries[k + 1..];
  }

  lemma FoundCases(pattern: string, entry: Entry)
    ensures FoundIn(pattern, entry) ==
      match entry
      case Directory(_, readable, children) => if readable then Found(pattern, children) else {}
      case File(path, name, modified) =>
        if name.Some? && modified.Some? && GlobMatch(pattern, name.value)
        then {Hit(path, modified.value)} else {}
      case Untyped => {}
  {
  }

  /** One directory of the walk: its subdirectories become pending, its matching files
      compete. */
  method ScanDirectory(dir: Entry, pattern: string, pending: seq<Entry>, newest: Option<Hit>, ghost seen: set<Hit>)
    returns (pending': seq<Entry>, newest': Option<Hit>, ghost seen': set<Hit>)
    requires dir.Directory?
    requires forall e :: e in pending ==> e.Directory?
    requires IsNewest(newest, seen)
    ensures forall e :: e in pending' ==> e.Directory?
    ensures IsNewest(newest', seen')
    ensures seen' + Found(pattern, pending') == seen + Found(pattern, pending) + Found(pattern, dir.children)
    ensures Weight(pending') <= Weight(pending) + Weight(dir.children)
  {
    pending', newest', seen' := pending, newest, seen;
    NothingLeft(pattern, dir.children);
    assert dir.children[0..] == dir.children;
    hide Found, FoundIn, Weight, GlobMatch, Matches, Newer;
    for k := 0 to |dir.children|
      invariant forall e :: e in pending' ==> e.Directory?
      invariant seen' + Found(pattern, pending') + Found(pattern, dir.children[k..])
             == seen + Found(pattern, pending) + Found(pattern, dir.children)
      invariant IsNewest(newest', seen')
      invariant Weight(pending') + Weight(dir.children[k..]) <= Weight(pending) + Weight(dir.children)
    {
      var entry := dir.children[k];
      NextEntry(pattern, dir.children, k);
      FoundCases(pattern, entry);
      if entry.Untyped? {
        continue;
      }
      if entry.Directory? {
        PushedEntry(pattern, pending', entry);
        pending' := pending' + [entry];
        continue;
      }
      if entry.name.None? {
        continue;
      }
      var matched := LocalFileGlobMatch(pattern, entry.name.value);
      if !matched || entry.modified.None? {
        continue;
      }
      var hit := Hit(entry.path, entry.modified.value);
      NewestExtends(newest', seen', hit);
      seen' := seen' + {hit};
      if newest'.None? || Newer(hit, newest'.value) {
        newest' := Some(hit);
      }
    }
  }

  method NewestMatchingFile(root: Entry, pattern: string) returns (newest: Option<Hit>)
    requires root.Directory?
    ensures IsNewest(newest, FoundIn(pattern, root))
    ensures newest.Some? ==> forall h :: h in FoundIn(pattern, root) ==>
      && h.modified <= newest.value.modified
      && (h.modified == newest.value.modified ==> h == newest.value || PathLess(h.path, newest.value.path))
  {
    newest := None;
    var pending := [root];
    ghost var seen: set<Hit> := {};
    PushedEntry(pattern, [], root);
    NothingLeft(pattern, []);
    assert [] + [root] == [root];
    hide Found, FoundIn, Weight;
    while pending != []
      invariant forall e :: e in pending ==> e.Directory?
      invariant FoundIn(pattern, root) == seen + Found(pattern, pending)
      invariant IsNewest(newest, seen)
      decreases Weight(pending)
    {
      var top := |pending| - 1;
      var dir := pending[top];
      assert pending == pending[..top] + [dir];
      PushedEntry(pattern, pending[..top], dir);
      FoundCases(pattern, dir);
      pending := pending[..top];
      if dir.readable {
        pending, newest, seen := ScanDirectory(dir, pattern, pending, newest, seen);
      }
    }
  }

  lemma NothingLeft(pattern: string, entries: seq<Entry>)
    ensures Found(pattern, entries[|entries|..]) == {} && Weight(entries[|entries|..]) == 0
    ensures Found(pattern, []) == {}
  {
  }
}
