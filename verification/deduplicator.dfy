/**
 `scan_and_deduplicate`: one pass over the sessions directory. Files with an
 excluded name are skipped; every other file is resolved by
 `get_session_info`; files with an id are grouped by that id (a dict keyed by
 the id, in first-seen order); in every group of two or more files the files
 are stably sorted newest first, the first is kept and the others are
 unlinked.
 */
module Deduplicator {
  import opened JsonValues
  import opened SessionInfo
  import opened StableSort

  /** File names the scan never looks at (`excluded_files`). */
  const Excluded: set<string> := {"current-session.json", "active-session-config.json"}

  /** One path produced by `glob('*.json')`, in discovery order: its name, what
      reading and decoding it yields, its modification time, and whether
      `unlink` on it succeeds. */
  datatype Entry = Entry(name: string, content: Content, mtime: int, unlinkOk: bool)

  /** The sessions directory: missing, or the paths the glob yields. */
  datatype Dir = Missing | Listing(entries: seq<Entry>)

  /** A session id as a Python dict key. Strings compare by content, numbers by
      value, and `True` is the key `1`. */
  datatype Key = KNone | KStr(s: string) | KNum(n: real)

  /** One grouped file: `(file_path, timestamp)` filed under its key. */
  datatype Record = Record(name: string, key: Key, stamp: Stamp, unlinkOk: bool)

  /** Result of a pass: the files chosen for deletion, in the order `unlink`
      is attempted, and whether the pass ran to the end (`false` when an
      exception reached the `except` around the whole pass). */
  datatype Outcome = Outcome(targets: seq<Record>, completed: bool)

  /** The dict key of an id; `None` for lists and dicts, which are unhashable. */
  function HashKey(id: Json): (r: Option<Key>)
    ensures r.None? <==> id.Arr? || id.Obj?
    ensures id.Str? ==> r == Some(KStr(id.s))
    ensures id.Num? ==> r == Some(KNum(id.n))
    ensures id == Bool(true) ==> r == Some(KNum(1.0))
  {
    match id
    case Null => Some(KNone)
    case Bool(b) => Some(KNum(if b then 1.0 else 0.0))
    case Num(n) => Some(KNum(n))
    case Str(s) => Some(KStr(s))
    case _ => None
  }

  /** The timestamp of a record as an ordered value. */
  function At(r: Record): int {
    r.stamp.at
  }

  /** All stamps of a group are naive, or all are aware: only then can they be
      ordered by Python. */
  predicate Uniform(g: seq<Record>) {
    (forall i :: 0 <= i < |g| ==> g[i].stamp.Naive?) || (forall i :: 0 <= i < |g| ==> g[i].stamp.Aware?)
  }

  ghost predicate DistinctNames(entries: seq<Entry>) {
    forall i, j :: 0 <= i < j < |entries| ==> entries[i].name != entries[j].name
  }

  ghost predicate DistinctRecordNames(recs: seq<Record>) {
    forall i, j :: 0 <= i < j < |recs| ==> recs[i].name != recs[j].name
  }

  ghost predicate DistinctKeys(keys: seq<Key>) {
    forall i, j :: 0 <= i < j < |keys| ==> keys[i] != keys[j]
  }

  lemma DistinctKeysTail(keys: seq<Key>)
    requires keys != [] && DistinctKeys(keys)
    ensures DistinctKeys(keys[1..]) && keys[0] !in keys[1..]
  {
    var more := keys[1..];
    forall i, j | 0 <= i < j < |more| ensures more[i] != more[j] {
      assert more[i] == keys[i + 1] && more[j] == keys[j + 1];
    }
    forall i | 0 <= i < |more| ensures more[i] != keys[0] {
      assert more[i] == keys[i + 1];
    }
  }

  // ---------------------------------------------------------------------------
  // Collecting the files into the session map
  // ---------------------------------------------------------------------------

  /** The glob result without the excluded names. */
  function Candidates(entries: seq<Entry>): (r: seq<Entry>)
    ensures |r| <= |entries|
  {
    if entries == [] then []
    else (if entries[0].name in Excluded then [] else [entries[0]]) + Candidates(entries[1..])
  }

  /** Exactly the files with a name outside the exclusion set are processed. */
  lemma {:induction false} CandidatesMembers(entries: seq<Entry>)
    ensures forall e :: e in Candidates(entries) <==> e in entries && e.name !in Excluded
  {
    if entries != [] {
      CandidatesMembers(entries[1..]);
      assert forall e :: e in entries <==> e == entries[0] || e in entries[1..];
    }
  }

  /** The record a file contributes to the session map, if any. */
  function RecordOf(e: Entry, resolve: Entry -> Info): (r: Option<Record>)
    ensures r.Some? ==>
      var info := resolve(e);
      && info.Info?
      && HashKey(info.id) == Some(r.value.key)
      && r.value == Record(e.name, r.value.key, info.stamp, e.unlinkOk)
    ensures r.None? ==>
      resolve(e).NoInfo? || Unhashable(e, resolve)
  {
    match resolve(e)
    case NoInfo => None
    case Info(id, stamp) =>
      match HashKey(id)
      case None => None
      case Some(k) => Some(Record(e.name, k, stamp, e.unlinkOk))
  }

  /** A file whose id cannot be a dict key: `session_map[session_id]` raises. */
  predicate Unhashable(e: Entry, resolve: Entry -> Info) {
    var info := resolve(e);
    info.Info? && HashKey(info.id).None?
  }

  /** The records of the files in order, or `None` when some file's id is
      unhashable: that `TypeError` ends the pass before anything is deleted. */
  function Collect(files: seq<Entry>, resolve: Entry -> Info): Option<seq<Record>>
  {
    if files == [] then Some([])
    else if Unhashable(files[0], resolve) then None
    else
      match Collect(files[1..], resolve)
      case None => None
      case Some(rest) =>
        var here := match RecordOf(files[0], resolve) case None => [] case Some(x) => [x];
        Some(here + rest)
  }

  /** Collecting raises exactly when some file's id is unhashable; otherwise it
      yields one record per file with a usable id, and nothing else. */
  lemma {:induction false} CollectSpec(files: seq<Entry>, resolve: Entry -> Info)
    ensures Collect(files, resolve).None? <==> exists e :: e in files && Unhashable(e, resolve)
    ensures Collect(files, resolve).Some? ==>
      forall y :: y in Collect(files, resolve).value ==> exists e :: e in files && RecordOf(e, resolve) == Some(y)
    ensures Collect(files, resolve).Some? ==>
      forall e :: e in files && RecordOf(e, resolve).Some? ==> RecordOf(e, resolve).value in Collect(files, resolve).value
  {
    if files != [] {
      CollectSpec(files[1..], resolve);
      assert forall e :: e in files <==> e == files[0] || e in files[1..];
    }
  }

  /** The records filed under key `k`, in the order they were appended. */
  function Group(recs: seq<Record>, k: Key): (r: seq<Record>)
    ensures |r| <= |recs|
  {
    if recs == [] then []
    else (if recs[0].key == k then [recs[0]] else []) + Group(recs[1..], k)
  }

  /** The group of `k` holds exactly the records with key `k`. */
  lemma {:induction false} GroupMembers(recs: seq<Record>, k: Key)
    ensures forall y :: y in Group(recs, k) <==> y in recs && y.key == k
  {
    if recs != [] {
      GroupMembers(recs[1..], k);
      assert forall y :: y in recs <==> y == recs[0] || y in recs[1..];
    }
  }

  /** The keys of the session map in dict order: the order each key was first
      seen. */
  function KeysInOrder(recs: seq<Record>): (ks: seq<Key>)
    ensures forall k :: k in ks <==> Group(recs, k) != []
    ensures DistinctKeys(ks)
  {
    if recs == [] then []
    else
      var init := recs[..|recs| - 1];
      var last := recs[|recs| - 1];
      var ks := KeysInOrder(init);
      GroupSnoc(init, last);
      assert recs == init + [last];
      if last.key in ks then ks else ks + [last.key]
  }

  lemma {:induction false} GroupConcat(a: seq<Record>, b: seq<Record>, k: Key)
    ensures Group(a + b, k) == Group(a, k) + Group(b, k)
  {
    if a == [] {
      assert a + b == b;
    } else {
      assert (a + b)[0] == a[0];
      assert (a + b)[1..] == a[1..] + b;
      GroupConcat(a[1..], b, k);
      var h := if a[0].key == k then [a[0]] else [];
      assert Group(a + b, k) == h + Group(a[1..] + b, k);
      assert h + (Group(a[1..], k) + Group(b, k)) == (h + Group(a[1..], k)) + Group(b, k);
    }
  }

  lemma GroupSnoc(recs: seq<Record>, x: Record)
    ensures forall k :: Group(recs + [x], k) == Group(recs, k) + (if x.key == k then [x] else [])
  {
    forall k ensures Group(recs + [x], k) == Group(recs, k) + (if x.key == k then [x] else []) {
      GroupConcat(recs, [x], k);
    }
  }

  /** Records that all carry key `k0` form the group of `k0` and no other. */
  lemma {:induction false} GroupAllSame(s: seq<Record>, k0: Key, k: Key)
    requires forall y :: y in s ==> y.key == k0
    ensures Group(s, k) == if k == k0 then s else []
  {
    if s != [] {
      assert s[0] in s;
      assert forall y :: y in s[1..] ==> y in s;
      GroupAllSame(s[1..], k0, k);
      assert s == [s[0]] + s[1..];
    }
  }

  // ---------------------------------------------------------------------------
  // Keep-newest selection
  // ---------------------------------------------------------------------------

  /** Index of the file kept in a group: the first one, in discovery order,
      among those with the latest timestamp. */
  function KeeperIndex(g: seq<Record>): (m: nat)
    requires |g| > 0
    ensures m < |g|
    ensures forall j :: 0 <= j < |g| ==> At(g[j]) <= At(g[m])
    ensures forall j :: 0 <= j < m ==> At(g[j]) < At(g[m])
  {
    FirstMaxIndex(g, At)
  }

  /** The files of the group under `k` that are unlinked: `files[1:]` after the
      stable newest-first sort. */
  function Tail(recs: seq<Record>, k: Key): (r: seq<Record>)
    ensures |Group(recs, k)| < 2 ==> r == []
    ensures forall y :: y in r ==> y in Group(recs, k)
  {
    var g := Group(recs, k);
    if |g| < 2 then []
    else
      var r := SortDesc(g, At)[1..];
      assert forall y :: y in r ==> y in multiset(SortDesc(g, At));
      r
  }

  /** The deletions of a group of two or more are the group without its kept
      file. */
  lemma TailIsAllButKeeper(recs: seq<Record>, k: Key)
    requires |Group(recs, k)| >= 2
    ensures var g := Group(recs, k);
      multiset(Tail(recs, k)) == multiset(g) - multiset{g[KeeperIndex(g)]}
  {
    SortDescTail(Group(recs, k), At);
  }

  /** The sorted group starts with the kept file. */
  lemma KeeperFirst(recs: seq<Record>, k: Key)
    requires |Group(recs, k)| >= 2
    ensures var g := Group(recs, k);
      SortDesc(g, At) == [g[KeeperIndex(g)]] + Tail(recs, k)
  {
    var g := Group(recs, k);
    SortDescHead(g, At);
    var r := SortDesc(g, At);
    assert r == [r[0]] + r[1..];
  }

  /** The loop over `session_map.items()`, key by key. A group of two
      or more files whose stamps mix naive and aware values cannot be sorted:
      the `TypeError` ends the pass, keeping the deletions already made. */
  function Dedupe(recs: seq<Record>, keys: seq<Key>): Outcome
  {
    if keys == [] then Outcome([], true)
    else
      var g := Group(recs, keys[0]);
      if |g| < 2 then Dedupe(recs, keys[1..])
      else if !Uniform(g) then Outcome([], false)
      else
        var rest := Dedupe(recs, keys[1..]);
        Outcome(Tail(recs, keys[0]) + rest.targets, rest.completed)
  }

  /** Every target of the loop is a collected record, and the loop runs to the
      end exactly when no group of two or more mixes naive and aware stamps. */
  lemma {:induction false} DedupeSpec(recs: seq<Record>, keys: seq<Key>)
    ensures forall t :: t in Dedupe(recs, keys).targets ==> t in recs
    ensures Dedupe(recs, keys).completed <==>
      forall k :: k in keys && |Group(recs, k)| >= 2 ==> Uniform(Group(recs, k))
  {
    if keys != [] {
      var g := Group(recs, keys[0]);
      DedupeSpec(recs, keys[1..]);
      KeysCons(keys);
      if |g| < 2 {
        assert Dedupe(recs, keys) == Dedupe(recs, keys[1..]);
      } else if !Uniform(g) {
        assert Dedupe(recs, keys) == Outcome([], false);
        assert keys[0] in keys;
      } else {
        GroupMembers(recs, keys[0]);
        assert Dedupe(recs, keys).targets == Tail(recs, keys[0]) + Dedupe(recs, keys[1..]).targets;
        assert forall t :: t in Tail(recs, keys[0]) ==> t in recs;
      }
    }
  }

  /** The whole pass, `scan_and_deduplicate` without its logging. */
  function Scan(dir: Dir, resolve: Entry -> Info): (out: Outcome)
  {
    match dir
    case Missing => Outcome([], true)
    case Listing(entries) =>
      var files := Candidates(entries);
      if files == [] then Outcome([], true)
      else
        match Collect(files, resolve)
        case None => Outcome([], false)
        case Some(recs) => Dedupe(recs, KeysInOrder(recs))
  }

  /** Only files that were grouped can be deleted: a target is never an
      excluded name, never a file that resolved to `(None, None)`, and never a
      file alone under its id. */
  lemma OnlyDuplicatesDeleted(dir: Dir, resolve: Entry -> Info)
    ensures dir.Missing? ==> Scan(dir, resolve) == Outcome([], true)
    ensures dir.Listing? ==> forall t :: t in Scan(dir, resolve).targets ==>
      && t.name !in Excluded
      && (exists e :: e in dir.entries && e.name == t.name && resolve(e).Info?)
      && |Group(Records(dir.entries, resolve).value, t.key)| >= 2
  {
    if dir.Listing? && Candidates(dir.entries) != [] && Records(dir.entries, resolve).Some? {
      var recs := Records(dir.entries, resolve).value;
      var out := Dedupe(recs, KeysInOrder(recs));
      DedupeSpec(recs, KeysInOrder(recs));
      TargetsComeFromFiles(dir.entries, resolve, out.targets);
      forall t | t in out.targets ensures |Group(recs, t.key)| >= 2 {
        DedupeByKey(recs, KeysInOrder(recs), t.key);
        GroupMembers(out.targets, t.key);
        assert t in Group(out.targets, t.key);
        assert Tail(recs, t.key) != [];
      }
    }
  }

  lemma TargetsComeFromFiles(entries: seq<Entry>, resolve: Entry -> Info, targets: seq<Record>)
    requires Records(entries, resolve).Some?
    requires forall t :: t in targets ==> t in Records(entries, resolve).value
    ensures forall t :: t in targets ==>
      exists e :: e in entries && e.name == t.name && e.name !in Excluded && resolve(e).Info?
  {
    CollectSpec(Candidates(entries), resolve);
    CandidatesMembers(entries);
    forall t | t in targets
      ensures exists e :: e in entries && e.name == t.name && e.name !in Excluded && resolve(e).Info?
    {
      var e :| e in Candidates(entries) && RecordOf(e, resolve) == Some(t);
      assert e in entries;
    }
  }

  /** The records of a listing, when collecting them does not raise. */
  function Records(entries: seq<Entry>, resolve: Entry -> Info): Option<seq<Record>> {
    Collect(Candidates(entries), resolve)
  }

  // ---------------------------------------------------------------------------
  // What one pass deletes
  // ---------------------------------------------------------------------------

  /** Per session id, the deletions of `Dedupe` are either nothing (the pass
      stopped before that id, or its group was a single file) or exactly the
      group without its kept file; when the pass completes, they are always
      the latter. */
  lemma {:induction false} DedupeByKey(recs: seq<Record>, keys: seq<Key>, k: Key)
    requires DistinctKeys(keys)
    ensures var out := Dedupe(recs, keys);
      && (Group(out.targets, k) == [] || (k in keys && Group(out.targets, k) == Tail(recs, k)))
      && (out.completed && k in keys ==> Group(out.targets, k) == Tail(recs, k))
      && (k !in keys ==> Group(out.targets, k) == [])
    decreases |keys|
  {
    if keys != [] {
      var k0 := keys[0];
      var more := keys[1..];
      var g := Group(recs, k0);
      DistinctKeysTail(keys);
      KeysCons(keys);
      DedupeByKey(recs, more, k);
      if |g| >= 2 && Uniform(g) {
        TailKeys(recs, k0);
        DedupeStep(recs, keys, k);
      }
    }
  }

  /** The group of `k` has two or more files whose stamps mix naive and aware
      values: sorting it raises. */
  ghost predicate Mixed(recs: seq<Record>, k: Key) {
    |Group(recs, k)| >= 2 && !Uniform(Group(recs, k))
  }

  /** No key of `ks` has a mixed group. */
  ghost predicate NoneMixed(recs: seq<Record>, ks: seq<Key>) {
    forall i :: 0 <= i < |ks| ==> !Mixed(recs, ks[i])
  }

  /** Exactly which keys lose files, also in a pass that aborts: the key at
      position `i` of the iteration order loses the group without its kept
      file when its group has two or more files, is uniform in kind, and no
      key before it has a mixed group; otherwise it loses nothing. */
  lemma {:induction false} DedupeReaches(recs: seq<Record>, keys: seq<Key>, i: nat)
    requires DistinctKeys(keys)
    requires i < |keys|
    ensures Group(Dedupe(recs, keys).targets, keys[i]) ==
      if |Group(recs, keys[i])| >= 2 && Uniform(Group(recs, keys[i])) && NoneMixed(recs, keys[..i])
      then Tail(recs, keys[i]) else []
    decreases i
  {
    var k0 := keys[0];
    var more := keys[1..];
    var g0 := Group(recs, k0);
    DistinctKeysTail(keys);
    if i == 0 {
      assert NoneMixed(recs, keys[..0]);
      if |g0| < 2 {
        DedupeByKey(recs, more, k0);
      } else if Uniform(g0) {
        TailKeys(recs, k0);
        DedupeByKey(recs, more, k0);
        StepSameKey(recs, k0, Dedupe(recs, more).targets);
      }
    } else {
      var k := keys[i];
      assert k == more[i - 1] && k != k0;
      DedupeReaches(recs, more, i - 1);
      NoneMixedCons(recs, keys, i);
      if |g0| >= 2 && Uniform(g0) {
        TailKeys(recs, k0);
        StepOtherKey(recs, k0, Dedupe(recs, more).targets, k);
      }
    }
  }

  /** The keys before position `i` are the first key and the keys before
      position `i - 1` of the rest. */
  lemma NoneMixedCons(recs: seq<Record>, keys: seq<Key>, i: nat)
    requires 0 < i <= |keys|
    ensures NoneMixed(recs, keys[..i]) <==> !Mixed(recs, keys[0]) && NoneMixed(recs, keys[1..][..i - 1])
  {
    var a := keys[..i];
    var b := keys[1..][..i - 1];
    assert forall j :: 0 < j < |a| ==> a[j] == b[j - 1];
    assert forall j :: 0 <= j < |b| ==> b[j] == a[j + 1];
    assert a[0] == keys[0];
  }

  /** The deletions of one group all carry that group's key. */
  lemma TailKeys(recs: seq<Record>, k0: Key)
    ensures forall y :: y in Tail(recs, k0) ==> y.key == k0
  {
    GroupMembers(recs, k0);
  }

  lemma DedupeStep(recs: seq<Record>, keys: seq<Key>, k: Key)
    requires keys != [] && keys[0] !in keys[1..]
    requires |Group(recs, keys[0])| >= 2 && Uniform(Group(recs, keys[0]))
    requires forall y :: y in Tail(recs, keys[0]) ==> y.key == keys[0]
    requires var rest := Dedupe(recs, keys[1..]);
      && (Group(rest.targets, k) == [] || (k in keys[1..] && Group(rest.targets, k) == Tail(recs, k)))
      && (rest.completed && k in keys[1..] ==> Group(rest.targets, k) == Tail(recs, k))
      && (k !in keys[1..] ==> Group(rest.targets, k) == [])
    ensures var out := Dedupe(recs, keys);
      && (Group(out.targets, k) == [] || (k in keys && Group(out.targets, k) == Tail(recs, k)))
      && (out.completed && k in keys ==> Group(out.targets, k) == Tail(recs, k))
      && (k !in keys ==> Group(out.targets, k) == [])
  {
    var k0 := keys[0];
    var rest := Dedupe(recs, keys[1..]);
    assert Dedupe(recs, keys) == Outcome(Tail(recs, k0) + rest.targets, rest.completed);
    KeysCons(keys);
    if k == k0 {
      StepSameKey(recs, k0, rest.targets);
    } else {
      StepOtherKey(recs, k0, rest.targets, k);
    }
  }

  /** Prepending the deletions of the group of `k0` gives `k0` exactly those. */
  lemma StepSameKey(recs: seq<Record>, k0: Key, restTargets: seq<Record>)
    requires forall y :: y in Tail(recs, k0) ==> y.key == k0
    requires Group(restTargets, k0) == []
    ensures Group(Tail(recs, k0) + restTargets, k0) == Tail(recs, k0)
  {
    GroupConcat(Tail(recs, k0), restTargets, k0);
    GroupAllSame(Tail(recs, k0), k0, k0);
    assert Tail(recs, k0) + [] == Tail(recs, k0);
  }

  /** ... and leaves the deletions under every other key as they were. */
  lemma StepOtherKey(recs: seq<Record>, k0: Key, restTargets: seq<Record>, k: Key)
    requires k != k0
    requires forall y :: y in Tail(recs, k0) ==> y.key == k0
    ensures Group(Tail(recs, k0) + restTargets, k) == Group(restTargets, k)
  {
    GroupConcat(Tail(recs, k0), restTargets, k);
    GroupAllSame(Tail(recs, k0), k0, k);
    assert [] + Group(restTargets, k) == Group(restTargets, k);
  }

  lemma KeysCons(keys: seq<Key>)
    requires keys != []
    ensures forall k :: k in keys <==> k == keys[0] || k in keys[1..]
  {
    assert keys == [keys[0]] + keys[1..];
  }

  /** What a completed `Dedupe` over the session map deletes under one key. */
  lemma DedupeKeepsNewest(recs: seq<Record>, k: Key, out: Outcome)
    requires out == Dedupe(recs, KeysInOrder(recs)) && out.completed
    ensures var g := Group(recs, k);
      && (|g| < 2 ==> Group(out.targets, k) == [])
      && (|g| >= 2 ==> Uniform(g) && multiset(Group(out.targets, k)) == multiset(g) - multiset{g[KeeperIndex(g)]})
  {
    var keys := KeysInOrder(recs);
    var g := Group(recs, k);
    DedupeSpec(recs, keys);
    DedupeByKey(recs, keys, k);
    if |g| >= 2 {
      assert k in keys;
      TailIsAllButKeeper(recs, k);
    }
  }

  /** A session id with a single file loses nothing; in a group of two or more
      all files but one are deletion targets, and the one left is the one
      `KeeperIndex` picks: the latest timestamp, the first such in discovery
      order. */
  lemma KeepNewest(entries: seq<Entry>, resolve: Entry -> Info, k: Key)
    requires Scan(Listing(entries), resolve).completed
    ensures Records(entries, resolve).Some?
    ensures var g := Group(Records(entries, resolve).value, k);
      var out := Scan(Listing(entries), resolve);
      && (|g| < 2 ==> Group(out.targets, k) == [])
      && (|g| >= 2 ==> Uniform(g) && multiset(Group(out.targets, k)) == multiset(g) - multiset{g[KeeperIndex(g)]})
  {
    CompletedScan(entries, resolve);
    DedupeKeepsNewest(Records(entries, resolve).value, k, Scan(Listing(entries), resolve));
  }

  /** A completed scan of a listing is the loop over its collected records. */
  lemma CompletedScan(entries: seq<Entry>, resolve: Entry -> Info)
    requires Scan(Listing(entries), resolve).completed
    ensures Records(entries, resolve).Some?
    ensures var recs := Records(entries, resolve).value;
      Scan(Listing(entries), resolve) == Dedupe(recs, KeysInOrder(recs))
  {
    if Candidates(entries) == [] {
      assert Records(entries, resolve) == Some([]);
      assert KeysInOrder([]) == [];
    }
  }

  // ---------------------------------------------------------------------------
  // After the unlinks
  // ---------------------------------------------------------------------------

  /** Names actually removed: the targets whose `unlink` succeeded. */
  function RemovedNames(out: Outcome): (gone: set<string>)
    ensures forall t :: t in out.targets && t.unlinkOk ==> t.name in gone
    ensures forall n :: n in gone ==> exists t :: t in out.targets && t.unlinkOk && t.name == n
  {
    set t | t in out.targets && t.unlinkOk :: t.name
  }

  /** The listing without the removed names. */
  function Surviving(entries: seq<Entry>, gone: set<string>): (r: seq<Entry>)
    ensures |r| <= |entries|
  {
    if entries == [] then []
    else (if entries[0].name in gone then [] else [entries[0]]) + Surviving(entries[1..], gone)
  }

  /** `Surviving` on the session map's side: the records whose file was not
      removed. `CollectSurviving` relates the two. */
  function SurvivingRecords(recs: seq<Record>, gone: set<string>): (r: seq<Record>)
    ensures |r| <= |recs|
  {
    if recs == [] then []
    else (if recs[0].name in gone then [] else [recs[0]]) + SurvivingRecords(recs[1..], gone)
  }

  /** The directory after a pass. */
  function After(dir: Dir, resolve: Entry -> Info): Dir {
    match dir
    case Missing => Missing
    case Listing(entries) => Listing(Surviving(entries, RemovedNames(Scan(dir, resolve))))
  }

  lemma {:induction false} CandidatesSurviving(entries: seq<Entry>, gone: set<string>)
    ensures Candidates(Surviving(entries, gone)) == Surviving(Candidates(entries), gone)
  {
    if entries != [] {
      var e := entries[0];
      CandidatesSurviving(entries[1..], gone);
      var sh := if e.name in gone then [] else [e];
      var ch := if e.name in Excluded then [] else [e];
      assert Surviving(entries, gone) == sh + Surviving(entries[1..], gone);
      assert Candidates(entries) == ch + Candidates(entries[1..]);
      CandidatesConcat(sh, Surviving(entries[1..], gone));
      SurvivingConcat(ch, Candidates(entries[1..]), gone);
      assert [e][1..] == [];
      assert Candidates(sh) == Surviving(ch, gone);
    }
  }

  lemma {:induction false} CandidatesConcat(a: seq<Entry>, b: seq<Entry>)
    ensures Candidates(a + b) == Candidates(a) + Candidates(b)
  {
    if a == [] {
      assert a + b == b;
    } else {
      assert (a + b)[0] == a[0];
      assert (a + b)[1..] == a[1..] + b;
      CandidatesConcat(a[1..], b);
    }
  }

  lemma {:induction false} SurvivingConcat(a: seq<Entry>, b: seq<Entry>, gone: set<string>)
    ensures Surviving(a + b, gone) == Surviving(a, gone) + Surviving(b, gone)
  {
    if a == [] {
      assert a + b == b;
    } else {
      assert (a + b)[0] == a[0];
      assert (a + b)[1..] == a[1..] + b;
      SurvivingConcat(a[1..], b, gone);
    }
  }

  lemma {:induction false} CollectSurviving(files: seq<Entry>, resolve: Entry -> Info, gone: set<string>)
    requires Collect(files, resolve).Some?
    ensures Collect(Surviving(files, gone), resolve) == Some(SurvivingRecords(Collect(files, resolve).value, gone))
  {
    if files != [] {
      var e := files[0];
      assert !Unhashable(e, resolve);
      CollectSurviving(files[1..], resolve, gone);
      var st := Surviving(files[1..], gone);
      var recsRest := Collect(files[1..], resolve).value;
      var here := match RecordOf(e, resolve) case None => [] case Some(x) => [x];
      assert Collect(files, resolve).value == here + recsRest;
      SurvivingRecordsConcat(here, recsRest, gone);
      if e.name in gone {
        assert Surviving(files, gone) == st;
        assert SurvivingRecords(here, gone) == [];
        assert SurvivingRecords(here, gone) + SurvivingRecords(recsRest, gone) == SurvivingRecords(recsRest, gone);
      } else {
        var sf := [e] + st;
        assert Surviving(files, gone) == sf;
        assert sf[0] == e && sf[1..] == st;
        assert SurvivingRecords(here, gone) == here;
        assert Collect(sf, resolve) == Some(here + SurvivingRecords(recsRest, gone));
      }
    }
  }

  lemma {:induction false} GroupSurviving(recs: seq<Record>, gone: set<string>, k: Key)
    ensures Group(SurvivingRecords(recs, gone), k) == SurvivingRecords(Group(recs, k), gone)
  {
    if recs != [] {
      var x := recs[0];
      GroupSurviving(recs[1..], gone, k);
      var rest := SurvivingRecords(recs[1..], gone);
      var grest := Group(recs[1..], k);
      var head := if x.name in gone then [] else [x];
      assert SurvivingRecords(recs, gone) == head + rest;
      GroupConcat(head, rest, k);
      var ghead := if x.key == k then [x] else [];
      assert Group(recs, k) == ghead + grest;
      SurvivingRecordsConcat(ghead, grest, gone);
    }
  }

  lemma {:induction false} SurvivingRecordsConcat(a: seq<Record>, b: seq<Record>, gone: set<string>)
    ensures SurvivingRecords(a + b, gone) == SurvivingRecords(a, gone) + SurvivingRecords(b, gone)
  {
    if a == [] {
      assert a + b == b;
    } else {
      assert (a + b)[0] == a[0];
      assert (a + b)[1..] == a[1..] + b;
      SurvivingRecordsConcat(a[1..], b, gone);
    }
  }

  /** When every record of `g` but the one at `i` has a removed name, exactly
      that one survives. */
  lemma {:induction false} SoleSurvivor(g: seq<Record>, gone: set<string>, i: nat)
    requires i < |g| && g[i].name !in gone
    requires forall j :: 0 <= j < |g| && j != i ==> g[j].name in gone
    ensures SurvivingRecords(g, gone) == [g[i]]
    decreases |g|
  {
    if i > 0 {
      SoleSurvivor(g[1..], gone, i - 1);
    } else {
      NoSurvivor(g[1..], gone);
    }
  }

  lemma {:induction false} NoSurvivor(g: seq<Record>, gone: set<string>)
    requires forall j :: 0 <= j < |g| ==> g[j].name in gone
    ensures SurvivingRecords(g, gone) == []
    decreases |g|
  {
    if g != [] {
      NoSurvivor(g[1..], gone);
    }
  }

  lemma ConsDistinct(x: Entry, rest: seq<Entry>)
    requires DistinctNames(rest)
    requires forall y :: y in rest ==> y.name != x.name
    ensures DistinctNames([x] + rest)
  {
    var r := [x] + rest;
    forall i, j | 0 <= i < j < |r| ensures r[i].name != r[j].name {
      assert r[j] == rest[j - 1];
      if i > 0 {
        assert r[i] == rest[i - 1];
      }
    }
  }

  lemma ConsDistinctRecords(x: Record, rest: seq<Record>)
    requires DistinctRecordNames(rest)
    requires forall y :: y in rest ==> y.name != x.name
    ensures DistinctRecordNames([x] + rest)
  {
    var r := [x] + rest;
    forall i, j | 0 <= i < j < |r| ensures r[i].name != r[j].name {
      assert r[j] == rest[j - 1];
      if i > 0 {
        assert r[i] == rest[i - 1];
      }
    }
  }

  /** In a listing with distinct names, the head's name is not used again. */
  lemma HeadNameUnique(entries: seq<Entry>)
    requires entries != [] && DistinctNames(entries)
    ensures DistinctNames(entries[1..])
    ensures forall y :: y in entries[1..] ==> y.name != entries[0].name
  {
    forall y | y in entries[1..] ensures y.name != entries[0].name {
      var q :| 0 <= q < |entries[1..]| && entries[1..][q] == y;
      assert entries[q + 1] == y;
    }
  }

  lemma HeadRecordNameUnique(recs: seq<Record>)
    requires recs != [] && DistinctRecordNames(recs)
    ensures DistinctRecordNames(recs[1..])
    ensures forall y :: y in recs[1..] ==> y.name != recs[0].name
  {
    forall y | y in recs[1..] ensures y.name != recs[0].name {
      var q :| 0 <= q < |recs[1..]| && recs[1..][q] == y;
      assert recs[q + 1] == y;
    }
  }

  lemma {:induction false} CandidatesDistinct(entries: seq<Entry>)
    requires DistinctNames(entries)
    ensures DistinctNames(Candidates(entries))
  {
    if entries != [] {
      HeadNameUnique(entries);
      CandidatesDistinct(entries[1..]);
      var rest := Candidates(entries[1..]);
      if entries[0].name !in Excluded {
        CandidatesMembers(entries[1..]);
        ConsDistinct(entries[0], rest);
      }
    }
  }

  lemma {:induction false} CollectDistinct(files: seq<Entry>, resolve: Entry -> Info)
    requires DistinctNames(files)
    requires Collect(files, resolve).Some?
    ensures DistinctRecordNames(Collect(files, resolve).value)
  {
    if files != [] {
      var e := files[0];
      HeadNameUnique(files);
      CollectDistinct(files[1..], resolve);
      var recsRest := Collect(files[1..], resolve).value;
      if RecordOf(e, resolve).Some? {
        CollectSpec(files[1..], resolve);
        ConsDistinctRecords(RecordOf(e, resolve).value, recsRest);
      }
    }
  }

  lemma {:induction false} GroupDistinct(recs: seq<Record>, k: Key)
    requires DistinctRecordNames(recs)
    ensures DistinctRecordNames(Group(recs, k))
  {
    if recs != [] {
      HeadRecordNameUnique(recs);
      GroupDistinct(recs[1..], k);
      var rest := Group(recs[1..], k);
      if recs[0].key == k {
        GroupMembers(recs[1..], k);
        ConsDistinctRecords(recs[0], rest);
      }
    }
  }

  /** In a sequence with distinct names every element occurs once. */
  lemma {:induction false} DistinctOnce(s: seq<Record>, x: Record)
    requires DistinctRecordNames(s)
    ensures multiset(s)[x] <= 1
  {
    if s != [] {
      DistinctOnce(s[1..], x);
      assert s == [s[0]] + s[1..];
      if s[0] == x {
        assert x !in s[1..];
      }
    }
  }

  lemma NamesDiffer(s: seq<Record>, x: Record, y: Record)
    requires DistinctRecordNames(s)
    requires x in s && y in s && x != y
    ensures x.name != y.name
  {
    var p :| 0 <= p < |s| && s[p] == x;
    var q :| 0 <= q < |s| && s[q] == y;
    assert p != q;
  }

  /** With distinct names, the kept file of a group is not one of its deletions. */
  lemma KeeperNotInTail(recs: seq<Record>, k: Key)
    requires DistinctRecordNames(Group(recs, k))
    requires Group(recs, k) != []
    ensures var g := Group(recs, k); g[KeeperIndex(g)] !in Tail(recs, k)
  {
    var g := Group(recs, k);
    var keeper := g[KeeperIndex(g)];
    if |g| >= 2 {
      TailIsAllButKeeper(recs, k);
      DistinctOnce(g, keeper);
      assert multiset(Tail(recs, k))[keeper] == 0;
    }
  }

  /** In a completed `Dedupe` over names that are all distinct, the file
      kept for `k` is not among the targets of any key. */
  lemma KeeperNotTargeted(recs: seq<Record>, k: Key)
    requires DistinctRecordNames(recs)
    requires Dedupe(recs, KeysInOrder(recs)).completed
    requires Group(recs, k) != []
    ensures var g := Group(recs, k);
      forall t :: t in Dedupe(recs, KeysInOrder(recs)).targets ==> t.name != g[KeeperIndex(g)].name
  {
    var keys := KeysInOrder(recs);
    var targets := Dedupe(recs, keys).targets;
    var g := Group(recs, k);
    var keeper := g[KeeperIndex(g)];
    DedupeSpec(recs, keys);
    GroupDistinct(recs, k);
    KeeperNotInTail(recs, k);
    DedupeByKey(recs, keys, k);
    assert keeper !in Group(targets, k);
    GroupMembers(recs, k);
    GroupMembers(targets, k);
    assert keeper in recs && keeper !in targets;
    forall t | t in targets ensures t.name != keeper.name {
      NamesDiffer(recs, t, keeper);
    }
  }

  /** In a completed `Dedupe`, every file of the group of `k` other than the
      kept one is a target. */
  lemma OthersTargeted(recs: seq<Record>, k: Key)
    requires DistinctRecordNames(recs)
    requires Dedupe(recs, KeysInOrder(recs)).completed
    requires Group(recs, k) != []
    ensures var g := Group(recs, k);
      forall j :: 0 <= j < |g| && j != KeeperIndex(g) ==> g[j] in Dedupe(recs, KeysInOrder(recs)).targets
  {
    var keys := KeysInOrder(recs);
    var targets := Dedupe(recs, keys).targets;
    if |Group(recs, k)| >= 2 {
      DedupeByKey(recs, keys, k);
      OthersIn(recs, k, targets);
    }
  }

  /** Whatever holds exactly the deletions of the group of `k` holds every
      file of that group but the kept one. */
  lemma OthersIn(recs: seq<Record>, k: Key, targets: seq<Record>)
    requires DistinctRecordNames(recs)
    requires |Group(recs, k)| >= 2
    requires Group(targets, k) == Tail(recs, k)
    ensures var g := Group(recs, k);
      forall j :: 0 <= j < |g| && j != KeeperIndex(g) ==> g[j] in targets
  {
    var g := Group(recs, k);
    GroupDistinct(recs, k);
    TailIsAllButKeeper(recs, k);
    AllButOneIn(g, Group(targets, k), KeeperIndex(g));
    GroupWithin(targets, k);
  }

  /** With distinct names, a sequence holding `g` without its element at `m`
      holds every other element of `g`. */
  lemma AllButOneIn(g: seq<Record>, s: seq<Record>, m: nat)
    requires DistinctRecordNames(g)
    requires m < |g|
    requires multiset(s) == multiset(g) - multiset{g[m]}
    ensures forall j :: 0 <= j < |g| && j != m ==> g[j] in s
  {
    forall j | 0 <= j < |g| && j != m ensures g[j] in s {
      assert g[j].name != g[m].name;
      assert g[j] in multiset(g);
      assert g[j] in multiset(s);
    }
  }

  /** A group is drawn from the records it groups. */
  lemma GroupWithin(recs: seq<Record>, k: Key)
    ensures forall y :: y in Group(recs, k) ==> y in recs
  {
    GroupMembers(recs, k);
  }

  /** At the level of the session map: after a completed `Dedupe` whose
      targets are all removed, the group of `k` shrinks to its kept file. */
  lemma GroupSurvivor(recs: seq<Record>, k: Key, gone: set<string>)
    requires DistinctRecordNames(recs)
    requires Dedupe(recs, KeysInOrder(recs)).completed
    requires forall t :: t in Dedupe(recs, KeysInOrder(recs)).targets ==> t.name in gone
    requires forall n :: n in gone ==> exists t :: t in Dedupe(recs, KeysInOrder(recs)).targets && t.name == n
    requires Group(recs, k) != []
    ensures var g := Group(recs, k); SurvivingRecords(g, gone) == [g[KeeperIndex(g)]]
  {
    var g := Group(recs, k);
    KeeperNotTargeted(recs, k);
    OthersTargeted(recs, k);
    SoleSurvivor(g, gone, KeeperIndex(g));
  }

  /** After a completed pass whose unlinks all succeed, every session id that
      had files keeps exactly one of them: the one the pass chose to keep. */
  lemma AtMostOnePerSession(entries: seq<Entry>, resolve: Entry -> Info, k: Key)
    requires DistinctNames(entries)
    requires Scan(Listing(entries), resolve).completed
    requires forall t :: t in Scan(Listing(entries), resolve).targets ==> t.unlinkOk
    ensures Records(entries, resolve).Some?
    ensures Records(After(Listing(entries), resolve).entries, resolve).Some?
    ensures var g := Group(Records(entries, resolve).value, k);
      var g' := Group(Records(After(Listing(entries), resolve).entries, resolve).value, k);
      && (g == [] ==> g' == [])
      && (g != [] ==> g' == [g[KeeperIndex(g)]])
  {
    var out := Scan(Listing(entries), resolve);
    var gone := RemovedNames(out);
    var files := Candidates(entries);
    assert Collect(files, resolve).Some?;
    var recs := Collect(files, resolve).value;
    CandidatesSurviving(entries, gone);
    CollectSurviving(files, resolve, gone);
    GroupSurviving(recs, gone, k);
    var g := Group(recs, k);
    if g == [] {
      assert SurvivingRecords(g, gone) == [];
    } else {
      assert files != [];
      assert out == Dedupe(recs, KeysInOrder(recs));
      CandidatesDistinct(entries);
      CollectDistinct(files, resolve);
      GroupSurvivor(recs, k, gone);
    }
  }

  /** A pass after a completed pass whose unlinks all succeeded deletes nothing. */
  lemma SecondPassDeletesNothing(dir: Dir, resolve: Entry -> Info)
    requires dir.Listing? ==> DistinctNames(dir.entries)
    requires Scan(dir, resolve).completed
    requires forall t :: t in Scan(dir, resolve).targets ==> t.unlinkOk
    ensures Scan(After(dir, resolve), resolve) == Outcome([], true)
  {
    if dir.Listing? {
      var entries := dir.entries;
      var remaining := After(dir, resolve).entries;
      AtMostOnePerSession(entries, resolve, KNone);
      if Candidates(remaining) != [] {
        var recs' := Records(remaining, resolve).value;
        forall k ensures |Group(recs', k)| <= 1 {
          AtMostOnePerSession(entries, resolve, k);
        }
        NothingToDo(recs', KeysInOrder(recs'));
      }
    }
  }

  lemma {:induction false} NothingToDo(recs: seq<Record>, keys: seq<Key>)
    requires forall k :: |Group(recs, k)| <= 1
    ensures Dedupe(recs, keys) == Outcome([], true)
    decreases |keys|
  {
    if keys != [] {
      assert |Group(recs, keys[0])| <= 1;
      NothingToDo(recs, keys[1..]);
    }
  }
}
