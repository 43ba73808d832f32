/**
 A whole pass as the program runs it: every file is resolved by
 `get_session_info`, the deletion targets of the pass are unlinked one by one
 and `total_removed` counts the unlinks that succeed.
 */
module Pass {
  import opened JsonValues
  import opened SessionInfo
  import opened Deduplicator

  /** `get_session_info` applied to a listed file; `parse` stands for
      `datetime.fromisoformat`. */
  function Resolver(parse: string -> Option<Stamp>): Entry -> Info {
    (e: Entry) => GetSessionInfo(e.content, e.mtime, parse)
  }

  /** Names whose `unlink` succeeded, in the order the unlinks are attempted. */
  function Unlinked(targets: seq<Record>): (names: seq<string>)
    ensures |names| <= |targets|
  {
    if targets == [] then []
    else (if targets[0].unlinkOk then [targets[0].name] else []) + Unlinked(targets[1..])
  }

  /** A name is unlinked exactly when some target of that name is unlinked
      successfully. */
  lemma {:induction false} UnlinkedMembers(targets: seq<Record>)
    ensures forall n :: n in Unlinked(targets) <==> exists t :: t in targets && t.unlinkOk && t.name == n
  {
    if targets != [] {
      UnlinkedMembers(targets[1..]);
      assert forall t :: t in targets <==> t == targets[0] || t in targets[1..];
    }
  }

  lemma {:induction false} UnlinkedSnoc(targets: seq<Record>, t: Record)
    ensures Unlinked(targets + [t]) == Unlinked(targets) + (if t.unlinkOk then [t.name] else [])
  {
    if targets == [] {
      assert targets + [t] == [t];
    } else {
      assert (targets + [t])[0] == targets[0];
      assert (targets + [t])[1..] == targets[1..] + [t];
      UnlinkedSnoc(targets[1..], t);
    }
  }

  ghost predicate DistinctStrings(s: seq<string>) {
    forall i, j :: 0 <= i < j < |s| ==> s[i] != s[j]
  }

  /** Targets with distinct names unlink distinct names. */
  lemma {:induction false} UnlinkedDistinct(targets: seq<Record>)
    requires DistinctRecordNames(targets)
    ensures DistinctStrings(Unlinked(targets))
  {
    if targets != [] {
      HeadRecordNameUnique(targets);
      UnlinkedDistinct(targets[1..]);
      UnlinkedMembers(targets[1..]);
      var rest := Unlinked(targets[1..]);
      var head := if targets[0].unlinkOk then [targets[0].name] else [];
      var r := head + rest;
      forall i, j | 0 <= i < j < |r| ensures r[i] != r[j] {
        if head == [] {
          assert r[i] == rest[i] && r[j] == rest[j];
        } else if i == 0 {
          assert r[j] == rest[j - 1];
          assert rest[j - 1] in rest;
        } else {
          assert r[i] == rest[i - 1] && r[j] == rest[j - 1];
        }
      }
    }
  }

  /** A sequence without repetitions has as many elements as its set. */
  lemma {:induction false} DistinctCard(s: seq<string>)
    requires DistinctStrings(s)
    ensures |set n | n in s| == |s|
  {
    if s != [] {
      var rest := s[1..];
      assert DistinctStrings(rest) by {
        forall i, j | 0 <= i < j < |rest| ensures rest[i] != rest[j] {
          assert rest[i] == s[i + 1] && rest[j] == s[j + 1];
        }
      }
      DistinctCard(rest);
      assert s[0] !in rest by {
        forall i | 0 <= i < |rest| ensures rest[i] != s[0] {
          assert rest[i] == s[i + 1];
        }
      }
      assert (set n | n in s) == {s[0]} + (set n | n in rest) by {
        assert forall n :: n in s <==> n == s[0] || n in rest;
      }
    }
  }

  /** The targets of one key carry that key; the targets after it carry others. */
  lemma TargetsSplit(recs: seq<Record>, keys: seq<Key>)
    requires keys != []
    requires DistinctKeys(keys)
    requires |Group(recs, keys[0])| >= 2 && Uniform(Group(recs, keys[0]))
    ensures Dedupe(recs, keys).targets == Tail(recs, keys[0]) + Dedupe(recs, keys[1..]).targets
    ensures forall y :: y in Tail(recs, keys[0]) ==> y.key == keys[0]
    ensures forall y :: y in Dedupe(recs, keys[1..]).targets ==> y.key != keys[0]
  {
    var more := keys[1..];
    DistinctKeysTail(keys);
    TailKeys(recs, keys[0]);
    DedupeByKey(recs, more, keys[0]);
    GroupMembers(Dedupe(recs, more).targets, keys[0]);
  }

  /** An element that occurs at most once is not repeated at a later position. */
  lemma OnceNotRepeated(s: seq<Record>, i: nat, j: nat)
    requires i < j < |s|
    requires multiset(s)[s[i]] <= 1
    ensures s[i] != s[j]
  {
    assert s == s[..j] + s[j..];
    assert s[i] in s[..j] && s[j] in s[j..];
    assert multiset(s) == multiset(s[..j]) + multiset(s[j..]);
  }

  /** A sub-multiset of a sequence with distinct names has distinct names. */
  lemma SubDistinct(g: seq<Record>, s: seq<Record>)
    requires DistinctRecordNames(g)
    requires multiset(s) <= multiset(g)
    ensures DistinctRecordNames(s)
  {
    forall i, j | 0 <= i < j < |s| ensures s[i].name != s[j].name {
      assert s[i] in multiset(s) && s[j] in multiset(s);
      DistinctOnce(g, s[i]);
      OnceNotRepeated(s, i, j);
      NamesDiffer(g, s[i], s[j]);
    }
  }

  /** Deletions of one group, over records with distinct names, have distinct
      names. */
  lemma TailDistinct(recs: seq<Record>, k: Key)
    requires DistinctRecordNames(recs)
    ensures DistinctRecordNames(Tail(recs, k))
  {
    var g := Group(recs, k);
    if |g| >= 2 {
      GroupDistinct(recs, k);
      TailIsAllButKeeper(recs, k);
      SubDistinct(g, Tail(recs, k));
    }
  }

  /** Over records with distinct names, the deletion targets have distinct
      names: no file is unlinked twice. */
  lemma {:induction false} TargetsDistinct(recs: seq<Record>, keys: seq<Key>)
    requires DistinctRecordNames(recs)
    requires DistinctKeys(keys)
    ensures DistinctRecordNames(Dedupe(recs, keys).targets)
    decreases |keys|
  {
    if keys != [] {
      var more := keys[1..];
      DistinctKeysTail(keys);
      TargetsDistinct(recs, more);
      var g := Group(recs, keys[0]);
      if |g| >= 2 && Uniform(g) {
        TargetsSplit(recs, keys);
        TailDistinct(recs, keys[0]);
        DedupeSpec(recs, more);
        GroupWithin(recs, keys[0]);
        ConcatDistinct(recs, Tail(recs, keys[0]), Dedupe(recs, more).targets, keys[0]);
      }
    }
  }

  /** Two name-distinct selections from `recs`, one all under key `k0` and the
      other under none, concatenate to a name-distinct sequence. */
  lemma ConcatDistinct(recs: seq<Record>, a: seq<Record>, b: seq<Record>, k0: Key)
    requires DistinctRecordNames(recs)
    requires DistinctRecordNames(a) && DistinctRecordNames(b)
    requires forall y :: y in a ==> y in recs && y.key == k0
    requires forall y :: y in b ==> y in recs && y.key != k0
    ensures DistinctRecordNames(a + b)
  {
    var r := a + b;
    forall i, j | 0 <= i < j < |r| ensures r[i].name != r[j].name {
      if j < |a| {
        assert r[i] == a[i] && r[j] == a[j];
      } else if i >= |a| {
        assert r[i] == b[i - |a|] && r[j] == b[j - |a|];
      } else {
        assert r[i] == a[i] && r[j] == b[j - |a|];
        NamesDiffer(recs, r[i], r[j]);
      }
    }
  }

  /** The entries whose name is not in `gone`, with the names in `gone` all
      taken from the listing, number the listing minus `gone`. */
  lemma {:induction false} SurvivingCount(entries: seq<Entry>, gone: set<string>)
    requires DistinctNames(entries)
    requires forall n :: n in gone ==> exists e :: e in entries && e.name == n
    ensures |Surviving(entries, gone)| == |entries| - |gone|
    decreases |entries|
  {
    if entries == [] {
      assert gone == {};
    } else {
      var x := entries[0];
      var rest := entries[1..];
      HeadNameUnique(entries);
      var gone' := gone - {x.name};
      assert forall n :: n in gone' ==> exists e :: e in rest && e.name == n by {
        forall n | n in gone' ensures exists e :: e in rest && e.name == n {
          var e :| e in entries && e.name == n;
          assert e != x;
          assert e in rest;
        }
      }
      SurvivingCount(rest, gone');
      SurvivingIgnores(rest, gone, x.name);
    }
  }

  /** Removing a name no entry carries changes nothing. */
  lemma {:induction false} SurvivingIgnores(entries: seq<Entry>, gone: set<string>, n: string)
    requires forall e :: e in entries ==> e.name != n
    ensures Surviving(entries, gone) == Surviving(entries, gone - {n})
    decreases |entries|
  {
    if entries != [] {
      assert entries[0] in entries;
      assert forall e :: e in entries[1..] ==> e in entries;
      SurvivingIgnores(entries[1..], gone, n);
    }
  }

  /** The `unlink` loop over the targets in order: each
      successful `unlink` adds one to `total_removed`. */
  method UnlinkAll(targets: seq<Record>) returns (removed: seq<string>, totalRemoved: nat)
    ensures removed == Unlinked(targets)
    ensures totalRemoved == |removed|
  {
    removed := [];
    totalRemoved := 0;
    var i := 0;
    while i < |targets|
      invariant 0 <= i <= |targets|
      invariant removed == Unlinked(targets[..i])
      invariant totalRemoved == |removed|
    {
      var t := targets[i];
      UnlinkedSnoc(targets[..i], t);
      assert targets[..i + 1] == targets[..i] + [t];
      if t.unlinkOk {
        removed := removed + [t.name];
        totalRemoved := totalRemoved + 1;
      }
      i := i + 1;
    }
    assert targets[..i] == targets;
  }

  /** One pass over the directory: the deletion targets are unlinked in order
      and `total_removed` counts the unlinks that succeed. Over a listing with
      distinct names, `total_removed` is the number of names removed and the
      directory shrinks by exactly that many files. */
  method Deduplicate(dir: Dir, parse: string -> Option<Stamp>)
    returns (removed: seq<string>, totalRemoved: nat, completed: bool)
    ensures var out := Scan(dir, Resolver(parse));
      && completed == out.completed
      && totalRemoved == |removed|
      && (forall n :: n in removed <==> n in RemovedNames(out))
    ensures dir.Listing? && DistinctNames(dir.entries) ==>
      var out := Scan(dir, Resolver(parse));
      && totalRemoved == |RemovedNames(out)|
      && |After(dir, Resolver(parse)).entries| == |dir.entries| - totalRemoved
  {
    var resolve := Resolver(parse);
    var out := Scan(dir, resolve);
    removed, totalRemoved := UnlinkAll(out.targets);
    completed := out.completed;
    UnlinkedMembers(out.targets);
    if dir.Listing? && DistinctNames(dir.entries) {
      CountRemoved(dir.entries, resolve);
    }
  }

  /** Over a listing with distinct names, every successful unlink removes a
      different listed file. */
  lemma CountRemoved(entries: seq<Entry>, resolve: Entry -> Info)
    requires DistinctNames(entries)
    ensures var out := Scan(Listing(entries), resolve);
      && |Unlinked(out.targets)| == |RemovedNames(out)|
      && |Surviving(entries, RemovedNames(out))| == |entries| - |RemovedNames(out)|
  {
    var out := Scan(Listing(entries), resolve);
    var gone := RemovedNames(out);
    UnlinkedMembers(out.targets);
    if Candidates(entries) != [] && Records(entries, resolve).Some? {
      var recs := Records(entries, resolve).value;
      assert out == Dedupe(recs, KeysInOrder(recs));
      DedupeSpec(recs, KeysInOrder(recs));
      CandidatesDistinct(entries);
      CollectDistinct(Candidates(entries), resolve);
      TargetsDistinct(recs, KeysInOrder(recs));
      UnlinkedDistinct(out.targets);
      DistinctCard(Unlinked(out.targets));
      assert (set n | n in Unlinked(out.targets)) == gone;
      TargetsComeFromFiles(entries, resolve, out.targets);
    } else {
      assert out.targets == [];
      assert gone == {};
    }
    SurvivingCount(entries, gone);
  }

  /** A file that `get_session_info` turns into `(None, None)` (unreadable,
      not an object, no truthy id, or a timestamp that does not parse) is
      never deleted, and neither is an excluded file. */
  lemma NeverDeleted(entries: seq<Entry>, parse: string -> Option<Stamp>, e: Entry)
    requires DistinctNames(entries)
    requires e in entries
    requires e.name in Excluded || GetSessionInfo(e.content, e.mtime, parse).NoInfo?
    ensures e.name !in RemovedNames(Scan(Listing(entries), Resolver(parse)))
    ensures forall t :: t in Scan(Listing(entries), Resolver(parse)).targets ==> t.name != e.name
  {
    var resolve := Resolver(parse);
    OnlyDuplicatesDeleted(Listing(entries), resolve);
    forall t | t in Scan(Listing(entries), resolve).targets ensures t.name != e.name {
      var e' :| e' in entries && e'.name == t.name && resolve(e').Info?;
      if e' != e {
        EntryNamesDiffer(entries, e', e);
      }
    }
  }

  lemma EntryNamesDiffer(s: seq<Entry>, x: Entry, y: Entry)
    requires DistinctNames(s)
    requires x in s && y in s && x != y
    ensures x.name != y.name
  {
    var p :| 0 <= p < |s| && s[p] == x;
    var q :| 0 <= q < |s| && s[q] == y;
    assert p != q;
  }
}
