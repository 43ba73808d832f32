/**
 The order facts of a pass. The session map is a Python dict, so its keys
 are iterated in the order each id was first seen. Each list in it is built
 by `append`, so it keeps the order in which the glob yielded the files.
 Together these decide which groups are handled before a pass aborts, and
 which file wins a tie for the latest timestamp.
 */
module DiscoveryOrder {
  import opened JsonValues
  import opened SessionInfo
  import opened Deduplicator

  /** The position of the first record filed under `k`, or `|recs|` when
      there is none. */
  function FirstAt(recs: seq<Record>, k: Key): (p: nat)
    ensures p <= |recs|
    ensures p < |recs| ==> recs[p].key == k
    ensures forall q :: 0 <= q < p ==> recs[q].key != k
  {
    if recs == [] then 0
    else if recs[0].key == k then 0
    else
      var p := FirstAt(recs[1..], k);
      assert forall q :: 1 <= q < p + 1 ==> recs[q] == recs[1..][q - 1];
      p + 1
  }

  /** A key has records exactly when its first position is inside `recs`. */
  lemma PresentIffFirstAt(recs: seq<Record>, k: Key)
    ensures Group(recs, k) != [] <==> FirstAt(recs, k) < |recs|
  {
    GroupMembers(recs, k);
    var p := FirstAt(recs, k);
    if p < |recs| {
      assert recs[p] in recs;
      assert recs[p] in Group(recs, k);
    }
    if Group(recs, k) != [] {
      var y := Group(recs, k)[0];
      assert y in Group(recs, k);
      var q :| 0 <= q < |recs| && recs[q] == y;
    }
  }

  /** Appending a record leaves every first position that was already there
      unchanged, and gives a new key the appended position. */
  lemma FirstAtSnoc(init: seq<Record>, x: Record, k: Key)
    ensures FirstAt(init, k) < |init| ==> FirstAt(init + [x], k) == FirstAt(init, k)
    ensures FirstAt(init, k) == |init| && x.key == k ==> FirstAt(init + [x], k) == |init|
  {
    var recs := init + [x];
    var a := FirstAt(init, k);
    var b := FirstAt(recs, k);
    assert forall q :: 0 <= q < |init| ==> recs[q] == init[q];
    assert recs[|init|] == x;
    if a < |init| {
      assert recs[a].key == k;
    }
  }

  /** `ks` lists keys in the order of their first record in `recs`. */
  ghost predicate FirstSeenOrder(recs: seq<Record>, ks: seq<Key>) {
    forall i, j :: 0 <= i < j < |ks| ==> FirstAt(recs, ks[i]) < FirstAt(recs, ks[j])
  }

  /** Dict order: the keys are iterated in the order of their first record. */
  lemma {:induction false} KeysFirstSeenOrder(recs: seq<Record>)
    ensures FirstSeenOrder(recs, KeysInOrder(recs))
  {
    if recs != [] {
      var init := recs[..|recs| - 1];
      var last := recs[|recs| - 1];
      assert recs == init + [last];
      KeysFirstSeenOrder(init);
      KeysSnocOrder(init, last);
    }
  }

  lemma KeysSnocOrder(init: seq<Record>, last: Record)
    requires FirstSeenOrder(init, KeysInOrder(init))
    ensures FirstSeenOrder(init + [last], KeysInOrder(init + [last]))
  {
    var recs := init + [last];
    var ks0 := KeysInOrder(init);
    assert recs[..|recs| - 1] == init;
    assert recs[|recs| - 1] == last;
    KnownFirstsKept(init, last, ks0);
    if last.key in ks0 {
      assert KeysInOrder(recs) == ks0;
      OrderKept(init, recs, ks0);
    } else {
      assert KeysInOrder(recs) == ks0 + [last.key];
      PresentIffFirstAt(init, last.key);
      FirstAtSnoc(init, last, last.key);
      OrderExtended(init, recs, ks0, last.key);
    }
  }

  /** Keys whose first positions did not move stay in order. */
  lemma OrderKept(init: seq<Record>, recs: seq<Record>, ks0: seq<Key>)
    requires FirstSeenOrder(init, ks0)
    requires forall k :: k in ks0 ==> FirstAt(recs, k) == FirstAt(init, k)
    ensures FirstSeenOrder(recs, ks0)
  {
    forall i, j | 0 <= i < j < |ks0| ensures FirstAt(recs, ks0[i]) < FirstAt(recs, ks0[j]) {
      assert ks0[i] in ks0 && ks0[j] in ks0;
    }
  }

  /** A new key first seen after all the others goes last. */
  lemma OrderExtended(init: seq<Record>, recs: seq<Record>, ks0: seq<Key>, k: Key)
    requires FirstSeenOrder(init, ks0)
    requires forall k' :: k' in ks0 ==> FirstAt(recs, k') == FirstAt(init, k') < |init|
    requires FirstAt(recs, k) == |init|
    ensures FirstSeenOrder(recs, ks0 + [k])
  {
    OrderKept(init, recs, ks0);
    var ks := ks0 + [k];
    forall i, j | 0 <= i < j < |ks| ensures FirstAt(recs, ks[i]) < FirstAt(recs, ks[j]) {
      assert ks[i] == ks0[i] && ks0[i] in ks0;
      if j < |ks0| {
        assert ks[j] == ks0[j];
      }
    }
  }

  /** Keys already seen keep their first position when a record is appended. */
  lemma KnownFirstsKept(init: seq<Record>, last: Record, ks0: seq<Key>)
    requires forall k :: k in ks0 ==> Group(init, k) != []
    ensures forall k :: k in ks0 ==> FirstAt(init + [last], k) == FirstAt(init, k) < |init|
  {
    forall k | k in ks0 ensures FirstAt(init + [last], k) == FirstAt(init, k) < |init| {
      PresentIffFirstAt(init, k);
      FirstAtSnoc(init, last, k);
    }
  }

  // ---------------------------------------------------------------------------
  // Listing order inside a group
  // ---------------------------------------------------------------------------

  ghost predicate Increasing(ix: seq<nat>) {
    forall i, j :: 0 <= i < j < |ix| ==> ix[i] < ix[j]
  }

  /** `sub` is drawn from `s` in order: its `i`-th element is `s[ix[i]]`, and
      the positions `ix` increase. */
  ghost predicate Embeds<T>(ix: seq<nat>, sub: seq<T>, s: seq<T>) {
    && |ix| == |sub|
    && Increasing(ix)
    && forall i :: 0 <= i < |ix| ==> ix[i] < |s| && s[ix[i]] == sub[i]
  }

  /** Every position moved one place on. */
  function Shift(ix: seq<nat>): (r: seq<nat>)
    ensures |r| == |ix|
    ensures forall i :: 0 <= i < |ix| ==> r[i] == ix[i] + 1
  {
    seq(|ix|, i requires 0 <= i < |ix| => ix[i] + 1)
  }

  /** An element skipped at the front shifts every position by one. */
  lemma EmbedsSkip<T>(x: T, s: seq<T>, sub: seq<T>, ix: seq<nat>)
    requires Embeds(ix, sub, s)
    ensures Embeds(Shift(ix), sub, [x] + s)
  {
    var r := Shift(ix);
    forall i | 0 <= i < |r| ensures r[i] < |[x] + s| && ([x] + s)[r[i]] == sub[i] {
      assert ([x] + s)[ix[i] + 1] == s[ix[i]];
    }
  }

  /** An element kept at the front takes position 0. */
  lemma EmbedsTake<T>(x: T, s: seq<T>, sub: seq<T>, ix: seq<nat>)
    requires Embeds(ix, sub, s)
    ensures Embeds([0] + Shift(ix), [x] + sub, [x] + s)
  {
    var r := [0] + Shift(ix);
    var t := [x] + s;
    forall i | 0 <= i < |r| ensures r[i] < |t| && t[r[i]] == ([x] + sub)[i] {
      if i > 0 {
        assert r[i] == ix[i - 1] + 1;
        assert t[r[i]] == s[ix[i - 1]];
      }
    }
    forall i, j | 0 <= i < j < |r| ensures r[i] < r[j] {
      if i > 0 {
        assert r[i] == ix[i - 1] + 1 && r[j] == ix[j - 1] + 1;
      }
    }
  }

  /** Where each processed file sits in the glob listing. */
  function CandidateIndices(entries: seq<Entry>): seq<nat> {
    if entries == [] then []
    else
      var rest := Shift(CandidateIndices(entries[1..]));
      if entries[0].name in Excluded then rest else [0] + rest
  }

  /** The processed files are drawn from the listing in its order. */
  lemma {:induction false} CandidatesInOrder(entries: seq<Entry>)
    ensures Embeds(CandidateIndices(entries), Candidates(entries), entries)
  {
    if entries != [] {
      var x := entries[0];
      CandidatesInOrder(entries[1..]);
      assert entries == [x] + entries[1..];
      if x.name in Excluded {
        assert Candidates(entries) == Candidates(entries[1..]);
        EmbedsSkip(x, entries[1..], Candidates(entries[1..]), CandidateIndices(entries[1..]));
      } else {
        assert Candidates(entries) == [x] + Candidates(entries[1..]);
        EmbedsTake(x, entries[1..], Candidates(entries[1..]), CandidateIndices(entries[1..]));
      }
    }
  }

  /** Where each record of the group of `k` sits among the records. */
  function GroupIndices(recs: seq<Record>, k: Key): seq<nat> {
    if recs == [] then []
    else
      var rest := Shift(GroupIndices(recs[1..], k));
      if recs[0].key == k then [0] + rest else rest
  }

  /** The list under a key is drawn from the records in their order. */
  lemma {:induction false} GroupInOrder(recs: seq<Record>, k: Key)
    ensures Embeds(GroupIndices(recs, k), Group(recs, k), recs)
  {
    if recs != [] {
      var x := recs[0];
      GroupInOrder(recs[1..], k);
      assert recs == [x] + recs[1..];
      if x.key == k {
        assert Group(recs, k) == [x] + Group(recs[1..], k);
        EmbedsTake(x, recs[1..], Group(recs[1..], k), GroupIndices(recs[1..], k));
      } else {
        assert Group(recs, k) == Group(recs[1..], k);
        EmbedsSkip(x, recs[1..], Group(recs[1..], k), GroupIndices(recs[1..], k));
      }
    }
  }

  /** `recs` are the records of the files at positions `ix`, in order. */
  ghost predicate RecordsAt(ix: seq<nat>, recs: seq<Record>, files: seq<Entry>, resolve: Entry -> Info) {
    && |ix| == |recs|
    && Increasing(ix)
    && forall i :: 0 <= i < |ix| ==> ix[i] < |files| && RecordOf(files[ix[i]], resolve) == Some(recs[i])
  }

  /** Where each collected record's file sits among the processed files. */
  function CollectIndices(files: seq<Entry>, resolve: Entry -> Info): seq<nat> {
    if files == [] then []
    else
      var rest := Shift(CollectIndices(files[1..], resolve));
      if RecordOf(files[0], resolve).None? then rest else [0] + rest
  }

  /** The collected records come from the processed files in their order. */
  lemma {:induction false} CollectInOrder(files: seq<Entry>, resolve: Entry -> Info)
    requires Collect(files, resolve).Some?
    ensures RecordsAt(CollectIndices(files, resolve), Collect(files, resolve).value, files, resolve)
  {
    if files != [] {
      var x := files[0];
      var more := files[1..];
      CollectInOrder(more, resolve);
      var ix := CollectIndices(more, resolve);
      var rest := Collect(more, resolve).value;
      assert files == [x] + more;
      if RecordOf(x, resolve).None? {
        assert Collect(files, resolve).value == rest;
        RecordsSkip(x, more, rest, ix, resolve);
      } else {
        assert Collect(files, resolve).value == [RecordOf(x, resolve).value] + rest;
        RecordsTake(x, more, rest, ix, resolve);
      }
    }
  }

  lemma RecordsSkip(x: Entry, files: seq<Entry>, recs: seq<Record>, ix: seq<nat>, resolve: Entry -> Info)
    requires RecordsAt(ix, recs, files, resolve)
    ensures RecordsAt(Shift(ix), recs, [x] + files, resolve)
  {
    var r := Shift(ix);
    forall i | 0 <= i < |r| ensures r[i] < |[x] + files| && RecordOf(([x] + files)[r[i]], resolve) == Some(recs[i]) {
      assert ([x] + files)[ix[i] + 1] == files[ix[i]];
    }
  }

  lemma RecordsTake(x: Entry, files: seq<Entry>, recs: seq<Record>, ix: seq<nat>, resolve: Entry -> Info)
    requires RecordsAt(ix, recs, files, resolve)
    requires RecordOf(x, resolve).Some?
    ensures RecordsAt([0] + Shift(ix), [RecordOf(x, resolve).value] + recs, [x] + files, resolve)
  {
    var r := [0] + Shift(ix);
    var y := RecordOf(x, resolve).value;
    var s := [x] + files;
    forall i | 0 <= i < |r| ensures r[i] < |s| && RecordOf(s[r[i]], resolve) == Some(([y] + recs)[i]) {
      if i > 0 {
        assert r[i] == ix[i - 1] + 1;
        assert s[r[i]] == files[ix[i - 1]];
      }
    }
    forall i, j | 0 <= i < j < |r| ensures r[i] < r[j] {
      if i > 0 {
        assert r[i] == ix[i - 1] + 1 && r[j] == ix[j - 1] + 1;
      }
    }
  }

  /** Where each file of the group of `k` sits in the glob listing. */
  function ListingIndices(entries: seq<Entry>, resolve: Entry -> Info, k: Key): seq<nat>
    requires Records(entries, resolve).Some?
  {
    var a := CandidateIndices(entries);
    var b := CollectIndices(Candidates(entries), resolve);
    var c := GroupIndices(Records(entries, resolve).value, k);
    seq(|c|, i requires 0 <= i < |c| => if c[i] < |b| && b[c[i]] < |a| then a[b[c[i]]] else 0)
  }

  /** The list under a session id keeps the glob's order: the `i`-th file of
      the group of `k` is the record of the listed, non-excluded file at
      position `ix[i]`, and these positions increase. So "first in the group"
      is "first in discovery order". */
  lemma GroupInListingOrder(entries: seq<Entry>, resolve: Entry -> Info, k: Key)
    requires Records(entries, resolve).Some?
    ensures var g := Group(Records(entries, resolve).value, k);
      var ix := ListingIndices(entries, resolve, k);
      && |ix| == |g|
      && Increasing(ix)
      && forall i :: 0 <= i < |ix| ==>
           ix[i] < |entries| && entries[ix[i]].name !in Excluded && RecordOf(entries[ix[i]], resolve) == Some(g[i])
  {
    var files := Candidates(entries);
    var recs := Records(entries, resolve).value;
    var g := Group(recs, k);
    var a := CandidateIndices(entries);
    var b := CollectIndices(files, resolve);
    var c := GroupIndices(recs, k);
    var ix := ListingIndices(entries, resolve, k);
    CandidatesInOrder(entries);
    CollectInOrder(files, resolve);
    GroupInOrder(recs, k);
    CandidatesMembers(entries);
    forall i | 0 <= i < |ix|
      ensures ix[i] == a[b[c[i]]] && entries[ix[i]].name !in Excluded && RecordOf(entries[ix[i]], resolve) == Some(g[i])
    {
      assert files[b[c[i]]] in files;
    }
    forall i, j | 0 <= i < j < |ix| ensures ix[i] < ix[j] {
      assert c[i] < c[j];
      assert b[c[i]] < b[c[j]];
    }
  }
}
