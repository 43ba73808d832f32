# Session deduplicator — a Dafny model

This project models one pass of `SessionDeduplicator.scan_and_deduplicate` over a
directory of JSON session files, together with `get_session_info`, the function
that derives a session id and a timestamp from each file.

A pass works as follows:
- It skips the two excluded file names.
- It resolves every other file.
- It groups the files that have an id by that id, in dict order.
- In every group of two or more files, it sorts the files newest first with Python's stable sort, keeps the first and unlinks the rest.

The model is pure and functional. The directory listing is a sequence of `Entry` values, each holding:
- the file name;
- what `json.load` yields (`Content`);
- the modification time;
- whether `unlink` on the file succeeds.

A pass yields the deletion targets in the order their unlinks are attempted, plus a flag saying whether the pass ran to the end.

Modules:

- `JsonValues` (`json_values.dfy`):
  - decoded JSON values;
  - Python truthiness;
  - `dict.get`;
  - the value of a chain `d.get(a) or d.get(b) or ...`, which is the first truthy operand, else the last operand.
- `SessionInfo` (`session_info.dfy`): `get_session_info`.
  - The id and timestamp priority lookups.
  - The fractional-second normalisation `base, frac = s.split('.')`, `frac.rstrip('Z')[:6] + 'Z'`, and the `Z` to `+00:00` replacement.
  - Every path that ends in `(None, None)`:
    - unreadable or undecodable content;
    - a document that is not an object;
    - a falsy id;
    - a timestamp that is not a string;
    - a timestamp with two or more dots, where the two-name unpack raises;
    - a timestamp that `datetime.fromisoformat` rejects.
  - The mtime fallback applies when all timestamp fields are falsy. It yields a naive `datetime`.
- `StableSort` (`stable_sort.dfy`): `list.sort(key=..., reverse=True)` as an insertion sort. Its specification is stated independently of the algorithm:
  - the result is a permutation;
  - the result is in descending key order;
  - elements with equal keys stay in input order (stability).

  The head of the result is the first element, in input order, with the largest key.
- `Deduplicator` (`deduplicator.dfy`): the pass itself (`Scan`), plus what one pass deletes and what the directory looks like afterwards.
  - **Excluded names.** The exclusion set is `Excluded`.
  - **Grouping key.** Python's dict-key semantics apply, and are modelled by `HashKey`:
    - strings compare by content;
    - numbers compare by value;
    - `True` is the key `1`;
    - lists and dicts are unhashable. The `TypeError` at line 131 reaches the outer handler and ends the pass before anything is deleted.
  - **Mixed naive and aware timestamps.** A group of two or more files that mixes them cannot be sorted. The comparison raises `TypeError`, which also reaches the outer handler. That ends the pass after the deletions of the groups already handled.
  - **The resolver.** The pass is stated for any resolver `Entry -> Info`; the program's resolver is `Pass.Resolver(parse)`.
- `DiscoveryOrder` (`discovery_order.dfy`): the order facts.
  - The dict iterates ids in the order their first file was seen.
  - Each id's list keeps the order in which the glob yielded the files.
- `Pass` (`pass.dfy`): the pass as the program runs it.
  - Each file is resolved by `GetSessionInfo`.
  - The unlink loop counts `total_removed`.
  - Over a listing with distinct names, `total_removed` is the number of files removed, and the directory shrinks by exactly that many files.

`datetime` values are abstracted as `Stamp = Naive(at) | Aware(at)`, with an integer instant. `datetime.fromisoformat` is the parameter `parse`.

One behaviour of the normalisation is stated as a lemma rather than treated as an error: `SessionInfo.OffsetAfterLongFractionIsReplaced`. The cut to six characters is applied to everything after the dot. When a fraction of six or more digits is followed by a UTC offset (`...:45.1234567+03:00`), the offset is discarded and the time is read as UTC (`...:45.123456Z`).

## Model

| member | source | states |
|---|---|---|
| JsonValues.FirstTruthy | data/sessions/session_deduplicator.py:66-78 | A chain of `or`-ed `dict.get` calls is truthy iff some operand is. When truthy, it is the first truthy operand. Otherwise it is the last operand. |
| JsonValues.FirstTruthyPicksFirst | data/sessions/session_deduplicator.py:66-78 | If operand `i` is truthy and every earlier operand is falsy, the chain's value is operand `i`; later operands do not matter. |
| SessionInfo.SessionIdOf | data/sessions/session_deduplicator.py:66-71 | The session id is `activeSessionId` if truthy, else `sessionId` if truthy, else `id` if truthy, else whatever `accountId` holds, with a missing key read as null. |
| SessionInfo.StampFieldOf | data/sessions/session_deduplicator.py:74-78 | The raw timestamp is `updatedAt` if truthy, else `timestamp` if truthy, else whatever `createdAt` holds. |
| SessionInfo.SplitOnPieces | data/sessions/session_deduplicator.py:88 | `split('.')` yields one piece more than there are dots, and no piece contains a dot. |
| SessionInfo.JoinSplit | data/sessions/session_deduplicator.py:88 | Joining the pieces of `split(c)` with `c` gives back the original string. |
| SessionInfo.RStrip | data/sessions/session_deduplicator.py:89 | `rstrip('Z')` is a prefix of its input. Everything it removed is `Z`, and it does not end in `Z`. |
| SessionInfo.Take | data/sessions/session_deduplicator.py:89 | `[:6]` is the prefix of length min(6, length). |
| SessionInfo.ReplaceChar | data/sessions/session_deduplicator.py:92 | `replace('Z', '+00:00')` leaves a string without `Z` unchanged and leaves no `Z` behind. With the six-character replacement the length grows by five per replaced `Z`. |
| SessionInfo.ReplaceIsSplitJoin | data/sessions/session_deduplicator.py:92 | `s.replace(c, w)` equals `w.join(s.split(c))`: each `c` is replaced in place and the text between occurrences is kept, in order. |
| SessionInfo.NormalizeFraction | data/sessions/session_deduplicator.py:87-90 | Without a dot the string is unchanged. With two or more dots the unpack raises (`None`). With exactly one dot, the part up to and including the dot is unchanged. The fraction becomes its `Z`-stripped text cut to at most 6 characters, followed by one `Z`. |
| SessionInfo.NormalizeOneDot | data/sessions/session_deduplicator.py:87-90 | For `base + "." + frac` with no other dot, the result is exactly `base + "." + frac.rstrip('Z')[:6] + "Z"`. |
| SessionInfo.OffsetAfterLongFractionIsReplaced | data/sessions/session_deduplicator.py:87-92 | A fraction of six or more digits followed by an offset loses the offset and gains `Z`. |
| SessionInfo.StampOfString | data/sessions/session_deduplicator.py:85-104 | Any value other than a string gives no timestamp, because `'.' in`, `split` or `replace` raises. So does a string with two or more dots. Otherwise the result is exactly `parse` applied to the normalised string with every `Z` replaced by `+00:00`, so a string `fromisoformat` rejects gives no timestamp. |
| SessionInfo.GetSessionInfo | data/sessions/session_deduplicator.py:61-104 | These inputs give `(None, None)`: <br>• unreadable content; <br>• a non-object document; <br>• a falsy id. <br>With a truthy id: <br>• all timestamp fields falsy gives `(id, naive mtime)`; <br>• otherwise the result is info exactly when the string converts, and then it carries the converted stamp. <br>Every info result carries the prioritised id, which is truthy. |
| SessionInfo.MtimeFallbackExactly | data/sessions/session_deduplicator.py:85-95 | The mtime is used exactly when all three timestamp fields are falsy. When any field is truthy, the result does not depend on the mtime. |
| StableSort.SortDesc | data/sessions/session_deduplicator.py:138 | The sort yields a permutation of its input, in descending key order. |
| StableSort.SortDescStable | data/sessions/session_deduplicator.py:138 | For every key value, the elements with that key appear in the sorted result in input order. This is the stability of `sort(reverse=True)`. |
| StableSort.FirstMaxIndex | data/sessions/session_deduplicator.py:138-141 | Indexes an element whose key is the maximum and strictly greater than the key of every earlier element. |
| StableSort.SortDescHead | data/sessions/session_deduplicator.py:138-141 | `files[0]` after the sort is the first element, in input order, among those with the latest timestamp. |
| StableSort.SortDescTail | data/sessions/session_deduplicator.py:144 | `files[1:]` after the sort is, as a multiset, the input without that element. |
| Deduplicator.HashKey | data/sessions/session_deduplicator.py:131 | Only lists and dicts are rejected as dict keys. Strings key by content, numbers by value, and `True` keys as `1`. |
| Deduplicator.CandidatesMembers | data/sessions/session_deduplicator.py:117-118 | The files processed are exactly the listed files whose name is not one of the two excluded names. |
| Deduplicator.RecordOf | data/sessions/session_deduplicator.py:127-131 | A file enters the session map only when it resolves to info with a hashable id. It is then filed under that id's key with its stamp. |
| Deduplicator.CollectSpec | data/sessions/session_deduplicator.py:127-131 | Collection fails exactly when some file's id is unhashable. Otherwise every collected record comes from a file, and every file with a usable id is collected. |
| Deduplicator.GroupMembers | data/sessions/session_deduplicator.py:131 | The list under a key holds exactly the records with that key. |
| Deduplicator.KeysInOrder | data/sessions/session_deduplicator.py:131-135 | The keys iterated are exactly the keys with a non-empty list, without repetition. |
| DiscoveryOrder.KeysFirstSeenOrder | data/sessions/session_deduplicator.py:114-135 | The session map's keys are iterated in the order in which each id's first file was appended. |
| DiscoveryOrder.GroupInListingOrder | data/sessions/session_deduplicator.py:117-131 | The list under an id holds the records of non-excluded listed files, at strictly increasing positions of the glob listing, so its order is discovery order. |
| Deduplicator.KeeperIndex | data/sessions/session_deduplicator.py:138-141 | The kept file has the latest timestamp of its group and is the first such in the group's list order, which `GroupInListingOrder` shows is discovery order. |
| Deduplicator.TailIsAllButKeeper | data/sessions/session_deduplicator.py:136-144 | For a group of two or more, the files unlinked are the group without the kept file, as a multiset. |
| Deduplicator.KeeperFirst | data/sessions/session_deduplicator.py:138-144 | The sorted group is the kept file followed by the files to unlink. |
| Deduplicator.DedupeSpec | data/sessions/session_deduplicator.py:135-163 | Every target is a collected record. The loop completes iff no group of two or more mixes naive and aware stamps. |
| Deduplicator.DedupeReaches | data/sessions/session_deduplicator.py:135-163 | Also in a pass that aborts: a key loses its group without the kept file exactly when that group has two or more files, is uniform in kind, and no key iterated before it has a mixed group. Otherwise it loses nothing. |
| Deduplicator.OnlyDuplicatesDeleted | data/sessions/session_deduplicator.py:109-144 | A missing directory deletes nothing. Every target has a non-excluded name, comes from a listed file that resolved to info, and belongs to a group of two or more. |
| Deduplicator.DedupeByKey | data/sessions/session_deduplicator.py:135-146 | Per key, the targets are either nothing or the group without its kept file; in a completed pass they are always the latter. A key that was never seen has no targets. |
| Deduplicator.DedupeKeepsNewest | data/sessions/session_deduplicator.py:135-146 | In a completed pass, a single-file group loses nothing. A larger group is uniform in kind and loses everything but its kept file. |
| Deduplicator.KeepNewest | data/sessions/session_deduplicator.py:106-146 | For a whole completed scan: groups of one produce no deletions. In larger groups the targets are the group without the file `KeeperIndex` picks: the latest timestamp, the first such in discovery order. Such a group is uniform in kind. |
| Deduplicator.CompletedScan | data/sessions/session_deduplicator.py:109-135 | A pass that completes got past collection, and its outcome is the loop over the collected records in dict order. |
| Deduplicator.KeeperNotTargeted | data/sessions/session_deduplicator.py:141-144 | With distinct names, no target of any key carries the name of a kept file. |
| Deduplicator.OthersTargeted | data/sessions/session_deduplicator.py:144 | In a completed pass, every file of a group other than the kept one is a target. |
| Deduplicator.AtMostOnePerSession | data/sessions/session_deduplicator.py:134-150 | After a completed pass whose unlinks all succeed, every id keeps exactly its kept file, and an id without files still has none. |
| Deduplicator.SecondPassDeletesNothing | data/sessions/session_deduplicator.py:106-150 | After a completed pass whose unlinks all succeed, a second pass completes and deletes nothing. |
| Deduplicator.NothingToDo | data/sessions/session_deduplicator.py:135-136 | When every group has at most one file, the loop completes without targets. |
| Pass.UnlinkedMembers | data/sessions/session_deduplicator.py:144-147 | A name is in the list of successful unlinks iff some target with that name has a succeeding `unlink`. |
| Pass.TargetsDistinct | data/sessions/session_deduplicator.py:135-144 | Over files with distinct names, no file is a target twice. |
| Pass.UnlinkAll | data/sessions/session_deduplicator.py:134-150 | The loop over the targets records exactly the successful unlinks, in order. `total_removed` is their number. |
| Pass.CountRemoved | data/sessions/session_deduplicator.py:134-150 | Over a listing with distinct names, the number of successful unlinks equals the number of names removed, and the listing shrinks by that number. |
| Pass.Deduplicate | data/sessions/session_deduplicator.py:106-150 | One pass with `get_session_info` as resolver: <br>• the pass completes as `Scan` says; <br>• the removed names are exactly the targets whose unlink succeeded; <br>• `total_removed` counts them. <br>Over a listing with distinct names, the directory shrinks by `total_removed` files. |
| Pass.NeverDeleted | data/sessions/session_deduplicator.py:117-131 | A file with an excluded name, or one that `get_session_info` maps to `(None, None)`, is never a target and never removed. |

## Left out

- Logging (`setup_logging`, every log message) and the closing summary report, lines 34-49 and 152-160: output only. The count of unique sessions in the report is not modelled.
- `run_periodic_check`, `stop`, `signal_handler` and `main`, lines 165-249: polling with `sleep`, signal handling and argument parsing.
- `extension/session-capture-extension/generate_icons.py`: image drawing and PNG output, with nothing to state as a contract.
- The filesystem:
  - `glob('*.json')` is the given `Listing`, in discovery order;
  - `exists()` is the `Missing` case;
  - `json.load` is the given `Content`;
  - `unlink` success is the per-entry flag `unlinkOk`.

  Listings whose names repeat are allowed by `Scan`. The lemmas that follow files by name assume distinct names, as a directory has: `KeeperNotTargeted`, `OthersTargeted`, `AtMostOnePerSession`, `SecondPassDeletesNothing`, `TargetsDistinct`, `CountRemoved`, `NeverDeleted` and the distinct-names clauses of `Pass.Deduplicate`.
- A failure of `stat()` during the mtime fallback is not modelled. The modification time is always available.
- `datetime.fromisoformat` and time zones: `parse` is an arbitrary function from strings to `Stamp`. Aware values are ordered by an abstract instant, and `fromtimestamp`'s local-time conversion is not modelled.
- Modification times are integers, not the float `st_mtime`.
- Non-finite numbers (`NaN`, `Infinity`) that Python's JSON decoder accepts are not modelled. Numbers are exact reals, so `NaN`'s truthiness and hashing are out of scope.
- The comparison on mixed stamps: the model says a group of two or more files with both naive and aware stamps always aborts the pass. The source relies on `sort` comparing such a pair, which any comparison sort must do when the sorted result would put a naive and an aware value next to each other.
- Deduplicator.SecondPassDeletesNothing: stated for a first pass that completes. After a pass that aborted at a mixed group with every unlink succeeding, a second pass is also expected to delete nothing, because that group survives and every key before it is down to one file. That case is not proved.
- Deduplicator.Dedupe: it carries no contract of its own. `DedupeSpec`, `DedupeByKey` and `DedupeKeepsNewest` state what it deletes and when it completes.
- Deduplicator.Scan: it carries no contract of its own. Its properties are stated in the lemmas about it (`OnlyDuplicatesDeleted`, `KeepNewest`, `AtMostOnePerSession`, `SecondPassDeletesNothing`) and in `Pass.Deduplicate`.
