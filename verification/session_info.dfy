/**
 Field resolution for one session file: which session id and which timestamp
 `get_session_info` derives from a file's decoded contents and its
 modification time, including the fractional-second normalisation applied to
 timestamp strings and every way the lookup can fail.
 */
module SessionInfo {
  import opened JsonValues

  /** Candidate id fields, in priority order. */
  const IdFields: seq<string> := ["activeSessionId", "sessionId", "id", "accountId"]

  /** Candidate timestamp fields, in priority order. */
  const StampFields: seq<string> := ["updatedAt", "timestamp", "createdAt"]

  /** Number of fractional-second characters kept by the normalisation. */
  const FracWidth: nat := 6

  /** A resolved `datetime`. `Naive` values carry no time zone (the modification
      time fallback, or an ISO string without offset); `Aware` values are
      compared by their UTC instant. Python refuses to order a naive value
      against an aware one. The instants themselves are abstract integers. */
  datatype Stamp = Naive(at: int) | Aware(at: int)

  /** What reading one file yields: a decoded document, or a read/decode error. */
  datatype Content = Parsed(doc: Json) | Unreadable

  /** The pair returned by `get_session_info`; `NoInfo` is `(None, None)`. */
  datatype Info = NoInfo | Info(id: Json, stamp: Stamp)

  /** The session id: the first truthy field among `IdFields`, else the (falsy)
      value of the last one. */
  function SessionIdOf(doc: map<string, Json>): (r: Json)
    ensures Truthy(Get(doc, "activeSessionId")) ==> r == Get(doc, "activeSessionId")
    ensures !Truthy(Get(doc, "activeSessionId")) && Truthy(Get(doc, "sessionId"))
      ==> r == Get(doc, "sessionId")
    ensures (!Truthy(Get(doc, "activeSessionId")) && !Truthy(Get(doc, "sessionId"))
             && Truthy(Get(doc, "id"))) ==> r == Get(doc, "id")
    ensures (!Truthy(Get(doc, "activeSessionId")) && !Truthy(Get(doc, "sessionId"))
             && !Truthy(Get(doc, "id"))) ==> r == Get(doc, "accountId")
  {
    var r := FirstTruthy(doc, IdFields);
    if Truthy(Get(doc, "activeSessionId")) then FirstTruthyPicksFirst(doc, IdFields, 0); r
    else if Truthy(Get(doc, "sessionId")) then FirstTruthyPicksFirst(doc, IdFields, 1); r
    else if Truthy(Get(doc, "id")) then FirstTruthyPicksFirst(doc, IdFields, 2); r
    else r
  }

  /** The raw timestamp: the first truthy field among `StampFields`, else the
      (falsy) value of the last one. */
  function StampFieldOf(doc: map<string, Json>): (r: Json)
    ensures Truthy(Get(doc, "updatedAt")) ==> r == Get(doc, "updatedAt")
    ensures !Truthy(Get(doc, "updatedAt")) && Truthy(Get(doc, "timestamp"))
      ==> r == Get(doc, "timestamp")
    ensures !Truthy(Get(doc, "updatedAt")) && !Truthy(Get(doc, "timestamp"))
      ==> r == Get(doc, "createdAt")
  {
    var r := FirstTruthy(doc, StampFields);
    if Truthy(Get(doc, "updatedAt")) then FirstTruthyPicksFirst(doc, StampFields, 0); r
    else if Truthy(Get(doc, "timestamp")) then FirstTruthyPicksFirst(doc, StampFields, 1); r
    else r
  }

  // ---------------------------------------------------------------------------
  // String helpers with Python's semantics
  // ---------------------------------------------------------------------------

  /** Number of occurrences of `c` in `s`. */
  function Count(s: string, c: char): (n: nat)
    ensures n <= |s|
    ensures n == 0 <==> c !in s
  {
    if s == [] then 0
    else (if s[0] == c then 1 else 0) + Count(s[1..], c)
  }

  /** `s.split(c)` for a one-character separator: the maximal separator-free
      pieces, one more than there are separators. */
  function SplitOn(s: string, c: char): (parts: seq<string>)
    ensures |parts| > 0
  {
    if s == [] then [""]
    else
      var rest := SplitOn(s[1..], c);
      if s[0] == c then [""] + rest
      else [[s[0]] + rest[0]] + rest[1..]
  }

  /** `split(c)` yields one piece more than there are separators, and no
      piece contains the separator. */
  lemma {:induction false} SplitOnPieces(s: string, c: char)
    ensures |SplitOn(s, c)| == Count(s, c) + 1
    ensures forall k :: 0 <= k < |SplitOn(s, c)| ==> c !in SplitOn(s, c)[k]
  {
    if s != [] {
      SplitOnPieces(s[1..], c);
      var rest := SplitOn(s[1..], c);
      if s[0] != c {
        var parts := SplitOn(s, c);
        assert parts[0] == [s[0]] + rest[0];
        forall k | 0 < k < |parts| ensures c !in parts[k] {
          assert parts[k] == rest[k];
        }
      }
    }
  }

  /** `sep.join(parts)`. */
  function JoinWith(parts: seq<string>, sep: string): string
    requires |parts| > 0
  {
    if |parts| == 1 then parts[0] else parts[0] + (sep + JoinWith(parts[1..], sep))
  }

  lemma {:induction false} CountAppend(a: string, b: string, c: char)
    ensures Count(a + b, c) == Count(a, c) + Count(b, c)
  {
    if a != [] {
      assert (a + b)[0] == a[0];
      assert (a + b)[1..] == a[1..] + b;
      CountAppend(a[1..], b, c);
    } else {
      assert a + b == b;
    }
  }

  /** Splitting on a character and joining the pieces back with it gives the
      original string. */
  lemma {:induction false} JoinSplit(s: string, c: char)
    ensures JoinWith(SplitOn(s, c), [c]) == s
  {
    if s != [] {
      JoinSplit(s[1..], c);
      if s[0] == c {
        JoinSplitAtSeparator(s, c);
      } else {
        JoinSplitInPiece(s, c);
      }
    }
  }

  lemma JoinSplitAtSeparator(s: string, c: char)
    requires s != [] && s[0] == c
    requires JoinWith(SplitOn(s[1..], c), [c]) == s[1..]
    ensures JoinWith(SplitOn(s, c), [c]) == s
  {
    var rest := SplitOn(s[1..], c);
    assert SplitOn(s, c) == [""] + rest;
    JoinCons("", rest, [c]);
    assert s == [s[0]] + s[1..];
  }

  lemma JoinSplitInPiece(s: string, c: char)
    requires s != [] && s[0] != c
    requires JoinWith(SplitOn(s[1..], c), [c]) == s[1..]
    ensures JoinWith(SplitOn(s, c), [c]) == s
  {
    var rest := SplitOn(s[1..], c);
    var more := rest[1..];
    var first := [s[0]] + rest[0];
    assert SplitOn(s, c) == [first] + more;
    JoinCons(first, more, [c]);
    assert s == [s[0]] + JoinWith(rest, [c]);
    if more == [] {
      assert |rest| == 1;
      assert JoinWith(rest, [c]) == rest[0];
    } else {
      var tail := JoinWith(more, [c]);
      assert JoinWith(rest, [c]) == rest[0] + ([c] + tail);
      ConcatAssoc([s[0]], rest[0], [c] + tail);
      assert JoinWith(SplitOn(s, c), [c]) == first + ([c] + tail);
    }
  }

  lemma ConcatAssoc(a: string, b: string, d: string)
    ensures a + (b + d) == (a + b) + d
  {
  }

  /** One step of `sep.join`. */
  lemma JoinCons(p: string, more: seq<string>, sep: string)
    ensures JoinWith([p] + more, sep) == if more == [] then p else p + (sep + JoinWith(more, sep))
  {
    assert ([p] + more)[0] == p;
    assert ([p] + more)[1..] == more;
  }

  /** `s.rstrip(c)`: `s` without its trailing run of `c`. */
  function RStrip(s: string, c: char): (r: string)
    ensures |r| <= |s| && r == s[..|r|]
    ensures forall k :: |r| <= k < |s| ==> s[k] == c
    ensures |r| == 0 || r[|r| - 1] != c
  {
    if |s| > 0 && s[|s| - 1] == c then RStrip(s[..|s| - 1], c) else s
  }

  /** `s[:n]`. */
  function Take(s: string, n: nat): (r: string)
    ensures |r| == if |s| < n then |s| else n
    ensures r == s[..|r|]
  {
    if |s| <= n then s else s[..n]
  }

  /** `s.replace(c, with)` for a one-character pattern. */
  function ReplaceChar(s: string, c: char, with: string): (r: string)
    ensures c !in s ==> r == s
    ensures c !in with ==> c !in r
    ensures |with| == 6 ==> |r| == |s| + 5 * Count(s, c)
  {
    if s == [] then []
    else (if s[0] == c then with else [s[0]]) + ReplaceChar(s[1..], c, with)
  }

  /** `s.replace(c, with)` is `with.join(s.split(c))`: every occurrence of
      `c` is replaced in place by `with`, and the text between occurrences is
      kept, in order. */
  lemma {:induction false} ReplaceIsSplitJoin(s: string, c: char, with: string)
    ensures ReplaceChar(s, c, with) == JoinWith(SplitOn(s, c), with)
  {
    if s != [] {
      ReplaceIsSplitJoin(s[1..], c, with);
      if s[0] == c {
        ReplaceAtSeparator(s, c, with);
      } else {
        ReplaceInPiece(s, c, with);
      }
    }
  }

  lemma ReplaceAtSeparator(s: string, c: char, with: string)
    requires s != [] && s[0] == c
    requires ReplaceChar(s[1..], c, with) == JoinWith(SplitOn(s[1..], c), with)
    ensures ReplaceChar(s, c, with) == JoinWith(SplitOn(s, c), with)
  {
    var rest := SplitOn(s[1..], c);
    assert SplitOn(s, c) == [""] + rest;
    JoinCons("", rest, with);
  }

  lemma ReplaceInPiece(s: string, c: char, with: string)
    requires s != [] && s[0] != c
    requires ReplaceChar(s[1..], c, with) == JoinWith(SplitOn(s[1..], c), with)
    ensures ReplaceChar(s, c, with) == JoinWith(SplitOn(s, c), with)
  {
    var rest := SplitOn(s[1..], c);
    var more := rest[1..];
    var first := [s[0]] + rest[0];
    assert SplitOn(s, c) == [first] + more;
    JoinCons(first, more, with);
    assert ReplaceChar(s, c, with) == [s[0]] + JoinWith(rest, with);
    if more == [] {
      assert |rest| == 1;
    } else {
      var tail := JoinWith(more, with);
      assert JoinWith(rest, with) == rest[0] + (with + tail);
      ConcatAssoc([s[0]], rest[0], with + tail);
    }
  }

  // ---------------------------------------------------------------------------
  // Fractional-second normalisation
  // ---------------------------------------------------------------------------

  /** `f` is what the normalisation makes of the text after the dot: the
      fraction with its trailing `Z`s removed, cut to `FracWidth` characters,
      followed by one `Z`. */
  ghost predicate KeptFraction(frac: string, f: string) {
    && |f| >= 1
    && f[|f| - 1] == 'Z'
    && var kept := f[..|f| - 1];
    && |kept| <= |frac|
    && kept == frac[..|kept|]
    && |kept| == (if |RStrip(frac, 'Z')| < FracWidth then |RStrip(frac, 'Z')| else FracWidth)
  }

  /** The fractional-second normalisation: a string without a dot is left alone;
      with exactly one dot the fraction is trimmed; with two or more dots the
      two-name unpack of `split('.')` raises, modelled as `None`. */
  function NormalizeFraction(s: string): (r: Option<string>)
    ensures '.' !in s ==> r == Some(s)
    ensures Count(s, '.') >= 2 ==> r == None
    ensures Count(s, '.') == 1 ==>
      r.Some? &&
      exists i :: 0 <= i < |s| && s[i] == '.' && '.' !in s[..i] && |r.value| > i &&
        r.value[..i + 1] == s[..i + 1] && KeptFraction(s[i + 1..], r.value[i + 1..])
    ensures r.Some? ==> Count(r.value, '.') == Count(s, '.')
  {
    if '.' !in s then Some(s)
    else
      var parts := SplitOn(s, '.');
      SplitOnPieces(s, '.');
      if |parts| != 2 then None
      else
        var base := parts[0];
        var frac := Take(RStrip(parts[1], 'Z'), FracWidth) + "Z";
        var r := base + "." + frac;
        NormalizeFractionShape(s, base, parts[1], frac);
        Some(r)
  }

  lemma NormalizeFractionShape(s: string, base: string, tail: string, frac: string)
    requires SplitOn(s, '.') == [base, tail]
    requires frac == Take(RStrip(tail, 'Z'), FracWidth) + "Z"
    ensures var r := base + "." + frac;
      && |base| < |s| && s[|base|] == '.' && '.' !in s[..|base|]
      && r[..|base| + 1] == s[..|base| + 1]
      && KeptFraction(s[|base| + 1..], r[|base| + 1..])
      && Count(r, '.') == 1
  {
    SplitTwo(s, base, tail);
    KeptShape(tail, frac);
    CountOneDot(base, frac);
    var r := base + "." + frac;
    PrefixThroughDot(base, tail, frac);
  }

  /** A string that splits into two pieces is those pieces joined by the dot. */
  lemma SplitTwo(s: string, base: string, tail: string)
    requires SplitOn(s, '.') == [base, tail]
    ensures s == base + "." + tail && '.' !in base && '.' !in tail
  {
    JoinSplit(s, '.');
    SplitOnPieces(s, '.');
    assert JoinWith([base, tail], ".") == base + "." + JoinWith([tail], ".");
  }

  /** The trimmed fraction has the shape `KeptFraction` describes, and no dot. */
  lemma KeptShape(tail: string, frac: string)
    requires '.' !in tail
    requires frac == Take(RStrip(tail, 'Z'), FracWidth) + "Z"
    ensures KeptFraction(tail, frac) && '.' !in frac
  {
    var kept := Take(RStrip(tail, 'Z'), FracWidth);
    assert frac[..|frac| - 1] == kept;
    assert kept == tail[..|kept|];
    assert '.' !in kept by {
      forall k | 0 <= k < |kept| ensures kept[k] != '.' {
        assert kept[k] == tail[k];
      }
    }
  }

  lemma CountOneDot(base: string, frac: string)
    requires '.' !in base && '.' !in frac
    ensures Count(base + "." + frac, '.') == 1
  {
    CountAppend(base + ".", frac, '.');
    CountAppend(base, ".", '.');
  }

  lemma PrefixThroughDot(base: string, tail: string, frac: string)
    ensures var s := base + "." + tail; var r := base + "." + frac;
      && |base| < |s| && s[|base|] == '.' && s[..|base|] == base
      && r[..|base| + 1] == s[..|base| + 1]
      && s[|base| + 1..] == tail && r[|base| + 1..] == frac
  {
    var s := base + "." + tail;
    var r := base + "." + frac;
    assert s[..|base| + 1] == base + ".";
    assert r[..|base| + 1] == base + ".";
  }

  /** The truncation does not stop at the digits: when the fraction has six or
      more digits followed by a UTC offset, the offset is dropped and `Z` (UTC)
      is put in its place. */
  lemma OffsetAfterLongFractionIsReplaced(base: string, digits: string, offset: string)
    requires '.' !in base && '.' !in digits && '.' !in offset
    requires |digits| >= FracWidth && 'Z' !in digits
    requires |offset| > 0 && offset[|offset| - 1] != 'Z'
    ensures NormalizeFraction(base + "." + digits + offset) == Some(base + "." + digits[..FracWidth] + "Z")
  {
    var frac := digits + offset;
    ConcatAssoc(base + ".", digits, offset);
    NoDotInConcat(digits, offset);
    NormalizeOneDot(base, frac);
    LongFractionTrim(digits, offset);
    ConcatAssoc(base + ".", digits[..FracWidth], "Z");
  }

  lemma NoDotInConcat(a: string, b: string)
    requires '.' !in a && '.' !in b
    ensures '.' !in a + b
  {
    forall k | 0 <= k < |a + b| ensures (a + b)[k] != '.' {
      if k < |a| {
        assert (a + b)[k] == a[k];
      } else {
        assert (a + b)[k] == b[k - |a|];
      }
    }
  }

  /** Six or more leading digits followed by a text that does not end in `Z`
      keep exactly the first six digits. */
  lemma LongFractionTrim(digits: string, offset: string)
    requires |digits| >= FracWidth
    requires |offset| > 0 && offset[|offset| - 1] != 'Z'
    ensures Take(RStrip(digits + offset, 'Z'), FracWidth) == digits[..FracWidth]
  {
    var frac := digits + offset;
    assert frac[|frac| - 1] == offset[|offset| - 1];
    assert RStrip(frac, 'Z') == frac;
    assert frac[..FracWidth] == digits[..FracWidth];
  }

  /** With a single dot, the normalised string is the text before the dot, the
      dot, and the trimmed fraction. */
  lemma NormalizeOneDot(base: string, frac: string)
    requires '.' !in base && '.' !in frac
    ensures NormalizeFraction(base + "." + frac) == Some(base + "." + (Take(RStrip(frac, 'Z'), FracWidth) + "Z"))
  {
    SplitOnce(base, frac, '.');
    assert base + ['.'] + frac == base + "." + frac;
  }

  /** A string with one separator splits into the text before and after it. */
  lemma {:induction false} SplitOnce(before: string, after: string, c: char)
    requires c !in before && c !in after
    ensures SplitOn(before + [c] + after, c) == [before, after]
  {
    if before == [] {
      assert ([c] + after)[1..] == after;
      SplitNone(after, c);
    } else {
      assert (before + [c] + after)[1..] == before[1..] + [c] + after;
      SplitOnce(before[1..], after, c);
      assert [before[0]] + before[1..] == before;
    }
  }

  /** A string without the separator is one piece. */
  lemma {:induction false} SplitNone(s: string, c: char)
    requires c !in s
    ensures SplitOn(s, c) == [s]
  {
    if s != [] {
      SplitNone(s[1..], c);
      assert [s[0]] + s[1..] == s;
    }
  }

  // ---------------------------------------------------------------------------
  // get_session_info
  // ---------------------------------------------------------------------------

  /** The timestamp derived from a truthy timestamp field: only strings are
      accepted (any other value makes `'.' in x`, `split` or `replace` raise);
      the string is normalised, every `Z` becomes `+00:00`, and the result is
      handed to `datetime.fromisoformat`, given here as `parse`. */
  function StampOfString(raw: Json, parse: string -> Option<Stamp>): (r: Option<Stamp>)
    ensures !raw.Str? ==> r == None
    ensures raw.Str? && Count(raw.s, '.') >= 2 ==> r == None
    ensures r.Some? ==> raw.Str? && exists n :: 'Z' !in n && parse(n) == r
    ensures raw.Str? && NormalizeFraction(raw.s).Some? ==>
      r == parse(ReplaceChar(NormalizeFraction(raw.s).value, 'Z', "+00:00"))
  {
    match raw
    case Str(s) =>
      (match NormalizeFraction(s)
       case None => None
       case Some(n) => parse(ReplaceChar(n, 'Z', "+00:00")))
    case _ => None
  }

  /** `get_session_info`: the session id and timestamp of one file, or `NoInfo`
      for `(None, None)` -- a read or decode error, a document that is not an
      object, a missing id, or a timestamp that cannot be converted. */
  function GetSessionInfo(content: Content, mtime: int, parse: string -> Option<Stamp>): (r: Info)
    ensures content.Unreadable? ==> r == NoInfo
    ensures content.Parsed? && !content.doc.Obj? ==> r == NoInfo
    ensures r.Info? ==>
      && content.Parsed? && content.doc.Obj?
      && r.id == SessionIdOf(content.doc.fields) && Truthy(r.id)
    ensures content.Parsed? && content.doc.Obj? ==>
      var doc := content.doc.fields;
      && (!Truthy(SessionIdOf(doc)) ==> r == NoInfo)
      && (Truthy(SessionIdOf(doc)) && !Truthy(StampFieldOf(doc)) ==> r == Info(SessionIdOf(doc), Naive(mtime)))
      && (Truthy(SessionIdOf(doc)) && Truthy(StampFieldOf(doc)) ==>
            (r.Info? <==> StampOfString(StampFieldOf(doc), parse).Some?) &&
            (r.Info? ==> Some(r.stamp) == StampOfString(StampFieldOf(doc), parse)))
  {
    match content
    case Unreadable => NoInfo
    case Parsed(data) =>
      match data
      case Obj(doc) =>
        var id := SessionIdOf(doc);
        var raw := StampFieldOf(doc);
        if !Truthy(id) then NoInfo
        else if !Truthy(raw) then Info(id, Naive(mtime))
        else
          (match StampOfString(raw, parse)
           case None => NoInfo
           case Some(t) => Info(id, t))
      case _ => NoInfo
  }

  /** The modification time is used exactly when none of the timestamp fields
      holds a truthy value. */
  lemma MtimeFallbackExactly(doc: map<string, Json>, mtime: int, parse: string -> Option<Stamp>)
    requires Truthy(SessionIdOf(doc))
    ensures GetSessionInfo(Parsed(Obj(doc)), mtime, parse) == Info(SessionIdOf(doc), Naive(mtime))
      <== !Truthy(Get(doc, "updatedAt")) && !Truthy(Get(doc, "timestamp")) && !Truthy(Get(doc, "createdAt"))
    ensures Truthy(Get(doc, "updatedAt")) || Truthy(Get(doc, "timestamp")) || Truthy(Get(doc, "createdAt"))
      ==> forall m :: GetSessionInfo(Parsed(Obj(doc)), m, parse) == GetSessionInfo(Parsed(Obj(doc)), mtime, parse)
  {
  }
}
