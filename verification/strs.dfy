/** The part of Go's `strings` package the core relies on: substring search,
    splitting on a separator (`Split`, `SplitN`, `Fields`), joining, whitespace
    trimming and `ReplaceAll`. Strings are sequences of Unicode scalar values;
    a Go string is a byte sequence, which only matters for invalid UTF-8. */
module Strs {

  // ---------------------------------------------------------------------------
  // Prefixes and substring search
  // ---------------------------------------------------------------------------

  predicate HasPrefix(s: string, prefix: string)
  {
    |prefix| <= |s| && s[..|prefix|] == prefix
  }

  /** strings.TrimPrefix: drops `prefix` once when `s` starts with it. */
  function TrimPrefix(s: string, prefix: string): (r: string)
    ensures HasPrefix(s, prefix) ==> s == prefix + r
    ensures !HasPrefix(s, prefix) ==> r == s
  {
    if HasPrefix(s, prefix) then s[|prefix|..] else s
  }

  /** `needle` sits in `hay` at offset `i`. */
  ghost predicate OccursAt(hay: string, needle: string, i: int)
  {
    0 <= i && i + |needle| <= |hay| && hay[i..i + |needle|] == needle
  }

  /** strings.Contains, written as a left-to-right scan. */
  predicate Contains(hay: string, needle: string)
    decreases |hay|
  {
    if HasPrefix(hay, needle) then true
    else if |hay| == 0 then false
    else Contains(hay[1..], needle)
  }

  lemma {:induction false} OccursImpliesContains(hay: string, needle: string, i: int)
    requires OccursAt(hay, needle, i)
    ensures Contains(hay, needle)
    decreases i
  {
    if i == 0 {
      assert HasPrefix(hay, needle);
    } else if !HasPrefix(hay, needle) {
      assert hay[1..][i - 1..i - 1 + |needle|] == hay[i..i + |needle|];
      OccursImpliesContains(hay[1..], needle, i - 1);
    }
  }

  lemma {:induction false} ContainsHasWitness(hay: string, needle: string)
    requires Contains(hay, needle)
    ensures exists i :: OccursAt(hay, needle, i)
    decreases |hay|
  {
    if HasPrefix(hay, needle) {
      assert OccursAt(hay, needle, 0);
    } else {
      ContainsHasWitness(hay[1..], needle);
      var j :| OccursAt(hay[1..], needle, j);
      assert hay[1..][j..j + |needle|] == hay[j + 1..j + 1 + |needle|];
      assert OccursAt(hay, needle, j + 1);
    }
  }

  /** The scan agrees with the textbook definition of "is a substring of". */
  lemma ContainsIffOccurs(hay: string, needle: string)
    ensures Contains(hay, needle) <==> exists i :: OccursAt(hay, needle, i)
  {
    if Contains(hay, needle) {
      ContainsHasWitness(hay, needle);
    }
    forall i | OccursAt(hay, needle, i)
      ensures Contains(hay, needle)
    {
      OccursImpliesContains(hay, needle, i);
    }
  }

  /** A string shorter than the needle cannot contain it. */
  lemma {:induction false} ContainsNeedsRoom(hay: string, needle: string)
    requires Contains(hay, needle)
    ensures |needle| <= |hay|
    decreases |hay|
  {
    if !HasPrefix(hay, needle) {
      ContainsNeedsRoom(hay[1..], needle);
    }
  }

  /** A string contains each of its infixes. */
  lemma ContainsInfix(a: string, b: string, c: string)
    ensures Contains(a + b + c, b)
  {
    assert (a + b + c)[|a|..|a| + |b|] == b;
    OccursImpliesContains(a + b + c, b, |a|);
  }

  /** Text around an occurrence does not hide it. */
  lemma ContainsWithin(a: string, s: string, c: string, needle: string)
    requires Contains(s, needle)
    ensures Contains(a + s + c, needle)
  {
    ContainsHasWitness(s, needle);
    var i :| OccursAt(s, needle, i);
    assert (a + s + c)[|a| + i..|a| + i + |needle|] == s[i..i + |needle|];
    OccursImpliesContains(a + s + c, needle, |a| + i);
  }

  // ---------------------------------------------------------------------------
  // Join, Split and SplitN
  // ---------------------------------------------------------------------------

  /** strings.Join */
  function Join(parts: seq<string>, sep: string): string
  {
    if |parts| == 0 then ""
    else if |parts| == 1 then parts[0]
    else parts[0] + sep + Join(parts[1..], sep)
  }

  /** strings.Split for a non-empty separator: the pieces between the
      leftmost non-overlapping occurrences of `sep`, always at least one. */
  function Split(s: string, sep: string): (parts: seq<string>)
    requires |sep| > 0
    ensures |parts| >= 1
    decreases |s|
  {
    if |s| < |sep| then [s]
    else if HasPrefix(s, sep) then [""] + Split(s[|sep|..], sep)
    else
      var rest := Split(s[1..], sep);
      [[s[0]] + rest[0]] + rest[1..]
  }

  /** strings.SplitN for a positive count: like Split, but stops after
      `n - 1` cuts and leaves the remainder, separators included, in the
      last piece. */
  function SplitN(s: string, sep: string, n: nat): (parts: seq<string>)
    requires |sep| > 0 && n > 0
    ensures 1 <= |parts| <= n
    decreases |s|
  {
    if n == 1 || |s| < |sep| then [s]
    else if HasPrefix(s, sep) then [""] + SplitN(s[|sep|..], sep, n - 1)
    else
      var rest := SplitN(s[1..], sep, n);
      [[s[0]] + rest[0]] + rest[1..]
  }

  /** No piece contains the separator. */
  ghost predicate SepFree(parts: seq<string>, sep: string)
  {
    forall k :: 0 <= k < |parts| ==> !Contains(parts[k], sep)
  }

  lemma JoinCons(head: string, tail: seq<string>, sep: string)
    requires |tail| >= 1
    ensures Join([head] + tail, sep) == head + sep + Join(tail, sep)
  {
    assert ([head] + tail)[1..] == tail;
  }

  lemma Join3(a: string, b: string, c: string, sep: string)
    ensures Join([a, b, c], sep) == a + sep + b + sep + c
  {
    assert Join([c], sep) == c;
    assert Join([b, c], sep) == b + sep + c by {
      assert [b, c][1..] == [c];
    }
    assert Join([a, b, c], sep) == a + sep + Join([b, c], sep) by {
      assert [a, b, c][1..] == [b, c];
    }
  }

  lemma Cons3<T>(x: T, y: T, z: T)
    ensures [x] + [y, z] == [x, y, z]
  {
  }

  lemma Cons4<T>(x: T, y: T, z: T, w: T)
    ensures [x] + [y, z, w] == [x, y, z, w]
  {
  }

  /** Concatenation regroups. */
  lemma Assoc(p: string, q: string, r: string)
    ensures p + (q + r) == p + q + r
  {
  }

  /** Re-brackets a separator-joined tail onto a head. */
  lemma AppendJoined3(h: string, sep: string, j: string, a: string, b: string, c: string)
    requires j == a + sep + b + sep + c
    ensures h + sep + j == h + sep + a + sep + b + sep + c
  {
    var hs := h + sep;
    calc {
      hs + (a + sep + b + sep + c);
      { Assoc(hs, a + sep + b + sep, c); }
      hs + (a + sep + b + sep) + c;
      { Assoc(hs, a + sep + b, sep); }
      hs + (a + sep + b) + sep + c;
      { Assoc(hs, a + sep, b); }
      hs + (a + sep) + b + sep + c;
      { Assoc(hs, a, sep); }
      hs + a + sep + b + sep + c;
    }
  }

  lemma Join4(a: string, b: string, c: string, d: string, sep: string)
    ensures Join([a, b, c, d], sep) == a + sep + b + sep + c + sep + d
  {
    Join3(b, c, d, sep);
    assert Join([a, b, c, d], sep) == a + sep + Join([b, c, d], sep) by {
      assert [a, b, c, d][1..] == [b, c, d];
    }
  }

  lemma JoinExtendHead(c: char, parts: seq<string>, sep: string)
    requires |parts| >= 1
    ensures Join([[c] + parts[0]] + parts[1..], sep) == [c] + Join(parts, sep)
  {
    var q := [[c] + parts[0]] + parts[1..];
    if |parts| > 1 {
      assert q[1..] == parts[1..];
    }
  }

  lemma JoinStartsWithHead(parts: seq<string>, sep: string)
    requires |parts| >= 1
    ensures HasPrefix(Join(parts, sep), parts[0])
  {
  }

  /** strings.Join distributes over concatenation. */
  lemma {:induction false} JoinAppend(a: seq<string>, b: seq<string>, sep: string)
    requires |a| > 0 && |b| > 0
    ensures Join(a + b, sep) == Join(a, sep) + sep + Join(b, sep)
    decreases |a|
  {
    if |a| == 1 {
      JoinCons(a[0], b, sep);
      assert [a[0]] + b == a + b;
    } else {
      JoinAppend(a[1..], b, sep);
      JoinCons(a[0], a[1..] + b, sep);
      assert [a[0]] + (a[1..] + b) == a + b;
    }
  }

  /** Every part shows up in the joined text. */
  lemma {:induction false} JoinContainsEach(parts: seq<string>, sep: string, k: nat)
    requires k < |parts|
    ensures Contains(Join(parts, sep), parts[k])
    decreases k
  {
    if |parts| == 1 {
      ContainsInfix("", parts[0], "");
      assert "" + parts[0] + "" == Join(parts, sep);
    } else if k == 0 {
      ContainsInfix("", parts[0], sep + Join(parts[1..], sep));
      assert "" + parts[0] + (sep + Join(parts[1..], sep)) == Join(parts, sep);
    } else {
      JoinContainsEach(parts[1..], sep, k - 1);
      ContainsWithin(parts[0] + sep, Join(parts[1..], sep), "", parts[k]);
      assert parts[0] + sep + Join(parts[1..], sep) + "" == Join(parts, sep);
    }
  }

  /** Joining the pieces with the separator gives back the input. */
  lemma {:induction false} SplitJoin(s: string, sep: string)
    requires |sep| > 0
    ensures Join(Split(s, sep), sep) == s
    decreases |s|
  {
    if |s| < |sep| {
    } else if HasPrefix(s, sep) {
      var rest := s[|sep|..];
      calc {
        Join(Split(s, sep), sep);
        Join([""] + Split(rest, sep), sep);
        { JoinCons("", Split(rest, sep), sep); }
        "" + sep + Join(Split(rest, sep), sep);
        { SplitJoin(rest, sep); }
        "" + sep + rest;
        { PrefixThenRest(s, sep); }
        s;
      }
    } else {
      var a := Split(s[1..], sep);
      calc {
        Join(Split(s, sep), sep);
        Join([[s[0]] + a[0]] + a[1..], sep);
        { JoinExtendHead(s[0], a, sep); }
        [s[0]] + Join(a, sep);
        { SplitJoin(s[1..], sep); }
        [s[0]] + s[1..];
        { HeadThenRest(s); }
        s;
      }
    }
  }

  lemma PrefixThenRest(s: string, sep: string)
    requires HasPrefix(s, sep)
    ensures "" + sep + s[|sep|..] == s
  {
    assert s == s[..|sep|] + s[|sep|..];
  }

  lemma HeadThenRest(s: string)
    requires |s| > 0
    ensures [s[0]] + s[1..] == s
  {
  }

  /** Contains, unrolled by one character. */
  lemma ContainsStep(x: string, sep: string)
    requires |x| > 0
    ensures Contains(x, sep) == (HasPrefix(x, sep) || Contains(x[1..], sep))
  {
  }

  /** No piece of a split contains the separator. */
  lemma {:induction false} SplitPiecesSepFree(s: string, sep: string)
    requires |sep| > 0
    ensures SepFree(Split(s, sep), sep)
    decreases |s|
  {
    var parts := Split(s, sep);
    if |s| < |sep| {
      if Contains(s, sep) {
        ContainsNeedsRoom(s, sep);
      }
    } else if HasPrefix(s, sep) {
      SplitPiecesSepFree(s[|sep|..], sep);
      assert !Contains("", sep);
      assert parts[1..] == Split(s[|sep|..], sep);
    } else {
      var rest := Split(s[1..], sep);
      SplitPiecesSepFree(s[1..], sep);
      var first := [s[0]] + rest[0];
      SplitJoin(s[1..], sep);
      JoinStartsWithHead(rest, sep);
      assert first[1..] == rest[0];
      assert HasPrefix(s, first);
      ContainsStep(first, sep);
      assert parts[0] == first;
      assert forall k :: 1 <= k < |parts| ==> parts[k] == rest[k];
    }
  }

  /** Splitting a string without the separator yields the string itself. */
  lemma {:induction false} SplitWithoutSep(s: string, sep: string)
    requires |sep| > 0 && !Contains(s, sep)
    ensures Split(s, sep) == [s]
    decreases |s|
  {
    if |s| >= |sep| {
      assert !HasPrefix(s, sep);
      SplitWithoutSep(s[1..], sep);
      assert [s[0]] + s[1..] == s;
    }
  }

  /** One field followed by a one-character separator is cut off whole. */
  lemma {:induction false} SplitField(a: string, c: char, rest: string)
    requires c !in a
    ensures Split(a + [c] + rest, [c]) == [a] + Split(rest, [c])
    decreases |a|
  {
    var s := a + [c] + rest;
    if |a| == 0 {
      assert s == [c] + rest;
      assert s[1..] == rest;
    } else {
      assert s[0] == a[0];
      assert s[1..] == a[1..] + [c] + rest;
      SplitField(a[1..], c, rest);
      assert [a[0]] + a[1..] == a;
    }
  }

  /** For a one-character separator, Split inverts Join on separator-free fields. */
  lemma {:induction false} JoinSplitRoundTrip(parts: seq<string>, c: char)
    requires |parts| >= 1
    requires forall k :: 0 <= k < |parts| ==> c !in parts[k]
    ensures Split(Join(parts, [c]), [c]) == parts
    decreases |parts|
  {
    if |parts| == 1 {
      NoCharNoContains(parts[0], c);
      SplitWithoutSep(parts[0], [c]);
    } else {
      JoinSplitRoundTrip(parts[1..], c);
      SplitField(parts[0], c, Join(parts[1..], [c]));
      assert parts[0] + [c] + Join(parts[1..], [c]) == Join(parts, [c]);
      assert [parts[0]] + parts[1..] == parts;
    }
  }

  lemma {:induction false} NoCharNoContains(s: string, c: char)
    requires c !in s
    ensures !Contains(s, [c])
    decreases |s|
  {
    if |s| > 0 {
      assert c !in s[1..] by {
        assert forall k :: 0 <= k < |s[1..]| ==> s[1..][k] == s[k + 1];
      }
      assert s[0] != c;
      NoCharNoContains(s[1..], c);
    }
  }

  /** Number of occurrences of the character `c` in `s`. */
  function Occurrences(s: string, c: char): nat
  {
    if |s| == 0 then 0
    else (if s[0] == c then 1 else 0) + Occurrences(s[1..], c)
  }

  /** Splitting on one character gives one piece more than there are
      occurrences of that character. */
  lemma {:induction false} SplitCount(s: string, c: char)
    ensures |Split(s, [c])| == Occurrences(s, c) + 1
    decreases |s|
  {
    if |s| >= 1 {
      SplitCount(s[1..], c);
      assert HasPrefix(s, [c]) <==> s[0] == c;
    }
  }

  /** Split's pieces with everything from the `n`-th on glued back together. */
  ghost function Truncated(all: seq<string>, sep: string, n: nat): seq<string>
    requires n > 0
  {
    if |all| <= n then all else all[..n - 1] + [Join(all[n - 1..], sep)]
  }

  /** SplitN is Split with everything after the (n-1)-th cut glued back. */
  lemma {:induction false} SplitNTruncatesSplit(s: string, sep: string, n: nat)
    requires |sep| > 0 && n > 0
    ensures var all := Split(s, sep);
      SplitN(s, sep, n) == if |all| <= n then all else all[..n - 1] + [Join(all[n - 1..], sep)]
    decreases |s|
  {
    var all := Split(s, sep);
    if n == 1 {
      SplitJoin(s, sep);
      assert all[0..] == all;
    } else if |s| < |sep| {
    } else if HasPrefix(s, sep) {
      SplitNTruncatesSplit(s[|sep|..], sep, n - 1);
      TruncatedCons(Split(s[|sep|..], sep), sep, n - 1);
    } else {
      SplitNTruncatesSplit(s[1..], sep, n);
      TruncatedHead(s[0], Split(s[1..], sep), sep, n);
    }
  }

  /** An empty piece in front takes one of the `n` places. */
  lemma TruncatedCons(a: seq<string>, sep: string, m: nat)
    requires m > 0
    ensures [""] + Truncated(a, sep, m) == Truncated([""] + a, sep, m + 1)
  {
    if |a| > m {
      ConsSlices("", a, m);
      SeqAssoc([""], a[..m - 1], [Join(a[m - 1..], sep)]);
    }
  }

  /** A character in front of the first piece leaves the places as they are. */
  lemma TruncatedHead(c: char, a: seq<string>, sep: string, n: nat)
    requires n > 1 && |a| > 0
    ensures var t := Truncated(a, sep, n);
      [[c] + t[0]] + t[1..] == Truncated([[c] + a[0]] + a[1..], sep, n)
  {
    if |a| > n {
      var head := [c] + a[0];
      var glued := [Join(a[n - 1..], sep)];
      var b := a[..n - 1] + glued;
      assert b[0] == a[0] && b[1..] == a[1..n - 1] + glued;
      ConsSlices(head, a[1..], n - 1);
      TailSlices(a, n - 2);
      SeqAssoc([head], a[1..n - 1], glued);
    }
  }

  lemma SeqAssoc<T>(p: seq<T>, q: seq<T>, r: seq<T>)
    ensures p + (q + r) == p + q + r
  {
  }

  /** Cutting a sequence with one element in front. */
  lemma ConsSlices<T>(x: T, t: seq<T>, i: nat)
    requires 1 <= i <= |t| + 1
    ensures ([x] + t)[..i] == [x] + t[..i - 1]
    ensures ([x] + t)[i..] == t[i - 1..]
  {
  }

  /** The last two elements of a sequence extended by two. */
  lemma LastTwo<T>(s: seq<T>, x: T, y: T)
    ensures (s + [x, y])[|s + [x, y]| - 2..] == [x, y]
  {
  }

  /** Cutting the tail of a sequence, in terms of the sequence. */
  lemma TailSlices<T>(t: seq<T>, j: nat)
    requires j < |t|
    ensures t[1..][..j] == t[1..j + 1]
    ensures t[1..][j..] == t[j + 1..]
  {
  }

  /** SplitN into `n` pieces succeeds in producing all `n` exactly when the
      separator character occurs at least `n - 1` times. */
  lemma SplitNCount(s: string, c: char, n: nat)
    requires n > 0
    ensures |SplitN(s, [c], n)| == n <==> Occurrences(s, c) >= n - 1
  {
    SplitNTruncatesSplit(s, [c], n);
    SplitCount(s, c);
  }

  /** One field followed by a one-character separator is cut off whole by SplitN. */
  lemma {:induction false} SplitNField(a: string, c: char, rest: string, n: nat)
    requires c !in a && n >= 2
    ensures SplitN(a + [c] + rest, [c], n) == [a] + SplitN(rest, [c], n - 1)
    decreases |a|
  {
    var s := a + [c] + rest;
    if |a| == 0 {
      assert s == [c] + rest;
      assert s[1..] == rest;
    } else {
      assert s[0] == a[0];
      assert s[1..] == a[1..] + [c] + rest;
      SplitNField(a[1..], c, rest, n);
      assert [a[0]] + a[1..] == a;
    }
  }

  /** Joining SplitN's pieces with the separator gives back the input. */
  lemma {:induction false} SplitNJoin(s: string, sep: string, n: nat)
    requires |sep| > 0 && n > 0
    ensures Join(SplitN(s, sep, n), sep) == s
    decreases |s|
  {
    if n == 1 || |s| < |sep| {
    } else if HasPrefix(s, sep) {
      var rest := s[|sep|..];
      calc {
        Join(SplitN(s, sep, n), sep);
        Join([""] + SplitN(rest, sep, n - 1), sep);
        { JoinCons("", SplitN(rest, sep, n - 1), sep); }
        "" + sep + Join(SplitN(rest, sep, n - 1), sep);
        { SplitNJoin(rest, sep, n - 1); }
        "" + sep + rest;
        { PrefixThenRest(s, sep); }
        s;
      }
    } else {
      var a := SplitN(s[1..], sep, n);
      calc {
        Join(SplitN(s, sep, n), sep);
        Join([[s[0]] + a[0]] + a[1..], sep);
        { JoinExtendHead(s[0], a, sep); }
        [s[0]] + Join(a, sep);
        { SplitNJoin(s[1..], sep, n); }
        [s[0]] + s[1..];
        { HeadThenRest(s); }
        s;
      }
    }
  }

  // ---------------------------------------------------------------------------
  // ReplaceAll
  // ---------------------------------------------------------------------------

  /** strings.ReplaceAll for a non-empty pattern: every leftmost
      non-overlapping occurrence of `pat` is replaced by `rep`. */
  function ReplaceAll(s: string, pat: string, rep: string): string
    requires |pat| > 0
    decreases |s|
  {
    if |s| < |pat| then s
    else if HasPrefix(s, pat) then rep + ReplaceAll(s[|pat|..], pat, rep)
    else [s[0]] + ReplaceAll(s[1..], pat, rep)
  }

  /** ReplaceAll is "split on the pattern, join with the replacement": every
      occurrence is replaced, and the untouched text between them (which holds
      no occurrence, by SplitPiecesSepFree) is kept in order. */
  lemma {:induction false} ReplaceAllIsSplitJoin(s: string, pat: string, rep: string)
    requires |pat| > 0
    ensures ReplaceAll(s, pat, rep) == Join(Split(s, pat), rep)
    decreases |s|
  {
    if |s| < |pat| {
    } else if HasPrefix(s, pat) {
      var rest := Split(s[|pat|..], pat);
      ReplaceAllIsSplitJoin(s[|pat|..], pat, rep);
      assert Split(s, pat) == [""] + rest;
      JoinCons("", rest, rep);
    } else {
      var rest := Split(s[1..], pat);
      ReplaceAllIsSplitJoin(s[1..], pat, rep);
      assert Split(s, pat) == [[s[0]] + rest[0]] + rest[1..];
      JoinExtendHead(s[0], rest, rep);
    }
  }

  /** Text without the pattern is returned unchanged. */
  lemma ReplaceAllAbsent(s: string, pat: string, rep: string)
    requires |pat| > 0 && !Contains(s, pat)
    ensures ReplaceAll(s, pat, rep) == s
  {
    ReplaceAllIsSplitJoin(s, pat, rep);
    SplitWithoutSep(s, pat);
  }

  /** An occurrence at the front is replaced and the scan resumes after it. */
  lemma ReplaceAllAtMatch(b: string, pat: string, rep: string)
    requires |pat| > 0
    ensures ReplaceAll(pat + b, pat, rep) == rep + ReplaceAll(b, pat, rep)
  {
    assert (pat + b)[|pat|..] == b;
  }

  /** Text without the pattern's first character cannot begin an occurrence,
      so it is copied through unchanged. */
  lemma {:induction false} ReplaceAllSkip(a: string, b: string, pat: string, rep: string)
    requires |pat| > 0 && pat[0] !in a
    ensures ReplaceAll(a + b, pat, rep) == a + ReplaceAll(b, pat, rep)
    decreases |a|
  {
    if |a| == 0 {
      assert a + b == b;
    } else {
      var s := a + b;
      assert s[0] == a[0];
      assert !HasPrefix(s, pat);
      assert s[1..] == a[1..] + b;
      assert pat[0] !in a[1..];
      ReplaceAllSkip(a[1..], b, pat, rep);
      assert [a[0]] + a[1..] == a;
    }
  }

  lemma AppendAssoc3(w: string, x: string, y: string, z: string)
    ensures w + (x + y + z) == (w + x) + y + z
  {
  }

  /** No occurrence can straddle a character the pattern lacks, so the
      text on either side of it is rewritten independently. */
  lemma {:induction false} ReplaceAllAcross(a: string, c: char, b: string, pat: string, rep: string)
    requires |pat| > 0 && c !in pat
    ensures ReplaceAll(a + [c] + b, pat, rep) == ReplaceAll(a, pat, rep) + [c] + ReplaceAll(b, pat, rep)
    decreases |a|
  {
    var s := a + [c] + b;
    assert s[|a|] == c;
    if |s| < |pat| {
      assert ReplaceAll(a, pat, rep) == a;
      assert ReplaceAll(b, pat, rep) == b;
    } else if |a| == 0 {
      assert s == [c] + b && s[1..] == b;
      assert s[..|pat|][0] == c;
      assert !HasPrefix(s, pat);
      assert ReplaceAll(s, pat, rep) == [c] + ReplaceAll(b, pat, rep);
      assert ReplaceAll(a, pat, rep) == [];
    } else if HasPrefix(s, pat) {
      assert forall i :: 0 <= i < |pat| ==> s[i] == pat[i];
      assert |a| >= |pat|;
      var a' := a[|pat|..];
      assert a[..|pat|] == s[..|pat|];
      assert s[|pat|..] == a' + [c] + b;
      ReplaceAllAcross(a', c, b, pat, rep);
      assert ReplaceAll(s, pat, rep) == rep + ReplaceAll(a' + [c] + b, pat, rep);
      assert ReplaceAll(a, pat, rep) == rep + ReplaceAll(a', pat, rep);
      AppendAssoc3(rep, ReplaceAll(a', pat, rep), [c], ReplaceAll(b, pat, rep));
    } else {
      var a' := a[1..];
      assert s[0] == a[0];
      assert s[1..] == a' + [c] + b;
      ReplaceAllAcross(a', c, b, pat, rep);
      assert ReplaceAll(s, pat, rep) == [a[0]] + ReplaceAll(a' + [c] + b, pat, rep);
      if |a| < |pat| {
        assert ReplaceAll(a', pat, rep) == a';
        assert [a[0]] + a' == a;
      } else {
        assert a[..|pat|] == s[..|pat|];
        assert ReplaceAll(a, pat, rep) == [a[0]] + ReplaceAll(a', pat, rep);
      }
      AppendAssoc3([a[0]], ReplaceAll(a', pat, rep), [c], ReplaceAll(b, pat, rep));
    }
  }

  // ---------------------------------------------------------------------------
  // Whitespace: TrimSpace and Fields
  // ---------------------------------------------------------------------------

  /** unicode.IsSpace: the Latin-1 white space characters and the Unicode
      White_Space property beyond Latin-1. */
  predicate IsSpace(c: char)
  {
    || c == '\t' || c == '\n' || c == '\U{000B}' || c == '\U{000C}' || c == '\r'
    || c == ' ' || c == '\U{0085}' || c == '\U{00A0}'
    || c == '\U{1680}' || ('\U{2000}' <= c <= '\U{200A}')
    || c == '\U{2028}' || c == '\U{2029}' || c == '\U{202F}' || c == '\U{205F}'
    || c == '\U{3000}'
  }

  ghost predicate AllSpace(s: string)
  {
    forall k :: 0 <= k < |s| ==> IsSpace(s[k])
  }

  ghost predicate NoSpace(s: string)
  {
    forall k :: 0 <= k < |s| ==> !IsSpace(s[k])
  }

  function TrimLeft(s: string): (r: string)
    ensures |r| <= |s| && r == s[|s| - |r|..]
    ensures AllSpace(s[..|s| - |r|])
    ensures |r| > 0 ==> !IsSpace(r[0])
    decreases |s|
  {
    if |s| > 0 && IsSpace(s[0]) then
      var r := TrimLeft(s[1..]);
      assert AllSpace(s[..|s| - |r|]) by {
        var cut := s[1..][..|s| - 1 - |r|];
        var pre := s[..|s| - |r|];
        assert AllSpace(cut);
        forall k | 0 <= k < |pre|
          ensures IsSpace(pre[k])
        {
          if k > 0 {
            assert pre[k] == cut[k - 1];
          }
        }
      }
      r
    else s
  }

  function TrimRight(s: string): (r: string)
    ensures |r| <= |s| && r == s[..|r|]
    ensures AllSpace(s[|r|..])
    ensures |r| > 0 ==> !IsSpace(r[|r| - 1])
    decreases |s|
  {
    if |s| > 0 && IsSpace(s[|s| - 1]) then
      var r := TrimRight(s[..|s| - 1]);
      assert AllSpace(s[|r|..]) by {
        var cut := s[..|s| - 1][|r|..];
        var post := s[|r|..];
        assert AllSpace(cut);
        forall k | 0 <= k < |post|
          ensures IsSpace(post[k])
        {
          if k < |cut| {
            assert post[k] == cut[k];
          }
        }
      }
      r
    else s
  }

  /** `r` is `s` with the white space `s[..i]` and `s[i + |r|..]` cut off. */
  ghost predicate TrimmedAt(s: string, r: string, i: int)
  {
    0 <= i && i + |r| <= |s| && r == s[i..i + |r|]
    && AllSpace(s[..i]) && AllSpace(s[i + |r|..])
  }

  /** strings.TrimSpace: the slice of `s` left after removing leading and
      trailing white space. */
  function TrimSpace(s: string): (r: string)
    ensures exists i :: TrimmedAt(s, r, i)
    ensures |r| > 0 ==> !IsSpace(r[0]) && !IsSpace(r[|r| - 1])
  {
    var l := TrimLeft(s);
    var r := TrimRight(l);
    TrimmedAtCut(s, l, r);
    r
  }

  /** Cutting white space off the front, then off the back. */
  lemma TrimmedAtCut(s: string, l: string, r: string)
    requires |l| <= |s| && l == s[|s| - |l|..] && AllSpace(s[..|s| - |l|])
    requires |r| <= |l| && r == l[..|r|] && AllSpace(l[|r|..])
    requires |l| > 0 ==> !IsSpace(l[0])
    ensures TrimmedAt(s, r, |s| - |l|)
    ensures |r| > 0 ==> !IsSpace(r[0])
  {
    var i := |s| - |l|;
    assert r == s[i..i + |r|];
    assert s[i + |r|..] == l[|r|..];
  }

  /** A string with nothing to trim is its own TrimSpace. */
  lemma TrimSpaceKeepsTrimmed(s: string)
    requires |s| > 0 ==> !IsSpace(s[0]) && !IsSpace(s[|s| - 1])
    ensures TrimSpace(s) == s
  {
  }

  /** TrimSpace is idempotent. */
  lemma TrimSpaceIdempotent(s: string)
    ensures TrimSpace(TrimSpace(s)) == TrimSpace(s)
  {
    TrimSpaceKeepsTrimmed(TrimSpace(s));
  }

  /** Length of the run of non-space characters that starts `s`. */
  function WordLen(s: string): (n: nat)
    requires |s| > 0 && !IsSpace(s[0])
    ensures 1 <= n <= |s| && NoSpace(s[..n])
    ensures n == |s| || IsSpace(s[n])
    decreases |s|
  {
    if |s| == 1 || IsSpace(s[1]) then 1 else 1 + WordLen(s[1..])
  }

  /** strings.Fields: the maximal runs of non-space characters, in order. */
  function Fields(s: string): (fs: seq<string>)
    ensures forall k :: 0 <= k < |fs| ==> |fs[k]| > 0 && NoSpace(fs[k])
    decreases |s|
  {
    if |s| == 0 then []
    else if IsSpace(s[0]) then Fields(s[1..])
    else
      var n := WordLen(s);
      [s[..n]] + Fields(s[n..])
  }

  lemma {:induction false} WordLenOfWord(w: string, t: string)
    requires |w| > 0 && NoSpace(w)
    requires |t| == 0 || IsSpace(t[0])
    ensures WordLen(w + t) == |w|
    decreases |w|
  {
    var s := w + t;
    if |w| > 1 {
      assert s[1] == w[1];
      assert s[1..] == w[1..] + t;
      WordLenOfWord(w[1..], t);
    }
  }

  /** Fields recovers space-separated words. */
  lemma {:induction false} FieldsOfJoin(ws: seq<string>)
    requires forall k :: 0 <= k < |ws| ==> |ws[k]| > 0 && NoSpace(ws[k])
    ensures Fields(Join(ws, " ")) == ws
    decreases |ws|
  {
    if |ws| == 1 {
      WordLenOfWord(ws[0], "");
      assert ws[0] + "" == ws[0];
      assert ws[0][..|ws[0]|] == ws[0];
    } else if |ws| > 1 {
      var tail := Join(ws[1..], " ");
      var s := ws[0] + " " + tail;
      assert s == ws[0] + (" " + tail);
      WordLenOfWord(ws[0], " " + tail);
      assert s[..|ws[0]|] == ws[0];
      assert s[|ws[0]|..] == " " + tail;
      assert (" " + tail)[1..] == tail;
      FieldsOfJoin(ws[1..]);
      assert [ws[0]] + ws[1..] == ws;
    }
  }
}
