/** `path/filepath.Clean` and `filepath.Join` on a Unix system, the lexical
    path arithmetic behind the profile, database and fallback-file paths. */
module Paths {
  import opened Strs

  /** A resolved element stack: no empty, "." or slash-holding elements, and
      ".." only as a leading run of a relative path (a rooted path cannot
      climb above "/"). */
  ghost predicate Resolved(stack: seq<string>, rooted: bool)
  {
    forall k :: 0 <= k < |stack| ==>
      && stack[k] != "" && stack[k] != "." && '/' !in stack[k]
      && (stack[k] == ".." ==> !rooted && forall j :: 0 <= j < k ==> stack[j] == "..")
  }

  /** Folds slash-free path elements onto a resolved stack: empty and "."
      elements vanish, ".." removes the element before it, is dropped at the
      root of a rooted path, and is kept when a relative path climbs above
      its start. */
  function Resolve(elems: seq<string>, rooted: bool, stack: seq<string>): (r: seq<string>)
    requires forall k :: 0 <= k < |elems| ==> '/' !in elems[k]
    requires Resolved(stack, rooted)
    ensures Resolved(r, rooted)
    decreases |elems|
  {
    if |elems| == 0 then stack
    else
      var e := elems[0];
      var next :=
        if e == "" || e == "." then stack
        else if e == ".." then
          if |stack| > 0 && stack[|stack| - 1] != ".." then stack[..|stack| - 1]
          else if rooted then stack
          else stack + [".."]
        else stack + [e];
      Resolve(elems[1..], rooted, next)
  }

  /** The pieces of a path cut at its slashes hold no slash. */
  lemma SlashFreePieces(p: string)
    ensures forall k :: 0 <= k < |Split(p, "/")| ==> '/' !in Split(p, "/")[k]
  {
    var parts := Split(p, "/");
    SplitPiecesSepFree(p, "/");
    forall k | 0 <= k < |parts|
      ensures '/' !in parts[k]
    {
      if '/' in parts[k] {
        var i :| 0 <= i < |parts[k]| && parts[k][i] == '/';
        assert OccursAt(parts[k], "/", i);
        OccursImpliesContains(parts[k], "/", i);
      }
    }
  }

  /** filepath.Clean: the shortest lexically equivalent path; "." stands for
      the empty relative path and "/" for the root. */
  function Clean(p: string): (r: string)
    ensures |r| > 0
    ensures HasPrefix(p, "/") ==> r[0] == '/'
  {
    var rooted := HasPrefix(p, "/");
    SlashFreePieces(p);
    var body := Join(Resolve(Split(p, "/"), rooted, []), "/");
    if rooted then "/" + body
    else if body == "" then "."
    else body
  }

  /** filepath.Join: the elements from the first non-empty one on, joined
      with "/" and cleaned; the empty string when every element is empty. */
  function JoinPath(elems: seq<string>): (r: string)
    ensures r == "" <==> forall k :: 0 <= k < |elems| ==> elems[k] == ""
  {
    if |elems| == 0 then ""
    else if elems[0] != "" then Clean(Join(elems, "/"))
    else
      assert forall k :: 1 <= k < |elems| ==> elems[k] == elems[1..][k - 1];
      JoinPath(elems[1..])
  }

  // ---------------------------------------------------------------------------
  // Paths that are already clean
  // ---------------------------------------------------------------------------

  /** An element Clean keeps as it is. */
  ghost predicate Plain(e: string)
  {
    e != "" && e != "." && e != ".." && '/' !in e
  }

  ghost predicate AllPlain(elems: seq<string>)
  {
    forall k :: 0 <= k < |elems| ==> Plain(elems[k])
  }

  /** Plain elements, possibly with empty ones (doubled slashes) among them. */
  ghost predicate PlainOrEmpty(elems: seq<string>)
  {
    forall k :: 0 <= k < |elems| ==> elems[k] == "" || Plain(elems[k])
  }

  /** The elements that are not empty. */
  function NonEmpty(elems: seq<string>): (r: seq<string>)
    ensures |r| <= |elems|
  {
    if |elems| == 0 then []
    else (if elems[0] == "" then [] else [elems[0]]) + NonEmpty(elems[1..])
  }

  lemma {:induction false} NonEmptyAppend(a: seq<string>, b: seq<string>)
    ensures NonEmpty(a + b) == NonEmpty(a) + NonEmpty(b)
    decreases |a|
  {
    if |a| == 0 {
      assert a + b == b;
    } else {
      assert (a + b)[1..] == a[1..] + b;
      NonEmptyAppend(a[1..], b);
    }
  }

  lemma {:induction false} NonEmptyOfPlain(elems: seq<string>)
    requires AllPlain(elems)
    ensures NonEmpty(elems) == elems
    decreases |elems|
  {
    if |elems| > 0 {
      NonEmptyOfPlain(elems[1..]);
    }
  }

  /** Resolving plain elements (with empty ones among them) just pushes the
      non-empty ones. */
  lemma {:induction false} ResolvePlain(elems: seq<string>, rooted: bool, stack: seq<string>)
    requires PlainOrEmpty(elems)
    requires Resolved(stack, rooted)
    ensures forall k :: 0 <= k < |elems| ==> '/' !in elems[k]
    ensures Resolve(elems, rooted, stack) == stack + NonEmpty(elems)
    decreases |elems|
  {
    if |elems| > 0 {
      var e, rest := elems[0], elems[1..];
      assert e == "" || Plain(e);
      assert PlainOrEmpty(rest) by {
        forall k | 0 <= k < |rest|
          ensures rest[k] == "" || Plain(rest[k])
        {
          assert rest[k] == elems[k + 1];
        }
      }
      var front := if e == "" then [] else [e];
      var next := stack + front;
      if e != "" {
        PushPlain(stack, rooted, e);
      } else {
        assert next == stack;
      }
      ResolvePlain(rest, rooted, next);
      assert Resolve(elems, rooted, stack) == Resolve(rest, rooted, next);
      assert NonEmpty(elems) == front + NonEmpty(rest);
      SeqAssoc(stack, front, NonEmpty(rest));
    }
  }

  /** A plain element pushed onto a resolved stack leaves it resolved. */
  lemma PushPlain(stack: seq<string>, rooted: bool, e: string)
    requires Resolved(stack, rooted) && Plain(e)
    ensures Resolved(stack + [e], rooted)
  {
    var s := stack + [e];
    forall k | 0 <= k < |s|
      ensures s[k] != "" && s[k] != "." && '/' !in s[k]
      ensures s[k] == ".." ==> !rooted && forall j :: 0 <= j < k ==> s[j] == ".."
    {
      if k < |stack| {
        assert s[k] == stack[k];
        assert forall j :: 0 <= j < k ==> s[j] == stack[j];
      } else {
        assert s[k] == e;
      }
    }
  }

  /** A rooted path of plain elements cuts into an empty piece and the
      elements. */
  lemma RootedPieces(elems: seq<string>)
    requires |elems| > 0 && PlainOrEmpty(elems)
    ensures HasPrefix("/" + Join(elems, "/"), "/")
    ensures Split("/" + Join(elems, "/"), "/") == [""] + elems
    ensures PlainOrEmpty([""] + elems)
  {
    var all := [""] + elems;
    EmptyFirst(elems);
    JoinCons("", elems, "/");
    assert Join(all, "/") == "/" + Join(elems, "/");
    JoinSplitRoundTrip(all, '/');
    var p := "/" + Join(elems, "/");
    assert p[..1] == "/";
  }

  /** An empty piece in front keeps the elements plain or empty. */
  lemma EmptyFirst(elems: seq<string>)
    requires PlainOrEmpty(elems)
    ensures PlainOrEmpty([""] + elems)
    ensures forall k :: 0 <= k < |[""] + elems| ==> '/' !in ([""] + elems)[k]
  {
    var all := [""] + elems;
    forall k | 0 <= k < |all|
      ensures all[k] == "" || Plain(all[k])
    {
      if k > 0 {
        assert all[k] == elems[k - 1];
      }
    }
  }

  /** Cleaning a rooted path made of plain elements drops its doubled
      slashes and changes nothing else. */
  lemma CleanRootedPlain(elems: seq<string>)
    requires |elems| > 0 && PlainOrEmpty(elems)
    ensures Clean("/" + Join(elems, "/")) == "/" + Join(NonEmpty(elems), "/")
  {
    var all := [""] + elems;
    RootedPieces(elems);
    ResolvePlain(all, true, []);
    assert all[1..] == elems;
    calc {
      Clean("/" + Join(elems, "/"));
      "/" + Join(Resolve(all, true, []), "/");
      "/" + Join([] + NonEmpty(all), "/");
      { assert [] + NonEmpty(all) == NonEmpty(elems); }
      "/" + Join(NonEmpty(elems), "/");
    }
  }

  /** Cleaning a relative path made of plain elements changes nothing. */
  lemma CleanRelativePlain(elems: seq<string>)
    requires |elems| > 0 && AllPlain(elems)
    ensures Clean(Join(elems, "/")) == Join(elems, "/")
  {
    var p := Join(elems, "/");
    JoinSplitRoundTrip(elems, '/');
    assert Split(p, "/") == elems;
    JoinStartsWithHead(elems, "/");
    assert p[0] == elems[0][0];
    assert !HasPrefix(p, "/");
    ResolvePlain(elems, false, []);
    NonEmptyOfPlain(elems);
    assert Resolve(Split(p, "/"), false, []) == elems;
    assert |p| > 0;
    assert Clean(p) == Join(Resolve(Split(p, "/"), false, []), "/");
  }

  /** Joining a clean absolute directory with plain names appends them with
      single slashes. */
  lemma JoinUnderHome(home: seq<string>, names: seq<string>)
    requires |home| > 0 && |names| > 0 && AllPlain(home) && AllPlain(names)
    ensures JoinPath(["/" + Join(home, "/")] + names)
         == "/" + Join(home, "/") + "/" + Join(names, "/")
  {
    var h := "/" + Join(home, "/");
    var all := home + names;
    assert AllPlain(all);
    calc {
      JoinPath([h] + names);
      Clean(Join([h] + names, "/"));
      { JoinCons(h, names, "/"); }
      Clean(h + "/" + Join(names, "/"));
      { JoinAppend(home, names, "/"); AppendAssoc3("/", Join(home, "/"), "/", Join(names, "/")); }
      Clean("/" + Join(all, "/"));
      { CleanRootedPlain(all); NonEmptyOfPlain(all); }
      "/" + Join(all, "/");
      { JoinAppend(home, names, "/"); AppendAssoc3("/", Join(home, "/"), "/", Join(names, "/")); }
      h + "/" + Join(names, "/");
    }
  }

}
