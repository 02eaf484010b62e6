/** The configuration reader: a decoded TOML document held as nested tables,
    read by dot-separated paths such as "vpn.binary_path". */
module Config {
  import opened Base
  import opened Strs
  import Strconv

  /** A decoded TOML value. `Other` stands for the kinds no getter accepts
      (arrays, date-times). */
  datatype Value =
    | Str(s: string)
    | Int(i: int)
    | Bool(b: bool)
    | Table(entries: map<string, Value>)
    | Other

  /** Follows `keys` down from `v`: every step needs a table holding the key. */
  function Walk(v: Value, keys: seq<string>): (r: Option<Value>)
    ensures |keys| == 0 ==> r == Some(v)
    ensures |keys| > 0 && !(v.Table? && keys[0] in v.entries) ==> r.None?
    decreases |keys|
  {
    if |keys| == 0 then Some(v)
    else
      match v
      case Table(m) => if keys[0] in m then Walk(m[keys[0]], keys[1..]) else None
      case _ => None
  }

  /** The reader's `get`: the path cut at every ".", walked from the root.
      A key without a dot names a top-level entry. */
  function Get(data: map<string, Value>, path: string): (r: Option<Value>)
    ensures '.' !in path ==> r == if path in data then Some(data[path]) else None
  {
    assert '.' !in path ==> Split(path, ".") == [path] by {
      if '.' !in path {
        NoCharNoContains(path, '.');
        SplitWithoutSep(path, ".");
      }
    }
    Walk(Table(data), Split(path, "."))
  }

  /** Walking a path in two legs is walking the first, then the second. */
  lemma {:induction false} WalkAppend(v: Value, a: seq<string>, b: seq<string>)
    ensures Walk(v, a + b) == match Walk(v, a) case None => None case Some(w) => Walk(w, b)
    decreases |a|
  {
    if |a| > 0 {
      assert (a + b)[0] == a[0];
      assert (a + b)[1..] == a[1..] + b;
      if v.Table? && a[0] in v.entries {
        WalkAppend(v.entries[a[0]], a[1..], b);
      }
    } else {
      assert a + b == b;
    }
  }

  /** A path "key.rest" looks `rest` up inside the table under `key`; a
      missing key or a non-table there ends the lookup. */
  lemma GetNested(data: map<string, Value>, key: string, rest: string)
    requires '.' !in key
    ensures Get(data, key + "." + rest)
         == if key in data then Walk(data[key], Split(rest, ".")) else None
  {
    SplitField(key, '.', rest);
    assert [key] + Split(rest, ".") == Split(key + "." + rest, ".");
  }

  /** GetString: the value if it is a string, otherwise "". */
  function GetString(data: map<string, Value>, path: string): (r: string)
    ensures Get(data, path).Some? && Get(data, path).value.Str? ==> r == Get(data, path).value.s
    ensures !(Get(data, path).Some? && Get(data, path).value.Str?) ==> r == ""
  {
    match Get(data, path)
    case Some(Str(s)) => s
    case _ => ""
  }

  /** GetInt: an integer as it is, a string through Atoi (whose value is 0
      on a syntax error and the clamped bound on overflow), and -1 for a
      missing key or any other kind of value. */
  function GetInt(data: map<string, Value>, path: string): (r: int)
    ensures Get(data, path).None? ==> r == -1
    ensures Get(data, path).Some? && Get(data, path).value.Int? ==> r == Get(data, path).value.i
    ensures Get(data, path).Some? && Get(data, path).value.Str? ==> r == Strconv.Atoi(Get(data, path).value.s).value
    ensures Get(data, path).Some? && !Get(data, path).value.Int? && !Get(data, path).value.Str? ==> r == -1
  {
    match Get(data, path)
    case Some(Int(i)) => i
    case Some(Str(s)) => Strconv.Atoi(s).value
    case _ => -1
  }

  /** A string that is not a number reads as 0, not as the "missing" -1. */
  lemma GetIntOfWord(data: map<string, Value>, path: string)
    requires Get(data, path) == Some(Str("abc"))
    ensures GetInt(data, path) == 0
  {
    assert Strconv.Atoi("abc").err.Some? by {
      assert !Strconv.IsDigit('a');
    }
    assert Strconv.Atoi("abc").err == Some(Strconv.SyntaxError);
  }

  /** A decimal string reads as its value. */
  lemma GetIntOfDecimal(data: map<string, Value>, path: string, d: string)
    requires |d| > 0 && Strconv.AllDigits(d) && Strconv.Decimal(d) <= Strconv.MaxInt64
    requires Get(data, path) == Some(Str(d))
    ensures GetInt(data, path) == Strconv.Decimal(d)
  {
    Strconv.AtoiAcceptsDecimal("", d);
    assert "" + d == d;
  }

  /** GetBool: the value if it is a boolean, otherwise false. */
  function GetBool(data: map<string, Value>, path: string): (r: bool)
    ensures r <==> Get(data, path) == Some(Bool(true))
  {
    match Get(data, path)
    case Some(Bool(b)) => b
    case _ => false
  }

  /** A table is never a scalar: asking any getter for a section gives its
      "absent" answer. */
  lemma SectionIsNoScalar(data: map<string, Value>, path: string)
    requires Get(data, path).Some? && Get(data, path).value.Table?
    ensures GetString(data, path) == "" && GetInt(data, path) == -1 && !GetBool(data, path)
  {
  }
}
