/** A database table with a unique text key, as the stores use it: rows in
    insertion order, an upsert on the key, a lookup by key, and the row
    with the greatest value in the column a query orders by. */
module Tables {
  import opened Base

  /** One row: the unique key, the rest of the row, and the value of the
      column the table is ordered by. */
  datatype Row<V> = Row(key: string, value: V, stamp: int)

  ghost predicate UniqueKeys<V>(t: seq<Row<V>>)
  {
    forall i, j :: 0 <= i < j < |t| ==> t[i].key != t[j].key
  }

  ghost predicate HasKey<V>(t: seq<Row<V>>, key: string)
  {
    exists k :: 0 <= k < |t| && t[k].key == key
  }

  /** `SELECT … WHERE key = ?`: the row with the key, if any. */
  function Find<V>(t: seq<Row<V>>, key: string): (r: Option<Row<V>>)
    ensures r.None? <==> !HasKey(t, key)
    ensures r.Some? ==> r.value.key == key && r.value in t
  {
    if |t| == 0 then None
    else if t[0].key == key then Some(t[0])
    else
      assert forall k :: 1 <= k < |t| ==> t[k] == t[1..][k - 1];
      Find(t[1..], key)
  }

  /** The row with a key, when keys are unique, is the one Find returns. */
  lemma FindUnique<V>(t: seq<Row<V>>, k: int)
    requires UniqueKeys(t) && 0 <= k < |t|
    ensures Find(t, t[k].key) == Some(t[k])
  {
    var r := Find(t, t[k].key).value;
    var j :| 0 <= j < |t| && t[j] == r;
    assert j == k;
  }

  /** Every row with the key rewritten to hold `value` and `stamp`. */
  function Rewrite<V>(t: seq<Row<V>>, key: string, value: V, stamp: int): (u: seq<Row<V>>)
    ensures |u| == |t|
    ensures forall k :: 0 <= k < |t| ==> u[k] == (if t[k].key == key then Row(key, value, stamp) else t[k])
  {
    if |t| == 0 then []
    else [if t[0].key == key then Row(key, value, stamp) else t[0]] + Rewrite(t[1..], key, value, stamp)
  }

  /** `INSERT … ON CONFLICT(key) DO UPDATE`: an existing row with the key
      takes the new value and stamp where it stands; otherwise a row is
      appended. */
  function Upsert<V>(t: seq<Row<V>>, key: string, value: V, stamp: int): (u: seq<Row<V>>)
    ensures |u| == if HasKey(t, key) then |t| else |t| + 1
    ensures UniqueKeys(t) ==> UniqueKeys(u)
    ensures Find(u, key) == Some(Row(key, value, stamp))
    ensures forall other :: other != key ==> Find(u, other) == Find(t, other)
  {
    if Find(t, key).Some? then
      var u := Rewrite(t, key, value, stamp);
      FindRewritten(t, key, value, stamp);
      u
    else
      var u := t + [Row(key, value, stamp)];
      FindAppended(t, Row(key, value, stamp));
      u
  }

  lemma FindRewritten<V>(t: seq<Row<V>>, key: string, value: V, stamp: int)
    requires HasKey(t, key)
    ensures Find(Rewrite(t, key, value, stamp), key) == Some(Row(key, value, stamp))
    ensures forall other :: other != key ==> Find(Rewrite(t, key, value, stamp), other) == Find(t, other)
  {
    FindRewrittenKey(t, key, value, stamp);
    forall other | other != key
      ensures Find(Rewrite(t, key, value, stamp), other) == Find(t, other)
    {
      FindRewrittenOthers(t, key, value, stamp, other);
    }
  }

  lemma {:induction false} FindRewrittenKey<V>(t: seq<Row<V>>, key: string, value: V, stamp: int)
    requires HasKey(t, key)
    ensures Find(Rewrite(t, key, value, stamp), key) == Some(Row(key, value, stamp))
  {
    var u := Rewrite(t, key, value, stamp);
    if t[0].key != key {
      assert HasKey(t[1..], key) by {
        var k :| 0 <= k < |t| && t[k].key == key;
        assert t[1..][k - 1].key == key;
      }
      FindRewrittenKey(t[1..], key, value, stamp);
      assert u[1..] == Rewrite(t[1..], key, value, stamp);
    }
  }

  lemma {:induction false} FindRewrittenOthers<V>(t: seq<Row<V>>, key: string, value: V, stamp: int, other: string)
    requires other != key
    ensures Find(Rewrite(t, key, value, stamp), other) == Find(t, other)
  {
    if |t| > 0 {
      var u := Rewrite(t, key, value, stamp);
      assert u[1..] == Rewrite(t[1..], key, value, stamp);
      FindRewrittenOthers(t[1..], key, value, stamp, other);
    }
  }

  lemma {:induction false} FindAppended<V>(t: seq<Row<V>>, row: Row<V>)
    requires !HasKey(t, row.key)
    ensures Find(t + [row], row.key) == Some(row)
    ensures forall other :: other != row.key ==> Find(t + [row], other) == Find(t, other)
  {
    if |t| > 0 {
      assert (t + [row])[1..] == t[1..] + [row];
      assert !HasKey(t[1..], row.key) by {
        forall k | 0 <= k < |t[1..]|
          ensures t[1..][k].key != row.key
        {
          assert t[1..][k] == t[k + 1];
        }
      }
      FindAppended(t[1..], row);
    } else {
      assert t + [row] == [row];
    }
  }

  /** `ORDER BY stamp DESC LIMIT 1`: a row with the greatest stamp, the
      earliest such row when several share it; none for an empty table. */
  function Latest<V>(t: seq<Row<V>>): (r: Option<Row<V>>)
    ensures r.None? <==> |t| == 0
    ensures r.Some? ==> r.value in t && forall k :: 0 <= k < |t| ==> t[k].stamp <= r.value.stamp
  {
    if |t| == 0 then None
    else
      assert forall k :: 1 <= k < |t| ==> t[k] == t[1..][k - 1];
      match Latest(t[1..])
      case None => Some(t[0])
      case Some(best) => if t[0].stamp >= best.stamp then Some(t[0]) else Some(best)
  }

  /** A row stamped later than every other becomes the latest. */
  lemma LatestAfterUpsert<V>(t: seq<Row<V>>, key: string, value: V, stamp: int)
    requires forall k :: 0 <= k < |t| && t[k].key != key ==> t[k].stamp < stamp
    ensures Latest(Upsert(t, key, value, stamp)) == Some(Row(key, value, stamp))
  {
    var u := Upsert(t, key, value, stamp);
    var r := Latest(u).value;
    assert Row(key, value, stamp) in u;
    var j :| 0 <= j < |u| && u[j] == r;
    if HasKey(t, key) {
      assert u == Rewrite(t, key, value, stamp);
    } else {
      assert u == t + [Row(key, value, stamp)];
    }
  }

  /** Writing the same row again changes nothing. */
  lemma UpsertIdempotent<V>(t: seq<Row<V>>, key: string, value: V, stamp: int)
    ensures Upsert(Upsert(t, key, value, stamp), key, value, stamp) == Upsert(t, key, value, stamp)
  {
    var u := Upsert(t, key, value, stamp);
    assert HasKey(u, key) by {
      assert Row(key, value, stamp) in u;
    }
    var w := Rewrite(u, key, value, stamp);
    assert w == u by {
      forall k | 0 <= k < |u| && u[k].key == key
        ensures u[k] == Row(key, value, stamp)
      {
        if HasKey(t, key) {
          assert u == Rewrite(t, key, value, stamp);
        } else {
          assert u == t + [Row(key, value, stamp)];
        }
      }
    }
  }
}
