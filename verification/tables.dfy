/** A database table as the sequence of its rows, in the order the database
    hands them back, with `key` extracting each row's primary key. These are
    the primary-key operations every JPA repository of the system inherits:
    `save` (insert or overwrite by key), `findById`, `existsById` and
    `deleteById`. */
module Tables {
  import opened Wrappers

  /** No two rows share a primary key. */
  predicate UniqueKeys<R, K(==)>(rows: seq<R>, key: R -> K)
  {
    forall i, j | 0 <= i < j < |rows| :: key(rows[i]) != key(rows[j])
  }

  function Keys<R, K>(rows: seq<R>, key: R -> K): set<K>
  {
    set i | 0 <= i < |rows| :: key(rows[i])
  }

  /** `findById`: the row stored under `k`, or `None`. */
  function Find<R, K(==)>(rows: seq<R>, key: R -> K, k: K): (r: Option<R>)
    ensures r.Some? <==> k in Keys(rows, key)
    ensures r.Some? ==> r.value in rows && key(r.value) == k
    ensures UniqueKeys(rows, key) ==>
              forall i | 0 <= i < |rows| && key(rows[i]) == k :: r == Some(rows[i])
  {
    if rows == [] then None
    else if key(rows[0]) == k then Some(rows[0])
    else
      var r := Find(rows[1..], key, k);
      assert Keys(rows, key) == {key(rows[0])} + Keys(rows[1..], key) by {
        forall x | x in Keys(rows, key) ensures x in {key(rows[0])} + Keys(rows[1..], key) {
          var i :| 0 <= i < |rows| && key(rows[i]) == x;
          if i > 0 { assert key(rows[1..][i - 1]) == x; }
        }
      }
      r
  }

  /** `save`: overwrites the row with the same key in place, or appends a new
      row when the key is new. */
  function Upsert<R, K(==,!new)>(rows: seq<R>, key: R -> K, row: R): (r: seq<R>)
    ensures Keys(r, key) == Keys(rows, key) + {key(row)}
    ensures key(row) !in Keys(rows, key) ==> r == rows + [row]
    ensures key(row) in Keys(rows, key) ==> |r| == |rows|
    ensures UniqueKeys(rows, key) ==> UniqueKeys(r, key)
    ensures forall i | 0 <= i < |r| :: r[i] == row || r[i] in rows
  {
    if rows == [] then
      assert key([row][0]) == key(row);
      [row]
    else if key(rows[0]) == key(row) then
      var r := [row] + rows[1..];
      assert Keys(r, key) == Keys(rows, key) by {
        KeysCons(rows[0], rows[1..], key);
        KeysCons(row, rows[1..], key);
        assert rows == [rows[0]] + rows[1..];
      }
      assert r[1..] == rows[1..];
      r
    else
      var rest := Upsert(rows[1..], key, row);
      var r := [rows[0]] + rest;
      KeysCons(rows[0], rows[1..], key);
      KeysCons(rows[0], rest, key);
      assert rows == [rows[0]] + rows[1..];
      assert r[1..] == rest;
      assert key(row) !in Keys(rows, key) ==> r == rows + [row] by {
        if key(row) !in Keys(rows, key) {
          assert rest == rows[1..] + [row];
        }
      }
      r
  }

  /** After `save`, the saved row is found under its key and every other key
      finds what it found before. */
  lemma {:induction false} FindAfterUpsert<R, K(!new)>(rows: seq<R>, key: R -> K, row: R, k: K)
    ensures Find(Upsert(rows, key, row), key, k) == if k == key(row) then Some(row) else Find(rows, key, k)
  {
    if rows != [] && key(rows[0]) != key(row) {
      FindAfterUpsert(rows[1..], key, row, k);
      assert Upsert(rows, key, row)[1..] == Upsert(rows[1..], key, row);
    } else if rows != [] {
      assert Upsert(rows, key, row)[1..] == rows[1..];
    }
  }

  /** `deleteById`: drops the row under `k`; a missing key is not an error. */
  function Delete<R, K(==,!new)>(rows: seq<R>, key: R -> K, k: K): (r: seq<R>)
    ensures Keys(r, key) == Keys(rows, key) - {k}
    ensures Find(r, key, k) == None
    ensures forall k' | k' != k :: Find(r, key, k') == Find(rows, key, k')
    ensures UniqueKeys(rows, key) ==> UniqueKeys(r, key)
    ensures forall i | 0 <= i < |r| :: r[i] in rows
    ensures k !in Keys(rows, key) ==> r == rows
  {
    if rows == [] then []
    else
      var rest := Delete(rows[1..], key, k);
      var r := if key(rows[0]) == k then rest else [rows[0]] + rest;
      KeysCons(rows[0], rows[1..], key);
      assert rows == [rows[0]] + rows[1..];
      DeleteStepKeys(rows, key, k, rest);
      DeleteStepFind(rows, key, k, rest);
      DeleteStepUnique(rows, key, k, rest);
      r
  }

  /** One step of `Delete`: its keys and where its rows come from. */
  lemma DeleteStepKeys<R, K(!new)>(rows: seq<R>, key: R -> K, k: K, rest: seq<R>)
    requires rows != []
    requires Keys(rest, key) == Keys(rows[1..], key) - {k}
    requires forall i | 0 <= i < |rest| :: rest[i] in rows[1..]
    requires k !in Keys(rows[1..], key) ==> rest == rows[1..]
    ensures var r := if key(rows[0]) == k then rest else [rows[0]] + rest;
            && Keys(r, key) == Keys(rows, key) - {k}
            && (forall i | 0 <= i < |r| :: r[i] in rows)
            && (k !in Keys(rows, key) ==> r == rows)
  {
    KeysCons(rows[0], rows[1..], key);
    KeysCons(rows[0], rest, key);
    assert rows == [rows[0]] + rows[1..];
    var r := if key(rows[0]) == k then rest else [rows[0]] + rest;
    forall i | 0 <= i < |r| ensures r[i] in rows {
      if key(rows[0]) != k && i > 0 {
        assert r[i] == rest[i - 1];
      }
    }
  }

  /** One step of `Delete`: what `findById` sees afterwards. */
  lemma DeleteStepFind<R, K(!new)>(rows: seq<R>, key: R -> K, k: K, rest: seq<R>)
    requires rows != []
    requires Find(rest, key, k) == None
    requires forall k' | k' != k :: Find(rest, key, k') == Find(rows[1..], key, k')
    ensures var r := if key(rows[0]) == k then rest else [rows[0]] + rest;
            && Find(r, key, k) == None
            && forall k' | k' != k :: Find(r, key, k') == Find(rows, key, k')
  {
    if key(rows[0]) != k {
      var r := [rows[0]] + rest;
      assert r[1..] == rest;
    }
  }

  /** One step of `Delete`: the primary key stays unique. */
  lemma DeleteStepUnique<R, K(!new)>(rows: seq<R>, key: R -> K, k: K, rest: seq<R>)
    requires rows != []
    requires Keys(rest, key) == Keys(rows[1..], key) - {k}
    requires UniqueKeys(rows[1..], key) ==> UniqueKeys(rest, key)
    ensures UniqueKeys(rows, key) ==>
              UniqueKeys(if key(rows[0]) == k then rest else [rows[0]] + rest, key)
  {
    if UniqueKeys(rows, key) {
      assert UniqueKeys(rows[1..], key) by {
        forall i, j | 0 <= i < j < |rows[1..]| ensures key(rows[1..][i]) != key(rows[1..][j]) {
          assert rows[1..][i] == rows[i + 1] && rows[1..][j] == rows[j + 1];
        }
      }
      if key(rows[0]) != k {
        var r := [rows[0]] + rest;
        forall j | 0 <= j < |rows[1..]| ensures key(rows[1..][j]) != key(rows[0]) {
          assert rows[1..][j] == rows[j + 1];
        }
        forall i, j | 0 <= i < j < |r| ensures key(r[i]) != key(r[j]) {
          assert r[j] == rest[j - 1];
          assert key(rest[j - 1]) in Keys(rest, key);
          if i > 0 {
            assert r[i] == rest[i - 1];
          }
        }
      }
    }
  }

  /** A second key (a unique column other than the primary key) stays unique
      under `save` when no row under another primary key already holds the
      saved row's value for it. */
  lemma {:induction false} UpsertKeepsUnique<R, K(!new), N>(rows: seq<R>, key: R -> K, name: R -> N, row: R)
    requires UniqueKeys(rows, key) && UniqueKeys(rows, name)
    requires forall i | 0 <= i < |rows| && name(rows[i]) == name(row) :: key(rows[i]) == key(row)
    ensures UniqueKeys(Upsert(rows, key, row), name)
  {
    var r := Upsert(rows, key, row);
    if rows == [] {
    } else if key(rows[0]) == key(row) {
      forall i, j | 0 <= i < j < |r| ensures name(r[i]) != name(r[j]) {
        assert r[j] == rows[j];
      }
    } else {
      UpsertKeepsUnique(rows[1..], key, name, row);
      var rest := Upsert(rows[1..], key, row);
      assert r == [rows[0]] + rest;
      forall j | 0 < j < |r| ensures name(r[0]) != name(r[j]) {
        assert r[j] == rest[j - 1];
        if rest[j - 1] != row {
          var k :| 0 <= k < |rows[1..]| && rows[1..][k] == rest[j - 1];
          assert rows[k + 1] == r[j];
        }
      }
    }
  }

  /** Every value another column takes after `save` is the saved row's or
      was already there. */
  lemma UpsertColumnValues<R, K(!new), N>(rows: seq<R>, key: R -> K, name: R -> N, row: R)
    ensures Keys(Upsert(rows, key, row), name) <= Keys(rows, name) + {name(row)}
  {
    var r := Upsert(rows, key, row);
    forall n | n in Keys(r, name) ensures n in Keys(rows, name) + {name(row)} {
      var i :| 0 <= i < |r| && name(r[i]) == n;
      if r[i] != row {
        var j :| 0 <= j < |rows| && rows[j] == r[i];
        assert name(rows[j]) == n;
      }
    }
  }

  /** Any unique column stays unique under `deleteById`. */
  lemma {:induction false} DeleteKeepsUnique<R, K(!new), N>(rows: seq<R>, key: R -> K, name: R -> N, k: K)
    requires UniqueKeys(rows, name)
    ensures UniqueKeys(Delete(rows, key, k), name)
  {
    if rows != [] {
      assert UniqueKeys(rows[1..], name) by {
        forall i, j | 0 <= i < j < |rows[1..]| ensures name(rows[1..][i]) != name(rows[1..][j]) {
          assert rows[1..][i] == rows[i + 1] && rows[1..][j] == rows[j + 1];
        }
      }
      DeleteKeepsUnique(rows[1..], key, name, k);
      var rest := Delete(rows[1..], key, k);
      assert Delete(rows, key, k) == if key(rows[0]) == k then rest else [rows[0]] + rest;
      if key(rows[0]) != k {
        var r := [rows[0]] + rest;
        forall i, j | 0 <= i < j < |r| ensures name(r[i]) != name(r[j]) {
          assert r[j] == rest[j - 1];
          if i == 0 {
            var m :| 0 <= m < |rows[1..]| && rows[1..][m] == rest[j - 1];
            assert rows[m + 1] == r[j];
          } else {
            assert r[i] == rest[i - 1];
          }
        }
      }
    }
  }

  lemma KeysCons<R, K>(h: R, t: seq<R>, key: R -> K)
    ensures Keys([h] + t, key) == {key(h)} + Keys(t, key)
  {
    var s := [h] + t;
    forall x | x in Keys(s, key) ensures x in {key(h)} + Keys(t, key) {
      var i :| 0 <= i < |s| && key(s[i]) == x;
      if i > 0 { assert key(t[i - 1]) == x; }
    }
    forall x | x in Keys(t, key) ensures x in Keys(s, key) {
      var i :| 0 <= i < |t| && key(t[i]) == x;
      assert key(s[i + 1]) == x;
    }
    assert key(s[0]) == key(h);
  }

  /** Every row passed through a conversion that succeeds on each of them,
      in row order: what `map { it.toDomain() }` makes of a query result. */
  function ConvertAll<R, T, E>(rows: seq<R>, convert: R -> Result<T, E>): (out: seq<T>)
    requires forall i | 0 <= i < |rows| :: convert(rows[i]).Ok?
    ensures |out| == |rows|
    ensures forall i | 0 <= i < |rows| :: convert(rows[i]) == Ok(out[i])
  {
    if rows == [] then [] else [convert(rows[0]).value] + ConvertAll(rows[1..], convert)
  }
}
