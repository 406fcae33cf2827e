/** A table as a sequence of rows in storage (rowid) order, and what the
    statements `SELECT … WHERE id = ?`, `UPDATE … WHERE id = ?` and
    `DELETE … WHERE id = ?` do to it. Every table of the schema has an
    `INTEGER PRIMARY KEY AUTOINCREMENT` id; `key` reads it from a row. */
module Tables {

  /** Some row has primary key `id`. */
  predicate HasKey<R(==,!new)>(rows: seq<R>, key: R -> int, id: int) {
    exists x :: x in rows && key(x) == id
  }

  /** Keys strictly ascend in storage order, hence are pairwise distinct. */
  predicate Ascending<R(==,!new)>(rows: seq<R>, key: R -> int) {
    forall i, j :: 0 <= i < j < |rows| ==> key(rows[i]) < key(rows[j])
  }

  /** The invariant AUTOINCREMENT keeps: keys ascend and lie in 1..last,
      where `last` is the largest key ever issued for the table. */
  predicate Keyed<R(==,!new)>(rows: seq<R>, key: R -> int, last: int) {
    Ascending(rows, key) && forall x :: x in rows ==> 1 <= key(x) <= last
  }

  /** The rows `WHERE id = ?` selects, in storage order. */
  function WithKey<R(==,!new)>(rows: seq<R>, key: R -> int, id: int): (r: seq<R>)
    ensures forall x :: x in r <==> x in rows && key(x) == id
    ensures |r| <= |rows|
  {
    if rows == [] then []
    else (if key(rows[0]) == id then [rows[0]] else []) + WithKey(rows[1..], key, id)
  }

  /** The rows that survive `DELETE … WHERE id = ?`, in storage order. */
  function WithoutKey<R(==,!new)>(rows: seq<R>, key: R -> int, id: int): (r: seq<R>)
    ensures forall x :: x in r <==> x in rows && key(x) != id
    ensures |r| <= |rows|
  {
    if rows == [] then []
    else (if key(rows[0]) != id then [rows[0]] else []) + WithoutKey(rows[1..], key, id)
  }

  /** What `QueryRow(id).Scan` reads: the row with key `id`, or `zero`
      when `sql.ErrNoRows` is reported. */
  function Lookup<R(==,!new)>(rows: seq<R>, key: R -> int, id: int, zero: R): (r: R)
    ensures HasKey(rows, key, id) ==> r in rows && key(r) == id
    ensures !HasKey(rows, key, id) ==> r == zero
  {
    var s := WithKey(rows, key, id);
    if s == [] then zero
    else
      var r := s[0];
      assert r in s;
      r
  }

  /** The table after `UPDATE … SET … WHERE id = ?`: every row with key `id`
      becomes `row`, every other row stays where and what it was. */
  function Overwrite<R(==,!new)>(rows: seq<R>, key: R -> int, id: int, row: R): (r: seq<R>)
    ensures |r| == |rows|
    ensures forall x :: x in r ==> x == row || (x in rows && key(x) != id)
    ensures forall x :: x in rows && key(x) != id ==> x in r
    ensures HasKey(rows, key, id) ==> row in r
  {
    var r := seq(|rows|, i requires 0 <= i < |rows| => if key(rows[i]) == id then row else rows[i]);
    assert forall x :: x in rows && key(x) != id ==> x in r by {
      forall x | x in rows && key(x) != id ensures x in r {
        var i :| 0 <= i < |rows| && rows[i] == x;
        assert r[i] == x;
      }
    }
    assert HasKey(rows, key, id) ==> row in r by {
      if HasKey(rows, key, id) {
        var x :| x in rows && key(x) == id;
        var i :| 0 <= i < |rows| && rows[i] == x;
        assert r[i] == row;
      }
    }
    r
  }

  // ---------------------------------------------------------------------------
  // Facts about keys

  /** Ascending keys identify rows: two rows with the same key are the same row. */
  lemma AscendingKeyUnique<R(!new)>(rows: seq<R>, key: R -> int, x: R, y: R)
    requires Ascending(rows, key)
    requires x in rows && y in rows && key(x) == key(y)
    ensures x == y
  {
  }

  /** Prepending a row whose key is below every other key keeps keys ascending. */
  lemma AscendingCons<R(!new)>(h: R, t: seq<R>, key: R -> int)
    requires Ascending(t, key)
    requires forall x :: x in t ==> key(h) < key(x)
    ensures Ascending([h] + t, key)
  {
  }

  /** A key no row has selects nothing. */
  lemma {:induction false} NoKeyNoRows<R(!new)>(rows: seq<R>, key: R -> int, id: int)
    requires !HasKey(rows, key, id)
    ensures WithKey(rows, key, id) == []
  {
    if rows != [] {
      assert rows[0] in rows;
      assert !HasKey(rows[1..], key, id) by {
        forall x | x in rows[1..] ensures key(x) != id {
          assert x in rows;
        }
      }
      NoKeyNoRows(rows[1..], key, id);
    }
  }

  /** Under ascending keys, the selection by one row's key is that row alone. */
  lemma {:induction false} WithKeyOfRow<R(!new)>(rows: seq<R>, key: R -> int, x: R)
    requires Ascending(rows, key) && x in rows
    ensures WithKey(rows, key, key(x)) == [x]
  {
    var t := rows[1..];
    assert Ascending(t, key) by {
      forall i, j | 0 <= i < j < |t| ensures key(t[i]) < key(t[j]) {
        assert t[i] == rows[i + 1] && t[j] == rows[j + 1];
      }
    }
    if rows[0] == x {
      forall y | y in t ensures key(y) != key(x) {
        var j :| 0 <= j < |t| && t[j] == y;
        assert rows[j + 1] == y;
      }
      NoKeyNoRows(t, key, key(x));
    } else {
      assert x in t;
      var j :| 0 <= j < |t| && t[j] == x;
      assert rows[j + 1] == x;
      WithKeyOfRow(t, key, x);
    }
  }

  /** Selecting from a concatenation selects from each part. */
  lemma {:induction false} WithKeyAppend<R(!new)>(a: seq<R>, b: seq<R>, key: R -> int, id: int)
    ensures WithKey(a + b, key, id) == WithKey(a, key, id) + WithKey(b, key, id)
  {
    if a != [] {
      assert (a + b)[1..] == a[1..] + b;
      WithKeyAppend(a[1..], b, key, id);
    } else {
      assert a + b == b;
    }
  }

  /** Deleting from a concatenation deletes from each part. */
  lemma {:induction false} WithoutKeyAppend<R(!new)>(a: seq<R>, b: seq<R>, key: R -> int, id: int)
    ensures WithoutKey(a + b, key, id) == WithoutKey(a, key, id) + WithoutKey(b, key, id)
  {
    if a != [] {
      assert (a + b)[1..] == a[1..] + b;
      WithoutKeyAppend(a[1..], b, key, id);
    } else {
      assert a + b == b;
    }
  }

  /** A selection on one key and a deletion on another commute. */
  lemma {:induction false} WithKeyWithoutKey<R(!new)>(rows: seq<R>, key: R -> int, a: int, b: int)
    ensures WithKey(WithoutKey(rows, key, a), key, b) == WithoutKey(WithKey(rows, key, b), key, a)
  {
    if rows != [] {
      var h := rows[0];
      var kept := if key(h) != a then [h] else [];
      var picked := if key(h) == b then [h] else [];
      calc {
        WithKey(WithoutKey(rows, key, a), key, b);
        WithKey(kept + WithoutKey(rows[1..], key, a), key, b);
        { WithKeyAppend(kept, WithoutKey(rows[1..], key, a), key, b); }
        WithKey(kept, key, b) + WithKey(WithoutKey(rows[1..], key, a), key, b);
        { WithKeyWithoutKey(rows[1..], key, a, b); }
        WithKey(kept, key, b) + WithoutKey(WithKey(rows[1..], key, b), key, a);
        { assert WithKey(kept, key, b) == WithoutKey(picked, key, a); }
        WithoutKey(picked, key, a) + WithoutKey(WithKey(rows[1..], key, b), key, a);
        { WithoutKeyAppend(picked, WithKey(rows[1..], key, b), key, a); }
        WithoutKey(picked + WithKey(rows[1..], key, b), key, a);
        WithoutKey(WithKey(rows, key, b), key, a);
      }
    }
  }

  // ---------------------------------------------------------------------------
  // INSERT: appending a row with a fresh key

  /** A row keyed `last + 1` is fresh: no current row has its key, and after
      appending it the table is keyed up to `last + 1`. */
  lemma AppendFresh<R(!new)>(rows: seq<R>, key: R -> int, last: int, row: R)
    requires 0 <= last && Keyed(rows, key, last) && key(row) == last + 1
    ensures !HasKey(rows, key, key(row))
    ensures Keyed(rows + [row], key, last + 1)
  {
    var s := rows + [row];
    forall i, j | 0 <= i < j < |s| ensures key(s[i]) < key(s[j]) {
      assert s[i] == rows[i] && rows[i] in rows;
      if j < |rows| {
        assert s[j] == rows[j];
      }
    }
    forall x | x in s ensures 1 <= key(x) <= last + 1 {
      var i :| 0 <= i < |s| && s[i] == x;
      if i < |rows| {
        assert rows[i] == x && rows[i] in rows;
      } else {
        assert x == row;
      }
    }
  }

  /** A point query after an insert of a fresh key finds the new row by its
      key and reads every other key as before. */
  lemma LookupAfterAppend<R(!new)>(rows: seq<R>, key: R -> int, row: R, id: int, zero: R)
    requires !HasKey(rows, key, key(row))
    ensures Lookup(rows + [row], key, id, zero) == if id == key(row) then row else Lookup(rows, key, id, zero)
  {
    WithKeyAppend(rows, [row], key, id);
    assert [row][1..] == [];
    if id == key(row) {
      NoKeyNoRows(rows, key, id);
    }
  }

  /** `LookupAfterAppend` for every id at once. */
  lemma LookupsAfterAppend<R(!new)>(rows: seq<R>, key: R -> int, row: R, zero: R)
    requires !HasKey(rows, key, key(row))
    ensures forall id :: (Lookup(rows + [row], key, id, zero)
      == if id == key(row) then row else Lookup(rows, key, id, zero))
  {
    forall id ensures Lookup(rows + [row], key, id, zero)
      == if id == key(row) then row else Lookup(rows, key, id, zero)
    {
      LookupAfterAppend(rows, key, row, id, zero);
    }
  }

  // ---------------------------------------------------------------------------
  // DELETE … WHERE id = ?

  /** Deleting rows keeps the table keyed. */
  lemma {:induction false} WithoutKeyKeyed<R(!new)>(rows: seq<R>, key: R -> int, last: int, id: int)
    requires Keyed(rows, key, last)
    ensures Keyed(WithoutKey(rows, key, id), key, last)
  {
    if rows != [] {
      var t := rows[1..];
      assert Keyed(t, key, last) by {
        forall i, j | 0 <= i < j < |t| ensures key(t[i]) < key(t[j]) {
          assert t[i] == rows[i + 1] && t[j] == rows[j + 1];
        }
      }
      WithoutKeyKeyed(t, key, last, id);
      if key(rows[0]) != id {
        forall x | x in WithoutKey(t, key, id) ensures key(rows[0]) < key(x) {
          var j :| 0 <= j < |t| && t[j] == x;
          assert rows[j + 1] == x;
        }
        AscendingCons(rows[0], WithoutKey(t, key, id), key);
      }
    }
  }

  /** Deleting a key no row has leaves the table as it was. */
  lemma {:induction false} WithoutAbsentKey<R(!new)>(rows: seq<R>, key: R -> int, id: int)
    requires !HasKey(rows, key, id)
    ensures WithoutKey(rows, key, id) == rows
  {
    if rows != [] {
      assert rows[0] in rows;
      assert !HasKey(rows[1..], key, id) by {
        forall x | x in rows[1..] ensures key(x) != id {
          assert x in rows;
        }
      }
      WithoutAbsentKey(rows[1..], key, id);
      assert [rows[0]] + rows[1..] == rows;
    }
  }

  /** A point query after a delete finds nothing under the deleted key and
      reads every other key as before. */
  lemma LookupAfterDelete<R(!new)>(rows: seq<R>, key: R -> int, id: int, b: int, zero: R)
    requires Ascending(rows, key)
    ensures Lookup(WithoutKey(rows, key, id), key, b, zero) == if b == id then zero else Lookup(rows, key, b, zero)
  {
  }

  // ---------------------------------------------------------------------------
  // UPDATE … SET … WHERE id = ?

  /** Overwriting keeps the table keyed. */
  lemma OverwriteKeyed<R(!new)>(rows: seq<R>, key: R -> int, last: int, id: int, row: R)
    requires Keyed(rows, key, last) && key(row) == id
    ensures Keyed(Overwrite(rows, key, id, row), key, last)
  {
  }

  /** An update of a key no row has changes nothing. */
  lemma OverwriteAbsent<R(!new)>(rows: seq<R>, key: R -> int, id: int, row: R)
    requires !HasKey(rows, key, id)
    ensures Overwrite(rows, key, id, row) == rows
  {
  }

  /** A point query after an update reads the new row under the updated key
      (when that key existed) and every other key as before. */
  lemma LookupAfterOverwrite<R(!new)>(rows: seq<R>, key: R -> int, id: int, row: R, b: int, zero: R)
    requires Ascending(rows, key) && key(row) == id
    ensures Lookup(Overwrite(rows, key, id, row), key, b, zero)
         == if b == id && HasKey(rows, key, id) then row else Lookup(rows, key, b, zero)
  {
    var o := Overwrite(rows, key, id, row);
    if !HasKey(rows, key, id) {
      OverwriteAbsent(rows, key, id, row);
    } else if b == id {
      var x :| x in rows && key(x) == id;
      var i :| 0 <= i < |rows| && rows[i] == x;
      assert o[i] == row;
      var r := Lookup(o, key, b, zero);
      var k :| 0 <= k < |o| && o[k] == r;
      assert key(rows[k]) == id ==> r == row;
    } else {
      if HasKey(rows, key, b) {
        var x :| x in rows && key(x) == b;
        var i :| 0 <= i < |rows| && rows[i] == x;
        assert o[i] == x;
        var r := Lookup(o, key, b, zero);
        var k :| 0 <= k < |o| && o[k] == r;
        assert o[k] == rows[k];
        AscendingKeyUnique(rows, key, r, Lookup(rows, key, b, zero));
      } else {
        forall y | y in o ensures key(y) != b {
          var k :| 0 <= k < |o| && o[k] == y;
          assert rows[k] in rows;
        }
      }
    }
  }
}
