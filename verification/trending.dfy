/** The trending query `GET /api/trending` (server.js:108-113):
    `SELECT * FROM news ORDER BY score DESC LIMIT 20`. The order in which the
    database lists rows of equal score is unspecified; the model admits rows one
    at a time, in whatever order the map yields them, into a list kept sorted by
    descending score and cut at the limit. */
module Trending {
  import opened Store

  const TrendingLimit: nat := 20

  /** Every row sits under its own topic hash. */
  predicate KeyedByHash(table: Table) {
    forall k :: k in table ==> table[k].topicHash == k
  }

  /** Every table the service can reach is keyed by hash, so the trending
      query applies to it. */
  lemma ValidIsKeyed(table: Table)
    requires Valid(table)
    ensures KeyedByHash(table)
  {
    forall k | k in table ensures table[k].topicHash == k {
      assert RowInvariant(k, table[k]);
    }
  }

  predicate SortedByScore(rows: seq<Row>) {
    forall i, j :: 0 <= i < j < |rows| ==> rows[i].score >= rows[j].score
  }

  predicate DistinctKeys(rows: seq<Row>) {
    forall i, j :: 0 <= i < j < |rows| ==> rows[i].topicHash != rows[j].topicHash
  }

  /** Every listed row is the table's row for its key. */
  predicate FromTable(rows: seq<Row>, table: Table) {
    forall i :: 0 <= i < |rows| ==> rows[i].topicHash in table && table[rows[i].topicHash] == rows[i]
  }

  /** The topic hashes of the listed rows. */
  function KeysOf(rows: seq<Row>): set<Key> {
    set x | x in rows :: x.topicHash
  }

  lemma DistinctKeysTail(rows: seq<Row>)
    requires |rows| > 0 && DistinctKeys(rows)
    ensures DistinctKeys(rows[1..])
    ensures rows[0].topicHash !in KeysOf(rows[1..])
  {
    var rest := rows[1..];
    forall i, j | 0 <= i < j < |rest| ensures rest[i].topicHash != rest[j].topicHash {
      assert rest[i] == rows[i + 1] && rest[j] == rows[j + 1];
    }
  }

  /** Distinct keys: as many keys as rows. */
  lemma {:induction false} DistinctKeysCount(rows: seq<Row>)
    requires DistinctKeys(rows)
    ensures |KeysOf(rows)| == |rows|
  {
    if rows != [] {
      DistinctKeysTail(rows);
      DistinctKeysCount(rows[1..]);
      assert KeysOf(rows) == {rows[0].topicHash} + KeysOf(rows[1..]) by {
        forall x | x in rows ensures x == rows[0] || x in rows[1..] {
          var i :| 0 <= i < |rows| && rows[i] == x;
          if i > 0 {
            assert rows[1..][i - 1] == x;
          }
        }
        forall x | x in rows[1..] ensures x in rows {
          var i :| 0 <= i < |rows[1..]| && rows[1..][i] == x;
          assert rows[i + 1] == x;
        }
      }
    }
  }

  /** A row in front of a sorted list that scores no less than its head keeps
      the list sorted. */
  lemma SortedCons(a: Row, rest: seq<Row>)
    requires SortedByScore(rest)
    requires rest != [] ==> a.score >= rest[0].score
    ensures SortedByScore([a] + rest)
  {
    var r := [a] + rest;
    forall i, j | 0 <= i < j < |r| ensures r[i].score >= r[j].score {
      assert r[j] == rest[j - 1];
      if i > 0 {
        assert r[i] == rest[i - 1];
      }
    }
  }

  /** Insert `row` into `rows`, sorted by descending score, after every row
      that scores at least as much. */
  function InsertByScore(rows: seq<Row>, row: Row): (r: seq<Row>)
    requires SortedByScore(rows)
    ensures |r| == |rows| + 1
    ensures SortedByScore(r)
    ensures multiset(r) == multiset(rows) + multiset{row}
    ensures r[0] == row || (rows != [] && r[0] == rows[0])
    decreases |rows|
  {
    if rows == [] || rows[0].score < row.score then
      [row] + rows
    else
      var rest := InsertByScore(rows[1..], row);
      var r := [rows[0]] + rest;
      assert rows == [rows[0]] + rows[1..];
      assert rest[0].score <= rows[0].score by {
        if rest[0] != row {
          assert rest[0] == rows[1];
        }
      }
      SortedCons(rows[0], rest);
      r
  }

  /** Insertion moves no row to a place with a higher score: position by
      position, the new list scores at least as much as the old one. */
  lemma {:induction false} InsertByScoreRaises(rows: seq<Row>, row: Row)
    requires SortedByScore(rows)
    ensures forall i :: 0 <= i < |rows| ==> InsertByScore(rows, row)[i].score >= rows[i].score
    decreases |rows|
  {
    var r := InsertByScore(rows, row);
    if rows == [] || rows[0].score < row.score {
      forall i | 0 <= i < |rows| ensures r[i].score >= rows[i].score {
        if i > 0 {
          assert r[i] == rows[i - 1];
        }
      }
    } else {
      var rest := InsertByScore(rows[1..], row);
      InsertByScoreRaises(rows[1..], row);
      forall i | 0 < i < |rows| ensures r[i].score >= rows[i].score {
        assert r[i] == rest[i - 1] && rows[i] == rows[1..][i - 1];
      }
    }
  }

  /** The rows after insertion are the old rows and the new one. */
  lemma InsertByScoreMembers(rows: seq<Row>, row: Row)
    requires SortedByScore(rows)
    ensures forall x :: x in InsertByScore(rows, row) <==> x in rows || x == row
    ensures KeysOf(InsertByScore(rows, row)) == KeysOf(rows) + {row.topicHash}
  {
    var r := InsertByScore(rows, row);
    forall x ensures x in r <==> x in rows || x == row {
      assert x in r <==> x in multiset(r);
      assert x in rows <==> x in multiset(rows);
    }
  }

  /** Putting a row with a new key in front keeps the keys distinct. */
  lemma ConsDistinct(a: Row, rest: seq<Row>)
    requires DistinctKeys(rest) && a.topicHash !in KeysOf(rest)
    ensures DistinctKeys([a] + rest)
  {
    var r := [a] + rest;
    forall i, j | 0 <= i < j < |r| ensures r[i].topicHash != r[j].topicHash {
      assert r[j] == rest[j - 1];
      if i > 0 {
        assert r[i] == rest[i - 1];
      } else {
        assert rest[j - 1] in rest;
      }
    }
  }

  /** Inserting a row with a new key keeps the keys distinct. */
  lemma {:induction false} InsertByScoreDistinct(rows: seq<Row>, row: Row)
    requires SortedByScore(rows) && DistinctKeys(rows) && row.topicHash !in KeysOf(rows)
    ensures DistinctKeys(InsertByScore(rows, row))
    decreases |rows|
  {
    if rows == [] || rows[0].score < row.score {
      ConsDistinct(row, rows);
    } else {
      var rest := InsertByScore(rows[1..], row);
      DistinctKeysTail(rows);
      assert rows[0] in rows;
      InsertByScoreDistinct(rows[1..], row);
      InsertByScoreMembers(rows[1..], row);
      ConsDistinct(rows[0], rest);
    }
  }

  /** Cutting the last row off a list with distinct keys removes exactly that
      row's key. */
  lemma DropLastKey(rows: seq<Row>)
    requires |rows| > 0 && DistinctKeys(rows)
    ensures KeysOf(rows[..|rows| - 1]) == KeysOf(rows) - {rows[|rows| - 1].topicHash}
  {
    var n := |rows| - 1;
    var front := rows[..n];
    forall k | k in KeysOf(rows) - {rows[n].topicHash} ensures k in KeysOf(front) {
      var x :| x in rows && x.topicHash == k;
      var i :| 0 <= i < |rows| && rows[i] == x;
      assert i < n && front[i] == x;
    }
    forall k | k in KeysOf(front) ensures k in KeysOf(rows) - {rows[n].topicHash} {
      var x :| x in front && x.topicHash == k;
      var i :| 0 <= i < n && front[i] == x;
      assert rows[i] == x;
    }
  }

  /** A subset has no more elements than its superset. */
  lemma {:induction false} SubsetCount<T>(a: set<T>, b: set<T>)
    requires a <= b
    ensures |a| <= |b|
    decreases a
  {
    if a != {} {
      var x :| x in a;
      SubsetCount(a - {x}, b - {x});
    }
  }

  /** One admission step when the list is full: the new row goes in, the
      lowest-scoring row drops out, and everything outside the list still
      scores no more than its last row. */
  lemma AdmitIntoFull(table: Table, seen: set<Key>, top: seq<Row>, k: Key, grown: seq<Row>)
    requires KeyedByHash(table) && k in table && k !in seen && seen <= table.Keys
    requires |top| == TrendingLimit && SortedByScore(top)
    requires forall j :: j in seen && j !in KeysOf(top) ==> table[j].score <= top[|top| - 1].score
    requires |grown| == |top| + 1 && SortedByScore(grown) && DistinctKeys(grown)
    requires KeysOf(grown) == KeysOf(top) + {k}
    requires forall i :: 0 <= i < |top| ==> grown[i].score >= top[i].score
    requires FromTable(grown, table)
    ensures var next := grown[..TrendingLimit];
            forall j :: j in seen + {k} && j !in KeysOf(next) ==> table[j].score <= next[|next| - 1].score
  {
    var next := grown[..TrendingLimit];
    DropLastKey(grown);
    var last := grown[TrendingLimit];
    forall j | j in seen + {k} && j !in KeysOf(next)
      ensures table[j].score <= next[|next| - 1].score
    {
      if j == last.topicHash {
        assert table[j] == last;
      } else {
        assert j !in KeysOf(top);
        assert j in seen;
      }
    }
  }

  /** Admit one more row: insert it by score and cut the list at the limit. */
  function Admit(top: seq<Row>, row: Row): (r: seq<Row>)
    requires SortedByScore(top) && |top| <= TrendingLimit
    ensures SortedByScore(r) && |r| <= TrendingLimit
    ensures |r| == if |top| < TrendingLimit then |top| + 1 else TrendingLimit
  {
    var grown := InsertByScore(top, row);
    if |grown| > TrendingLimit then grown[..TrendingLimit] else grown
  }

  /** What holds once the keys outside `pending` have been admitted: the list
      is sorted, drawn from the table without repeats, holds every admitted
      key while it is short of the limit, and every admitted row left out
      scores no more than its last row. */
  predicate Admitted(table: Table, pending: set<Key>, top: seq<Row>) {
    && pending <= table.Keys
    && SortedByScore(top) && FromTable(top, table) && DistinctKeys(top)
    && |top| <= TrendingLimit
    && KeysOf(top) <= table.Keys - pending
    && (|top| < TrendingLimit ==> KeysOf(top) == table.Keys - pending)
    && (forall k :: k in table.Keys - pending && k !in KeysOf(top) ==>
          |top| > 0 && table[k].score <= top[|top| - 1].score)
  }

  /** Inserting a pending row keeps the list drawn from the table without
      repeats, and adds exactly that row's key. */
  lemma GrownFromTable(table: Table, top: seq<Row>, k: Key)
    requires KeyedByHash(table) && k in table
    requires SortedByScore(top) && FromTable(top, table) && DistinctKeys(top)
    requires k !in KeysOf(top)
    ensures var grown := InsertByScore(top, table[k]);
            FromTable(grown, table) && DistinctKeys(grown) && KeysOf(grown) == KeysOf(top) + {k}
  {
    var grown := InsertByScore(top, table[k]);
    InsertByScoreMembers(top, table[k]);
    InsertByScoreDistinct(top, table[k]);
    forall i | 0 <= i < |grown|
      ensures grown[i].topicHash in table && table[grown[i].topicHash] == grown[i]
    {
      assert grown[i] in grown;
    }
  }

  /** Cutting a list at the limit keeps it drawn from the table without
      repeats. */
  lemma CutFromTable(table: Table, grown: seq<Row>)
    requires |grown| > TrendingLimit && FromTable(grown, table) && DistinctKeys(grown)
    ensures FromTable(grown[..TrendingLimit], table) && DistinctKeys(grown[..TrendingLimit])
  {
    var next := grown[..TrendingLimit];
    forall i, j | 0 <= i < j < |next| ensures next[i].topicHash != next[j].topicHash {
      assert next[i] == grown[i] && next[j] == grown[j];
    }
    forall i | 0 <= i < |next|
      ensures next[i].topicHash in table && table[next[i].topicHash] == next[i]
    {
      assert next[i] == grown[i];
    }
  }

  /** Admitting a pending row keeps `Admitted`, with that key no longer pending. */
  lemma AdmitKeeps(table: Table, pending: set<Key>, top: seq<Row>, k: Key)
    requires KeyedByHash(table) && Admitted(table, pending, top) && k in pending
    ensures Admitted(table, pending - {k}, Admit(top, table[k]))
  {
    var seen := table.Keys - pending;
    assert k !in KeysOf(top);
    var grown := InsertByScore(top, table[k]);
    GrownFromTable(table, top, k);
    InsertByScoreRaises(top, table[k]);
    assert table.Keys - (pending - {k}) == seen + {k};
    if |grown| > TrendingLimit {
      AdmitIntoFull(table, seen, top, k, grown);
      DropLastKey(grown);
      CutFromTable(table, grown);
    }
  }

  /** Once nothing is pending, the list is the answer to the query. */
  lemma AdmittedAll(table: Table, top: seq<Row>)
    requires KeyedByHash(table) && Admitted(table, {}, top)
    ensures |top| == if |table| < TrendingLimit then |table| else TrendingLimit
    ensures forall k :: k in table && table[k] !in top ==>
              forall i :: 0 <= i < |top| ==> table[k].score <= top[i].score
    ensures |table| <= TrendingLimit ==> forall k :: k in table ==> table[k] in top
  {
    assert table.Keys - {} == table.Keys;
    DistinctKeysCount(top);
    SubsetCount(KeysOf(top), table.Keys);
    if |top| == TrendingLimit && |table| <= TrendingLimit {
      SubsetEqual(KeysOf(top), table.Keys);
    }
    forall k | k in table && table[k] !in top
      ensures forall i :: 0 <= i < |top| ==> table[k].score <= top[i].score
    {
      assert k !in KeysOf(top);
    }
    forall k | k in table && |table| <= TrendingLimit ensures table[k] in top {
      assert k in KeysOf(top);
    }
  }

  /** The rows `GET /api/trending` answers with, best first. */
  method TopTrending(table: Table) returns (top: seq<Row>)
    requires KeyedByHash(table)
    ensures |top| == if |table| < TrendingLimit then |table| else TrendingLimit
    ensures SortedByScore(top)
    ensures FromTable(top, table) && DistinctKeys(top)
    ensures forall k :: k in table && table[k] !in top ==>
              forall i :: 0 <= i < |top| ==> table[k].score <= top[i].score
    ensures |table| <= TrendingLimit ==> forall k :: k in table ==> table[k] in top
  {
    top := [];
    var pending := table.Keys;
    while pending != {}
      invariant Admitted(table, pending, top)
      decreases |pending|
    {
      var k :| k in pending;
      AdmitKeeps(table, pending, top, k);
      top := Admit(top, table[k]);
      pending := pending - {k};
    }
    AdmittedAll(table, top);
  }

  /** A subset as large as its superset is the whole of it. */
  lemma SubsetEqual<T>(a: set<T>, b: set<T>)
    requires a <= b && |a| >= |b|
    ensures a == b
  {
    if a != b {
      var x :| x in b && x !in a;
      SubsetCount(a, b - {x});
    }
  }
}
