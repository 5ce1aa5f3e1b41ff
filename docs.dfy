/**
  The `docs` table: one row per indexed file. Ingestion appends rows and
  the click route increments a row's counter; nothing else writes to it.
*/
module Docs {
  import opened Wrappers
  import opened Strings

  /** A row of the `docs` table: an indexed file, its text, its click count and up to three folder names. */
  datatype Doc = Doc(
    id: int,
    path: string,
    text: string,
    clicks: nat,
    folder1: Option<string>,
    folder2: Option<string>,
    folder3: Option<string>)

  predicate UniqueIds(rows: seq<Doc>) {
    forall i, j :: 0 <= i < j < |rows| ==> rows[i].id != rows[j].id
  }

  /** Ids are positive and grow along the table, as SQLite assigns them to appended rows. */
  predicate IdsIncreasing(rows: seq<Doc>) {
    && (forall i :: 0 <= i < |rows| ==> rows[i].id > 0)
    && (forall i, j :: 0 <= i < j < |rows| ==> rows[i].id < rows[j].id)
  }

  predicate UniquePaths(rows: seq<Doc>) {
    forall i, j :: 0 <= i < j < |rows| ==> rows[i].path != rows[j].path
  }

  /** What ingestion and click counting keep true of the table. */
  predicate WellFormed(rows: seq<Doc>) {
    && IdsIncreasing(rows)
    && UniquePaths(rows)
    && (forall i :: 0 <= i < |rows| ==> SingleSpaced(rows[i].text))
  }

  /** Some row already has this path. */
  predicate Indexed(rows: seq<Doc>, path: string) {
    exists i :: 0 <= i < |rows| && rows[i].path == path
  }

  /**
    The id SQLite gives an appended row: one more than the largest id in
    the table, 1 in an empty table.
  */
  function NextId(rows: seq<Doc>): (id: int)
    ensures id > 0 && forall i :: 0 <= i < |rows| ==> rows[i].id < id
    ensures IdsIncreasing(rows) && rows != [] ==> id == rows[|rows| - 1].id + 1
    decreases |rows|
  {
    if rows == [] then 1
    else
      var m := NextId(rows[..|rows| - 1]);
      if rows[|rows| - 1].id >= m then rows[|rows| - 1].id + 1 else m
  }

  /** The table after a click: the counter of every row with the id goes up by one. */
  function Bump(rows: seq<Doc>, id: int): seq<Doc> {
    seq(|rows|, i requires 0 <= i < |rows| =>
      if rows[i].id == id then rows[i].(clicks := rows[i].clicks + 1) else rows[i])
  }

  /** The path of the row with the id, `None` when no row has that id. */
  function PathOf(rows: seq<Doc>, id: int): (r: Option<string>)
    ensures r.Some? ==> exists i :: 0 <= i < |rows| && rows[i].id == id && rows[i].path == r.value
    ensures r.None? ==> forall i :: 0 <= i < |rows| ==> rows[i].id != id
  {
    if rows == [] then None
    else if rows[0].id == id then Some(rows[0].path)
    else
      var r := PathOf(rows[1..], id);
      assert r.Some? ==> exists i :: 0 <= i < |rows[1..]| && rows[1..][i].id == id && rows[1..][i].path == r.value;
      assert forall i :: 0 <= i < |rows[1..]| ==> rows[1..][i] == rows[i + 1];
      r
  }

  /**
    A click changes only the clicked row, and only its counter, which goes up
    by one; no counter ever goes down, and the table stays well formed.
  */
  lemma BumpSpec(rows: seq<Doc>, id: int)
    requires WellFormed(rows)
    ensures var r := Bump(rows, id);
      && |r| == |rows|
      && WellFormed(r)
      && (forall i :: 0 <= i < |r| ==> r[i].clicks >= rows[i].clicks)
      && (forall i :: 0 <= i < |r| ==> r[i].(clicks := rows[i].clicks) == rows[i])
      && (forall i :: 0 <= i < |r| ==> r[i].clicks == rows[i].clicks + (if rows[i].id == id then 1 else 0))
  {
  }

  /** The store behind the search engine. */
  class DocTable {
    var rows: seq<Doc>

    /**
      What the store itself guarantees: ids assigned in increasing order, so
      that a new row's id is the last one plus one.
    */
    ghost predicate Valid()
      reads this
    {
      IdsIncreasing(rows)
    }

    constructor ()
      ensures Valid() && rows == []
    {
      rows := [];
    }

    /** Appending a row: the given path, text and folders, with a fresh id and no clicks. */
    method Insert(path: string, text: string, folder1: Option<string>, folder2: Option<string>, folder3: Option<string>)
      returns (id: int)
      requires Valid()
      modifies this
      ensures Valid()
      ensures id == NextId(old(rows)) && id > 0
      ensures old(rows) == [] ==> id == 1
      ensures old(rows) != [] ==> id == old(rows)[|old(rows)| - 1].id + 1
      ensures rows == old(rows) + [Doc(id, path, text, 0, folder1, folder2, folder3)]
    {
      id := NextId(rows);
      rows := rows + [Doc(id, path, text, 0, folder1, folder2, folder3)];
    }

    /** The click route: increment the counter, then look up the path to open. */
    method Click(id: int) returns (path: Option<string>)
      requires Valid()
      modifies this
      ensures Valid()
      ensures WellFormed(old(rows)) ==> WellFormed(rows)
      ensures rows == Bump(old(rows), id)
      ensures path == PathOf(old(rows), id)
    {
      rows := Bump(rows, id);
      path := PathOf(rows, id);
      assert forall i :: 0 <= i < |rows| ==> rows[i].id == old(rows)[i].id && rows[i].path == old(rows)[i].path;
      PathOfSameKeys(old(rows), rows, id);
      if WellFormed(old(rows)) {
        BumpSpec(old(rows), id);
      }
    }
  }

  lemma {:induction false} PathOfSameKeys(a: seq<Doc>, b: seq<Doc>, id: int)
    requires |a| == |b|
    requires forall i :: 0 <= i < |a| ==> a[i].id == b[i].id && a[i].path == b[i].path
    ensures PathOf(a, id) == PathOf(b, id)
  {
    if a != [] {
      PathOfSameKeys(a[1..], b[1..], id);
    }
  }
}
