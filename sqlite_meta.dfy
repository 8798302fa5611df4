/** The `meta` key-value table of src/db_manager/sqlite/meta.rs. */
module SqliteMeta {
  import opened Wrappers
  import opened IndexTables

  /** The keys of the rows, in row order. */
  function MetaKeys(rows: seq<MetaRow>): (r: seq<string>)
    ensures |r| == |rows| && forall i :: 0 <= i < |rows| ==> r[i] == rows[i].key
  {
    seq(|rows|, i requires 0 <= i < |rows| => rows[i].key)
  }

  /** `get_meta_value`: the stored value; a missing key is an error, not a default. */
  function GetMetaValue(c: Connection, key: string): (r: Result<string>)
    ensures r.Ok? <==> exists i :: 0 <= i < |c.meta| && c.meta[i].key == key
    ensures r.Ok? ==> exists i :: 0 <= i < |c.meta| && c.meta[i] == MetaRow(c.meta[i].id, key, r.value)
    ensures r.Err? ==> r.error == QueryReturnedNoRows
  {
    match Find(MetaKeys(c.meta), key)
    case None => Err(QueryReturnedNoRows)
    case Some(i) => Ok(c.meta[i].value)
  }

  /**
   * `update_meta_value`: INSERT OR REPLACE. The new row takes the next rowid,
   * any row with the same key is deleted, and like every insert it sets
   * `last_insert_rowid`.
   */
  function UpdateMetaValue(c: Connection, key: string, value: string): (c': Connection)
    ensures c'.games == c.games && c'.gamePaths == c.gamePaths
    ensures c'.backups == c.backups && c'.backupFiles == c.backupFiles
    ensures c'.lastInsertRowid !in MetaIds(c.meta)
  {
    var id := NextRowid(MetaIds(c.meta));
    c.(meta := Filter(c.meta, (r: MetaRow) => r.key != key) + [MetaRow(id, key, value)], lastInsertRowid := id)
  }

  /** Reading a key right after writing it gives the written value. */
  lemma GetAfterUpdate(c: Connection, key: string, value: string)
    ensures GetMetaValue(UpdateMetaValue(c, key, value), key) == Ok(value)
  {
    var c' := UpdateMetaValue(c, key, value);
    var kept := Filter(c.meta, (r: MetaRow) => r.key != key);
    assert c'.meta[|kept|].key == key;
    assert forall i :: 0 <= i < |kept| ==> c'.meta[i] == kept[i] && kept[i] in kept;
  }

  /** With unique keys, the value read for a key is the one stored row's. */
  lemma FindMember(rows: seq<MetaRow>, row: MetaRow)
    requires Pairwise(rows, MetaDistinct) && row in rows
    ensures Find(MetaKeys(rows), row.key).Some? && rows[Find(MetaKeys(rows), row.key).value] == row
  {
    var i :| 0 <= i < |rows| && rows[i] == row;
    var f := Find(MetaKeys(rows), row.key).value;
    assert rows[f].key == rows[i].key;
  }

  lemma UpdatePairwise(c: Connection, key: string, value: string)
    requires Pairwise(c.meta, MetaDistinct)
    ensures Pairwise(UpdateMetaValue(c, key, value).meta, MetaDistinct)
  {
    var keep := (r: MetaRow) => r.key != key;
    var kept := Filter(c.meta, keep);
    PairwiseFilter(c.meta, keep, MetaDistinct);
    var id := NextRowid(MetaIds(c.meta));
    forall y | y in kept ensures MetaDistinct(y, MetaRow(id, key, value)) {
      var k :| 0 <= k < |c.meta| && c.meta[k] == y;
      assert MetaIds(c.meta)[k] == y.id;
    }
    PairwiseAppend(kept, MetaRow(id, key, value), MetaDistinct);
  }

  /** Writing one key leaves every other key as it was, present or absent. */
  lemma UpdateKeepsOthers(c: Connection, key: string, value: string, other: string)
    requires other != key
    requires Pairwise(c.meta, MetaDistinct)
    ensures GetMetaValue(UpdateMetaValue(c, key, value), other) == GetMetaValue(c, other)
  {
    var c' := UpdateMetaValue(c, key, value);
    var kept := Filter(c.meta, (r: MetaRow) => r.key != key);
    assert c'.meta == kept + [c'.meta[|kept|]];
    UpdatePairwise(c, key, value);
    match Find(MetaKeys(c.meta), other)
    case None =>
      forall row | row in c'.meta ensures row.key != other {
        assert row in kept || row == c'.meta[|kept|];
      }
    case Some(j) =>
      var row := c.meta[j];
      FindMember(c.meta, row);
      assert row in kept;
      FindMember(c'.meta, row);
  }

  /** Keys stay unique, so each key has at most one value, and the rest of the index keeps its constraints. */
  lemma UpdateKeepsValid(c: Connection, key: string, value: string)
    requires Valid(c)
    ensures Valid(UpdateMetaValue(c, key, value))
  {
    UpdatePairwise(c, key, value);
  }
}
