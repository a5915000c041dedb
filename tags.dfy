/**
 * The tag table of models/tag.go. The shared gorm handle `db` becomes a
 * `TagTable` object whose `rows` map each primary key to its row; `nextId`
 * is the table's auto-increment counter. The `BeforeCreate` and
 * `BeforeUpdate` hooks are explicit steps that take the current Unix time.
 */
module Tags {
  import opened Wrappers
  import Tables

  /** A row of the tag table: models.Tag with the id and timestamps of its embedded Model. */
  datatype Tag = Tag(
    id: int,
    name: string,
    createdBy: string,
    modifiedBy: string,
    state: int,
    createdOn: int,
    modifiedOn: int)

  /** The zero value a query leaves behind when it finds no row. */
  const ZeroTag := Tag(0, "", "", "", 0, 0, 0)

  /** The column map given to `EditTag`: only the columns present are written. */
  datatype TagPatch = TagPatch(
    name: Option<string>,
    createdBy: Option<string>,
    modifiedBy: Option<string>,
    state: Option<int>)

  /** The column map given to `GetTags`/`GetTagTotal`: an exact-match conjunction over the columns present. */
  datatype TagFilter = TagFilter(name: Option<string>, state: Option<int>)

  /** The filter as the row predicate the query applies. */
  function Keep(f: TagFilter): Tag -> bool {
    (t: Tag) => TagMatches(t, f)
  }

  predicate TagMatches(t: Tag, f: TagFilter) {
    (f.name.Some? ==> t.name == f.name.value) && (f.state.Some? ==> t.state == f.state.value)
  }

  /** The `BeforeCreate` hook: stamps `CreatedOn` with the current time. */
  function BeforeCreate(t: Tag, now: int): (r: Tag)
    ensures r.createdOn == now
    ensures r.(createdOn := t.createdOn) == t
  {
    t.(createdOn := now)
  }

  /** The `BeforeUpdate` hook: stamps `ModifiedOn` with the current time. */
  function BeforeUpdate(t: Tag, now: int): (r: Tag)
    ensures r.modifiedOn == now
    ensures r.(modifiedOn := t.modifiedOn) == t
  {
    t.(modifiedOn := now)
  }

  /** `Updates(data)` on one row: each column present in the patch takes its new value. */
  function ApplyTagPatch(t: Tag, p: TagPatch): (r: Tag)
    ensures r.name == (if p.name.Some? then p.name.value else t.name)
    ensures r.createdBy == (if p.createdBy.Some? then p.createdBy.value else t.createdBy)
    ensures r.modifiedBy == (if p.modifiedBy.Some? then p.modifiedBy.value else t.modifiedBy)
    ensures r.state == (if p.state.Some? then p.state.value else t.state)
    ensures r.id == t.id && r.createdOn == t.createdOn && r.modifiedOn == t.modifiedOn
  {
    Tag(t.id,
        p.name.GetOr(t.name),
        p.createdBy.GetOr(t.createdBy),
        p.modifiedBy.GetOr(t.modifiedBy),
        p.state.GetOr(t.state),
        t.createdOn,
        t.modifiedOn)
  }

  /** Applying the same partial update twice leaves the row as applying it once. */
  lemma ApplyTagPatchIdempotent(t: Tag, p: TagPatch)
    ensures ApplyTagPatch(ApplyTagPatch(t, p), p) == ApplyTagPatch(t, p)
  {
  }

  /** The primary key of a tag row. */
  function IdOf(t: Tag): int {
    t.id
  }

  class TagTable {
    var rows: map<int, Tag>
    var nextId: int

    ghost predicate Valid()
      reads this
    {
      Tables.WellKeyed(rows, nextId, IdOf)
    }

    constructor ()
      ensures Valid() && rows == map[] && nextId == 1
    {
      rows := map[];
      nextId := 1;
    }

    /** `ExistTagByID`: some stored tag has this id, and the id is positive. */
    function ExistTagByID(id: int): (b: bool)
      reads this
      requires Valid()
      ensures b <==> id > 0 && exists k :: k in rows && rows[k].id == id
      ensures id <= 0 ==> !b
    {
      Tables.HasRow(rows, id)
    }

    /**
     * `ExistTagByName`: the first row (by primary key) named `name` has a
     * positive id -- true exactly when some stored tag has that name.
     */
    function ExistTagByName(name: string): (b: bool)
      reads this
      requires Valid()
      ensures b <==> exists k :: k in rows && rows[k].name == name
    {
      var named := (t: Tag) => t.name == name;
      var ks := Tables.MatchingKeys(rows, nextId, named);
      Tables.MatchingKeysExact(rows, nextId, named);
      |ks| > 0 && rows[ks[0]].id > 0
    }

    /**
     * `GetTags`: the page of matching tags, in primary-key order. The page
     * starts `pageNum` rows into the matches and holds `pageSize` of them,
     * or all the rest when fewer remain or the size is negative.
     */
    function GetTags(pageNum: int, pageSize: int, f: TagFilter): (ts: seq<Tag>)
      reads this
      requires Valid()
      ensures pageSize >= 0 ==> |ts| <= pageSize
      ensures forall t :: t in ts ==> TagMatches(t, f) && t.id in rows && rows[t.id] == t
      ensures forall i, j :: 0 <= i < j < |ts| ==> ts[i].id < ts[j].id
      ensures var total := GetTagTotal(f); var s := Tables.Start(total, pageNum);
        |ts| == (if pageSize < 0 || s + pageSize >= total then total - s else pageSize)
    {
      Tables.PageRows(rows, nextId, Keep(f), IdOf, pageNum, pageSize)
    }

    /** `GetTagTotal`: how many stored tags match, whatever the page. */
    function GetTagTotal(f: TagFilter): (count: int)
      reads this
      requires Valid()
      ensures count == |set k | k in rows && TagMatches(rows[k], f)|
    {
      var keep := Keep(f);
      Tables.MatchingKeysCount(rows, nextId, keep);
      assert Tables.MatchSet(rows, nextId, keep) == set k | k in rows && TagMatches(rows[k], f);
      |Tables.MatchingKeys(rows, nextId, keep)|
    }

    /**
     * `AddTag`: inserts one tag under the next key, stamped by
     * `BeforeCreate`, without any check for a duplicate name; reports true.
     */
    method AddTag(name: string, state: int, createdBy: string, now: int) returns (ok: bool)
      requires Valid()
      modifies this
      ensures Valid() && ok
      ensures nextId == old(nextId) + 1
      ensures rows == old(rows)[old(nextId) := BeforeCreate(Tag(old(nextId), name, createdBy, "", state, 0, 0), now)]
      ensures ExistTagByName(name) && ExistTagByID(old(nextId))
    {
      var t := BeforeCreate(Tag(nextId, name, createdBy, "", state, 0, 0), now);
      rows := rows[nextId := t];
      nextId := nextId + 1;
      assert rows[nextId - 1].name == name;
      ok := true;
    }

    /** `DeleteTag`: removes the row with this id, if any; reports true either way. */
    method DeleteTag(id: int) returns (ok: bool)
      requires Valid()
      modifies this
      ensures Valid() && ok
      ensures rows == old(rows) - {id} && nextId == old(nextId)
      ensures !ExistTagByID(id)
    {
      rows := rows - {id};
      ok := true;
    }

    /**
     * `EditTag`: writes the columns present in `data` to the row with this
     * id and stamps it by `BeforeUpdate`; when no row has the id nothing
     * changes. Reports true either way.
     */
    method EditTag(id: int, data: TagPatch, now: int) returns (ok: bool)
      requires Valid()
      modifies this
      ensures Valid() && ok && nextId == old(nextId)
      ensures id in old(rows) ==> rows == old(rows)[id := BeforeUpdate(ApplyTagPatch(old(rows)[id], data), now)]
      ensures id !in old(rows) ==> rows == old(rows)
    {
      if id in rows {
        rows := rows[id := BeforeUpdate(ApplyTagPatch(rows[id], data), now)];
      }
      ok := true;
    }
  }

  /** A page never holds more rows than the total count reports for the same filter. */
  lemma GetTagsWithinTotal(table: TagTable, pageNum: int, pageSize: int, f: TagFilter)
    requires table.Valid()
    ensures |table.GetTags(pageNum, pageSize, f)| <= table.GetTagTotal(f)
  {
    var ks := Tables.MatchingKeys(table.rows, table.nextId, Keep(f));
    Tables.MatchingKeysExact(table.rows, table.nextId, Keep(f));
    var all := Tables.RowsAt(table.rows, ks);
    assert |Tables.Window(all, pageNum, pageSize)| <= |all|;
  }

  /**
   * The page starts `pageNum` places into the matches: its `i`-th tag is the
   * match `i` places after the offset in key order (after the first match
   * when `pageNum` is negative).
   */
  lemma GetTagsFromOffset(table: TagTable, pageNum: int, pageSize: int, f: TagFilter, i: int)
    requires table.Valid() && 0 <= i
    ensures var ts := table.GetTags(pageNum, pageSize, f);
      var ks := Tables.MatchingKeys(table.rows, table.nextId, Keep(f));
      var s := Tables.Start(table.GetTagTotal(f), pageNum);
      i < |ts| ==> s + i < |ks| && ts[i] == table.rows[ks[s + i]]
  {
    var page := Tables.PageRows(table.rows, table.nextId, Keep(f), IdOf, pageNum, pageSize);
    assert table.GetTags(pageNum, pageSize, f) == page;
  }

  /** With no offset and no limit, the listing holds every matching tag. */
  lemma UnpagedListsEveryMatch(table: TagTable, pageNum: int, pageSize: int, f: TagFilter)
    requires table.Valid() && pageNum <= 0 && pageSize < 0
    ensures forall k :: k in table.rows && TagMatches(table.rows[k], f) ==>
      table.rows[k] in table.GetTags(pageNum, pageSize, f)
  {
    var ks := Tables.PageKeys(table.rows, table.nextId, Keep(f), pageNum, pageSize);
    var ts := Tables.RowsAt(table.rows, ks);
    assert table.GetTags(pageNum, pageSize, f) == ts;
    forall k | k in table.rows && TagMatches(table.rows[k], f)
      ensures table.rows[k] in ts
    {
      assert 1 <= k < table.nextId && Keep(f)(table.rows[k]);
      var i :| 0 <= i < |ks| && ks[i] == k;
      assert ts[i] == table.rows[k];
    }
  }
}
