/**
 * The article table of models/article.go, held like the tag table: an
 * `ArticleTable` object whose `rows` map each primary key to its row, with
 * an auto-increment counter. Queries that eager-load the tag (`Preload`,
 * `Related`) take the tag table and resolve each article's tag by id.
 */
module Articles {
  import opened Wrappers
  import opened Coercion
  import Tables
  import Tags

  /** A row of the article table: models.Article with the id and timestamps of its embedded Model. */
  datatype Article = Article(
    id: int,
    tagId: int,
    title: string,
    desc: string,
    content: string,
    createdBy: string,
    modifiedBy: string,
    state: int,
    createdOn: int,
    modifiedOn: int)

  /** The zero value a query leaves behind when it finds no row. */
  const ZeroArticle := Article(0, 0, "", "", "", "", "", 0, 0, 0)

  /** An article with its `Tag` field loaded. */
  datatype ArticleView = ArticleView(article: Article, tag: Tags.Tag)

  /** The column map given to `EditArticle`: only the columns present are written. */
  datatype ArticlePatch = ArticlePatch(
    tagId: Option<int>,
    title: Option<string>,
    desc: Option<string>,
    content: Option<string>,
    createdBy: Option<string>,
    modifiedBy: Option<string>,
    state: Option<int>)

  const EmptyPatch := ArticlePatch(None, None, None, None, None, None, None)

  /** The column map given to `GetArticles`/`GetArticleTotal`: an exact-match conjunction. */
  datatype ArticleFilter = ArticleFilter(tagId: Option<int>, state: Option<int>)

  /** The filter as the row predicate the query applies. */
  function Keep(f: ArticleFilter): Article -> bool {
    (a: Article) => ArticleMatches(a, f)
  }

  predicate ArticleMatches(a: Article, f: ArticleFilter) {
    (f.tagId.Some? ==> a.tagId == f.tagId.value) && (f.state.Some? ==> a.state == f.state.value)
  }

  /** The `BeforeCreate` hook: stamps `CreatedOn` with the current time. */
  function BeforeCreate(a: Article, now: int): (r: Article)
    ensures r.createdOn == now
    ensures r.(createdOn := a.createdOn) == a
  {
    a.(createdOn := now)
  }

  /** The `BeforeUpdate` hook: stamps `ModifiedOn` with the current time. */
  function BeforeUpdate(a: Article, now: int): (r: Article)
    ensures r.modifiedOn == now
    ensures r.(modifiedOn := a.modifiedOn) == a
  {
    a.(modifiedOn := now)
  }

  /** `Updates(params)` on one row: each column present in the patch takes its new value. */
  function ApplyArticlePatch(a: Article, p: ArticlePatch): (r: Article)
    ensures r.tagId == (if p.tagId.Some? then p.tagId.value else a.tagId)
    ensures r.title == (if p.title.Some? then p.title.value else a.title)
    ensures r.desc == (if p.desc.Some? then p.desc.value else a.desc)
    ensures r.content == (if p.content.Some? then p.content.value else a.content)
    ensures r.createdBy == (if p.createdBy.Some? then p.createdBy.value else a.createdBy)
    ensures r.modifiedBy == (if p.modifiedBy.Some? then p.modifiedBy.value else a.modifiedBy)
    ensures r.state == (if p.state.Some? then p.state.value else a.state)
    ensures r.id == a.id
    ensures r.createdOn == a.createdOn && r.modifiedOn == a.modifiedOn
  {
    a.(tagId := p.tagId.GetOr(a.tagId),
       title := p.title.GetOr(a.title),
       desc := p.desc.GetOr(a.desc),
       content := p.content.GetOr(a.content),
       createdBy := p.createdBy.GetOr(a.createdBy),
       modifiedBy := p.modifiedBy.GetOr(a.modifiedBy),
       state := p.state.GetOr(a.state))
  }

  /** Applying the same partial update twice leaves the row as applying it once. */
  lemma ApplyArticlePatchIdempotent(a: Article, p: ArticlePatch)
    ensures ApplyArticlePatch(ApplyArticlePatch(a, p), p) == ApplyArticlePatch(a, p)
  {
  }

  /**
   * The tag that `Related`/`Preload` loads into an article: the stored tag
   * with the article's tag id, or the zero tag when there is none.
   */
  function ResolveTag(tagRows: map<int, Tags.Tag>, tagId: int): (t: Tags.Tag)
    ensures Tables.HasRow(tagRows, tagId) ==> t == tagRows[tagId]
    ensures tagId !in tagRows ==> t == Tags.ZeroTag
  {
    if tagId in tagRows then tagRows[tagId] else Tags.ZeroTag
  }

  /** Each article of a listing with its tag loaded, as `Preload("Tag")` does. */
  function WithTags(page: seq<Article>, tagRows: map<int, Tags.Tag>): (vs: seq<ArticleView>)
    ensures |vs| == |page|
    ensures forall i :: 0 <= i < |page| ==> vs[i] == ArticleView(page[i], ResolveTag(tagRows, page[i].tagId))
  {
    seq(|page|, i requires 0 <= i < |page| => ArticleView(page[i], ResolveTag(tagRows, page[i].tagId)))
  }

  /** The primary key of an article row. */
  function IdOf(a: Article): int {
    a.id
  }

  class ArticleTable {
    var rows: map<int, Article>
    var nextId: int

    ghost predicate Valid()
      reads this
    {
      Tables.WellKeyed(rows, nextId, IdOf)
    }

    constructor ()
      ensures Valid() && rows == map[] && nextId == 1
    {
      rows := map[];
      nextId := 1;
    }

    /** `ExistArticleByID`: some stored article has this id, and the id is positive. */
    function ExistArticleByID(id: int): (b: bool)
      reads this
      requires Valid()
      ensures b <==> id > 0 && exists k :: k in rows && rows[k].id == id
      ensures id <= 0 ==> !b
    {
      Tables.HasRow(rows, id)
    }

    /**
     * `GetArticle`: the article with this id and its tag; when there is no
     * such article, the zero article (whose tag id 0 resolves to no tag).
     */
    function GetArticle(id: int, tags: Tags.TagTable): (v: ArticleView)
      reads this, tags
      requires Valid() && tags.Valid()
      ensures ExistArticleByID(id) ==> v.article == rows[id] && v.article.id == id
      ensures !ExistArticleByID(id) ==> v == ArticleView(ZeroArticle, Tags.ZeroTag)
      ensures Tables.HasRow(tags.rows, v.article.tagId) ==> v.tag == tags.rows[v.article.tagId]
      ensures !Tables.HasRow(tags.rows, v.article.tagId) ==> v.tag == Tags.ZeroTag
    {
      var a := if id in rows then rows[id] else ZeroArticle;
      ArticleView(a, ResolveTag(tags.rows, a.tagId))
    }

    /**
     * `GetArticles`: the page of matching articles in primary-key order, each
     * with its tag. The page starts `pageNum` rows into the matches and holds
     * `pageSize` of them, or all the rest when fewer remain or the size is
     * negative.
     */
    function GetArticles(pageNum: int, pageSize: int, f: ArticleFilter, tags: Tags.TagTable): (vs: seq<ArticleView>)
      reads this, tags
      requires Valid() && tags.Valid()
      ensures pageSize >= 0 ==> |vs| <= pageSize
      ensures forall v :: v in vs ==>
        ArticleMatches(v.article, f) && ExistArticleByID(v.article.id) && rows[v.article.id] == v.article
        && v.tag == ResolveTag(tags.rows, v.article.tagId)
      ensures forall i, j :: 0 <= i < j < |vs| ==> vs[i].article.id < vs[j].article.id
      ensures var total := GetArticleTotal(f); var s := Tables.Start(total, pageNum);
        |vs| == (if pageSize < 0 || s + pageSize >= total then total - s else pageSize)
    {
      WithTags(Tables.PageRows(rows, nextId, Keep(f), IdOf, pageNum, pageSize), tags.rows)
    }

    /** `GetArticleTotal`: how many stored articles match, whatever the page. */
    function GetArticleTotal(f: ArticleFilter): (count: int)
      reads this
      requires Valid()
      ensures count == |set k | k in rows && ArticleMatches(rows[k], f)|
    {
      var keep := Keep(f);
      Tables.MatchingKeysCount(rows, nextId, keep);
      assert Tables.MatchSet(rows, nextId, keep) == set k | k in rows && ArticleMatches(rows[k], f);
      |Tables.MatchingKeys(rows, nextId, keep)|
    }

    /**
     * `db.Create(&article)`: inserts the row under the next key, stamped by
     * `BeforeCreate`. It does not look at the tag id.
     */
    method Insert(a: Article, now: int)
      requires Valid()
      modifies this
      ensures Valid() && nextId == old(nextId) + 1
      ensures rows == old(rows)[old(nextId) := BeforeCreate(a.(id := old(nextId)), now)]
      ensures ExistArticleByID(old(nextId))
    {
      rows := rows[nextId := BeforeCreate(a.(id := nextId), now)];
      nextId := nextId + 1;
    }

    /**
     * `AddArticle`: inserts one article built from the field bag and reports
     * true. The tag id is the coerced `tag_id` (0 when absent), and the state
     * is read from the `tag_id` key as well (-1 when absent). The text fields
     * are asserted to be strings, which panics otherwise.
     */
    method AddArticle(article: map<string, Value>, now: int) returns (ok: bool)
      requires Valid()
      requires "title" in article && article["title"].StrV?
      requires "desc" in article && article["desc"].StrV?
      requires "content" in article && article["content"].StrV?
      requires "created_by" in article && article["created_by"].StrV?
      modifies this
      ensures Valid() && ok && nextId == old(nextId) + 1
      ensures rows.Keys == old(rows).Keys + {old(nextId)} && old(nextId) !in old(rows)
      ensures forall k :: k in old(rows) ==> rows[k] == old(rows)[k]
      ensures var a := rows[old(nextId)];
        && a.id == old(nextId)
        && a.tagId == CoerceInt(Param(article, "tag_id"), 0)
        && a.state == CoerceInt(Param(article, "tag_id"), -1)
        && a.title == article["title"].s && a.desc == article["desc"].s
        && a.content == article["content"].s && a.createdBy == article["created_by"].s
        && a.modifiedBy == "" && a.createdOn == now && a.modifiedOn == 0
      ensures "tag_id" !in article ==> rows[old(nextId)].tagId == 0 && rows[old(nextId)].state == -1
      ensures "tag_id" in article && IsNumeric(article["tag_id"]) ==>
        rows[old(nextId)].state == rows[old(nextId)].tagId
    {
      var tagId := CoerceInt(Param(article, "tag_id"), 0);
      var state := CoerceInt(Param(article, "tag_id"), -1);
      Insert(Article(0, tagId, article["title"].s, article["desc"].s, article["content"].s,
                     article["created_by"].s, "", state, 0, 0), now);
      ok := true;
    }

    /**
     * `EditArticle`: writes the columns present in `params` to the row with
     * this id and stamps it by `BeforeUpdate`; when no row has the id nothing
     * changes. Reports true either way.
     */
    method EditArticle(id: int, params: ArticlePatch, now: int) returns (ok: bool)
      requires Valid()
      modifies this
      ensures Valid() && ok && nextId == old(nextId)
      ensures id in old(rows) ==> rows == old(rows)[id := BeforeUpdate(ApplyArticlePatch(old(rows)[id], params), now)]
      ensures id !in old(rows) ==> rows == old(rows)
    {
      if id in rows {
        rows := rows[id := BeforeUpdate(ApplyArticlePatch(rows[id], params), now)];
      }
      ok := true;
    }

    /** `DeleteArticle`: removes the row with this id, if any, without checking first. */
    method DeleteArticle(id: int)
      requires Valid()
      modifies this
      ensures Valid() && nextId == old(nextId)
      ensures rows == old(rows) - {id}
      ensures !ExistArticleByID(id)
    {
      rows := rows - {id};
    }
  }

  /** A page never holds more rows than the total count reports for the same filter. */
  lemma GetArticlesWithinTotal(table: ArticleTable, pageNum: int, pageSize: int, f: ArticleFilter, tags: Tags.TagTable)
    requires table.Valid() && tags.Valid()
    ensures |table.GetArticles(pageNum, pageSize, f, tags)| <= table.GetArticleTotal(f)
  {
    var ks := Tables.MatchingKeys(table.rows, table.nextId, Keep(f));
    Tables.MatchingKeysExact(table.rows, table.nextId, Keep(f));
    var all := Tables.RowsAt(table.rows, ks);
    assert |Tables.Window(all, pageNum, pageSize)| <= |all|;
  }

  /**
   * The page starts `pageNum` places into the matches: its `i`-th article is
   * the match `i` places after the offset in key order (after the first
   * match when `pageNum` is negative).
   */
  lemma GetArticlesFromOffset(table: ArticleTable, pageNum: int, pageSize: int, f: ArticleFilter, tags: Tags.TagTable, i: int)
    requires table.Valid() && tags.Valid() && 0 <= i
    ensures var vs := table.GetArticles(pageNum, pageSize, f, tags);
      var ks := Tables.MatchingKeys(table.rows, table.nextId, Keep(f));
      var s := Tables.Start(table.GetArticleTotal(f), pageNum);
      i < |vs| ==> s + i < |ks| && vs[i].article == table.rows[ks[s + i]]
  {
    var page := Tables.PageRows(table.rows, table.nextId, Keep(f), IdOf, pageNum, pageSize);
    assert table.GetArticles(pageNum, pageSize, f, tags) == WithTags(page, tags.rows);
  }

  /** With no offset and no limit, the listing holds every matching article with its tag. */
  lemma UnpagedListsEveryMatch(table: ArticleTable, pageNum: int, pageSize: int, f: ArticleFilter, tags: Tags.TagTable)
    requires table.Valid() && tags.Valid() && pageNum <= 0 && pageSize < 0
    ensures forall k :: k in table.rows && ArticleMatches(table.rows[k], f) ==>
      ArticleView(table.rows[k], ResolveTag(tags.rows, table.rows[k].tagId)) in table.GetArticles(pageNum, pageSize, f, tags)
  {
    var ks := Tables.PageKeys(table.rows, table.nextId, Keep(f), pageNum, pageSize);
    assert table.GetArticles(pageNum, pageSize, f, tags) == WithTags(Tables.RowsAt(table.rows, ks), tags.rows);
    forall k | k in table.rows && ArticleMatches(table.rows[k], f)
      ensures ArticleView(table.rows[k], ResolveTag(tags.rows, table.rows[k].tagId))
        in WithTags(Tables.RowsAt(table.rows, ks), tags.rows)
    {
      assert 1 <= k < table.nextId && Keep(f)(table.rows[k]);
      ListedKeyHasView(table.rows, ks, tags.rows, k);
    }
  }

  /** A listed key's row appears in the listing with its tag. */
  lemma ListedKeyHasView(rows: map<int, Article>, ks: seq<int>, tagRows: map<int, Tags.Tag>, k: int)
    requires forall i :: 0 <= i < |ks| ==> ks[i] in rows
    requires k in ks
    ensures ArticleView(rows[k], ResolveTag(tagRows, rows[k].tagId)) in WithTags(Tables.RowsAt(rows, ks), tagRows)
  {
    var i :| 0 <= i < |ks| && ks[i] == k;
    assert WithTags(Tables.RowsAt(rows, ks), tagRows)[i] == ArticleView(rows[k], ResolveTag(tagRows, rows[k].tagId));
  }
}
