/**
 * The decision logic of the article handlers in routers/api/v1/article.go,
 * without the gin plumbing: a handler receives its path or query parameter
 * as the raw string and its request body as the already-bound struct, and
 * returns the (code, msg, data) triple it would write as JSON.
 */
module ArticleHandlers {
  import opened Wrappers
  import opened Coercion
  import opened Validation
  import Tables
  import Tags
  import Articles

  /** The response codes of pkg/e that these handlers use. */
  datatype Code = Success | InvalidParams | ErrorNotExistArticle

  /** A response message: the standard text `e.GetMsg(code)` of a code, or a literal text. */
  datatype Message = CodeText(code: Code) | Text(text: string)

  /** The `data` member: JSON null, an empty object, one article or a list. */
  datatype Data =
    | Null
    | EmptyObject
    | One(view: Articles.ArticleView)
    | List(items: seq<Articles.ArticleView>)

  datatype Response = Response(code: Code, msg: Message, data: Data)

  /**
   * The request body bound into a models.Article (`BindJSON`/`ShouldBind`):
   * a field the body leaves out keeps Go's zero value.
   */
  datatype ArticleParams = ArticleParams(
    tagId: int,
    title: string,
    desc: string,
    content: string,
    createdBy: string,
    modifiedBy: string,
    state: int)

  const NotFoundText := "文章不存在"
  const IdTooSmall := FieldError("id", "ID必须大于0")
  const TitleMissing := FieldError("title", "文章标题不能为空")
  const ContentMissing := FieldError("content", "文章内容不能为空")
  const TagUnknownOnAdd := FieldError("TagID", "关联的标签不存在1")
  const TagUnknownOnEdit := FieldError("TagID", "关联的标签不存在")

  // ----- the error message: `msg += err.Message + ", "` over valid.Errors -----

  /** The message built from the errors: each error's text followed by ", ", in order. */
  function Joined(errs: seq<FieldError>): string
    decreases |errs|
  {
    if errs == [] then "" else Joined(errs[..|errs| - 1]) + errs[|errs| - 1].message + ", "
  }

  /** Joining distributes over concatenation of error lists. */
  lemma {:induction false} JoinedAppend(a: seq<FieldError>, b: seq<FieldError>)
    ensures Joined(a + b) == Joined(a) + Joined(b)
    decreases |b|
  {
    if b != [] {
      var b' := b[..|b| - 1];
      assert (a + b)[..|a + b| - 1] == a + b';
      assert (a + b)[|a + b| - 1] == b[|b| - 1];
      assert Joined(a + b) == Joined(a + b') + b[|b| - 1].message + ", ";
      assert Joined(b) == Joined(b') + b[|b| - 1].message + ", ";
      JoinedAppend(a, b');
    } else {
      assert a + b == a;
    }
  }

  /** The message is empty exactly when there are no errors, so `msg == ""` tests for success. */
  lemma JoinedEmpty(errs: seq<FieldError>)
    ensures Joined(errs) == "" <==> errs == []
  {
    if errs != [] {
      assert |Joined(errs)| >= 2;
    }
  }

  /** The message of a single error is its text and the separator. */
  lemma JoinedSingle(e: FieldError)
    ensures Joined([e]) == e.message + ", "
  {
    assert [e][..0] == [];
  }

  /** The `for` loop over `valid.Errors` that builds the message. */
  method JoinMessages(errs: seq<FieldError>) returns (msg: string)
    ensures msg == Joined(errs)
    ensures msg == "" <==> errs == []
  {
    msg := "";
    for i := 0 to |errs|
      invariant msg == Joined(errs[..i])
    {
      assert errs[..i + 1][..i] == errs[..i];
      msg := msg + errs[i].message + ", ";
    }
    assert errs[..|errs|] == errs;
    JoinedEmpty(errs);
  }

  // ----- GetArticle -----

  /**
   * `GetArticle`: an id below 1 is invalid and the store is not consulted;
   * otherwise the article with its tag, or "not found".
   */
  method GetArticle(articles: Articles.ArticleTable, tags: Tags.TagTable, idParam: string) returns (resp: Response)
    requires articles.Valid() && tags.Valid()
    ensures MustInt(idParam) < 1 ==> resp == Response(InvalidParams, Text(IdTooSmall.message + ", "), Null)
    ensures MustInt(idParam) >= 1 && articles.ExistArticleByID(MustInt(idParam)) ==>
      resp == Response(Success, CodeText(Success), One(articles.GetArticle(MustInt(idParam), tags)))
      && resp.data.view.article.id == MustInt(idParam)
    ensures MustInt(idParam) >= 1 && !articles.ExistArticleByID(MustInt(idParam)) ==>
      resp == Response(ErrorNotExistArticle, CodeText(ErrorNotExistArticle), Null)
  {
    var id := MustInt(idParam);
    var errs: seq<FieldError> := [];
    if !Min(id, 1) {
      errs := errs + [IdTooSmall];
    }
    var data := Null;
    var code := InvalidParams;
    var msg := "";
    if errs == [] {
      if articles.ExistArticleByID(id) {
        data := One(articles.GetArticle(id, tags));
        code := Success;
      } else {
        code := ErrorNotExistArticle;
      }
    } else {
      msg := JoinMessages(errs);
      JoinedSingle(IdTooSmall);
    }
    var message := if msg == "" then CodeText(code) else Text(msg);
    resp := Response(code, message, data);
  }

  // ----- AddArticle -----

  /** The row a bound request body becomes when it is inserted as it is. */
  function ArticleOf(p: ArticleParams): (a: Articles.Article)
    ensures a.tagId == p.tagId && a.title == p.title && a.desc == p.desc && a.content == p.content
    ensures a.createdBy == p.createdBy && a.modifiedBy == p.modifiedBy && a.state == p.state
  {
    Articles.Article(0, p.tagId, p.title, p.desc, p.content, p.createdBy, p.modifiedBy, p.state, 0, 0)
  }

  /** What `AddArticle` accepts: a title and a content, and a tag id that is 0 or names a stored tag. */
  predicate AddAccepted(p: ArticleParams, tagRows: map<int, Tags.Tag>) {
    Required(StrV(p.title)) && Required(StrV(p.content)) && (p.tagId == 0 || Tables.HasRow(tagRows, p.tagId))
  }

  /** The position of an error among `AddArticle`'s checks: title, content, tag. */
  function AddRank(e: FieldError): nat {
    if e == TitleMissing then 0 else if e == ContentMissing then 1 else 2
  }

  /**
   * The errors `AddArticle` collects, in the order of its checks: title,
   * content, then the tag probe, which runs only for a non-zero tag id.
   */
  function AddArticleErrors(p: ArticleParams, tagRows: map<int, Tags.Tag>): (errs: seq<FieldError>)
    ensures TitleMissing in errs <==> !Required(StrV(p.title))
    ensures ContentMissing in errs <==> !Required(StrV(p.content))
    ensures TagUnknownOnAdd in errs <==> p.tagId != 0 && !Tables.HasRow(tagRows, p.tagId)
    ensures errs == [] <==> AddAccepted(p, tagRows)
    ensures forall e :: e in errs ==> e == TitleMissing || e == ContentMissing || e == TagUnknownOnAdd
    ensures forall i, j :: 0 <= i < j < |errs| ==> AddRank(errs[i]) < AddRank(errs[j])
  {
    (if !Required(StrV(p.title)) then [TitleMissing] else [])
    + (if !Required(StrV(p.content)) then [ContentMissing] else [])
    + (if p.tagId != 0 && !Tables.HasRow(tagRows, p.tagId) then [TagUnknownOnAdd] else [])
  }

  /**
   * The checks of `AddArticle` run one after another on a fresh `valid`:
   * required title, required content, then the tag probe for a non-zero id.
   */
  method CollectAddErrors(tags: Tags.TagTable, p: ArticleParams) returns (errs: seq<FieldError>)
    requires tags.Valid()
    ensures errs == AddArticleErrors(p, tags.rows)
  {
    var tagId := p.tagId;
    var titleOk := Required(StrV(p.title));
    var contentOk := Required(StrV(p.content));
    errs := [];
    if !titleOk {
      errs := errs + [TitleMissing];
    }
    assert errs == if titleOk then [] else [TitleMissing];
    if !contentOk {
      errs := errs + [ContentMissing];
    }
    ghost var firstTwo := errs;
    if tagId != 0 && !tags.ExistTagByID(tagId) {
      errs := errs + [TagUnknownOnAdd];
    }
    assert errs == firstTwo + (if tagId != 0 && !Tables.HasRow(tags.rows, tagId) then [TagUnknownOnAdd] else []);
    assert errs == AddArticleErrors(p, tags.rows);
  }

  /**
   * `AddArticle`: the title and content rules and, for a non-zero tag id,
   * the existence probe. On any error nothing is inserted and the message
   * lists the errors; otherwise the bound article is inserted.
   */
  method AddArticle(articles: Articles.ArticleTable, tags: Tags.TagTable, p: ArticleParams, now: int)
    returns (resp: Response)
    requires articles.Valid() && tags.Valid()
    modifies articles
    ensures articles.Valid()
    ensures AddAccepted(p, tags.rows) ==>
      resp == Response(Success, CodeText(Success), EmptyObject)
      && articles.nextId == old(articles.nextId) + 1
      && articles.rows == old(articles.rows)[old(articles.nextId) :=
           Articles.BeforeCreate(ArticleOf(p).(id := old(articles.nextId)), now)]
    ensures !AddAccepted(p, tags.rows) ==>
      resp == Response(InvalidParams, Text(Joined(AddArticleErrors(p, tags.rows))), EmptyObject)
      && articles.rows == old(articles.rows) && articles.nextId == old(articles.nextId)
  {
    var errs := CollectAddErrors(tags, p);
    var code := Success;
    var msg := CodeText(code);
    if errs != [] {
      code := InvalidParams;
      var text := JoinMessages(errs);
      msg := Text(text);
    } else {
      articles.Insert(ArticleOf(p), now);
    }
    resp := Response(code, msg, EmptyObject);
  }

  // ----- EditArticle -----

  /**
   * `EditArticle`: for an existing article, builds the update map -- the tag
   * id only if non-zero and stored, each text field only if non-empty, the
   * state always -- and applies it unless the tag probe failed. A missing
   * article is reported as invalid.
   */
  method EditArticle(articles: Articles.ArticleTable, tags: Tags.TagTable, idParam: string,
                     p: ArticleParams, now: int)
    returns (resp: Response)
    requires articles.Valid() && tags.Valid()
    modifies articles
    ensures articles.Valid() && articles.nextId == old(articles.nextId)
    ensures !Tables.HasRow(old(articles.rows), MustInt(idParam)) ==>
      resp == Response(InvalidParams, Text(NotFoundText), EmptyObject)
      && articles.rows == old(articles.rows)
    ensures (Tables.HasRow(old(articles.rows), MustInt(idParam))
             && p.tagId != 0 && !Tables.HasRow(tags.rows, p.tagId)) ==>
      resp == Response(InvalidParams, Text(TagUnknownOnEdit.message + ", "), EmptyObject)
      && articles.rows == old(articles.rows)
    ensures var id := MustInt(idParam);
      Tables.HasRow(old(articles.rows), id) && (p.tagId == 0 || Tables.HasRow(tags.rows, p.tagId)) ==>
      && resp == Response(Success, CodeText(Success), EmptyObject)
      && articles.rows.Keys == old(articles.rows).Keys
      && (forall k :: k in articles.rows && k != id ==> articles.rows[k] == old(articles.rows)[k])
      && var before, after := old(articles.rows)[id], articles.rows[id];
      && after.tagId == (if p.tagId != 0 then p.tagId else before.tagId)
      && after.title == (if p.title != "" then p.title else before.title)
      && after.desc == (if p.desc != "" then p.desc else before.desc)
      && after.content == (if p.content != "" then p.content else before.content)
      && after.state == p.state
      && after.modifiedOn == now
      && after.id == before.id && after.createdBy == before.createdBy
      && after.modifiedBy == before.modifiedBy && after.createdOn == before.createdOn
  {
    var id := MustInt(idParam);
    var code := Success;
    var msg := CodeText(code);
    if articles.ExistArticleByID(id) {
      var maps := Articles.EmptyPatch;
      var errs: seq<FieldError> := [];
      var tagId := p.tagId;
      if tagId != 0 {
        if !tags.ExistTagByID(tagId) {
          errs := errs + [TagUnknownOnEdit];
        } else {
          maps := maps.(tagId := Some(tagId));
        }
      }
      if p.title != "" {
        maps := maps.(title := Some(p.title));
      }
      if p.desc != "" {
        maps := maps.(desc := Some(p.desc));
      }
      if p.content != "" {
        maps := maps.(content := Some(p.content));
      }
      maps := maps.(state := Some(p.state));
      if errs != [] {
        code := InvalidParams;
        var text := JoinMessages(errs);
        JoinedSingle(TagUnknownOnEdit);
        msg := Text(text);
      } else {
        var _ := articles.EditArticle(id, maps, now);
      }
    } else {
      code := InvalidParams;
      msg := Text(NotFoundText);
    }
    resp := Response(code, msg, EmptyObject);
  }

  // ----- DeleteArticle -----

  /** `DeleteArticle`: deletes only an article that exists; otherwise reports it as invalid. */
  method DeleteArticle(articles: Articles.ArticleTable, idParam: string) returns (resp: Response)
    requires articles.Valid()
    modifies articles
    ensures articles.Valid() && articles.nextId == old(articles.nextId)
    ensures Tables.HasRow(old(articles.rows), MustInt(idParam)) ==>
      resp == Response(Success, CodeText(Success), EmptyObject)
      && articles.rows == old(articles.rows) - {MustInt(idParam)}
    ensures !Tables.HasRow(old(articles.rows), MustInt(idParam)) ==>
      resp == Response(InvalidParams, Text(NotFoundText), EmptyObject)
      && articles.rows == old(articles.rows)
    ensures !articles.ExistArticleByID(MustInt(idParam))
  {
    var id := MustInt(idParam);
    var code := Success;
    var msg := CodeText(code);
    if articles.ExistArticleByID(id) {
      articles.DeleteArticle(id);
    } else {
      code := InvalidParams;
      msg := Text(NotFoundText);
    }
    resp := Response(code, msg, EmptyObject);
  }

  // ----- GetArticles -----

  /**
   * `GetArticles`: a non-empty `state` query parameter becomes an exact-match
   * filter; its range rule is recorded but never consulted, so listing
   * proceeds whatever the state. The page offset and page size come from
   * helpers outside this model and are parameters here.
   */
  method GetArticles(articles: Articles.ArticleTable, tags: Tags.TagTable, stateParam: string,
                     pageNum: int, pageSize: int)
    returns (resp: Response)
    requires articles.Valid() && tags.Valid()
    ensures resp.code == Success && resp.msg == CodeText(Success)
    ensures resp.data == List(articles.GetArticles(pageNum, pageSize,
      Articles.ArticleFilter(None, if stateParam != "" then Some(MustInt(stateParam)) else None), tags))
    ensures pageSize >= 0 ==> |resp.data.items| <= pageSize
    ensures stateParam != "" ==> forall v :: v in resp.data.items ==> v.article.state == MustInt(stateParam)
  {
    var maps := Articles.ArticleFilter(None, None);
    var errs: seq<FieldError> := [];
    if stateParam != "" {
      var state := MustInt(stateParam);
      maps := maps.(state := Some(state));
      if !Range(state, 0, 1) {
        errs := errs + [FieldError("state", "状态只允许为0或1")];
      }
    }
    var list := articles.GetArticles(pageNum, pageSize, maps, tags);
    resp := Response(Success, CodeText(Success), List(list));
  }
}
