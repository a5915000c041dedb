# Articles and tags of go-gin-example, modelled in Dafny

This project models the core of the go-gin-example blog API: the article
and tag tables, the article validator, and the decision logic of the article
HTTP handlers.

- **Field-bag coercion** (`coercion.dfy`). A request arrives as a loosely
  typed field bag: a map from field name to a Go `interface{}` value. An
  integer value is kept. A string goes through `com.StrTo(..).MustInt()`,
  that is `strconv.ParseInt(s, 10, 0)` with its error dropped. This gives 0
  on a syntax error, unless the digits overflow first: a run of leading
  digits above 2^64 - 1 gives the 64-bit bound of the sign, whatever
  follows it. A `float64` is truncated toward zero. Any other type keeps the
  caller's default.
- **Rule semantics** (`validation.dfy`). These are the beego validation rules
  the validator uses: `Required`, `MaxSize`, `Min` and `Range`.
- **Table view** (`tables.dfy`, `tags.dfy`, `articles.dfy`).
  - Each gorm table is a class whose `rows` map each primary key to its row,
    with an auto-increment counter.
  - Read-only queries are functions: existence probes, lookup, filtered
    listing with a page window, and counting.
  - Insert, partial update and delete are methods.
  - The `BeforeCreate`/`BeforeUpdate` hooks are explicit steps that take the
    current time.
- **Article validator** (`article_validation.dfy`). `ValidationArticle`
  returns the ordered list of errors for a field bag and an action. It is
  stated rule by rule: each rule's error is in the list exactly when that
  rule fails.
- **Handlers** (`handlers.dfy`). `GetArticle`, `AddArticle`, `EditArticle`,
  `DeleteArticle` and `GetArticles` take already-parsed inputs and return the
  `(code, msg, data)` triple they would send.
  - They check, then act.
  - They build the partial-update map.
  - They concatenate error messages in a loop.

Two oddities of the code are reproduced as written:
- `AddArticle` reads the state from the `tag_id` key (models/article.go:76).
- The `EditArticle` handler always writes `State`, so an edit without a state
  writes 0 (routers/api/v1/article.go:144).

Two further facts about the code are modelled as they are:
- Creating a row stamps only `CreatedOn`; `ModifiedOn` stays 0 until the
  first update (models/article.go:27-38, models/tag.go:20-31).
- The `AddArticle` handler requires a title and a content but not a
  description (routers/api/v1/article.go:83-84).

Library behaviour that the repository does not contain is taken as an
assumption, stated once in the model:
- `Required` fails on nil, on a string of only white space, and on the
  integer 0.
- `MaxSize` counts the characters of a string and fails on nil.
- `MustInt` parses an optionally signed decimal and clamps it to the 64-bit
  range. It reads the digits left to right and stops with the bound of the
  sign as soon as their value passes 2^64 - 1. Otherwise a character that
  is not a digit, or no digit at all, gives 0.
- A negative gorm offset or limit adds no clause.
- Rows come back in primary-key order.
- `Updates` with a map writes only the keys in it.

## Model

| member | source | states |
|---|---|---|
| Coercion.Param | models/article.go:121 | a key missing from the bag reads as nil; a present key reads as its value |
| Coercion.LeadingDigits | models/article.go:125 | the digits `ParseUint` accumulates: the longest run of digits at the start of the text, stopped by the first character that is not a digit |
| Coercion.ParseDecimal | models/article.go:125 | the syntax check: a syntax error exactly when, after an optional sign, the text is empty or holds a character that is not a digit |
| Coercion.MustInt | models/article.go:125 | the result lies in the 64-bit range; leading digits above 2^64 - 1 give the bound of the sign whatever follows; otherwise a syntax error gives 0 |
| Coercion.MustIntItoa | models/article.go:125 | every 64-bit integer written in decimal parses back to itself |
| Coercion.MustIntRejectsNonDigit | models/article.go:125 | a string with a character that is neither a digit nor a leading sign coerces to 0 when its leading digits do not overflow |
| Coercion.OverflowBeforeJunk | models/article.go:125 | leading digits above 2^64 - 1, after an optional sign, give the bound of the sign even when text that is not a number follows |
| Coercion.TruncTowardZeroBounds | models/article.go:128-129 | the float case truncates toward zero: the result is the largest integer not above a non-negative value, and the smallest not below a negative one |
| Coercion.CoercionAgrees | models/article.go:122-130 | an int, its decimal string and its float all coerce to that int; every other type keeps the default |
| Tables.MatchingKeys | models/tag.go:35 | every key a filtered query finds is a stored key below the counter whose row passes the filter |
| Tables.MatchingKeysSorted | models/tag.go:35 | the keys come out in strictly ascending order |
| Tables.MatchingKeysComplete | models/tag.go:35 | every stored key whose row passes the filter is found |
| Tables.MatchingKeysExact | models/tag.go:35 | a filtered query finds exactly the stored keys whose rows match, each once, in ascending key order |
| Tables.MatchingKeysCount | models/tag.go:42 | the query finds as many keys as there are matching rows |
| Tables.Window | models/tag.go:35 | `Offset(n).Limit(m)` yields a contiguous run of the result, at most m long, reaching the end when the limit does not cut it |
| Tables.WindowIsSubset | models/tag.go:35 | every row of a page is a row of the full result |
| Tables.WindowIncreasing | models/tag.go:35 | a page of an ascending result is ascending |
| Tables.PageKeys | models/tag.go:35 | the keys of a page are matching stored keys in ascending order; the page is the contiguous run of the matches that starts at the offset and holds `limit` of them, or all the rest when fewer remain or the limit is negative; with no offset and no limit every match is there |
| Tables.PageKeysFromOffset | models/tag.go:35 | the `i`-th key of a page is the match `i` places after the offset |
| Tables.PageRows | models/tag.go:35 | the rows `Find` loads: matching stored rows in ascending id order, as many as the window allows, the `i`-th being the row under the match `i` places after the offset |
| Tags.BeforeCreate | models/tag.go:20-24 | stamps `CreatedOn` with the given time and changes nothing else |
| Tags.BeforeUpdate | models/tag.go:27-31 | stamps `ModifiedOn` with the given time and changes nothing else |
| Tags.ApplyTagPatch | models/tag.go:88-92 | each column in the update takes its new value; every other column keeps its old one |
| Tags.ApplyTagPatchIdempotent | models/tag.go:88-92 | applying the same update twice equals applying it once |
| Tags.TagTable.ExistTagByID | models/tag.go:59-67 | true iff some stored tag has the id and the id is positive, hence false for every id of 0 or below |
| Tags.TagTable.ExistTagByName | models/tag.go:48-56 | true iff some stored tag has exactly that name |
| Tags.TagTable.GetTags | models/tag.go:34-38 | the tags in ascending id order, each matching the filter and equal to the stored row; `pageSize` of the matches, or all the rest when fewer remain or the size is negative |
| Tags.GetTagsFromOffset | models/tag.go:34-38 | the page starts at offset `pageNum`: its `i`-th tag is the stored tag under the match `i` places after it |
| Tags.UnpagedListsEveryMatch | models/tag.go:34-38 | with no offset and no limit, every matching tag is listed |
| Tags.TagTable.GetTagTotal | models/tag.go:41-45 | the number of stored tags that match, whatever the page |
| Tags.GetTagsWithinTotal | models/tag.go:34-45 | a page never holds more tags than the total for the same filter |
| Tags.TagTable.AddTag | models/tag.go:70-78 | inserts exactly one tag with the given name, state and creator under a new key, with no duplicate-name check; afterwards the name and the new id exist; returns true |
| Tags.TagTable.DeleteTag | models/tag.go:81-85 | removes only the row with that id, if any; afterwards the id does not exist; returns true |
| Tags.TagTable.EditTag | models/tag.go:88-92 | changes only the supplied columns of row `id` and stamps it; with no such row nothing changes; returns true |
| Articles.BeforeCreate | models/article.go:27-31 | stamps `CreatedOn` with the given time and changes nothing else |
| Articles.BeforeUpdate | models/article.go:34-38 | stamps `ModifiedOn` with the given time and changes nothing else |
| Articles.ApplyArticlePatch | models/article.go:106-110 | each column in the update takes its new value; every other column keeps its old one |
| Articles.ApplyArticlePatchIdempotent | models/article.go:106-110 | applying the same update twice equals applying it once |
| Articles.ResolveTag | models/article.go:50 | the loaded tag is the stored tag with the article's tag id, or the zero tag |
| Articles.ArticleTable.ExistArticleByID | models/article.go:99-103 | true iff some stored article has the id and the id is positive |
| Articles.ArticleTable.GetArticle | models/article.go:48-53 | the stored article with its tag; the zero article with the zero tag when there is none |
| Articles.WithTags | models/article.go:42 | `Preload("Tag")`: each listed article is paired with its resolved tag, in the same order |
| Articles.ArticleTable.GetArticles | models/article.go:41-45 | the articles in ascending id order, each matching the filter, stored, and carrying its resolved tag; `pageSize` of the matches, or all the rest when fewer remain or the size is negative |
| Articles.GetArticlesFromOffset | models/article.go:41-45 | the page starts at offset `pageNum`: its `i`-th article is the stored article under the match `i` places after it |
| Articles.UnpagedListsEveryMatch | models/article.go:41-45 | with no offset and no limit, every matching article is listed with its tag |
| Articles.ArticleTable.GetArticleTotal | models/article.go:56-60 | the number of stored articles that match, whatever the page |
| Articles.GetArticlesWithinTotal | models/article.go:41-60 | a page never holds more articles than the total for the same filter |
| Articles.ArticleTable.Insert | models/article.go:86-93 | `db.Create` inserts the row under the next key, stamped by `BeforeCreate`, and leaves the other rows alone |
| Articles.ArticleTable.AddArticle | models/article.go:63-96 | inserts exactly one article: the tag id is the coerced `tag_id` (0 when absent); the state is also coerced from `tag_id` (-1 when absent), so it equals the tag id for a numeric value; text fields are copied; returns true |
| Articles.ArticleTable.EditArticle | models/article.go:106-110 | changes only the supplied columns of row `id` and stamps it; with no such row nothing changes; returns true |
| Articles.ArticleTable.DeleteArticle | models/article.go:113-115 | removes only the row with that id, without checking first; afterwards the id does not exist |
| ArticleValidation.FailedAmong | models/article.go:118-172 | the failing rules among a run of checks, each once, in check order |
| ArticleValidation.FailedAmongFollowsFails | models/article.go:118-172 | the checks depend on the failure test only through its outcome on each rule |
| ArticleValidation.FailedRules | models/article.go:118-172 | exactly the failing rules, each once, in the order the checks run; nothing short-circuits |
| ArticleValidation.ValidationArticle | models/article.go:118-173 | a rule's error is in the list iff that rule fails, and the errors come in check order |
| ArticleValidation.ValidationPassesIffNoRuleFails | models/article.go:118-173 | the error list is empty iff no rule fails |
| ArticleValidation.NonPositiveTagIdGivesBothErrors | models/article.go:131-135 | a present `tag_id` that coerces below 1 gives both the range error and the existence error |
| ArticleValidation.CreateChecksAbsentFields | models/article.go:138-166 | for "create", an absent title, desc or content fails its required and length rules, and an absent state fails the range rule |
| ArticleValidation.NonCreateReportsOnlyPresentKeys | models/article.go:121-170 | for any other action, every error names a key present in the bag |
| ArticleValidation.ValidationReadsTagsOnlyThroughProbe | models/article.go:133 | two tag tables that agree on the probe for the coerced tag id give the same errors |
| ArticleHandlers.JoinedAppend | routers/api/v1/article.go:60-62 | the message of two error lists in sequence is the first's message followed by the second's |
| ArticleHandlers.JoinedEmpty | routers/api/v1/article.go:60-64 | the message is empty iff there are no errors, so the `msg == ""` test means success |
| ArticleHandlers.JoinedSingle | routers/api/v1/article.go:60-62 | the message of one error is its text followed by ", " |
| ArticleHandlers.JoinMessages | routers/api/v1/article.go:96-98 | the `msg +=` loop builds every error's text followed by ", ", in order; the result is empty iff there are no errors |
| ArticleHandlers.GetArticle | routers/api/v1/article.go:43-72 | an id below 1 gives `INVALID_PARAMS` with the id message; an existing id gives `SUCCESS` with that article; a missing one gives `ERROR_NOT_EXIST_ARTICLE` |
| ArticleHandlers.ArticleOf | routers/api/v1/article.go:77-78 | the row built from the bound body carries every bound field |
| ArticleHandlers.AddArticleErrors | routers/api/v1/article.go:82-88 | only the title, content and tag errors can occur, each at most once and in that order; an empty title or content is an error and desc is not checked; a tag id of 0 skips the probe, and an unknown non-zero one is an error; no error iff the body is accepted |
| ArticleHandlers.CollectAddErrors | routers/api/v1/article.go:82-88 | the checks run one after another build exactly the errors `AddArticleErrors` describes |
| ArticleHandlers.AddArticle | routers/api/v1/article.go:75-108 | an accepted body is inserted and gives `SUCCESS`; otherwise `INVALID_PARAMS`, the joined messages, and the store unchanged |
| ArticleHandlers.EditArticle | routers/api/v1/article.go:111-167 | a missing article gives "文章不存在" and the store unchanged; an unknown non-zero tag gives the tag message and the store unchanged; otherwise only that row changes: the tag id if non-zero, each text field if non-empty, the state always, and the modification time |
| ArticleHandlers.DeleteArticle | routers/api/v1/article.go:170-186 | deletes only an existing article; otherwise `INVALID_PARAMS` with "文章不存在" and the store unchanged |
| ArticleHandlers.GetArticles | routers/api/v1/article.go:16-40 | always `SUCCESS`; lists the page filtered by a non-empty `state`, whatever its range check says |

## Left out

- main.go (server bootstrap) is not part of this model.
- The gin context is reduced to inputs. `c.Param`/`c.Query` become raw strings, `BindJSON`/`ShouldBind` an already-bound `ArticleParams`, and `c.JSON` the returned triple. Binding errors are not modelled; a field the body leaves out is Go's zero value.
- The response codes and their texts (`e.GetMsg`) come from pkg/e, which is not part of this model. They are an enumeration, and a code's standard text is `CodeText(code)`.
- `util.GetPage` and `setting.PageSize` are not part of this model; the page offset and size are parameters.
- ArticleHandlers.GetArticles: does not model the `total` it reports, because it passes the article slice rather than a filter to `GetArticleTotal` (routers/api/v1/article.go:31), whose query is not defined by the code shown.
- `ArticleParams`, the bound request body, carries only the columns the handlers read. It leaves out the embedded id and timestamps and the nested `Tag` that `BindJSON` can also fill (models/article.go:15-17). The handlers never read them.
- The `AddArticle` handler calls `models.AddArticle` with a struct pointer, while that function takes a field bag. The handler is modelled with the plain insert `Articles.ArticleTable.Insert` of the bound row.
- Articles.ArticleTable.AddArticle: requires the title, desc, content and `created_by` entries to be strings, because the source's type assertions panic otherwise.
- `float64` values are exact rationals: no IEEE rounding, infinities or NaN, and no out-of-range conversion to `int`.
- Ids, tag ids and states are unbounded integers: Go's 64-bit `int` wrap-around is not modelled, apart from the clamping inside `MustInt`.
- gorm's eager loading (`Preload`, `Related`) is reduced to looking up the tag by id. `Where` with a column map is an exact-match conjunction, and the natural row order is ascending primary key.
- The debug `fmt.Println` calls (models/article.go:154, 164) are not modelled: they print and return nothing.
- `time.Now()` is a parameter.
- Concurrency, transactions and the storage errors the code ignores are not modelled.
- The beego validation rules, `com.StrTo(..).MustInt()` and the gorm query semantics are assumptions written out in `validation.dfy`, `coercion.dfy` and `tables.dfy`, not verified code.
