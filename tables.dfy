/**
 * What the storage engine does with the queries of models/tag.go and
 * models/article.go, over a table held as a map from primary key to row.
 * Keys are assigned by auto-increment from 1, and a query without an
 * ORDER BY returns rows in ascending key order (the chosen tiebreak for the
 * engine's natural order).
 */
module Tables {

  /** Every key is the id of its row, and lies below the auto-increment counter. */
  ghost predicate WellKeyed<R>(rows: map<int, R>, nextId: int, id: R -> int) {
    nextId >= 1 && forall k :: k in rows ==> 1 <= k < nextId && id(rows[k]) == k
  }

  /**
   * The existence probe `Select("id").Where("id = ?", id).First(&row)`
   * followed by `row.ID > 0`: a row is stored under the id, and the id is
   * positive (a failed lookup leaves the zero id behind).
   */
  function HasRow<R>(rows: map<int, R>, id: int): bool {
    id > 0 && id in rows
  }

  predicate StrictlyIncreasing(s: seq<int>) {
    forall i, j :: 0 <= i < j < |s| ==> s[i] < s[j]
  }

  /** The keys below `hi` whose rows satisfy the filter `keep`, as a set. */
  ghost function MatchSet<R>(rows: map<int, R>, hi: int, keep: R -> bool): set<int> {
    set k | k in rows && 1 <= k < hi && keep(rows[k])
  }

  /**
   * The keys a `WHERE <filter>` query finds among the keys below `hi`, in
   * ascending order: each is a stored key whose row passes the filter.
   * `MatchingKeysExact` states that it finds all of them, in order.
   */
  function MatchingKeys<R>(rows: map<int, R>, hi: int, keep: R -> bool): (ks: seq<int>)
    ensures forall i :: 0 <= i < |ks| ==> 1 <= ks[i] < hi && ks[i] in rows && keep(rows[ks[i]])
    decreases hi
  {
    if hi <= 1 then []
    else
      var k := hi - 1;
      MatchingKeys(rows, k, keep) + (if k in rows && keep(rows[k]) then [k] else [])
  }

  /** The keys come out in strictly ascending order. */
  lemma {:induction false} MatchingKeysSorted<R>(rows: map<int, R>, hi: int, keep: R -> bool)
    ensures StrictlyIncreasing(MatchingKeys(rows, hi, keep))
    decreases hi
  {
    if hi > 1 {
      MatchingKeysSorted(rows, hi - 1, keep);
    }
  }

  /** Every stored key below `hi` whose row passes the filter is found. */
  lemma {:induction false} MatchingKeysComplete<R>(rows: map<int, R>, hi: int, keep: R -> bool)
    ensures forall k :: k in rows && 1 <= k < hi && keep(rows[k]) ==> k in MatchingKeys(rows, hi, keep)
    decreases hi
  {
    if hi > 1 {
      MatchingKeysComplete(rows, hi - 1, keep);
      var prefix := MatchingKeys(rows, hi - 1, keep);
      assert forall k :: k in prefix ==> k in MatchingKeys(rows, hi, keep);
    }
  }

  /** The query finds exactly the matching keys, in ascending order. */
  lemma MatchingKeysExact<R>(rows: map<int, R>, hi: int, keep: R -> bool)
    ensures StrictlyIncreasing(MatchingKeys(rows, hi, keep))
    ensures forall k :: k in MatchingKeys(rows, hi, keep) <==> k in MatchSet(rows, hi, keep)
    ensures forall k :: k in rows && 1 <= k < hi && keep(rows[k]) ==> k in MatchingKeys(rows, hi, keep)
  {
    MatchingKeysSorted(rows, hi, keep);
    MatchingKeysComplete(rows, hi, keep);
  }

  /** Each matching key is found once: the query returns as many keys as match. */
  lemma {:induction false} MatchingKeysCount<R>(rows: map<int, R>, hi: int, keep: R -> bool)
    ensures |MatchingKeys(rows, hi, keep)| == |MatchSet(rows, hi, keep)|
    decreases hi
  {
    if hi <= 1 {
      assert MatchSet(rows, hi, keep) == {};
    } else {
      var k := hi - 1;
      MatchingKeysCount(rows, k, keep);
      if k in rows && keep(rows[k]) {
        assert MatchSet(rows, hi, keep) == MatchSet(rows, k, keep) + {k};
        assert k !in MatchSet(rows, k, keep);
      } else {
        assert MatchSet(rows, hi, keep) == MatchSet(rows, k, keep);
      }
    }
  }

  /** The rows stored under the given keys, in the order of the keys. */
  function RowsAt<R>(rows: map<int, R>, ks: seq<int>): (rs: seq<R>)
    requires forall i :: 0 <= i < |ks| ==> ks[i] in rows
    ensures |rs| == |ks|
    ensures forall i :: 0 <= i < |ks| ==> rs[i] == rows[ks[i]]
  {
    seq(|ks|, i requires 0 <= i < |ks| => rows[ks[i]])
  }

  /** Where gorm's `Offset(offset)` starts reading: a negative offset adds no OFFSET clause. */
  function Start(len: nat, offset: int): (start: nat)
    ensures start <= len
    ensures 0 <= offset <= len ==> start == offset
    ensures offset < 0 ==> start == 0
    ensures offset > len ==> start == len
  {
    if offset < 0 then 0 else if offset > len then len else offset
  }

  /**
   * gorm's `Offset(offset).Limit(limit)` applied to a result sequence: a
   * contiguous run of it from `Start`, of at most `limit` rows; a negative
   * limit adds no LIMIT clause.
   */
  function Window<T>(s: seq<T>, offset: int, limit: int): (w: seq<T>)
    ensures limit >= 0 ==> |w| <= limit
    ensures Start(|s|, offset) + |w| <= |s|
    ensures w == s[Start(|s|, offset)..Start(|s|, offset) + |w|]
    ensures limit < 0 || Start(|s|, offset) + limit >= |s| ==> Start(|s|, offset) + |w| == |s|
    ensures 0 <= limit && Start(|s|, offset) + limit < |s| ==> |w| == limit
  {
    var start := Start(|s|, offset);
    if limit < 0 || start + limit >= |s| then s[start..] else s[start..start + limit]
  }

  /** A window of an ascending sequence is ascending. */
  lemma WindowIncreasing(s: seq<int>, offset: int, limit: int)
    requires StrictlyIncreasing(s)
    ensures StrictlyIncreasing(Window(s, offset, limit))
  {
    var w := Window(s, offset, limit);
    var start := Start(|s|, offset);
    assert forall i :: 0 <= i < |w| ==> w[i] == s[start + i];
  }

  /** Every row of a window is a row of the whole result. */
  lemma WindowIsSubset<T>(s: seq<T>, offset: int, limit: int)
    ensures forall x :: x in Window(s, offset, limit) ==> x in s
  {
    var w := Window(s, offset, limit);
    var start := Start(|s|, offset);
    forall x | x in w ensures x in s {
      var i :| 0 <= i < |w| && w[i] == x;
      assert s[start + i] == x;
    }
  }

  /**
   * The keys of the rows that `Where(filter).Offset(offset).Limit(limit)`
   * returns: the matching keys in ascending order, cut to the window. With
   * no offset and no limit every matching key is there.
   */
  function PageKeys<R>(rows: map<int, R>, hi: int, keep: R -> bool, offset: int, limit: int): (ks: seq<int>)
    ensures forall i :: 0 <= i < |ks| ==> ks[i] in rows && keep(rows[ks[i]])
    ensures StrictlyIncreasing(ks)
    ensures limit >= 0 ==> |ks| <= limit
    ensures var total := |MatchingKeys(rows, hi, keep)|; var s := Start(total, offset);
      |ks| == (if limit < 0 || s + limit >= total then total - s else limit)
    ensures var all := MatchingKeys(rows, hi, keep); var s := Start(|all|, offset);
      s + |ks| <= |all| && ks == all[s..s + |ks|]
    ensures offset <= 0 && limit < 0 ==>
      forall k :: k in rows && 1 <= k < hi && keep(rows[k]) ==> k in ks
  {
    var all := MatchingKeys(rows, hi, keep);
    MatchingKeysExact(rows, hi, keep);
    WindowIsSubset(all, offset, limit);
    WindowIncreasing(all, offset, limit);
    Window(all, offset, limit)
  }

  /** The `i`-th key of a page is the match `i` places after the offset. */
  lemma PageKeysFromOffset<R>(rows: map<int, R>, hi: int, keep: R -> bool, offset: int, limit: int)
    ensures var all := MatchingKeys(rows, hi, keep); var ks := PageKeys(rows, hi, keep, offset, limit);
      var s := Start(|all|, offset);
      forall i :: 0 <= i < |ks| ==> s + i < |all| && ks[i] == all[s + i]
  {
    var all := MatchingKeys(rows, hi, keep);
    var ks := PageKeys(rows, hi, keep, offset, limit);
    var s := Start(|all|, offset);
    assert ks == all[s..s + |ks|];
  }

  /**
   * The rows `Where(filter).Offset(offset).Limit(limit).Find(&rows)` loads
   * from a well-keyed table: matching rows in ascending key order, the
   * first of them `offset` places into the matches.
   */
  function PageRows<R>(rows: map<int, R>, hi: int, keep: R -> bool, id: R -> int, offset: int, limit: int): (page: seq<R>)
    requires WellKeyed(rows, hi, id)
    ensures limit >= 0 ==> |page| <= limit
    ensures forall r :: r in page ==> keep(r) && id(r) in rows && rows[id(r)] == r
    ensures forall i, j :: 0 <= i < j < |page| ==> id(page[i]) < id(page[j])
    ensures var total := |MatchingKeys(rows, hi, keep)|; var s := Start(total, offset);
      |page| == (if limit < 0 || s + limit >= total then total - s else limit)
    ensures var all := MatchingKeys(rows, hi, keep); var s := Start(|all|, offset);
      forall i :: 0 <= i < |page| ==> s + i < |all| && page[i] == rows[all[s + i]]
  {
    var ks := PageKeys(rows, hi, keep, offset, limit);
    PageKeysFromOffset(rows, hi, keep, offset, limit);
    RowsAt(rows, ks)
  }
}
