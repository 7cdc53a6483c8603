/**
 * The full-text table `article_block_search`, as the row set the packager
 * fills it with (`_create_and_fill_article_block_search_table`): the UNION
 * of a title row and a synopsis row per article and one row per
 * `articles_blocks` row joined to its block table, ORDER BY article_id,
 * block_order. FTS4 tokenization and matching are not modelled.
 */
module Search {
  import opened Wrappers
  import opened Tables
  import opened Blocks

  function TitleRow(articles: seq<ArticleRow>, p: nat): SearchRow
    requires p < |articles|
  {
    SearchRow(p + 1, -2, "title", None, articles[p].title)
  }

  function SynopsisRow(articles: seq<ArticleRow>, p: nat): SearchRow
    requires p < |articles|
  {
    SearchRow(p + 1, -1, "synopsis", None, articles[p].synopsis)
  }

  /** The search row of an `articles_blocks` row joined to block `b`. */
  function JoinRow(r: BlockOrderRow, b: Block): SearchRow {
    SearchRow(r.articleId, r.order, r.blockType, Some(r.blockId), b.SearchText())
  }

  /** `x` is the search row of `articles_blocks` row `r`. */
  predicate JoinsTo(bt: BlockTables, r: BlockOrderRow, x: SearchRow) {
    bt.At(r.blockType, r.blockId).Some? && x == JoinRow(r, bt.At(r.blockType, r.blockId).value)
  }

  /** The inner join of `rs` with the block tables: rows whose block does not
      exist produce nothing. */
  function JoinRows(bt: BlockTables, rs: seq<BlockOrderRow>): seq<SearchRow> {
    if rs == [] then []
    else
      var r := rs[|rs| - 1];
      JoinRows(bt, rs[..|rs| - 1]) +
      (match bt.At(r.blockType, r.blockId)
       case Some(b) => [JoinRow(r, b)]
       case None => [])
  }

  /** Article p's part of the index: title, synopsis, then its blocks in order. */
  function Segment(articles: seq<ArticleRow>, rows: seq<BlockOrderRow>, bt: BlockTables, p: nat): seq<SearchRow>
    requires p < |articles|
  {
    [TitleRow(articles, p), SynopsisRow(articles, p)] + JoinRows(bt, RowsOf(rows, p + 1))
  }

  /** The segments of the first `n` articles, in article order. */
  function Segments(articles: seq<ArticleRow>, rows: seq<BlockOrderRow>, bt: BlockTables, n: nat): (r: seq<seq<SearchRow>>)
    requires n <= |articles|
    ensures |r| == n && forall p :: 0 <= p < n ==> r[p] == Segment(articles, rows, bt, p)
  {
    if n == 0 then [] else Segments(articles, rows, bt, n - 1) + [Segment(articles, rows, bt, n - 1)]
  }

  /** The rows of `segs`, one segment after the other. */
  function Flatten(segs: seq<seq<SearchRow>>): seq<SearchRow> {
    if segs == [] then [] else Flatten(segs[..|segs| - 1]) + segs[|segs| - 1]
  }

  /** The rows the search table is filled with, in insertion order. */
  function Index(articles: seq<ArticleRow>, rows: seq<BlockOrderRow>, bt: BlockTables): seq<SearchRow> {
    Flatten(Segments(articles, rows, bt, |articles|))
  }

  /** The UNION query of the source, as a set of rows. */
  ghost function Union(articles: seq<ArticleRow>, rows: seq<BlockOrderRow>, bt: BlockTables): set<SearchRow> {
    (set p | 0 <= p < |articles| :: TitleRow(articles, p))
    + (set p | 0 <= p < |articles| :: SynopsisRow(articles, p))
    + (set r | r in rows && bt.At(r.blockType, r.blockId).Some? :: JoinRow(r, bt.At(r.blockType, r.blockId).value))
  }

  /** ORDER BY article_id, block_order, strictly (so no row occurs twice). */
  predicate Before(x: SearchRow, y: SearchRow) {
    x.articleId < y.articleId || (x.articleId == y.articleId && x.order < y.order)
  }

  predicate Sorted(s: seq<SearchRow>) {
    forall i, j :: 0 <= i < j < |s| ==> Before(s[i], s[j])
  }

  // ---------------------------------------------------------------- membership

  lemma {:induction false} RowsOfMembers(rows: seq<BlockOrderRow>, aid: nat, r: BlockOrderRow)
    ensures r in RowsOf(rows, aid) <==> r in rows && r.articleId == aid
  {
    if rows != [] {
      RowsOfMembers(rows[..|rows| - 1], aid, r);
      assert rows == rows[..|rows| - 1] + [rows[|rows| - 1]];
    }
  }

  lemma {:induction false} JoinRowsMembers(bt: BlockTables, rs: seq<BlockOrderRow>, x: SearchRow)
    ensures x in JoinRows(bt, rs) <==>
            exists r :: r in rs && JoinsTo(bt, r, x)
  {
    if rs != [] {
      var pre, r := rs[..|rs| - 1], rs[|rs| - 1];
      assert rs == pre + [r];
      JoinRowsMembers(bt, pre, x);
      if x in JoinRows(bt, rs) {
        if x in JoinRows(bt, pre) {
          var q :| q in pre && JoinsTo(bt, q, x);
          assert q in rs;
        } else {
          assert JoinsTo(bt, r, x) && r in rs;
        }
      }
      if exists q :: q in rs && JoinsTo(bt, q, x) {
        var q :| q in rs && JoinsTo(bt, q, x);
        if q in pre {
          assert x in JoinRows(bt, pre);
        } else {
          assert q == r;
        }
      }
    }
  }

  lemma {:induction false} FlattenMembers(segs: seq<seq<SearchRow>>, x: SearchRow)
    ensures x in Flatten(segs) <==> exists p :: 0 <= p < |segs| && x in segs[p]
  {
    if segs != [] {
      var n := |segs|;
      var pre := segs[..n - 1];
      FlattenMembers(pre, x);
      if x in segs[n - 1] {
        assert 0 <= n - 1 < n && x in segs[n - 1];
      }
      if exists p :: 0 <= p < n - 1 && x in pre[p] {
        var p :| 0 <= p < n - 1 && x in pre[p];
        assert x in segs[p];
      }
      if exists p :: 0 <= p < n && x in segs[p] {
        var p :| 0 <= p < n && x in segs[p];
        if p < n - 1 {
          assert x in pre[p];
        }
      }
    }
  }

  /** A row is in the index exactly when it is in some article's segment. */
  lemma {:induction false} IndexMembers(articles: seq<ArticleRow>, rows: seq<BlockOrderRow>, bt: BlockTables, x: SearchRow)
    ensures x in Index(articles, rows, bt) <==>
            exists p :: 0 <= p < |articles| && x in Segment(articles, rows, bt, p)
  {
    var segs := Segments(articles, rows, bt, |articles|);
    FlattenMembers(segs, x);
    if exists p :: 0 <= p < |articles| && x in Segment(articles, rows, bt, p) {
      var p :| 0 <= p < |articles| && x in Segment(articles, rows, bt, p);
      assert x in segs[p];
    }
    if exists p :: 0 <= p < |segs| && x in segs[p] {
      var p :| 0 <= p < |segs| && x in segs[p];
      assert x in Segment(articles, rows, bt, p);
    }
  }

  /** The members of the UNION query, one arm at a time. */
  lemma {:induction false} UnionMembers(articles: seq<ArticleRow>, rows: seq<BlockOrderRow>, bt: BlockTables, x: SearchRow)
    ensures x in Union(articles, rows, bt) <==>
            || (exists p :: 0 <= p < |articles| && x == TitleRow(articles, p))
            || (exists p :: 0 <= p < |articles| && x == SynopsisRow(articles, p))
            || (exists r :: r in rows && JoinsTo(bt, r, x))
  {
  }

  /** Every row of an article's segment is a row of the UNION query. */
  lemma {:induction false} SegmentInUnion(articles: seq<ArticleRow>, rows: seq<BlockOrderRow>, bt: BlockTables,
                                          p: nat, x: SearchRow)
    requires p < |articles| && x in Segment(articles, rows, bt, p)
    ensures x in Union(articles, rows, bt)
  {
    UnionMembers(articles, rows, bt, x);
    if x != TitleRow(articles, p) && x != SynopsisRow(articles, p) {
      assert x in JoinRows(bt, RowsOf(rows, p + 1));
      JoinRowsMembers(bt, RowsOf(rows, p + 1), x);
      var r :| r in RowsOf(rows, p + 1) && JoinsTo(bt, r, x);
      RowsOfMembers(rows, p + 1, r);
    }
  }

  lemma {:induction false} IndexInUnion(articles: seq<ArticleRow>, rows: seq<BlockOrderRow>, bt: BlockTables, x: SearchRow)
    requires x in Index(articles, rows, bt)
    ensures x in Union(articles, rows, bt)
  {
    IndexMembers(articles, rows, bt, x);
    var p :| 0 <= p < |articles| && x in Segment(articles, rows, bt, p);
    SegmentInUnion(articles, rows, bt, p, x);
  }

  /** A joined block row lies in the segment of the article it belongs to. */
  lemma {:induction false} JoinedInSegment(articles: seq<ArticleRow>, rows: seq<BlockOrderRow>, bt: BlockTables,
                                           r: BlockOrderRow, x: SearchRow)
    requires RowsOwnedBy(rows, |articles|) && r in rows && JoinsTo(bt, r, x)
    ensures 1 <= r.articleId <= |articles| && x in Segment(articles, rows, bt, r.articleId - 1)
  {
    var k :| 0 <= k < |rows| && rows[k] == r;
    RowsOfMembers(rows, r.articleId, r);
    JoinRowsMembers(bt, RowsOf(rows, r.articleId), x);
  }

  lemma {:induction false} UnionInIndex(articles: seq<ArticleRow>, rows: seq<BlockOrderRow>, bt: BlockTables, x: SearchRow)
    requires RowsOwnedBy(rows, |articles|)
    requires x in Union(articles, rows, bt)
    ensures x in Index(articles, rows, bt)
  {
    UnionMembers(articles, rows, bt, x);
    IndexMembers(articles, rows, bt, x);
    if exists p :: 0 <= p < |articles| && x == TitleRow(articles, p) {
      var p :| 0 <= p < |articles| && x == TitleRow(articles, p);
      assert x in Segment(articles, rows, bt, p);
    } else if exists p :: 0 <= p < |articles| && x == SynopsisRow(articles, p) {
      var p :| 0 <= p < |articles| && x == SynopsisRow(articles, p);
      assert x in Segment(articles, rows, bt, p);
    } else {
      var r :| r in rows && JoinsTo(bt, r, x);
      JoinedInSegment(articles, rows, bt, r, x);
    }
  }

  /**
   * The index holds exactly the rows of the UNION query: a title and a
   * synopsis row for every article and one row per `articles_blocks` row that
   * joins to its block, provided every such row belongs to an article.
   */
  lemma {:induction false} IndexIsUnion(articles: seq<ArticleRow>, rows: seq<BlockOrderRow>, bt: BlockTables)
    requires RowsOwnedBy(rows, |articles|)
    ensures forall x :: x in Index(articles, rows, bt) <==> x in Union(articles, rows, bt)
  {
    forall x ensures x in Index(articles, rows, bt) <==> x in Union(articles, rows, bt) {
      if x in Index(articles, rows, bt) { IndexInUnion(articles, rows, bt, x); }
      if x in Union(articles, rows, bt) { UnionInIndex(articles, rows, bt, x); }
    }
  }

  // ---------------------------------------------------------------- order

  lemma {:induction false} RowsOfOwned(rows: seq<BlockOrderRow>, aid: nat)
    ensures forall j :: 0 <= j < |RowsOf(rows, aid)| ==> RowsOf(rows, aid)[j].articleId == aid
  {
    if rows != [] {
      RowsOfOwned(rows[..|rows| - 1], aid);
    }
  }

  /** Joining rows that all belong to `aid` and are numbered 0 .. k-1 gives
      rows of `aid` with strictly increasing orders below k. */
  lemma {:induction false} JoinRowsSorted(bt: BlockTables, rs: seq<BlockOrderRow>, aid: nat)
    requires forall j :: 0 <= j < |rs| ==> rs[j].articleId == aid && rs[j].order == j
    ensures Sorted(JoinRows(bt, rs))
    ensures forall i :: 0 <= i < |JoinRows(bt, rs)| ==>
              JoinRows(bt, rs)[i].articleId == aid && 0 <= JoinRows(bt, rs)[i].order < |rs|
  {
    if rs != [] {
      JoinRowsSorted(bt, rs[..|rs| - 1], aid);
    }
  }

  lemma {:induction false} SegmentSorted(articles: seq<ArticleRow>, rows: seq<BlockOrderRow>, bt: BlockTables, p: nat)
    requires p < |articles| && Dense(rows)
    ensures Sorted(Segment(articles, rows, bt, p))
    ensures forall i :: 0 <= i < |Segment(articles, rows, bt, p)| ==> Segment(articles, rows, bt, p)[i].articleId == p + 1
  {
    var mine := RowsOf(rows, p + 1);
    RowsOfOwned(rows, p + 1);
    JoinRowsSorted(bt, mine, p + 1);
  }

  /** Segments each sorted, with segment p all of article p + 1, flatten to a
      sorted sequence of rows of articles 1 .. |segs|. */
  lemma {:induction false} FlattenSorted(segs: seq<seq<SearchRow>>)
    requires forall p :: 0 <= p < |segs| ==> Sorted(segs[p])
    requires forall p, i :: 0 <= p < |segs| && 0 <= i < |segs[p]| ==> segs[p][i].articleId == p + 1
    ensures Sorted(Flatten(segs))
    ensures forall i :: 0 <= i < |Flatten(segs)| ==> 1 <= Flatten(segs)[i].articleId <= |segs|
  {
    if segs != [] {
      var n := |segs|;
      var pre := segs[..n - 1];
      assert forall p :: 0 <= p < n - 1 ==> pre[p] == segs[p];
      FlattenSorted(pre);
      SortedAppend(Flatten(pre), segs[n - 1], n);
    }
  }

  /** Rows of earlier articles followed by the rows of article n stay sorted. */
  lemma {:induction false} SortedAppend(a: seq<SearchRow>, b: seq<SearchRow>, n: nat)
    requires n >= 1 && Sorted(a) && Sorted(b)
    requires forall i :: 0 <= i < |a| ==> 1 <= a[i].articleId <= n - 1
    requires forall i :: 0 <= i < |b| ==> b[i].articleId == n
    ensures Sorted(a + b) && forall i :: 0 <= i < |a + b| ==> 1 <= (a + b)[i].articleId <= n
  {
    forall i, j | 0 <= i < j < |a + b| ensures Before((a + b)[i], (a + b)[j]) {
      if j < |a| {
        assert (a + b)[i] == a[i] && (a + b)[j] == a[j];
      } else if i < |a| {
        assert (a + b)[i] == a[i] && (a + b)[j] == b[j - |a|];
      } else {
        assert (a + b)[i] == b[i - |a|] && (a + b)[j] == b[j - |a|];
      }
    }
    forall i | 0 <= i < |a + b| ensures 1 <= (a + b)[i].articleId <= n {
      if i >= |a| {
        assert (a + b)[i] == b[i - |a|];
      }
    }
  }

  /** With densely ordered blocks the index is strictly ordered by
      (article_id, block_order): titles first, synopses next, then blocks. */
  lemma {:induction false} IndexSorted(articles: seq<ArticleRow>, rows: seq<BlockOrderRow>, bt: BlockTables)
    requires Dense(rows)
    ensures Sorted(Index(articles, rows, bt))
  {
    var segs := Segments(articles, rows, bt, |articles|);
    forall p | 0 <= p < |segs|
      ensures Sorted(segs[p]) && forall i :: 0 <= i < |segs[p]| ==> segs[p][i].articleId == p + 1
    {
      SegmentSorted(articles, rows, bt, p);
    }
    FlattenSorted(segs);
  }

  /** A strictly sorted listing of a set is unique: the index is the only
      insertion order ORDER BY allows for the union. */
  lemma {:induction false} SortedUnique(s: seq<SearchRow>, t: seq<SearchRow>)
    requires Sorted(s) && Sorted(t)
    requires forall x :: x in s <==> x in t
    ensures s == t
  {
    if s != [] && t != [] {
      assert s[0] == t[0] by {
        assert s[0] in t && t[0] in s;
      }
      forall x ensures x in s[1..] <==> x in t[1..] {
        if x in s[1..] {
          var i :| 0 <= i < |s[1..]| && s[1..][i] == x;
          assert Before(s[0], s[i + 1]);
          assert s[i + 1] in s;
          assert x in t;
          var k :| 0 <= k < |t| && t[k] == x;
          assert k != 0;
          assert t[1..][k - 1] == x;
        }
        if x in t[1..] {
          var i :| 0 <= i < |t[1..]| && t[1..][i] == x;
          assert Before(t[0], t[i + 1]);
          assert t[i + 1] in t;
          assert x in s;
          var k :| 0 <= k < |s| && s[k] == x;
          assert k != 0;
          assert s[1..][k - 1] == x;
        }
      }
      SortedUnique(s[1..], t[1..]);
      assert s == [s[0]] + s[1..] && t == [t[0]] + t[1..];
    } else if s != [] {
      HeadIn(s);
      assert false;
    } else if t != [] {
      HeadIn(t);
      assert false;
    }
  }

  lemma {:induction false} HeadIn(s: seq<SearchRow>)
    requires s != []
    ensures s[0] in s
  {
  }
}
