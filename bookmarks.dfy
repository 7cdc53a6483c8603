/**
 * Loading `bookmarks.json` as values: each bookmark names an article, whose
 * id is looked up by name; an unknown name aborts the run (the lookup
 * returns None, which is then indexed), and the UNIQUE constraint on
 * `bookmarks.article_id` rejects a second bookmark of the same article.
 */
module Bookmarks {
  import opened Wrappers
  import opened Tables
  import opened TagLinks
  import opened Owners
  import opened Articles

  /** An entry of `bookmarks.json`. */
  datatype BookmarkInput = BookmarkInput(articleName: string, createdAt: string)

  /** `_fetchone_from_articles_where_name(name)[0]`: the id of the first
      article with this name, None when there is none. */
  function ArticleIdOf(rows: seq<ArticleRow>, name: string): (r: Option<nat>)
    ensures r.None? <==> name !in Names(rows, ArticleName)
    ensures r.Some? ==> 1 <= r.value <= |rows| && rows[r.value - 1].name == name
    ensures r.Some? ==> forall k :: 0 <= k < r.value - 1 ==> rows[k].name != name
  {
    if rows == [] then None
    else
      var pre := rows[..|rows| - 1];
      match ArticleIdOf(pre, name)
      case Some(id) => Some(id)
      case None => if rows[|rows| - 1].name == name then Some(|rows|) else None
  }

  /** The first row carrying `name` is the one ArticleIdOf finds. */
  lemma {:induction false} FirstNamedId(rows: seq<ArticleRow>, name: string, k: nat)
    requires k < |rows| && rows[k].name == name && forall m :: 0 <= m < k ==> rows[m].name != name
    ensures ArticleIdOf(rows, name) == Some(k + 1)
  {
    assert Names(rows, ArticleName)[k] == name;
  }

  /** No row carrying `name`: ArticleIdOf finds none. */
  lemma {:induction false} NoNamedId(rows: seq<ArticleRow>, name: string)
    requires forall m :: 0 <= m < |rows| ==> rows[m].name != name
    ensures ArticleIdOf(rows, name) == None
  {
  }

  /** Every bookmark refers to an existing article. */
  predicate BookmarksValid(bookmarks: seq<Bookmark>, articleCount: nat) {
    forall k :: 0 <= k < |bookmarks| ==> 1 <= bookmarks[k].articleId <= articleCount
  }

  /** Some bookmark already refers to article `id`. */
  predicate Bookmarked(bookmarks: seq<Bookmark>, id: nat) {
    exists k :: 0 <= k < |bookmarks| && bookmarks[k].articleId == id
  }

  /** No two bookmarks refer to the same article. */
  predicate UniqueArticles(bookmarks: seq<Bookmark>) {
    forall i, j :: 0 <= i < j < |bookmarks| ==> bookmarks[i].articleId != bookmarks[j].articleId
  }

  /** The bookmarks table after some bookmarks were loaded, and how it went. */
  datatype Marked = Marked(bookmarks: seq<Bookmark>, res: Outcome<Failure>)

  /** One iteration of the bookmark loop. */
  function AddBookmark(rows: seq<ArticleRow>, bookmarks: seq<Bookmark>, b: BookmarkInput): Marked {
    match ArticleIdOf(rows, b.articleName)
    case None => Marked(bookmarks, Fail(UnknownArticle(b.articleName)))
    case Some(id) =>
      if Bookmarked(bookmarks, id) then Marked(bookmarks, Fail(DuplicateBookmark(id)))
      else Marked(bookmarks + [Bookmark(id, b.createdAt)], Pass)
  }

  /** The bookmark loop over `inputs` in file order; the first failure aborts. */
  function AddBookmarks(rows: seq<ArticleRow>, bookmarks: seq<Bookmark>, inputs: seq<BookmarkInput>): Marked {
    if inputs == [] then Marked(bookmarks, Pass)
    else
      var m := AddBookmarks(rows, bookmarks, inputs[..|inputs| - 1]);
      if m.res.Fail? then m else AddBookmark(rows, m.bookmarks, inputs[|inputs| - 1])
  }

  /** The bookmark loop after one more input. */
  lemma {:induction false} AddBookmarksStep(rows: seq<ArticleRow>, bookmarks: seq<Bookmark>, inputs: seq<BookmarkInput>, i: nat)
    requires i < |inputs|
    ensures var m := AddBookmarks(rows, bookmarks, inputs[..i]);
            AddBookmarks(rows, bookmarks, inputs[..i + 1]) == if m.res.Fail? then m else AddBookmark(rows, m.bookmarks, inputs[i])
  {
    assert inputs[..i + 1][..i] == inputs[..i];
  }

  /** Once the loop fails, later inputs change nothing. */
  lemma {:induction false} AddBookmarksPrefixFail(rows: seq<ArticleRow>, bookmarks: seq<Bookmark>, inputs: seq<BookmarkInput>,
                                                  i: nat)
    requires i <= |inputs| && AddBookmarks(rows, bookmarks, inputs[..i]).res.Fail?
    ensures AddBookmarks(rows, bookmarks, inputs) == AddBookmarks(rows, bookmarks, inputs[..i])
    decreases |inputs| - i
  {
    if i == |inputs| {
      assert inputs[..i] == inputs;
    } else {
      AddBookmarksStep(rows, bookmarks, inputs, i);
      AddBookmarksPrefixFail(rows, bookmarks, inputs, i + 1);
    }
  }

  /** The article names of `inputs`, in file order. */
  function InputNames(inputs: seq<BookmarkInput>): (r: seq<string>)
    ensures |r| == |inputs| && forall i :: 0 <= i < |inputs| ==> r[i] == inputs[i].articleName
  {
    if inputs == [] then [] else InputNames(inputs[..|inputs| - 1]) + [inputs[|inputs| - 1].articleName]
  }

  /** One bookmark keeps the table's integrity: every bookmark refers to an
      existing article, no article twice. */
  lemma {:induction false} AddBookmarkValid(rows: seq<ArticleRow>, bookmarks: seq<Bookmark>, b: BookmarkInput)
    requires BookmarksValid(bookmarks, |rows|) && UniqueArticles(bookmarks)
    ensures var m := AddBookmark(rows, bookmarks, b);
            BookmarksValid(m.bookmarks, |rows|) && UniqueArticles(m.bookmarks) && bookmarks <= m.bookmarks
  {
  }

  /** The bookmark loop keeps the table's integrity and only appends. */
  lemma {:induction false} AddBookmarksValid(rows: seq<ArticleRow>, bookmarks: seq<Bookmark>, inputs: seq<BookmarkInput>)
    requires BookmarksValid(bookmarks, |rows|) && UniqueArticles(bookmarks)
    ensures var m := AddBookmarks(rows, bookmarks, inputs);
            BookmarksValid(m.bookmarks, |rows|) && UniqueArticles(m.bookmarks) && bookmarks <= m.bookmarks
  {
    if inputs != [] {
      var pre := inputs[..|inputs| - 1];
      AddBookmarksValid(rows, bookmarks, pre);
      var m := AddBookmarks(rows, bookmarks, pre);
      if m.res.Pass? {
        AddBookmarkValid(rows, m.bookmarks, inputs[|inputs| - 1]);
      }
    }
  }

  /** What loading `inputs` into the new, empty bookmarks table achieves when
      every name is known: bookmark i refers to the article named by input i,
      with its creation time. */
  ghost predicate BookmarksOf(rows: seq<ArticleRow>, inputs: seq<BookmarkInput>, bookmarks: seq<Bookmark>) {
    && |bookmarks| == |inputs|
    && forall i :: 0 <= i < |inputs| ==>
         && 1 <= bookmarks[i].articleId <= |rows|
         && rows[bookmarks[i].articleId - 1].name == inputs[i].articleName
         && bookmarks[i].createdAt == inputs[i].createdAt
  }

  /** Every name of `inputs` is an article's name. */
  ghost predicate AllKnown(rows: seq<ArticleRow>, inputs: seq<BookmarkInput>) {
    forall i :: 0 <= i < |inputs| ==> inputs[i].articleName in Names(rows, ArticleName)
  }

  /**
   * With unique article names, loading bookmarks into the empty table passes
   * exactly when every name is an article's name and no name repeats; then
   * bookmark i refers to the article input i names.
   */
  lemma {:induction false} AddBookmarksPass(rows: seq<ArticleRow>, inputs: seq<BookmarkInput>)
    requires NoRepeats(Names(rows, ArticleName))
    ensures var m := AddBookmarks(rows, [], inputs);
            m.res.Pass? <==> AllKnown(rows, inputs) && NoRepeats(InputNames(inputs))
    ensures var m := AddBookmarks(rows, [], inputs);
            m.res.Pass? ==> BookmarksOf(rows, inputs, m.bookmarks)
  {
    if inputs != [] {
      var n := |inputs| - 1;
      var pre := inputs[..n];
      var b := inputs[n];
      AddBookmarksPass(rows, pre);
      NoRepeatsSnoc(InputNames(pre), b.articleName);
      AllKnownSnoc(rows, inputs);
      var m := AddBookmarks(rows, [], pre);
      if m.res.Pass? {
        AddOnePass(rows, pre, m.bookmarks, b);
        SplitLast(inputs);
      }
    }
  }

  lemma {:induction false} AllKnownSnoc(rows: seq<ArticleRow>, inputs: seq<BookmarkInput>)
    requires inputs != []
    ensures AllKnown(rows, inputs) <==>
              AllKnown(rows, inputs[..|inputs| - 1]) && inputs[|inputs| - 1].articleName in Names(rows, ArticleName)
  {
    var pre := inputs[..|inputs| - 1];
    assert forall i :: 0 <= i < |pre| ==> pre[i] == inputs[i];
  }

  /** One more bookmark after the loaded prefix `pre`. */
  lemma {:induction false} AddOnePass(rows: seq<ArticleRow>, pre: seq<BookmarkInput>, bookmarks: seq<Bookmark>,
                                      b: BookmarkInput)
    requires NoRepeats(Names(rows, ArticleName))
    requires BookmarksOf(rows, pre, bookmarks)
    ensures var m := AddBookmark(rows, bookmarks, b);
            && (m.res.Pass? <==> b.articleName in Names(rows, ArticleName) && b.articleName !in InputNames(pre))
            && (m.res.Pass? ==> BookmarksOf(rows, pre + [b], m.bookmarks))
  {
    var r := ArticleIdOf(rows, b.articleName);
    if r.Some? {
      NamedIsBookmarked(rows, pre, bookmarks, b.articleName, r.value);
      var m := AddBookmark(rows, bookmarks, b);
      if m.res.Pass? {
        BookmarksOfSnoc(rows, pre, bookmarks, b, r.value);
      }
    }
  }

  lemma {:induction false} BookmarksOfSnoc(rows: seq<ArticleRow>, pre: seq<BookmarkInput>, bookmarks: seq<Bookmark>,
                                           b: BookmarkInput, id: nat)
    requires BookmarksOf(rows, pre, bookmarks)
    requires 1 <= id <= |rows| && rows[id - 1].name == b.articleName
    ensures BookmarksOf(rows, pre + [b], bookmarks + [Bookmark(id, b.createdAt)])
  {
    var ins := pre + [b];
    var bms := bookmarks + [Bookmark(id, b.createdAt)];
    forall i | 0 <= i < |ins|
      ensures 1 <= bms[i].articleId <= |rows| && rows[bms[i].articleId - 1].name == ins[i].articleName
      ensures bms[i].createdAt == ins[i].createdAt
    {
      if i < |pre| {
        assert bms[i] == bookmarks[i] && ins[i] == pre[i];
      }
    }
  }

  /** With unique article names, an article already has a bookmark exactly
      when an earlier input named it. */
  lemma {:induction false} NamedIsBookmarked(rows: seq<ArticleRow>, pre: seq<BookmarkInput>, bookmarks: seq<Bookmark>,
                                             name: string, id: nat)
    requires NoRepeats(Names(rows, ArticleName)) && BookmarksOf(rows, pre, bookmarks)
    requires 1 <= id <= |rows| && rows[id - 1].name == name
    ensures name in InputNames(pre) <==> Bookmarked(bookmarks, id)
  {
    if Bookmarked(bookmarks, id) {
      BookmarkedIsNamed(rows, pre, bookmarks, name, id);
    }
    if name in InputNames(pre) {
      var k :| 0 <= k < |pre| && InputNames(pre)[k] == name;
      NamedInputIsBookmarked(rows, pre, bookmarks, k, name, id);
    }
  }

  lemma {:induction false} BookmarkedIsNamed(rows: seq<ArticleRow>, pre: seq<BookmarkInput>, bookmarks: seq<Bookmark>,
                                             name: string, id: nat)
    requires BookmarksOf(rows, pre, bookmarks) && Bookmarked(bookmarks, id)
    requires 1 <= id <= |rows| && rows[id - 1].name == name
    ensures name in InputNames(pre)
  {
    var k :| 0 <= k < |bookmarks| && bookmarks[k].articleId == id;
    assert pre[k].articleName == name;
    assert InputNames(pre)[k] == name;
  }

  lemma {:induction false} NamedInputIsBookmarked(rows: seq<ArticleRow>, pre: seq<BookmarkInput>,
                                                  bookmarks: seq<Bookmark>, k: nat, name: string, id: nat)
    requires NoRepeats(Names(rows, ArticleName)) && BookmarksOf(rows, pre, bookmarks)
    requires k < |pre| && InputNames(pre)[k] == name
    requires 1 <= id <= |rows| && rows[id - 1].name == name
    ensures Bookmarked(bookmarks, id)
  {
    var other := bookmarks[k].articleId;
    assert rows[other - 1].name == pre[k].articleName;
    SameNameSameId(rows, other, id, name);
  }
}
