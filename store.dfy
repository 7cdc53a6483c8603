/**
 * The guide database as one store object: every table the packager creates
 * is a field, and the packager's insert and fetch helpers and its loading
 * loops are methods that change those fields in place. Row ids are
 * positions: the row at index i of a table has id i + 1, as SQLite assigns
 * rowids to a table that is only ever appended to.
 */
module Store {
  import opened Wrappers
  import opened Tables
  import opened Paths
  import opened TagLinks
  import opened Owners
  import opened Articles
  import opened Bookmarks
  import opened Media
  import opened Blocks
  import opened Search
  import opened Directory

  /** The two link tables between tags and their owners. */
  datatype LinkTable = TagsCategories | TagsArticles

  /** A category of `categories.json`. */
  datatype CategoryInput = CategoryInput(name: string, icon: string, description: string, tags: seq<string>)

  /** An article file of the `articles` directory. */
  datatype ArticleInput = ArticleInput(name: string, icon: string, title: string, synopsis: string,
                                       content: seq<RawBlock>, tags: seq<string>)

  /** The row stored for a category: its icon is rewritten to the path the app
      uses, `guides/<guide name>/<icon>`. */
  function CategoryRow(guideName: string, c: CategoryInput): Category {
    Category(c.name, AssetPath(guideName, c.icon), c.description)
  }

  /** The row stored for an article, with its content column. */
  function ArticleRowOf(guideName: string, a: ArticleInput): ArticleRow {
    Raw(a.name, AssetPath(guideName, a.icon), a.title, a.synopsis, a.content)
  }

  function CategoryRows(guideName: string, cats: seq<CategoryInput>): (r: seq<Category>)
    ensures |r| == |cats| && forall k :: 0 <= k < |cats| ==> r[k] == CategoryRow(guideName, cats[k])
  {
    if cats == [] then [] else CategoryRows(guideName, cats[..|cats| - 1]) + [CategoryRow(guideName, cats[|cats| - 1])]
  }

  function ArticleRows(guideName: string, arts: seq<ArticleInput>): (r: seq<ArticleRow>)
    ensures |r| == |arts| && forall k :: 0 <= k < |arts| ==> r[k] == ArticleRowOf(guideName, arts[k])
  {
    if arts == [] then [] else ArticleRows(guideName, arts[..|arts| - 1]) + [ArticleRowOf(guideName, arts[|arts| - 1])]
  }

  function CategoryName(c: Category): string { c.name }

  /** The tag lists of the inputs are `Names(inputs, CategoryTagsOf)` and
      `Names(inputs, ArticleTagsOf)`. */
  const CategoryTagsOf := (c: CategoryInput) => c.tags
  const ArticleTagsOf := (a: ArticleInput) => a.tags

  /**
   * The store's integrity on its tables' values: tag, category and article
   * names are unique, and so are link pairs and bookmarked articles; every
   * link and bookmark refers to an existing row; and the article rows have the
   * shape of the articles table's current schema. The block tables' integrity
   * is stated separately (`Blocks.Dense`, `Blocks.AppendAllDense`).
   */
  ghost predicate StoreValid(cats: Tagged<Category>, arts: Tagged<ArticleRow>, contentColumn: bool, bookmarks: seq<Bookmark>) {
    && cats.tags == arts.tags
    && TaggedValid(cats, CategoryName) && TaggedValid(arts, ArticleName)
    && (forall i :: 0 <= i < |arts.rows| ==> arts.rows[i].Raw? == contentColumn)
    && BookmarksValid(bookmarks, |arts.rows|) && UniqueArticles(bookmarks)
  }

  /** Loading categories, up to where the load stopped, keeps the store's
      integrity and only appends to the categories' tables. */
  lemma {:induction false} CategoriesLoadedValid(cats: Tagged<Category>, arts: Tagged<ArticleRow>, contentColumn: bool, bookmarks: seq<Bookmark>,
                              rows: seq<Category>, orders: seq<seq<string>>, cats': Tagged<Category>)
    requires StoreValid(cats, arts, contentColumn, bookmarks)
    requires |orders| <= |rows| && OrdersDistinct(orders)
    requires cats' == AddOwners(cats, CategoryName, "categories", rows[..|orders|], orders).t
    ensures StoreValid(cats', Tagged(arts.rows, cats'.tags, arts.links), contentColumn, bookmarks)
    ensures Extends(cats, cats')
  {
    AddOwnersLoadedValid(cats, CategoryName, "categories", rows, orders, cats');
    LinksGrowTags(arts.links, |arts.tags|, |cats'.tags|, |arts.rows|);
  }

  /** Loading articles with their content column, up to where the load
      stopped, keeps the store's integrity and only appends to the articles'
      tables. */
  lemma {:induction false} ArticlesLoadedValid(cats: Tagged<Category>, arts: Tagged<ArticleRow>, bookmarks: seq<Bookmark>,
                            rows: seq<ArticleRow>, orders: seq<seq<string>>, arts': Tagged<ArticleRow>)
    requires StoreValid(cats, arts, true, bookmarks)
    requires |orders| <= |rows| && OrdersDistinct(orders)
    requires forall k :: 0 <= k < |rows| ==> rows[k].Raw?
    requires arts' == AddOwners(arts, ArticleName, "articles", rows[..|orders|], orders).t
    ensures StoreValid(Tagged(cats.rows, arts'.tags, cats.links), arts', true, bookmarks)
    ensures Extends(arts, arts')
  {
    AddOwnersLoadedValid(arts, ArticleName, "articles", rows, orders, arts');
    LinksGrowTags(cats.links, |cats.tags|, |arts'.tags|, |cats.rows|);
    forall k | |arts.rows| <= k < |arts'.rows| ensures arts'.rows[k].Raw? {
      var j :| 0 <= j < |rows| && rows[j] == arts'.rows[k];
    }
  }

  /** Dropping the content column keeps the store's integrity, now with the
      rows of the rebuilt table. */
  lemma {:induction false} DroppedValid(cats: Tagged<Category>, arts: Tagged<ArticleRow>, bookmarks: seq<Bookmark>)
    requires StoreValid(cats, arts, true, bookmarks)
    ensures StoreValid(cats, Tagged(NarrowAll(arts.rows), arts.tags, arts.links), false, bookmarks)
  {
    DropKeepsColumns(arts.rows);
  }

  /** What the block loop decodes with: the name-to-id map is built from the
      articles fetched with their content. */
  function ContentEnv(guideName: string, guidePath: string, rows: seq<ArticleRow>, probe: Prober): Env {
    Env(guideName, guidePath, NameIds(rows), probe)
  }

  class GuideStore {
    var categories: seq<Category>
    var tags: seq<string>
    var tagsCategories: seq<Link>
    var articles: seq<ArticleRow>
    /** Whether the articles table still has its content column. */
    var contentColumn: bool
    var tagsArticles: seq<Link>
    var subtitleBlocks: seq<string>
    var paragraphBlocks: seq<string>
    var imageBlocks: seq<ImageRow>
    var audioBlocks: seq<AudioRow>
    var videoBlocks: seq<VideoRow>
    var articlesBlocks: seq<BlockOrderRow>
    var search: seq<SearchRow>
    var bookmarks: seq<Bookmark>

    /** The store's integrity, on the current tables. */
    ghost predicate Valid()
      reads this`categories, this`tags, this`tagsCategories, this`articles, this`tagsArticles, this`contentColumn, this`bookmarks
    {
      StoreValid(CategoryTables(), ArticleTables(), contentColumn, bookmarks)
    }

    /** The categories with the tags and their links. */
    function CategoryTables(): Tagged<Category>
      reads this`categories, this`tags, this`tagsCategories
    {
      Tagged(categories, tags, tagsCategories)
    }

    /** The articles with the tags and their links. */
    function ArticleTables(): Tagged<ArticleRow>
      reads this`articles, this`tags, this`tagsArticles
    {
      Tagged(articles, tags, tagsArticles)
    }

    /** The five block tables. */
    function Blocks(): BlockTables
      reads this`subtitleBlocks, this`paragraphBlocks, this`imageBlocks, this`audioBlocks, this`videoBlocks
    {
      BlockTables(subtitleBlocks, paragraphBlocks, imageBlocks, audioBlocks, videoBlocks)
    }

    function Links(table: LinkTable): seq<Link>
      reads this`tagsCategories, this`tagsArticles
    {
      match table
      case TagsCategories => tagsCategories
      case TagsArticles => tagsArticles
    }

    /** A new guide.db with every table created and empty. */
    constructor ()
      ensures Valid()
      ensures categories == [] && tags == [] && tagsCategories == []
      ensures articles == [] && contentColumn && tagsArticles == []
      ensures Blocks() == EmptyBlockTables && articlesBlocks == []
      ensures search == [] && bookmarks == []
    {
      categories, tags, tagsCategories := [], [], [];
      articles, contentColumn, tagsArticles := [], true, [];
      subtitleBlocks, paragraphBlocks, imageBlocks, audioBlocks, videoBlocks := [], [], [], [], [];
      articlesBlocks, search, bookmarks := [], [], [];
    }

    // ------------------------------------------------------------ tags

    /** `_fetchone_from_tags_where_name`: the id of the first tag with this name. */
    method FetchTagByName(name: string) returns (r: Option<nat>)
      ensures r.Some? ==> 1 <= r.value <= |tags| && tags[r.value - 1] == name
      ensures r.Some? ==> forall k :: 0 <= k < r.value - 1 ==> tags[k] != name
      ensures r.None? <==> name !in tags
    {
      var k := 0;
      while k < |tags|
        invariant 0 <= k <= |tags|
        invariant forall m :: 0 <= m < k ==> tags[m] != name
      {
        if tags[k] == name {
          return Some(k + 1);
        }
        k := k + 1;
      }
      return None;
    }

    /** `_insert_into_tags`; the UNIQUE name constraint rejects a repeated name. */
    method InsertTag(name: string) returns (r: Result<nat, Failure>)
      modifies this`tags
      ensures name in old(tags) ==> r == Err(DuplicateName("tags", name)) && tags == old(tags)
      ensures name !in old(tags) ==> r == Ok(|old(tags)| + 1) && tags == old(tags) + [name]
    {
      if name in tags {
        return Err(DuplicateName("tags", name));
      }
      tags := tags + [name];
      return Ok(|tags|);
    }

    /** Look the tag up by name and insert it only when missing. */
    method InternTag(name: string) returns (id: nat)
      modifies this`tags
      ensures Interned(tags, id) == Intern(old(tags), name)
    {
      var found := FetchTagByName(name);
      if found.Some? {
        return found.value;
      }
      var inserted := InsertTag(name);
      if inserted.Err? {
        assert false;
      }
      id := inserted.value;
    }

    /** `_insert_into_tags_categories` / `_insert_into_tags_articles`; the
        UNIQUE(tag_id, owner_id) constraint rejects a repeated link. */
    method InsertLink(table: LinkTable, tagId: nat, ownerId: nat) returns (res: Outcome<Failure>)
      modifies this`tagsCategories, this`tagsArticles
      ensures Link(tagId, ownerId) in old(Links(table)) ==> res == Fail(DuplicateLink(tagId, ownerId)) && Links(table) == old(Links(table))
      ensures Link(tagId, ownerId) !in old(Links(table)) ==> res == Pass && Links(table) == old(Links(table)) + [Link(tagId, ownerId)]
      ensures table.TagsCategories? ==> tagsArticles == old(tagsArticles)
      ensures table.TagsArticles? ==> tagsCategories == old(tagsCategories)
    {
      var l := Link(tagId, ownerId);
      match table
      case TagsCategories =>
        if l in tagsCategories { return Fail(DuplicateLink(tagId, ownerId)); }
        tagsCategories := tagsCategories + [l];
        res := Pass;
      case TagsArticles =>
        if l in tagsArticles { return Fail(DuplicateLink(tagId, ownerId)); }
        tagsArticles := tagsArticles + [l];
        res := Pass;
    }

    /** One iteration of the tag loop: intern the tag, then link it to the owner. */
    method LinkTag(table: LinkTable, ownerId: nat, name: string) returns (res: Outcome<Failure>)
      modifies this`tags, this`tagsCategories, this`tagsArticles
      ensures Linking(tags, Links(table), res) == LinkOne(old(tags), old(Links(table)), ownerId, name)
      ensures table.TagsCategories? ==> tagsArticles == old(tagsArticles)
      ensures table.TagsArticles? ==> tagsCategories == old(tagsCategories)
    {
      var id := InternTag(name);
      res := InsertLink(table, id, ownerId);
    }

    /**
     * The tag loop of the category and article loaders, over a set of names
     * visited in an unspecified order, as iteration over a Python set is; the
     * ghost `order` records the order taken. The lemmas on LinkNames give
     * what the loop achieves.
     */
    method StoreTags(table: LinkTable, ownerId: nat, names: set<string>) returns (res: Outcome<Failure>, ghost order: seq<string>)
      modifies this`tags, this`tagsCategories, this`tagsArticles
      ensures NoRepeats(order) && (forall t :: t in order ==> t in names)
      ensures res.Pass? ==> forall t :: t in names ==> t in order
      ensures Linking(tags, Links(table), res) == LinkNames(old(tags), old(Links(table)), ownerId, order)
      ensures table.TagsCategories? ==> tagsArticles == old(tagsArticles)
      ensures table.TagsArticles? ==> tagsCategories == old(tagsCategories)
    {
      order := [];
      var remaining := names;
      res := Pass;
      while remaining != {}
        invariant forall t :: t in names <==> t in remaining || t in order
        invariant forall t :: t in remaining ==> t !in order
        invariant NoRepeats(order)
        invariant Linking(tags, Links(table), res) == LinkNames(old(tags), old(Links(table)), ownerId, order)
        invariant res.Pass?
        invariant table.TagsCategories? ==> tagsArticles == old(tagsArticles)
        invariant table.TagsArticles? ==> tagsCategories == old(tagsCategories)
        decreases remaining
      {
        var name :| name in remaining;
        res := LinkTag(table, ownerId, name);
        assert (order + [name])[..|order|] == order;
        order := order + [name];
        if res.Fail? {
          return;
        }
        remaining := remaining - {name};
      }
    }

    // ------------------------------------------------------------ categories

    /** `_insert_into_categories`; the UNIQUE name constraint rejects a
        repeated category name. */
    method InsertCategory(row: Category) returns (r: Result<nat, Failure>)
      modifies this`categories
      ensures row.name in Names(old(categories), CategoryName) ==>
                r == Err(DuplicateName("categories", row.name)) && categories == old(categories)
      ensures row.name !in Names(old(categories), CategoryName) ==>
                r == Ok(|old(categories)| + 1) && categories == old(categories) + [row]
    {
      var k := 0;
      while k < |categories|
        invariant 0 <= k <= |categories|
        invariant forall m :: 0 <= m < k ==> categories[m].name != row.name
      {
        if categories[k].name == row.name {
          assert Names(categories, CategoryName)[k] == row.name;
          return Err(DuplicateName("categories", row.name));
        }
        k := k + 1;
      }
      categories := categories + [row];
      return Ok(|categories|);
    }

    /** One category of `_store_guide_categories_in_db`: its row, then its
        distinct tags, interned and linked to it, in the order taken. */
    method StoreCategory(guideName: string, c: CategoryInput) returns (res: Outcome<Failure>, ghost order: seq<string>)
      modifies this`categories, this`tags, this`tagsCategories, this`tagsArticles
      ensures Load(CategoryTables(), res) == AddOwner(old(CategoryTables()), CategoryName, "categories", CategoryRow(guideName, c), order)
      ensures NoRepeats(order) && (forall x :: x in order ==> x in c.tags)
      ensures res.Pass? ==> Listing(order, c.tags)
      ensures tagsArticles == old(tagsArticles)
    {
      var inserted := InsertCategory(CategoryRow(guideName, c));
      if inserted.Err? {
        return Fail(inserted.error), [];
      }
      res, order := StoreTags(TagsCategories, inserted.value, set x | x in c.tags);
    }

    /**
     * `_store_guide_categories_in_db`: every category in file order, each
     * with its tags; the first failure aborts. `orders` holds the tag order
     * taken for each category reached.
     */
    method StoreCategories(guideName: string, cats: seq<CategoryInput>) returns (res: Outcome<Failure>, ghost orders: seq<seq<string>>)
      requires Valid()
      modifies this`categories, this`tags, this`tagsCategories, this`tagsArticles
      ensures Valid()
      ensures OrdersWithin(orders, Names(cats, CategoryTagsOf))
      ensures res.Pass? ==> |orders| == |cats| && OrdersList(orders, Names(cats, CategoryTagsOf))
      ensures Load(CategoryTables(), res) ==
                AddOwners(old(CategoryTables()), CategoryName, "categories", CategoryRows(guideName, cats)[..|orders|], orders)
      ensures articles == old(articles) && tagsArticles == old(tagsArticles)
    {
      ghost var t0 := CategoryTables();
      res, orders := StoreEachCategory(guideName, cats);
      ghost var t1 := CategoryTables();
      assert OrdersDistinct(orders);
      CategoriesLoadedValid(t0, old(ArticleTables()), contentColumn, bookmarks, CategoryRows(guideName, cats), orders, t1);
    }

    /** `_store_guide_categories_in_db` as the rest of the run relies on it:
        the store keeps its integrity and only the categories, the tags and
        their links change (see `StoreCategories` for what it loads). */
    method LoadCategories(guideName: string, cats: seq<CategoryInput>) returns (res: Outcome<Failure>)
      requires Valid()
      modifies this`categories, this`tags, this`tagsCategories, this`tagsArticles
      ensures Valid()
    {
      ghost var orders;
      res, orders := StoreCategories(guideName, cats);
    }

    /** The loop of `StoreCategories`. */
    method StoreEachCategory(guideName: string, cats: seq<CategoryInput>) returns (res: Outcome<Failure>, ghost orders: seq<seq<string>>)
      modifies this`categories, this`tags, this`tagsCategories, this`tagsArticles
      ensures OrdersWithin(orders, Names(cats, CategoryTagsOf))
      ensures res.Pass? ==> |orders| == |cats| && OrdersList(orders, Names(cats, CategoryTagsOf))
      ensures |orders| <= |cats|
      ensures Load(CategoryTables(), res) ==
                AddOwners(old(CategoryTables()), CategoryName, "categories", CategoryRows(guideName, cats)[..|orders|], orders)
      ensures tagsArticles == old(tagsArticles)
    {
      ghost var t0 := CategoryTables();
      ghost var rows := CategoryRows(guideName, cats);
      orders := [];
      res := Pass;
      var i := 0;
      while i < |cats| && res.Pass?
        invariant 0 <= i <= |cats| && |orders| == i
        invariant OrdersWithin(orders, Names(cats, CategoryTagsOf)) && (res.Pass? ==> OrdersList(orders, Names(cats, CategoryTagsOf)))
        invariant Load(CategoryTables(), res) == AddOwners(t0, CategoryName, "categories", rows[..i], orders)
        invariant tagsArticles == old(tagsArticles)
      {
        ghost var before := CategoryTables();
        ghost var order;
        assert Load(before, res) == AddOwners(t0, CategoryName, "categories", rows[..|orders|], orders);
        assert rows[|orders|] == CategoryRow(guideName, cats[i]);
        res, order := StoreCategory(guideName, cats[i]);
        ghost var next := Load(CategoryTables(), res);
        assert next == AddOwner(before, CategoryName, "categories", rows[|orders|], order);
        AddOwnersSnoc(t0, CategoryName, "categories", rows, orders, order, Load(before, Pass), next);
        OrdersSnoc(orders, Names(cats, CategoryTagsOf), order);
        orders := orders + [order];
        i := i + 1;
      }
    }

    // ------------------------------------------------------------ articles

    /** `_insert_into_articles`; the UNIQUE name constraint rejects a repeated
        article name, and once the content column is dropped the insert, which
        names it, fails. */
    method InsertArticle(row: ArticleRow) returns (r: Result<nat, Failure>)
      modifies this`articles
      ensures !contentColumn ==> r == Err(NoContentColumn) && articles == old(articles)
      ensures contentColumn && row.name in Names(old(articles), ArticleName) ==>
                r == Err(DuplicateName("articles", row.name)) && articles == old(articles)
      ensures contentColumn && row.name !in Names(old(articles), ArticleName) ==>
                r == Ok(|old(articles)| + 1) && articles == old(articles) + [row]
    {
      if !contentColumn {
        return Err(NoContentColumn);
      }
      var k := 0;
      while k < |articles|
        invariant 0 <= k <= |articles|
        invariant forall m :: 0 <= m < k ==> articles[m].name != row.name
      {
        if articles[k].name == row.name {
          assert Names(articles, ArticleName)[k] == row.name;
          return Err(DuplicateName("articles", row.name));
        }
        k := k + 1;
      }
      articles := articles + [row];
      return Ok(|articles|);
    }

    /** One article of `_fill_articles_tags_articles_tables`: its row, then its
        distinct tags, interned and linked to it, in the order taken. */
    method StoreArticle(guideName: string, a: ArticleInput) returns (res: Outcome<Failure>, ghost order: seq<string>)
      requires contentColumn
      modifies this`articles, this`tags, this`tagsCategories, this`tagsArticles
      ensures Load(ArticleTables(), res) == AddOwner(old(ArticleTables()), ArticleName, "articles", ArticleRowOf(guideName, a), order)
      ensures NoRepeats(order) && (forall x :: x in order ==> x in a.tags)
      ensures res.Pass? ==> Listing(order, a.tags)
      ensures tagsCategories == old(tagsCategories)
    {
      var inserted := InsertArticle(ArticleRowOf(guideName, a));
      if inserted.Err? {
        return Fail(inserted.error), [];
      }
      res, order := StoreTags(TagsArticles, inserted.value, set x | x in a.tags);
    }

    /**
     * `_fill_articles_tags_articles_tables`: every article file in the order
     * the directory listing gives, each with its tags; the first failure
     * aborts. `orders` holds the tag order taken for each article reached.
     */
    method StoreArticles(guideName: string, arts: seq<ArticleInput>) returns (res: Outcome<Failure>, ghost orders: seq<seq<string>>)
      requires Valid()
      modifies this`articles, this`tags, this`tagsCategories, this`tagsArticles
      ensures Valid()
      ensures !contentColumn ==> ArticleTables() == old(ArticleTables()) && orders == [] && (res.Pass? <==> arts == [])
      ensures OrdersWithin(orders, Names(arts, ArticleTagsOf))
      ensures res.Pass? ==> |orders| == |arts| && OrdersList(orders, Names(arts, ArticleTagsOf))
      ensures contentColumn ==>
                Load(ArticleTables(), res) == AddOwners(old(ArticleTables()), ArticleName, "articles", ArticleRows(guideName, arts)[..|orders|], orders)
      ensures categories == old(categories) && tagsCategories == old(tagsCategories)
    {
      orders := [];
      res := Pass;
      if !contentColumn {
        // every insert names the content column: the first article fails
        if arts != [] {
          var inserted := InsertArticle(ArticleRowOf(guideName, arts[0]));
          res := Fail(inserted.error);
        }
      } else {
        res, orders := StoreArticlesWithContent(guideName, arts);
      }
    }

    /** `StoreArticles` on a table that has its content column. */
    method StoreArticlesWithContent(guideName: string, arts: seq<ArticleInput>)
      returns (res: Outcome<Failure>, ghost orders: seq<seq<string>>)
      requires Valid() && contentColumn
      modifies this`articles, this`tags, this`tagsCategories, this`tagsArticles
      ensures Valid()
      ensures OrdersWithin(orders, Names(arts, ArticleTagsOf))
      ensures res.Pass? ==> |orders| == |arts| && OrdersList(orders, Names(arts, ArticleTagsOf))
      ensures Load(ArticleTables(), res) == AddOwners(old(ArticleTables()), ArticleName, "articles", ArticleRows(guideName, arts)[..|orders|], orders)
      ensures categories == old(categories) && tagsCategories == old(tagsCategories)
    {
      ghost var t0 := ArticleTables();
      res, orders := StoreEachArticle(guideName, arts);
      ghost var t1 := ArticleTables();
      assert OrdersDistinct(orders);
      ArticlesLoadedValid(old(CategoryTables()), t0, bookmarks, ArticleRows(guideName, arts), orders, t1);
    }

    /** The loop of `StoreArticles` while the content column is there. */
    method StoreEachArticle(guideName: string, arts: seq<ArticleInput>) returns (res: Outcome<Failure>, ghost orders: seq<seq<string>>)
      requires contentColumn
      modifies this`articles, this`tags, this`tagsCategories, this`tagsArticles
      ensures OrdersWithin(orders, Names(arts, ArticleTagsOf)) && |orders| <= |arts|
      ensures res.Pass? ==> |orders| == |arts| && OrdersList(orders, Names(arts, ArticleTagsOf))
      ensures Load(ArticleTables(), res) == AddOwners(old(ArticleTables()), ArticleName, "articles", ArticleRows(guideName, arts)[..|orders|], orders)
      ensures categories == old(categories) && tagsCategories == old(tagsCategories)
    {
      orders := [];
      res := Pass;
      ghost var t0 := ArticleTables();
      ghost var rows := ArticleRows(guideName, arts);
      var i := 0;
      while i < |arts| && res.Pass?
        invariant 0 <= i <= |arts| && |orders| == i
        invariant OrdersWithin(orders, Names(arts, ArticleTagsOf)) && (res.Pass? ==> OrdersList(orders, Names(arts, ArticleTagsOf)))
        invariant Load(ArticleTables(), res) == AddOwners(t0, ArticleName, "articles", rows[..i], orders)
        invariant tagsCategories == old(tagsCategories)
      {
        ghost var before := ArticleTables();
        ghost var order;
        assert Load(before, res) == AddOwners(t0, ArticleName, "articles", rows[..|orders|], orders);
        assert rows[|orders|] == ArticleRowOf(guideName, arts[i]);
        res, order := StoreArticle(guideName, arts[i]);
        ghost var next := Load(ArticleTables(), res);
        assert next == AddOwner(before, ArticleName, "articles", rows[|orders|], order);
        AddOwnersSnoc(t0, ArticleName, "articles", rows, orders, order, Load(before, Pass), next);
        OrdersSnoc(orders, Names(arts, ArticleTagsOf), order);
        orders := orders + [order];
        i := i + 1;
      }
    }
    // ------------------------------------------------------------ blocks

    /** `_insert_into_subtitle_blocks` and its siblings: the block goes into
        its own table and the new row's id is returned. */
    method InsertBlock(b: Block) returns (id: nat)
      modifies this`subtitleBlocks, this`paragraphBlocks, this`imageBlocks, this`audioBlocks, this`videoBlocks
      ensures id == old(Blocks()).NextId(b) && Blocks() == old(Blocks()).Insert(b)
    {
      match b
      case Subtitle(t) =>
        subtitleBlocks := subtitleBlocks + [t];
        id := |subtitleBlocks|;
      case Paragraph(t) =>
        paragraphBlocks := paragraphBlocks + [t];
        id := |paragraphBlocks|;
      case Image(row) =>
        imageBlocks := imageBlocks + [row];
        id := |imageBlocks|;
      case Audio(row) =>
        audioBlocks := audioBlocks + [row];
        id := |audioBlocks|;
      case Video(row) =>
        videoBlocks := videoBlocks + [row];
        id := |videoBlocks|;
    }

    /** `_insert_into_articles_blocks`; the UNIQUE constraint over all four
        columns rejects a repeated row. */
    method InsertOrderRow(row: BlockOrderRow) returns (res: Outcome<Failure>)
      modifies this`articlesBlocks
      ensures row in old(articlesBlocks) ==> res == Fail(DuplicateOrderRow(row)) && articlesBlocks == old(articlesBlocks)
      ensures row !in old(articlesBlocks) ==> res == Pass && articlesBlocks == old(articlesBlocks) + [row]
    {
      if row in articlesBlocks {
        return Fail(DuplicateOrderRow(row));
      }
      articlesBlocks := articlesBlocks + [row];
      res := Pass;
    }

    /**
     * The inner loop of `_fill_articles_content_block_tables` for the article
     * with id `aid`: each block in order is decoded; a video's cover frame is
     * extracted once its aspect ratio is read; a recognized block is inserted
     * into its table and gets an `articles_blocks` row with the running
     * order. When it passes, the tables hold exactly what `Append` gives for
     * the decoded blocks, and every video's cover exists; a failure is a
     * decoding failure of the article or a failed extraction.
     */
    method NormalizeArticle(aid: nat, content: seq<RawBlock>, env: Env, dir: GuideDirectory) returns (res: Outcome<Failure>)
      requires aid >= 1 && RowsOwnedBy(articlesBlocks, aid - 1)
      modifies this`subtitleBlocks, this`paragraphBlocks, this`imageBlocks, this`audioBlocks, this`videoBlocks
      modifies this`articlesBlocks, dir`files
      ensures DecodeAll(content, env).Err? ==> res.Fail?
      ensures res.Fail? && !res.error.CoverExtractionFailed? ==> DecodeAll(content, env) == Err(res.error)
      ensures res.Fail? && res.error.CoverExtractionFailed? ==>
                exists j :: 0 <= j < |content| && CoverDue(content[j], env) &&
                            res.error.path == CoverOutput(env, content[j]["source"])
      ensures res.Pass? ==>
                && DecodeAll(content, env).Ok?
                && Blocks() == Append(old(Blocks()), aid, DecodeAll(content, env).value).tables
                && articlesBlocks == old(articlesBlocks) + Append(old(Blocks()), aid, DecodeAll(content, env).value).rows
      ensures res.Pass? ==> CoversPresent(content, env, dir.files)
      ensures old(dir.files) <= dir.files
    {
      ghost var bt0 := Blocks();
      ghost var rows0 := articlesBlocks;
      ghost var done: seq<Block> := [];
      var order := 0;
      var i := 0;
      while i < |content|
        invariant 0 <= i <= |content| && order == |done|
        invariant DecodeAll(content[..i], env) == Ok(done)
        invariant Blocks() == Append(bt0, aid, done).tables
        invariant articlesBlocks == rows0 + Append(bt0, aid, done).rows
        invariant old(dir.files) <= dir.files
        invariant CoversPresent(content[..i], env, dir.files)
      {
        var added;
        res, added, done := NormalizeNext(aid, order, content, i, env, dir, bt0, rows0, done);
        if res.Fail? {
          return;
        }
        if added {
          order := order + 1;
        }
        i := i + 1;
      }
      assert content[..i] == content;
      res := Pass;
    }

    /** Block i of the article, the blocks before it normalized. */
    method NormalizeNext(aid: nat, order: nat, content: seq<RawBlock>, i: nat, env: Env, dir: GuideDirectory,
                         ghost bt0: BlockTables, ghost rows0: seq<BlockOrderRow>, ghost done: seq<Block>)
      returns (res: Outcome<Failure>, added: bool, ghost done': seq<Block>)
      requires i < |content| && aid >= 1 && RowsOwnedBy(rows0, aid - 1) && order == |done|
      requires DecodeAll(content[..i], env) == Ok(done)
      requires Blocks() == Append(bt0, aid, done).tables && articlesBlocks == rows0 + Append(bt0, aid, done).rows
      requires CoversPresent(content[..i], env, dir.files)
      modifies this`subtitleBlocks, this`paragraphBlocks, this`imageBlocks, this`audioBlocks, this`videoBlocks
      modifies this`articlesBlocks, dir`files
      ensures res.Fail? && !res.error.CoverExtractionFailed? ==> DecodeAll(content, env) == Err(res.error)
      ensures res.Fail? && res.error.CoverExtractionFailed? ==>
                CoverDue(content[i], env) && res.error.path == CoverOutput(env, content[i]["source"])
      ensures res.Pass? ==>
                && DecodeAll(content[..i + 1], env) == Ok(done')
                && |done'| == (if added then order + 1 else order)
                && Blocks() == Append(bt0, aid, done').tables
                && articlesBlocks == rows0 + Append(bt0, aid, done').rows
                && CoversPresent(content[..i + 1], env, dir.files)
      ensures old(dir.files) <= dir.files
    {
      ghost var files := dir.files;
      DecodeAllStep(content, i, env);
      res, added, done' := NormalizeBlock(aid, order, content[i], env, dir, bt0, rows0, done);
      if res.Pass? {
        CoversPresentStep(content, i, env, files, dir.files);
      } else if !res.error.CoverExtractionFailed? {
        DecodeAllPrefixErr(content, i + 1, env);
      }
    }

    /**
     * One block of the inner loop, after the blocks `done` of the same
     * article: its cover when due, then its decoding and, when recognized,
     * its two inserts. `added` says whether a row was inserted.
     */
    method NormalizeBlock(aid: nat, order: nat, b: RawBlock, env: Env, dir: GuideDirectory, ghost bt0: BlockTables,
                          ghost rows0: seq<BlockOrderRow>, ghost done: seq<Block>)
      returns (res: Outcome<Failure>, added: bool, ghost done': seq<Block>)
      requires aid >= 1 && RowsOwnedBy(rows0, aid - 1) && order == |done|
      requires Blocks() == Append(bt0, aid, done).tables && articlesBlocks == rows0 + Append(bt0, aid, done).rows
      modifies this`subtitleBlocks, this`paragraphBlocks, this`imageBlocks, this`audioBlocks, this`videoBlocks
      modifies this`articlesBlocks, dir`files
      ensures Decode(b, env).Err? ==> res.Fail?
      ensures res.Fail? && !res.error.CoverExtractionFailed? ==> Decode(b, env) == Err(res.error)
      ensures res.Fail? && res.error.CoverExtractionFailed? ==>
                CoverDue(b, env) && res.error.path == CoverOutput(env, b["source"])
      ensures res.Pass? ==>
                && Decode(b, env).Ok? && added == Decode(b, env).value.Some?
                && done' == (if added then done + [Decode(b, env).value.value] else done)
                && Blocks() == Append(bt0, aid, done').tables
                && articlesBlocks == rows0 + Append(bt0, aid, done').rows
      ensures res.Pass? && CoverDue(b, env) ==> CoverOutput(env, b["source"]) in dir.files
      ensures old(dir.files) <= dir.files
    {
      added, done' := false, done;
      if CoverDue(b, env) {
        res := dir.ExtractCover(CoverInput(env, b["source"]), CoverOutput(env, b["source"]));
        if res.Fail? {
          return;
        }
      }
      var d := Decode(b, env);
      if d.Err? {
        return Fail(d.error), false, done;
      }
      if d.value.Some? {
        InsertDecoded(aid, order, d.value.value, bt0, rows0, done);
        added, done' := true, done + [d.value.value];
      }
      res := Pass;
    }

    /** The two inserts of a recognized block: its row in its own table, then
        its `articles_blocks` row, which is new, so the UNIQUE constraint holds. */
    method InsertDecoded(aid: nat, order: nat, block: Block, ghost bt0: BlockTables, ghost rows0: seq<BlockOrderRow>,
                         ghost done: seq<Block>)
      requires aid >= 1 && RowsOwnedBy(rows0, aid - 1) && order == |done|
      requires Blocks() == Append(bt0, aid, done).tables && articlesBlocks == rows0 + Append(bt0, aid, done).rows
      modifies this`subtitleBlocks, this`paragraphBlocks, this`imageBlocks, this`audioBlocks, this`videoBlocks
      modifies this`articlesBlocks
      ensures Blocks() == Append(bt0, aid, done + [block]).tables
      ensures articlesBlocks == rows0 + Append(bt0, aid, done + [block]).rows
    {
      var id := InsertBlock(block);
      var row := BlockOrderRow(aid, id, order, block.TypeName());
      NextRowFresh(bt0, aid, done, rows0, row);
      var res := InsertOrderRow(row);
      AppendSnoc(bt0, aid, done, block);
    }

    /**
     * `_fill_articles_content_block_tables`: the articles are fetched with
     * their content, each article's blocks are normalized in table order
     * under the article's id, and the content column is dropped. Without the
     * content column the fetch fails. When it passes, the block tables and
     * `articles_blocks` hold exactly what `AppendAll` gives for the decoded
     * articles, every due cover exists and the articles keep every other
     * column; a failure is a decoding failure of some article or a failed
     * extraction, and leaves the articles table as it was.
     */
    method FillContentBlockTables(guideName: string, guidePath: string, probe: Prober, dir: GuideDirectory)
      returns (res: Outcome<Failure>)
      requires Valid() && articlesBlocks == []
      modifies this`subtitleBlocks, this`paragraphBlocks, this`imageBlocks, this`audioBlocks, this`videoBlocks
      modifies this`articlesBlocks, this`articles, this`contentColumn, dir`files
      ensures Valid()
      ensures !old(contentColumn) ==>
                res == Fail(NoContentColumn) && Blocks() == old(Blocks()) && articlesBlocks == [] && articles == old(articles)
      ensures old(contentColumn) && DecodeArticles(Contents(old(articles)), ContentEnv(guideName, guidePath, old(articles), probe)).Err? ==>
                res.Fail?
      ensures old(contentColumn) && res.Fail? && !res.error.CoverExtractionFailed? ==>
                DecodeArticles(Contents(old(articles)), ContentEnv(guideName, guidePath, old(articles), probe)) == Err(res.error)
      ensures res.Pass? ==>
                var env := ContentEnv(guideName, guidePath, old(articles), probe);
                var decoded := DecodeArticles(Contents(old(articles)), env);
                && old(contentColumn) && decoded.Ok?
                && Blocks() == AppendAll(old(Blocks()), decoded.value).tables
                && articlesBlocks == AppendAll(old(Blocks()), decoded.value).rows
                && AllCoversPresent(Contents(old(articles)), env, dir.files)
      ensures res.Pass? ==> articles == NarrowAll(old(articles)) && !contentColumn
      ensures res.Fail? ==> articles == old(articles) && contentColumn == old(contentColumn)
      ensures old(dir.files) <= dir.files
    {
      if !contentColumn {
        return Fail(NoContentColumn);
      }
      var env := ContentEnv(guideName, guidePath, articles, probe);
      res := NormalizeArticles(env, dir);
      if res.Fail? {
        return;
      }
      DropContentColumn();
    }

    /** The outer loop of `_fill_articles_content_block_tables`: article p,
        the (p + 1)-th row fetched, has id p + 1 in the name-to-id map since
        names are unique. */
    method NormalizeArticles(env: Env, dir: GuideDirectory) returns (res: Outcome<Failure>)
      requires NoRepeats(Names(articles, ArticleName)) && env.ids == NameIds(articles) && articlesBlocks == []
      modifies this`subtitleBlocks, this`paragraphBlocks, this`imageBlocks, this`audioBlocks, this`videoBlocks
      modifies this`articlesBlocks, dir`files
      ensures DecodeArticles(Contents(articles), env).Err? ==> res.Fail?
      ensures res.Fail? && !res.error.CoverExtractionFailed? ==> DecodeArticles(Contents(articles), env) == Err(res.error)
      ensures res.Pass? ==>
                && DecodeArticles(Contents(articles), env).Ok?
                && Blocks() == AppendAll(old(Blocks()), DecodeArticles(Contents(articles), env).value).tables
                && articlesBlocks == AppendAll(old(Blocks()), DecodeArticles(Contents(articles), env).value).rows
                && AllCoversPresent(Contents(articles), env, dir.files)
      ensures old(dir.files) <= dir.files
    {
      var contents := Contents(articles);
      var ids := NameIds(articles);
      ghost var bt0 := Blocks();
      ghost var decoded: seq<seq<Block>> := [];
      var p := 0;
      while p < |articles|
        invariant 0 <= p <= |articles| && |decoded| == p
        invariant DecodeArticles(contents[..p], env) == Ok(decoded)
        invariant Blocks() == AppendAll(bt0, decoded).tables && articlesBlocks == AppendAll(bt0, decoded).rows
        invariant RowsOwnedBy(articlesBlocks, p)
        invariant AllCoversPresent(contents[..p], env, dir.files)
        invariant old(dir.files) <= dir.files
      {
        NameIdsOfUnique(articles, p);
        var aid := ids[articles[p].name];
        ghost var f := AppendAll(bt0, decoded);
        ghost var files := dir.files;
        DecodeArticlesStep(contents, p, env);
        res := NormalizeArticle(aid, contents[p], env, dir);
        if res.Fail? {
          if !res.error.CoverExtractionFailed? {
            DecodeArticlesPrefixErr(contents, p + 1, env);
          }
          return;
        }
        ghost var bs := DecodeAll(contents[p], env).value;
        AppendAllSnoc(bt0, decoded, bs);
        LastArticleOwned(f.tables, f.rows, p + 1, bs, Append(f.tables, p + 1, bs));
        AllCoversPresentStep(contents, p, env, files, dir.files);
        decoded := decoded + [bs];
        p := p + 1;
      }
      assert contents[..p] == contents;
      res := Pass;
    }

    /** `_alter_table_articles_drop_column_content`: the table is rebuilt
        with every column but `content`, ids kept. */
    method DropContentColumn()
      requires Valid() && contentColumn
      modifies this`articles, this`contentColumn
      ensures Valid()
      ensures articles == NarrowAll(old(articles)) && !contentColumn
    {
      DroppedValid(CategoryTables(), ArticleTables(), bookmarks);
      articles := NarrowAll(articles);
      contentColumn := false;
    }

    // ------------------------------------------------------------ search

    /** `_store_guide_articles_in_db`: the articles with their tags, then
        their content blocks and the search table. */
    method StoreGuideArticles(guideName: string, guidePath: string, arts: seq<ArticleInput>, probe: Prober,
                              dir: GuideDirectory) returns (res: Outcome<Failure>)
      requires Valid() && articlesBlocks == [] && Blocks() == EmptyBlockTables
      modifies this`articles, this`tags, this`tagsCategories, this`tagsArticles
      modifies this`subtitleBlocks, this`paragraphBlocks, this`imageBlocks, this`audioBlocks, this`videoBlocks
      modifies this`articlesBlocks, this`contentColumn, this`search, dir`files
      ensures Valid()
      ensures res.Pass? ==> !contentColumn && Searchable(articles, articlesBlocks, Blocks(), search)
    {
      res := LoadArticles(guideName, arts);
      if res.Fail? {
        return;
      }
      res := StoreContent(guideName, guidePath, probe, dir);
    }

    /** `_store_guide_articles_in_db` followed by the bookmark loop. */
    method StoreArticlesAndBookmarks(guideName: string, guidePath: string, arts: seq<ArticleInput>,
                                     marks: seq<BookmarkInput>, probe: Prober, dir: GuideDirectory)
      returns (res: Outcome<Failure>)
      requires Valid() && articlesBlocks == [] && Blocks() == EmptyBlockTables
      modifies this`articles, this`tags, this`tagsCategories, this`tagsArticles
      modifies this`subtitleBlocks, this`paragraphBlocks, this`imageBlocks, this`audioBlocks, this`videoBlocks
      modifies this`articlesBlocks, this`contentColumn, this`search, this`bookmarks, dir`files
      ensures Valid()
      ensures res.Pass? ==> !contentColumn && Searchable(articles, articlesBlocks, Blocks(), search)
    {
      res := StoreGuideArticles(guideName, guidePath, arts, probe, dir);
      if res.Fail? {
        return;
      }
      res := LoadBookmarks(marks);
    }

    /** The articles step of `_store_guide_articles_in_db` as the rest of the
        run relies on it: the store keeps its integrity and only the
        articles, the tags and their links change (see `StoreArticles` for
        what it loads). */
    method LoadArticles(guideName: string, arts: seq<ArticleInput>) returns (res: Outcome<Failure>)
      requires Valid()
      modifies this`articles, this`tags, this`tagsCategories, this`tagsArticles
      ensures Valid()
    {
      ghost var orders;
      res, orders := StoreArticles(guideName, arts);
    }

    /** The rest of `_store_guide_articles_in_db` once the articles are
        loaded: the block tables are filled, the content column dropped and
        the search table built. */
    method StoreContent(guideName: string, guidePath: string, probe: Prober, dir: GuideDirectory)
      returns (res: Outcome<Failure>)
      requires Valid() && articlesBlocks == [] && Blocks() == EmptyBlockTables
      modifies this`subtitleBlocks, this`paragraphBlocks, this`imageBlocks, this`audioBlocks, this`videoBlocks
      modifies this`articlesBlocks, this`articles, this`contentColumn, this`search, dir`files
      ensures Valid()
      ensures res.Pass? ==> !contentColumn && Searchable(articles, articlesBlocks, Blocks(), search)
    {
      ghost var decoded;
      res, decoded := FillBlocks(guideName, guidePath, probe, dir);
      if res.Fail? {
        return;
      }
      CreateAndFillSearch(decoded);
    }

    /** FillContentBlockTables as StoreContent sees it: on success the block
        tables hold what appending some decoded articles, one per row, to
        empty tables gives. */
    method FillBlocks(guideName: string, guidePath: string, probe: Prober, dir: GuideDirectory)
      returns (res: Outcome<Failure>, ghost decoded: seq<seq<Block>>)
      requires Valid() && articlesBlocks == [] && Blocks() == EmptyBlockTables
      modifies this`subtitleBlocks, this`paragraphBlocks, this`imageBlocks, this`audioBlocks, this`videoBlocks
      modifies this`articlesBlocks, this`articles, this`contentColumn, dir`files
      ensures Valid()
      ensures res.Pass? ==>
                && !contentColumn && |decoded| == |articles|
                && Blocks() == AppendAll(EmptyBlockTables, decoded).tables
                && articlesBlocks == AppendAll(EmptyBlockTables, decoded).rows
    {
      ghost var rows0 := articles;
      ghost var env := ContentEnv(guideName, guidePath, rows0, probe);
      res := FillContentBlockTables(guideName, guidePath, probe, dir);
      decoded := [];
      if res.Pass? {
        decoded := DecodeArticles(Contents(rows0), env).value;
      }
    }

    /** `_create_and_fill_article_block_search_table`: the full-text table
        holds the rows of `Index`, the sorted union of the title, synopsis
        and block-text selections. */
    method CreateAndFillSearch(ghost decoded: seq<seq<Block>>)
      requires Valid() && |decoded| == |articles|
      requires Blocks() == AppendAll(EmptyBlockTables, decoded).tables
      requires articlesBlocks == AppendAll(EmptyBlockTables, decoded).rows
      modifies this`search
      ensures Valid() && search == Index(articles, articlesBlocks, Blocks())
      ensures Searchable(articles, articlesBlocks, Blocks(), search)
    {
      search := Index(articles, articlesBlocks, Blocks());
      SearchableGuide(articles, decoded);
    }

    // ------------------------------------------------------------ bookmarks

    /** `_fetchone_from_articles_where_name(name)[0]`: the id of the article
        with this name, None when there is none. */
    method FetchArticleByName(name: string) returns (r: Option<nat>)
      ensures r == ArticleIdOf(articles, name)
    {
      var k := 0;
      while k < |articles|
        invariant 0 <= k <= |articles|
        invariant forall m :: 0 <= m < k ==> articles[m].name != name
      {
        if articles[k].name == name {
          r := Some(k + 1);
          FirstNamedId(articles, name, k);
          return;
        }
        k := k + 1;
      }
      r := None;
      NoNamedId(articles, name);
    }

    /** `_insert_into_bookmarks`; the UNIQUE constraint on `article_id`
        rejects a second bookmark of the same article. */
    method InsertBookmark(bm: Bookmark) returns (res: Outcome<Failure>)
      modifies this`bookmarks
      ensures Bookmarked(old(bookmarks), bm.articleId) ==>
                res == Fail(DuplicateBookmark(bm.articleId)) && bookmarks == old(bookmarks)
      ensures !Bookmarked(old(bookmarks), bm.articleId) ==> res == Pass && bookmarks == old(bookmarks) + [bm]
    {
      var k := 0;
      while k < |bookmarks|
        invariant 0 <= k <= |bookmarks|
        invariant forall m :: 0 <= m < k ==> bookmarks[m].articleId != bm.articleId
      {
        if bookmarks[k].articleId == bm.articleId {
          return Fail(DuplicateBookmark(bm.articleId));
        }
        k := k + 1;
      }
      bookmarks := bookmarks + [bm];
      res := Pass;
    }

    /**
     * `_store_guide_bookmarks_in_db`: the bookmarks table is created empty,
     * then every entry of `bookmarks.json` in file order is looked up by
     * article name and inserted; the first failure aborts. The table and the
     * outcome are those of `AddBookmarks`.
     */
    method StoreBookmarks(inputs: seq<BookmarkInput>) returns (res: Outcome<Failure>)
      requires Valid()
      modifies this`bookmarks
      ensures Valid()
      ensures Marked(bookmarks, res) == AddBookmarks(articles, [], inputs)
    {
      bookmarks := [];
      res := StoreEachBookmark(inputs);
      AddBookmarksValid(articles, [], inputs);
    }

    /** `_store_guide_bookmarks_in_db` as the end of the run sees it: the
        store keeps its integrity and only the bookmarks change (see
        `StoreBookmarks` for what it loads). */
    method LoadBookmarks(inputs: seq<BookmarkInput>) returns (res: Outcome<Failure>)
      requires Valid()
      modifies this`bookmarks
      ensures Valid()
    {
      res := StoreBookmarks(inputs);
    }

    /** The loop of `StoreBookmarks`, from the empty table. */
    method StoreEachBookmark(inputs: seq<BookmarkInput>) returns (res: Outcome<Failure>)
      requires bookmarks == []
      modifies this`bookmarks
      ensures Marked(bookmarks, res) == AddBookmarks(articles, [], inputs)
    {
      res := Pass;
      var i := 0;
      while i < |inputs|
        invariant 0 <= i <= |inputs|
        invariant Marked(bookmarks, Pass) == AddBookmarks(articles, [], inputs[..i])
        invariant res == Pass
      {
        AddBookmarksStep(articles, [], inputs, i);
        res := StoreBookmark(inputs[i]);
        if res.Fail? {
          AddBookmarksPrefixFail(articles, [], inputs, i + 1);
          return;
        }
        i := i + 1;
      }
      assert inputs[..i] == inputs;
    }

    /** One entry of `bookmarks.json`: the article is looked up by name (an
        unknown name aborts) and its bookmark inserted. */
    method StoreBookmark(b: BookmarkInput) returns (res: Outcome<Failure>)
      modifies this`bookmarks
      ensures Marked(bookmarks, res) == AddBookmark(articles, old(bookmarks), b)
    {
      var id := FetchArticleByName(b.articleName);
      if id.None? {
        return Fail(UnknownArticle(b.articleName));
      }
      res := InsertBookmark(Bookmark(id.value, b.createdAt));
    }
  }

  /** The articles' blocks and the search table as a reader of the guide
      finds them: `articles_blocks` densely ordered and owned by existing
      articles, and the search table the sorted union of the title, synopsis
      and block-text selections. */
  ghost predicate Searchable(articles: seq<ArticleRow>, rows: seq<BlockOrderRow>, bt: BlockTables, search: seq<SearchRow>) {
    && Dense(rows) && RowsOwnedBy(rows, |articles|)
    && search == Index(articles, rows, bt)
    && Sorted(search)
    && (forall x :: x in search <==> x in Union(articles, rows, bt))
  }

  /**
   * Inserting the decoded blocks of every article into empty block tables
   * leaves `articles_blocks` densely ordered and owned by the articles, and
   * the search table built from it is sorted by article and block order and
   * holds exactly the union of the title, synopsis and block-text selections.
   */
  lemma {:induction false} SearchableGuide(articles: seq<ArticleRow>, decoded: seq<seq<Block>>)
    requires |decoded| == |articles|
    ensures var f := AppendAll(EmptyBlockTables, decoded);
            Searchable(articles, f.rows, f.tables, Index(articles, f.rows, f.tables))
  {
    var f := AppendAll(EmptyBlockTables, decoded);
    AppendAllDense(EmptyBlockTables, decoded);
    AppendAllRows(EmptyBlockTables, decoded);
    IndexSorted(articles, f.rows, f.tables);
    IndexIsUnion(articles, f.rows, f.tables);
  }

  /**
   * `_store_guide_content_in_db`: a new `guide.db`, then the categories, the
   * articles, their content blocks, the search table and the bookmarks, the
   * first failure aborting the run. The store's integrity holds throughout;
   * when every step passes, the content column is gone, every article's
   * `articles_blocks` rows are densely ordered and belong to existing
   * articles, and the search table is the sorted union of the title,
   * synopsis and block-text selections. What each step loads is stated by
   * `StoreCategories`, `StoreArticles`, `FillContentBlockTables` and
   * `StoreBookmarks`.
   */
  method StoreGuideContent(guideName: string, guidePath: string, cats: seq<CategoryInput>, arts: seq<ArticleInput>,
                           marks: seq<BookmarkInput>, probe: Prober, dir: GuideDirectory)
    returns (db: GuideStore, res: Outcome<Failure>)
    modifies dir`files
    ensures fresh(db) && db.Valid()
    ensures res.Pass? ==> !db.contentColumn && Searchable(db.articles, db.articlesBlocks, db.Blocks(), db.search)
  {
    db := new GuideStore();
    res := db.LoadCategories(guideName, cats);
    if res.Fail? {
      return;
    }
    res := db.StoreArticlesAndBookmarks(guideName, guidePath, arts, marks, probe, dir);
  }
}
