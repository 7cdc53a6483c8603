# The guide packager's database load, in Dafny

This project models how `GuidePackager` turns a generated travel guide into its
SQLite database `guide.db`. The model covers the following steps, in order:

- the categories, with their tags interned into a shared `tags` table and
  linked through `tags_categories`;
- the articles, with their tags linked through `tags_articles`;
- the block loop, which splits each article's raw content into the five
  per-type block tables and the `articles_blocks` order table, and in doing so:
  - rewrites `[ref=<name>]` markers to article ids;
  - rewrites asset paths under `guides/<guide name>/`;
  - probes audio and video files;
  - extracts a cover frame for each video;
- dropping the articles' content column;
- building the full-text search table;
- the bookmarks.

How the model is built:

- **The database is a class.** `Store.GuideStore` holds one field per table.
  The packager's insert and fetch helpers and its loading loops are methods
  that change those fields in place. Each UNIQUE constraint becomes an error
  outcome of the insert that would break it.
- **Row ids are positions.** The row at index i of a table has id i + 1. This
  is the rowid SQLite gives to a table that is only ever appended to.
- **Loops are proved against folds.** Each loop is a method proved equal to a
  pure fold over its input:
  - `Owners.AddOwners` for the category and article loops;
  - `TagLinks.LinkNames` for a tag loop;
  - `Blocks.DecodeAll`, `Blocks.Append`, `Blocks.DecodeArticles` and
    `Blocks.AppendAll` for the block loop;
  - `Bookmarks.AddBookmarks` for the bookmark loop.

  The properties the packager relies on are lemmas about those folds:
  - tag names are unique, with one link row per distinct tag of an owner;
  - the owner's linked tags are exactly its listed tags;
  - block orders are dense (0, 1, … per article) and every order row points
    at the block it was decoded from;
  - the search table equals the union of its SELECTs, sorted by article and
    order;
  - the bookmark load succeeds exactly when every bookmarked name is an
    article and no article is bookmarked twice.
- **The foreign calls are oracles.** `ffmpeg.probe` is the parameter
  `Media.Prober`. Cover extraction is the `extract` oracle of
  `Directory.GuideDirectory`, whose `files` set stands for the staging
  directory.
- **Python set order is left open.** The iteration order of a Python `set`
  of tag names is a choice the model leaves open. It is returned as a ghost
  `order`, and what is proved holds for every such order.

Notes on behaviour, as the code has it:

- **Search rows.** The search table holds a row for every title, synopsis and
  block text, empty or not. The query filters nothing out.
- **Article ids.** Ids start at 1, so with articles `alpha` and `beta` loaded
  in that order, `[ref=beta]` becomes `[ref=2]`.
- **Unknown block types.** An unknown block type is skipped without an order
  row (`Blocks.Decode` returns `Ok(None)`).
- **Unknown bookmarked articles.** A bookmark naming an unknown article
  aborts the run (`UnknownArticle`).
- **Failures.** The following also abort the run:
  - a failed probe;
  - a video without a video stream;
  - a missing key in a block;
  - a failed cover extraction.

## Model

| member | source | states |
|---|---|---|
| Paths.Join | guide_packager.py:72 | posixpath join of two components: an absolute second component replaces the first, otherwise the result is the first, possibly a separator, then the second |
| Paths.AssetPathPrefix | guide_packager.py:281 | a relative asset path of a plainly named guide is stored as `guides/<guide name>/<path>` |
| Paths.SplitExtRoot | guide_packager.py:301 | the splitext root is a prefix of the path |
| Paths.CoverReplacesExtension | guide_packager.py:301 | the cover of `<stem>.<ext>` is `<stem>.png` when the file name has a stem and the extension has no dot or slash |
| Paths.CoverWithoutExtension | guide_packager.py:301 | a path without an extension gets `.png` appended for its cover |
| Media.VideoAspectRatio | guide_packager.py:299-300 | the aspect ratio is found iff the first video stream carries one, and is that stream's; every stream typed and none a video gives NoVideoStream (and only then); a stream without `codec_type` before the first video gives the `codec_type` KeyError (and only then); otherwise the `display_aspect_ratio` KeyError |
| TextRefs.StripBetween | guide_packager.py:395 | strip keeps exactly the part between the leading and trailing white space |
| TextRefs.StripTrimmed | guide_packager.py:395 | a stripped name is empty or neither starts nor ends with white space |
| TextRefs.StripUnpadded | guide_packager.py:395 | a name without surrounding white space is left as it is |
| TextRefs.StripIdempotent | guide_packager.py:395 | stripping a stripped name changes nothing |
| TextRefs.Decimal | guide_packager.py:400 | an id is written as a non-empty string of digits without a leading zero whose value is the id |
| TextRefs.CloseAt | guide_packager.py:403 | the lazy group ends at the first `]` after the name's start, with no `]` or line feed before it |
| TextRefs.MarkerAt | guide_packager.py:403 | a match starts with `[ref=` and ends at a `]` |
| TextRefs.MarkerMatches | guide_packager.py:403 | `[ref=<name>]` with a name free of `]` and line feeds matches up to its own `]` |
| TextRefs.ScanSpells | guide_packager.py:403 | splitting a text into kept characters and markers loses nothing: the pieces spell the text back |
| TextRefs.ScanIsLeftmost | guide_packager.py:403 | the split takes every match leftmost-first: markers have valid names and no match starts at a kept character |
| TextRefs.LeftmostIsScan | guide_packager.py:403 | the leftmost split is unique: any leftmost split of a text is the scan of that text |
| TextRefs.ReplacementIsMarker | guide_packager.py:394-401 | a replacement is itself exactly one marker, whose name is all digits, empty iff the stripped name is not a known article, and otherwise has the article's id as its value |
| TextRefs.ReplacementIgnoresPadding | guide_packager.py:394-401 | white space around a marker's name does not change what it becomes |
| TextRefs.RewritesMarker | guide_packager.py:393-404 | a marker at the front of a text is replaced and rewriting resumes after its `]` |
| TextRefs.KeepsCharacter | guide_packager.py:393-404 | a character where no match starts is kept and rewriting resumes after it |
| TextRefs.NoMarkerUnchanged | guide_packager.py:393-404 | a text in which `[ref=` never occurs is unchanged |
| TextRefs.CloserUnchanged | guide_packager.py:393-404 | a `[/ref]` closer passes through unchanged |
| TextRefs.StepChars | guide_packager.py:393-404 | characters other than `[` are kept as they are |
| TagLinks.FirstIndex | guide_packager.py:145-148 | the position of the first row with a given name |
| TagLinks.InternFinds | guide_packager.py:74-79 | interning yields a tag row holding the name, adds a row only for a new name, and keeps tag names unique |
| TagLinks.OneLinkPerName | guide_packager.py:129-135 | with unique tag names and unique links, two link rows of one owner name different tags |
| TagLinks.LinkOneKeepsValid | guide_packager.py:75-80 | one iteration of the tag loop keeps tag names and link rows unique and links pointing at existing tags, and only appends |
| TagLinks.LinkNamesKeepsValid | guide_packager.py:74-80 | the whole tag loop keeps that integrity, and the tags table grows only by the loop's names |
| TagLinks.LinkNamesNewOwner | guide_packager.py:74-80 | for a new owner and distinct names, the loop never trips UNIQUE, adds one link per name, and the owner's linked names are exactly the names |
| TagLinks.LinkNamesKeepsOthers | guide_packager.py:198-204 | the tag loop for one owner leaves every other owner's tags unchanged |
| Owners.AddOwnerValid | guide_packager.py:70-80 | loading one owner keeps unique names, unique tags and valid links, and only extends the tables |
| Owners.AddOwnerOutcome | guide_packager.py:70-80 | loading one owner fails exactly on a duplicate name, changing nothing; on success the new owner is linked to exactly its tags |
| Owners.AddOwnersValid | guide_packager.py:69-80 | the whole load keeps the tables' integrity and only extends them |
| Owners.AddOwnersRows | guide_packager.py:69-80 | the load appends only input rows, and all of them, in order, when it passes |
| Owners.AddOwnersPass | guide_packager.py:69-80 | the load passes iff the existing and new names together have no repeats |
| Owners.AddOwnersLinks | guide_packager.py:69-80 | after a passing load each new owner is linked to exactly the names its loop visited |
| Owners.AddOwnersLoadedValid | guide_packager.py:185-204 | a load stopped at any point leaves valid, extended tables holding only input rows |
| Owners.AddOwnersLoaded | guide_packager.py:185-204 | a load passes iff all names are distinct, and then appends every row and links owner i to exactly the set of its listed tags |
| Articles.NameIdsAt | guide_packager.py:268 | the name-to-id map holds exactly the fetched names, each mapped to the id of a row with that name |
| Articles.NameIdsOfUnique | guide_packager.py:268-270 | with unique names, article p's name maps to its own id p + 1 |
| Articles.SameNameSameId | guide_packager.py:168 | with unique names, two ids whose rows carry the same name are equal |
| Articles.Contents | guide_packager.py:267-271 | the content column, one entry per article in table order |
| Articles.NarrowAll | guide_packager.py:450-451 | the rebuilt table has one row per article, each the old row without content |
| Articles.DropKeepsColumns | guide_packager.py:441-454 | dropping the content column keeps every id, name, icon, title and synopsis and the names' uniqueness |
| Bookmarks.ArticleIdOf | guide_packager.py:466-469 | the lookup finds nothing iff no article has the name, else the id of the first article with it |
| Bookmarks.FirstNamedId | guide_packager.py:466-469 | the lookup returns the id of the first article with the name |
| Bookmarks.NoNamedId | guide_packager.py:466-469 | the lookup of a name no article has finds nothing |
| Bookmarks.AddBookmarkValid | guide_packager.py:472-475 | inserting a bookmark keeps bookmarks pointing at existing articles and at most one per article, and only appends |
| Bookmarks.AddBookmarksValid | guide_packager.py:105-107 | the bookmark loop keeps that integrity |
| Bookmarks.AddBookmarksPass | guide_packager.py:101-108 | the bookmark load passes iff every name is an article and no name repeats, and then bookmark i points at input i's article with its date |
| Bookmarks.NamedIsBookmarked | guide_packager.py:457-463 | after the load, an article is bookmarked iff its name was in the inputs |
| Bookmarks.BookmarkedIsNamed | guide_packager.py:457-463 | a bookmarked article's name was in the inputs |
| Bookmarks.NamedInputIsBookmarked | guide_packager.py:457-463 | an input's article is bookmarked |
| Blocks.Decode | guide_packager.py:273-319 | a block without a type is a KeyError, an unknown type is skipped, a decoded block has the block's type, and a decoded video had a source |
| Blocks.VideoCoverBesideSource | guide_packager.py:295-310 | a decoded video's source and cover are stored under the guide prefix, the cover beside the source with extension `.png` |
| Blocks.CoverDueDecode | guide_packager.py:294-311 | the cover is extracted exactly for a video block that gets past its aspect ratio; such a block then decodes to a video or misses only its caption |
| Blocks.RecognizedIndicesExact | guide_packager.py:273-319 | the recognized indices increase and are exactly the blocks whose type is one of the five tables |
| Blocks.DecodeAllKeepsRecognized | guide_packager.py:273-321 | one decoded block per recognized block: the j-th decoded block is the decoding of the j-th recognized raw block, with its type |
| Blocks.DecodeAllFailsOnAnyBlock | guide_packager.py:273-319 | one failing block fails its article |
| Blocks.InsertOneRow | guide_packager.py:385-432 | inserting a block adds one row to its own table only, and its id is that table's new size |
| Blocks.AppendRows | guide_packager.py:272-321 | an article's order rows number its blocks 0, 1, … with their types, and each points at its own block |
| Blocks.NextRowFresh | guide_packager.py:207-215 | the next order row of the loop is not yet in `articles_blocks`, so the UNIQUE constraint never fires |
| Blocks.AppendAllRows | guide_packager.py:266-321 | for every article, the order rows it owns point, in order, at its decoded blocks |
| Blocks.AppendAllDense | guide_packager.py:272-321 | every article's orders are dense from 0, and every row belongs to an existing article |
| Blocks.DecodeArticles | guide_packager.py:266-321 | on success, each article's entry is the decoding of its content |
| Blocks.DecodeArticlesFailsOnAny | guide_packager.py:266-321 | one failing article fails the loop |
| Tables.BlockTables.Insert | guide_packager.py:385-432 | inserting a block keeps every earlier row and puts the block at the id it is given |
| Search.IndexIsUnion | guide_packager.py:331-361 | when order rows belong to existing articles, the search rows are exactly the union of the title, synopsis and five block-text selections |
| Search.IndexSorted | guide_packager.py:362 | with dense order rows, the search rows are sorted by article id, then block order |
| Search.SortedUnique | guide_packager.py:362 | two sorted lists with the same members are equal, so the order is fixed by ORDER BY |
| Store.CategoryRows | guide_packager.py:70-73 | one category row per input, with its icon under the guide prefix |
| Store.ArticleRows | guide_packager.py:191-196 | one article row per input, with its icon under the guide prefix and its content |
| Store.CategoriesLoadedValid | guide_packager.py:63-81 | loading categories, up to where it stopped, keeps the store's integrity and only extends the categories' tables |
| Store.ArticlesLoadedValid | guide_packager.py:185-204 | loading articles, up to where it stopped, keeps the store's integrity and only extends the articles' tables |
| Store.DroppedValid | guide_packager.py:441-454 | dropping the content column keeps the store's integrity |
| Store.SearchableGuide | guide_packager.py:323-362 | after the block loop, order rows are dense and owned, and the search table is the sorted union of its selections |
| Store.StoreGuideContent | guide_packager.py:31-41 | a new database that keeps its integrity; when every step passes, the content column is gone and blocks and search are as the search property says |
| Store.GuideStore.constructor | guide_packager.py:34 | a new database with every table empty and the content column present |
| Store.GuideStore.FetchTagByName | guide_packager.py:145-148 | the id of the first tag with the name, or none iff no tag has it |
| Store.GuideStore.InsertTag | guide_packager.py:151-154 | a new tag row with the next id; a duplicate name fails and changes nothing |
| Store.GuideStore.InternTag | guide_packager.py:75-79 | fetch-or-insert of a tag agrees with `Intern` |
| Store.GuideStore.InsertLink | guide_packager.py:157-161 | a new link row in the chosen link table; an existing pair fails and changes nothing; the other link table is untouched |
| Store.GuideStore.LinkTag | guide_packager.py:75-80 | one tag-loop iteration agrees with `LinkOne` |
| Store.GuideStore.StoreTags | guide_packager.py:74-80 | the tag loop visits each distinct tag once, all of them when it passes, and agrees with `LinkNames` |
| Store.GuideStore.InsertCategory | guide_packager.py:138-142 | a new category row with the next id; a duplicate name fails and changes nothing |
| Store.GuideStore.StoreCategory | guide_packager.py:70-80 | one category with its tags agrees with `AddOwner`, visiting each distinct tag once |
| Store.GuideStore.StoreCategories | guide_packager.py:63-81 | the category load keeps the store's integrity and agrees with `AddOwners` on the categories' rows and tag lists |
| Store.GuideStore.LoadCategories | guide_packager.py:36 | the category load keeps the store's integrity |
| Store.GuideStore.StoreEachCategory | guide_packager.py:69-80 | the category loop agrees with `AddOwners` up to where it stopped |
| Store.GuideStore.InsertArticle | guide_packager.py:366-370 | a new article row with the next id; a duplicate name, or a table without its content column, fails and changes nothing |
| Store.GuideStore.StoreArticle | guide_packager.py:191-204 | one article with its tags agrees with `AddOwner`, visiting each distinct tag once |
| Store.GuideStore.StoreArticles | guide_packager.py:185-204 | the article load keeps the store's integrity and agrees with `AddOwners`; without the content column every insert fails |
| Store.GuideStore.StoreArticlesWithContent | guide_packager.py:185-204 | the article load with the content column keeps integrity and agrees with `AddOwners` |
| Store.GuideStore.StoreEachArticle | guide_packager.py:187-204 | the article loop agrees with `AddOwners` up to where it stopped |
| Store.GuideStore.InsertBlock | guide_packager.py:385-432 | a block goes into its own table at the next id of that table |
| Store.GuideStore.InsertOrderRow | guide_packager.py:435-438 | a new order row; a row already present fails and changes nothing |
| Store.GuideStore.NormalizeArticle | guide_packager.py:272-321 | an article's block loop fails whenever decoding fails, and only with decoding's error or a due cover's failed extraction; when it passes, the tables are those of `Append` over the decoded blocks, with every due cover present |
| Store.GuideStore.NormalizeNext | guide_packager.py:273-321 | one more block extends the decoded prefix, the tables and the covers present, or fails with decoding's error or a cover's |
| Store.GuideStore.NormalizeBlock | guide_packager.py:274-321 | a block is decoded, with its cover extracted first when due, and inserted with the next order if recognized |
| Store.GuideStore.InsertDecoded | guide_packager.py:320-321 | a decoded block and its order row extend the tables as `Append` does |
| Store.GuideStore.FillContentBlockTables | guide_packager.py:266-323 | the block loop over every article fails whenever decoding fails, and otherwise only on a failed cover extraction, leaving the articles untouched; when it passes, the tables are those of `AppendAll`, due covers are present and the content column is dropped |
| Store.GuideStore.NormalizeArticles | guide_packager.py:267-321 | the loop over articles agrees with `DecodeArticles` and `AppendAll` |
| Store.GuideStore.DropContentColumn | guide_packager.py:441-454 | the articles table is rebuilt without its content column and the integrity kept |
| Store.GuideStore.StoreGuideArticles | guide_packager.py:84-98 | loading articles, blocks and search keeps the integrity; when it passes, blocks and search have the search property |
| Store.GuideStore.StoreArticlesAndBookmarks | guide_packager.py:37-38 | articles, then bookmarks, keep the integrity and the search property |
| Store.GuideStore.LoadArticles | guide_packager.py:87 | the article load keeps the store's integrity |
| Store.GuideStore.StoreContent | guide_packager.py:90-98 | the block loop, then the search table; when both pass, the search property holds |
| Store.GuideStore.FillBlocks | guide_packager.py:97 | after a passing block loop, the block tables are those of `AppendAll` over one decoded list per article |
| Store.GuideStore.CreateAndFillSearch | guide_packager.py:326-363 | the search table is the sorted union of the title, synopsis and block-text selections |
| Store.GuideStore.FetchArticleByName | guide_packager.py:466-469 | the lookup agrees with `ArticleIdOf` |
| Store.GuideStore.InsertBookmark | guide_packager.py:472-475 | a new bookmark; a second bookmark of one article fails and changes nothing |
| Store.GuideStore.StoreBookmarks | guide_packager.py:101-108 | the bookmark load keeps integrity and agrees with `AddBookmarks` |
| Store.GuideStore.LoadBookmarks | guide_packager.py:38 | the bookmark load keeps the store's integrity |
| Store.GuideStore.StoreEachBookmark | guide_packager.py:105-107 | the bookmark loop agrees with `AddBookmarks` |
| Store.GuideStore.StoreBookmark | guide_packager.py:106-107 | one bookmark agrees with `AddBookmark`; an unknown name fails |
| Directory.GuideDirectory.ExtractCover | guide_packager.py:303-309 | an existing cover is kept without extraction; otherwise a successful extraction adds it and a failed one aborts; files only grow |

## Left out

- **SQL engine.** The SQL engine itself, FTS4 tokenizing, `commit` and
  `close`: tables are sequences and the search table is the list of its rows.
- **Partial writes on failure.** A failed run's partial writes are described
  only in part. The source exits, or lets an exception escape, without a
  rollback, and the database is then discarded.
- **JSON.** JSON reading, `json.dumps` and `json.loads`: the content column
  holds the parsed block list. KeyErrors on category, article and bookmark
  records are not modelled. KeyErrors inside blocks are, including a probe stream without `codec_type`; the one exception is the probe's duration (below).
- **Leaving the filesystem.** Removing `categories.json` and `bookmarks.json`,
  removing the `articles` directory, and zipping and moving the guide
  (`_pack_guide_content_to_archive`).
- **Files outside this model.** `videos_covers.py`, `main.py` and
  `guide_generator.py` are not part of this model.
- **Order of article files.** The order `os.listdir` returns article files in
  is a parameter: the sequence of article inputs.
- **Durations.** Durations are kept as the text ffmpeg reports. The REAL
  column type is not modelled, nor the KeyError of a probe without
  `format.duration`. The `block_type` column of `audio_blocks` is not
  modelled.
- **ffmpeg.** ffmpeg is a foreign call, so the probe and the frame
  extraction are oracles. The printing of ffmpeg's output on failure is
  dropped.
- **`os.path.join`.** Modelled as posixpath does it for two components;
  three-component joins are nested.
- **Python `set` order.** The iteration order of a `set` of tag names is
  arbitrary: any order of the distinct names.
- **Article dict order.** The dict built from the fetched articles is walked
  in table order, which is its insertion order because article names are
  UNIQUE.
- Store.GuideStore.LoadCategories: states only the store's integrity; what is loaded is stated by Store.GuideStore.StoreCategories.
- Store.GuideStore.LoadArticles: states only the store's integrity; what is loaded is stated by Store.GuideStore.StoreArticles.
- Store.GuideStore.LoadBookmarks: states only the store's integrity; what is loaded is stated by Store.GuideStore.StoreBookmarks.
- Store.GuideStore.FillBlocks: states the block tables only up to the decoded lists it returns; that these are the decoding of the content column is stated by Store.GuideStore.FillContentBlockTables.
- Store.GuideStore.NormalizeArticle: on failure states the error, not the partial block tables left behind.
- Store.GuideStore.FillContentBlockTables: on failure states the error and the untouched articles table, not the partial block tables.
- Store.GuideStore.StoreArticlesAndBookmarks: states the integrity and the search property, not what is loaded; that is stated per step.
- Store.GuideStore.StoreGuideArticles: states the integrity and the search property, not what is loaded; that is stated per step.
- Store.StoreGuideContent: states the integrity and the search property, not what is loaded; that is stated by the per-step methods.
