/**
 * The rows of the guide database (guide.db) and the ways a packaging run aborts.
 *
 * Every table with an `id integer PRIMARY KEY` column is modelled as a sequence
 * without an explicit id: rows are only ever appended, so SQLite gives the row
 * at position `i` the rowid `i + 1` (one more than the largest rowid, 1 for an
 * empty table), which is what `cursor.lastrowid` returns.
 */
module Tables {
  import opened Wrappers

  /** A content block as parsed from an article's JSON: a dictionary of string fields. */
  type RawBlock = map<string, string>

  /** A row of `categories` (name, icon, description). */
  datatype Category = Category(name: string, icon: string, description: string)

  /** A row of `tags_categories` or `tags_articles`. */
  datatype Link = Link(tagId: nat, ownerId: nat)

  /**
   * A row of `articles`. While the table still has its `content` column a row
   * is `Raw` and carries the article's block list; once the column has been
   * dropped a row is `Narrow`.
   */
  datatype ArticleRow =
    | Raw(name: string, icon: string, title: string, synopsis: string, content: seq<RawBlock>)
    | Narrow(name: string, icon: string, title: string, synopsis: string)

  /** Rows of `image_blocks`, `audio_blocks` and `video_blocks` without their id.
      Durations are kept as the opaque text the media probe reports. */
  datatype ImageRow = ImageRow(source: string, caption: string)
  datatype AudioRow = AudioRow(source: string, length: string, caption: string)
  datatype VideoRow = VideoRow(source: string, length: string, aspectRatio: string,
                               coverSource: string, caption: string)

  /** A normalized content block: one variant per block table. */
  datatype Block =
    | Subtitle(text: string)
    | Paragraph(text: string)
    | Image(image: ImageRow)
    | Audio(audio: AudioRow)
    | Video(video: VideoRow)
  {
    /** The `block_type` string stored for this block in `articles_blocks`. */
    function TypeName(): string {
      match this
      case Subtitle(_) => "subtitle"
      case Paragraph(_) => "paragraph"
      case Image(_) => "image"
      case Audio(_) => "audio"
      case Video(_) => "video"
    }

    /** The text the search index holds for this block: the text of a subtitle
        or paragraph, the caption of a media block. */
    function SearchText(): string {
      match this
      case Subtitle(t) => t
      case Paragraph(t) => t
      case Image(r) => r.caption
      case Audio(r) => r.caption
      case Video(r) => r.caption
    }
  }

  /** The block type names the normalizer recognizes. */
  predicate Recognized(t: string) {
    t == "subtitle" || t == "paragraph" || t == "image" || t == "audio" || t == "video"
  }

  /** A row of `articles_blocks`. */
  datatype BlockOrderRow = BlockOrderRow(articleId: nat, blockId: nat, order: nat, blockType: string)

  /** A row of `bookmarks` without its id. */
  datatype Bookmark = Bookmark(articleId: nat, createdAt: string)

  /** A row of the full-text table `article_block_search`; `blockId` is NULL for
      title and synopsis rows. */
  datatype SearchRow = SearchRow(articleId: nat, order: int, blockType: string,
                                 blockId: Option<nat>, text: string)

  /** Why a packaging run aborts. */
  datatype Failure =
    | MissingKey(key: string)                 // KeyError on a block dictionary or a probe stream
    | ProbeFailed(path: string)               // ffmpeg.Error raised by ffmpeg.probe
    | NoVideoStream(path: string)             // StopIteration from next(...) over the streams
    | CoverExtractionFailed(path: string)     // exit(1) after a failed frame extraction
    | DuplicateName(table: string, name: string)  // UNIQUE constraint on a name column
    | DuplicateLink(tagId: nat, ownerId: nat)     // UNIQUE(tag_id, owner_id) on a link table
    | NoContentColumn                         // the articles table has no content column any more
    | UnknownArticle(name: string)            // TypeError: the name lookup returned None
    | DuplicateBookmark(articleId: nat)       // UNIQUE constraint on bookmarks.article_id
    | DuplicateOrderRow(row: BlockOrderRow)   // UNIQUE constraint on every column of articles_blocks

  /** The five block tables, each a sequence of rows whose ids are positions + 1. */
  datatype BlockTables = BlockTables(subtitle: seq<string>, paragraph: seq<string>,
                                     image: seq<ImageRow>, audio: seq<AudioRow>, video: seq<VideoRow>)
  {
    /** Every table of `this` is a prefix of the same table of `other`. */
    predicate Prefix(other: BlockTables) {
      && subtitle <= other.subtitle && paragraph <= other.paragraph
      && image <= other.image && audio <= other.audio && video <= other.video
    }

    /** The id the next row of `b`'s table receives. */
    function NextId(b: Block): nat {
      match b
      case Subtitle(_) => |subtitle| + 1
      case Paragraph(_) => |paragraph| + 1
      case Image(_) => |image| + 1
      case Audio(_) => |audio| + 1
      case Video(_) => |video| + 1
    }

    /** The tables after inserting `b` into its own table. */
    function Insert(b: Block): (r: BlockTables)
      ensures Prefix(r)
      ensures r.At(b.TypeName(), NextId(b)) == Some(b)
    {
      match b
      case Subtitle(t) => this.(subtitle := subtitle + [t])
      case Paragraph(t) => this.(paragraph := paragraph + [t])
      case Image(row) => this.(image := image + [row])
      case Audio(row) => this.(audio := audio + [row])
      case Video(row) => this.(video := video + [row])
    }

    /** The block with id `id` in the table named `blockType`: the inner join of
        `articles_blocks` with a block table. */
    function At(blockType: string, id: nat): Option<Block> {
      if blockType == "subtitle" then
        (if 1 <= id <= |subtitle| then Some(Subtitle(subtitle[id - 1])) else None)
      else if blockType == "paragraph" then
        (if 1 <= id <= |paragraph| then Some(Paragraph(paragraph[id - 1])) else None)
      else if blockType == "image" then
        (if 1 <= id <= |image| then Some(Image(image[id - 1])) else None)
      else if blockType == "audio" then
        (if 1 <= id <= |audio| then Some(Audio(audio[id - 1])) else None)
      else if blockType == "video" then
        (if 1 <= id <= |video| then Some(Video(video[id - 1])) else None)
      else None
    }
  }

  const EmptyBlockTables := BlockTables([], [], [], [], [])

  /** Growing the tables keeps every join that already succeeded. */
  lemma {:induction false} AtPrefix(small: BlockTables, large: BlockTables, blockType: string, id: nat)
    requires small.Prefix(large)
    requires small.At(blockType, id).Some?
    ensures large.At(blockType, id) == small.At(blockType, id)
  {
  }
}
