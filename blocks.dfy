/**
 * Block normalization as pure functions: decoding one raw block into the
 * tagged union of block rows (`_fill_articles_content_block_tables`, the
 * body of its inner loop), decoding an article's block list, and the rows
 * that inserting decoded blocks appends to the block tables and to
 * `articles_blocks`. The imperative loop in the store is proved against these.
 */
module Blocks {
  import opened Wrappers
  import opened Tables
  import opened Paths
  import opened TextRefs
  import opened Media

  /** What decoding a block depends on besides the block: the guide's name (for
      stored asset paths), the directory it is staged in (for probing), the
      name-to-id map of every article and the media probe. */
  datatype Env = Env(guideName: string, guidePath: string, ids: map<string, nat>, probe: Prober)

  /** block[key], or the KeyError it raises. */
  function Field(b: RawBlock, key: string): Result<string, Failure> {
    if key in b then Ok(b[key]) else Err(MissingKey(key))
  }

  /** ffmpeg.probe(os.path.join(guide_path, source)). */
  function ProbeSource(env: Env, source: string): Result<Probe, Failure> {
    var path := Join(env.guidePath, source);
    match env.probe(path)
    case Some(p) => Ok(p)
    case None => Err(ProbeFailed(path))
  }

  /** The staged video file and the cover image path the frame is extracted to. */
  function CoverInput(env: Env, source: string): string {
    Join(env.guidePath, source)
  }

  function CoverOutput(env: Env, source: string): string {
    Join(env.guidePath, CoverFileName(source))
  }

  /**
   * One iteration of the block loop, without its writes: dispatch on
   * block['type'], rewrite references in the text or caption, rewrite asset
   * paths under `guides/<guide_name>/` and probe media. An unknown type gives
   * None (the `continue`); a missing key or a failed probe aborts.
   */
  function Decode(b: RawBlock, env: Env): (r: Result<Option<Block>, Failure>)
    ensures "type" !in b ==> r == Err(MissingKey("type"))
    ensures "type" in b && !Recognized(b["type"]) ==> r == Ok(None)
    ensures r.Ok? && r.value.Some? ==> "type" in b && r.value.value.TypeName() == b["type"]
    ensures r.Ok? && r.value.Some? && r.value.value.Video? ==> "source" in b
  {
    var kind :- Field(b, "type");
    if kind == "subtitle" then
      var text :- Field(b, "text");
      Ok(Some(Subtitle(UpdateTextRefs(text, env.ids))))
    else if kind == "paragraph" then
      var text :- Field(b, "text");
      Ok(Some(Paragraph(UpdateTextRefs(text, env.ids))))
    else if kind == "image" then
      var source :- Field(b, "source");
      var caption :- Field(b, "caption");
      Ok(Some(Image(ImageRow(AssetPath(env.guideName, source), UpdateTextRefs(caption, env.ids)))))
    else if kind == "audio" then
      var source :- Field(b, "source");
      var probe :- ProbeSource(env, source);
      var caption :- Field(b, "caption");
      Ok(Some(Audio(AudioRow(AssetPath(env.guideName, source), probe.duration,
                             UpdateTextRefs(caption, env.ids)))))
    else if kind == "video" then
      var source :- Field(b, "source");
      var probe :- ProbeSource(env, source);
      var aspect :- VideoAspectRatio(probe.streams, Join(env.guidePath, source));
      var caption :- Field(b, "caption");
      Ok(Some(Video(VideoRow(AssetPath(env.guideName, source), probe.duration, aspect,
                             AssetPath(env.guideName, CoverFileName(source)),
                             UpdateTextRefs(caption, env.ids)))))
    else
      Ok(None)
  }

  /** A decoded video's cover lies beside its source, with the extension
      replaced by `.png`, under the same guide prefix. */
  lemma {:induction false} VideoCoverBesideSource(b: RawBlock, env: Env)
    requires Decode(b, env).Ok? && Decode(b, env).value.Some? && Decode(b, env).value.value.Video?
    ensures Decode(b, env).value.value.video.source == AssetPath(env.guideName, b["source"])
    ensures Decode(b, env).value.value.video.coverSource == AssetPath(env.guideName, CoverFileName(b["source"]))
  {
    assert b["type"] == "video";
  }

  /** The block is a video whose source, probe and aspect ratio were read
      without error: the point where the source extracts its cover frame. */
  predicate CoverDue(b: RawBlock, env: Env) {
    && "type" in b && b["type"] == "video" && "source" in b
    && ProbeSource(env, b["source"]).Ok?
    && VideoAspectRatio(ProbeSource(env, b["source"]).value.streams, Join(env.guidePath, b["source"])).Ok?
  }

  /** The cover of a video block is extracted exactly when decoding it gets
      past the aspect ratio: it then yields the video or misses its caption. */
  lemma {:induction false} CoverDueDecode(b: RawBlock, env: Env)
    ensures CoverDue(b, env) <==>
              "type" in b && b["type"] == "video" &&
              (Decode(b, env).Ok? || Decode(b, env) == Err(MissingKey("caption")))
    ensures CoverDue(b, env) && Decode(b, env).Ok? ==> Decode(b, env).value.Some? && Decode(b, env).value.value.Video?
  {
    if "type" in b && b["type"] == "video" {
      if "source" !in b {
        assert Decode(b, env) == Err(MissingKey("source"));
        assert "source"[0] != "caption"[0];
      } else if ProbeSource(env, b["source"]).Ok? {
        var aspect := VideoAspectRatio(ProbeSource(env, b["source"]).value.streams, Join(env.guidePath, b["source"]));
        if aspect.Err? {
          assert Decode(b, env) == Err(aspect.error);
          assert "display_aspect_ratio"[0] != "caption"[0];
          assert "codec_type"[1] != "caption"[1];
        }
      }
    }
  }

  /** Every video block of `bs` whose cover is due has its cover among `files`. */
  ghost predicate CoversPresent(bs: seq<RawBlock>, env: Env, files: set<string>) {
    forall j :: 0 <= j < |bs| && CoverDue(bs[j], env) ==> CoverOutput(env, bs[j]["source"]) in files
  }

  /** One more block whose cover, when due, is present; files are only added. */
  lemma {:induction false} CoversPresentStep(bs: seq<RawBlock>, i: nat, env: Env, files: set<string>, files': set<string>)
    requires i < |bs| && CoversPresent(bs[..i], env, files) && files <= files'
    requires CoverDue(bs[i], env) ==> CoverOutput(env, bs[i]["source"]) in files'
    ensures CoversPresent(bs[..i + 1], env, files')
  {
    var next := bs[..i + 1];
    forall j | 0 <= j < i + 1 && CoverDue(next[j], env)
      ensures CoverOutput(env, next[j]["source"]) in files'
    {
      if j < i {
        assert next[j] == bs[..i][j];
      }
    }
  }

  /** The covers of every article's due videos are present. */
  ghost predicate AllCoversPresent(contents: seq<seq<RawBlock>>, env: Env, files: set<string>) {
    forall p :: 0 <= p < |contents| ==> CoversPresent(contents[p], env, files)
  }

  /** One more article whose covers are present; files are only added. */
  lemma {:induction false} AllCoversPresentStep(contents: seq<seq<RawBlock>>, p: nat, env: Env,
                                                files: set<string>, files': set<string>)
    requires p < |contents| && AllCoversPresent(contents[..p], env, files) && files <= files'
    requires CoversPresent(contents[p], env, files')
    ensures AllCoversPresent(contents[..p + 1], env, files')
  {
    var next := contents[..p + 1];
    forall q | 0 <= q < p + 1 ensures CoversPresent(next[q], env, files') {
      if q < p {
        assert next[q] == contents[..p][q];
        CoversPresentGrow(next[q], env, files, files');
      }
    }
  }

  lemma {:induction false} CoversPresentGrow(bs: seq<RawBlock>, env: Env, files: set<string>, files': set<string>)
    requires CoversPresent(bs, env, files) && files <= files'
    ensures CoversPresent(bs, env, files')
  {
  }

  /** The recognized blocks of a whole article, in order; the first failing
      block aborts. */
  function DecodeAll(bs: seq<RawBlock>, env: Env): Result<seq<Block>, Failure>
    decreases |bs|
  {
    if bs == [] then Ok([])
    else
      var done :- DecodeAll(bs[..|bs| - 1], env);
      var b :- Decode(bs[|bs| - 1], env);
      Ok(if b.Some? then done + [b.value] else done)
  }

  /** The indices of the blocks of `bs` whose type is recognized, in source order. */
  function RecognizedIndices(bs: seq<RawBlock>): seq<nat> {
    if bs == [] then []
    else
      var last := bs[|bs| - 1];
      RecognizedIndices(bs[..|bs| - 1]) + (if "type" in last && Recognized(last["type"]) then [|bs| - 1] else [])
  }

  /** The recognized indices are increasing, and are exactly the blocks whose
      type is recognized. */
  lemma {:induction false} RecognizedIndicesExact(bs: seq<RawBlock>)
    ensures forall j :: 0 <= j < |RecognizedIndices(bs)| ==> RecognizedIndices(bs)[j] < |bs|
    ensures forall i, j :: 0 <= i < j < |RecognizedIndices(bs)| ==> RecognizedIndices(bs)[i] < RecognizedIndices(bs)[j]
    ensures forall k :: 0 <= k < |bs| ==>
              (k in RecognizedIndices(bs) <==> "type" in bs[k] && Recognized(bs[k]["type"]))
  {
    if bs != [] {
      var init := bs[..|bs| - 1];
      RecognizedIndicesExact(init);
      forall k | 0 <= k < |init| ensures init[k] == bs[k] {
      }
    }
  }

  /** Decoding keeps exactly the recognized blocks, in source order: the j-th
      decoded block is the decoding of the j-th recognized raw block, and
      unknown types leave nothing behind. */
  lemma {:induction false} DecodeAllKeepsRecognized(bs: seq<RawBlock>, env: Env)
    requires DecodeAll(bs, env).Ok?
    ensures |DecodeAll(bs, env).value| == |RecognizedIndices(bs)|
    ensures forall j :: 0 <= j < |RecognizedIndices(bs)| ==>
              && RecognizedIndices(bs)[j] < |bs|
              && Decode(bs[RecognizedIndices(bs)[j]], env) == Ok(Some(DecodeAll(bs, env).value[j]))
              && DecodeAll(bs, env).value[j].TypeName() == bs[RecognizedIndices(bs)[j]]["type"]
  {
    if bs != [] {
      var init := bs[..|bs| - 1];
      DecodeAllKeepsRecognized(init, env);
      forall k | 0 <= k < |init| ensures init[k] == bs[k] {
      }
      RecognizedIndicesExact(init);
    }
  }

  /** Decoding one more block of `bs`. */
  lemma {:induction false} DecodeAllStep(bs: seq<RawBlock>, i: nat, env: Env)
    requires i < |bs|
    ensures DecodeAll(bs[..i], env).Err? ==> DecodeAll(bs[..i + 1], env) == DecodeAll(bs[..i], env)
    ensures DecodeAll(bs[..i], env).Ok? && Decode(bs[i], env).Err? ==>
              DecodeAll(bs[..i + 1], env) == Err(Decode(bs[i], env).error)
    ensures DecodeAll(bs[..i], env).Ok? && Decode(bs[i], env).Ok? ==>
              DecodeAll(bs[..i + 1], env) ==
              Ok(if Decode(bs[i], env).value.Some? then DecodeAll(bs[..i], env).value + [Decode(bs[i], env).value.value]
                 else DecodeAll(bs[..i], env).value)
  {
    assert bs[..i + 1][..i] == bs[..i];
    assert bs[..i + 1][i] == bs[i];
  }

  /** Once a prefix fails, the whole list fails with the same error. */
  lemma {:induction false} DecodeAllPrefixErr(bs: seq<RawBlock>, i: nat, env: Env)
    requires i <= |bs| && DecodeAll(bs[..i], env).Err?
    ensures DecodeAll(bs, env) == DecodeAll(bs[..i], env)
    decreases |bs| - i
  {
    if i == |bs| {
      assert bs[..i] == bs;
    } else {
      DecodeAllStep(bs, i, env);
      DecodeAllPrefixErr(bs, i + 1, env);
    }
  }

  /** A decoding failure in any block fails the whole article. */
  lemma {:induction false} DecodeAllFailsOnAnyBlock(bs: seq<RawBlock>, env: Env, i: nat)
    requires i < |bs| && Decode(bs[i], env).Err?
    ensures DecodeAll(bs, env).Err?
  {
    if i < |bs| - 1 {
      assert bs[..|bs| - 1][i] == bs[i];
      DecodeAllFailsOnAnyBlock(bs[..|bs| - 1], env, i);
    }
  }

  // ---------------------------------------------------------------- appending rows

  /** Number of blocks of `bs` whose table is `t`. */
  function Count(bs: seq<Block>, t: string): nat {
    if bs == [] then 0
    else Count(bs[..|bs| - 1], t) + (if bs[|bs| - 1].TypeName() == t then 1 else 0)
  }

  /** The number of rows in the table named `t`. */
  function Size(bt: BlockTables, t: string): nat {
    if t == "subtitle" then |bt.subtitle|
    else if t == "paragraph" then |bt.paragraph|
    else if t == "image" then |bt.image|
    else if t == "audio" then |bt.audio|
    else if t == "video" then |bt.video|
    else 0
  }

  /** Inserting a block adds one row to its own table and none to the others,
      and the row receives the next id of that table. */
  lemma {:induction false} InsertOneRow(bt: BlockTables, b: Block, t: string)
    ensures Size(bt.Insert(b), t) == Size(bt, t) + (if b.TypeName() == t then 1 else 0)
    ensures bt.NextId(b) == Size(bt, b.TypeName()) + 1
  {
  }

  /** The block tables and the `articles_blocks` rows after some inserts. */
  datatype Filled = Filled(tables: BlockTables, rows: seq<BlockOrderRow>)

  /**
   * Inserting the blocks `bs` of article `aid`, one after the other: each
   * block goes into its table and gets an `articles_blocks` row carrying the
   * new id, the article id, a running order starting at 0 and its type.
   */
  function Append(bt: BlockTables, aid: nat, bs: seq<Block>): Filled
  {
    if bs == [] then Filled(bt, [])
    else
      var f := Append(bt, aid, bs[..|bs| - 1]);
      var b := bs[|bs| - 1];
      Filled(f.tables.Insert(b), f.rows + [BlockOrderRow(aid, f.tables.NextId(b), |bs| - 1, b.TypeName())])
  }

  /** Inserting one more block after `done`. */
  lemma {:induction false} AppendSnoc(bt: BlockTables, aid: nat, done: seq<Block>, b: Block)
    ensures var f := Append(bt, aid, done);
            Append(bt, aid, done + [b]) ==
            Filled(f.tables.Insert(b), f.rows + [BlockOrderRow(aid, f.tables.NextId(b), |done|, b.TypeName())])
  {
    assert (done + [b])[..|done|] == done;
  }

  /** `mine` holds one row per block of `bs`, in order, with orders 0 .. k-1
      and the block's type, and each row joins in `bt` to its block. */
  predicate Matches(bt: BlockTables, mine: seq<BlockOrderRow>, bs: seq<Block>) {
    && |mine| == |bs|
    && forall j :: 0 <= j < |mine| ==>
         && mine[j].order == j && mine[j].blockType == bs[j].TypeName()
         && bt.At(mine[j].blockType, mine[j].blockId) == Some(bs[j])
  }

  /** What inserting an article's blocks `bs` into `bt` gives: one row per
      block, all carrying the article's id, with orders 0 .. k-1 in block
      order, every row joining to its own block, and each table grown by the
      number of blocks of its type. */
  ghost predicate AppendedRows(bt: BlockTables, aid: nat, bs: seq<Block>, f: Filled) {
    && bt.Prefix(f.tables)
    && Matches(f.tables, f.rows, bs)
    && (forall j :: 0 <= j < |f.rows| ==> f.rows[j].articleId == aid)
    && (forall t :: Size(f.tables, t) == Size(bt, t) + Count(bs, t))
  }

  /** One more block keeps `AppendedRows`. */
  lemma {:induction false} AppendStep(bt: BlockTables, aid: nat, bs: seq<Block>, f: Filled)
    requires bs != [] && f == Append(bt, aid, bs[..|bs| - 1])
    requires AppendedRows(bt, aid, bs[..|bs| - 1], f)
    ensures AppendedRows(bt, aid, bs, Append(bt, aid, bs))
  {
    var prefix := bs[..|bs| - 1];
    var b := bs[|bs| - 1];
    var last := f.tables.Insert(b);
    var row := BlockOrderRow(aid, f.tables.NextId(b), |bs| - 1, b.TypeName());
    assert Append(bt, aid, bs) == Filled(last, f.rows + [row]);
    InsertOneRow(f.tables, b, b.TypeName());
    assert Matches(last, f.rows + [row], bs) by {
      forall j | 0 <= j < |prefix|
        ensures last.At(f.rows[j].blockType, f.rows[j].blockId) == Some(bs[j])
      {
        AtPrefix(f.tables, last, f.rows[j].blockType, f.rows[j].blockId);
      }
    }
    forall t ensures Size(last, t) == Size(bt, t) + Count(bs, t) {
      InsertOneRow(f.tables, b, t);
    }
  }

  /** The rows an article's blocks receive (see `AppendedRows`). */
  lemma {:induction false} AppendRows(bt: BlockTables, aid: nat, bs: seq<Block>)
    ensures AppendedRows(bt, aid, bs, Append(bt, aid, bs))
  {
    if bs != [] {
      AppendRows(bt, aid, bs[..|bs| - 1]);
      AppendStep(bt, aid, bs, Append(bt, aid, bs[..|bs| - 1]));
    }
  }

  // ---------------------------------------------------------------- all articles

  /** Inserting every article's decoded blocks in article order; article `p`
      (0-based position in the articles table) has id p + 1. */
  function AppendAll(bt: BlockTables, articles: seq<seq<Block>>): Filled
  {
    if articles == [] then Filled(bt, [])
    else
      var f := AppendAll(bt, articles[..|articles| - 1]);
      var g := Append(f.tables, |articles|, articles[|articles| - 1]);
      Filled(g.tables, f.rows + g.rows)
  }

  /** Inserting one more article's blocks after `articles`. */
  lemma {:induction false} AppendAllSnoc(bt: BlockTables, articles: seq<seq<Block>>, bs: seq<Block>)
    ensures var f := AppendAll(bt, articles);
            var g := Append(f.tables, |articles| + 1, bs);
            AppendAll(bt, articles + [bs]) == Filled(g.tables, f.rows + g.rows)
  {
    assert (articles + [bs])[..|articles|] == articles;
  }

  /** The next row of article `aid` is not in `articles_blocks` yet: earlier
      articles' rows carry other ids and this article's rows smaller orders,
      so the table's UNIQUE constraint holds. */
  lemma {:induction false} NextRowFresh(bt: BlockTables, aid: nat, done: seq<Block>, rows0: seq<BlockOrderRow>,
                                        row: BlockOrderRow)
    requires aid >= 1 && RowsOwnedBy(rows0, aid - 1)
    requires row.articleId == aid && row.order == |done|
    ensures row !in rows0 + Append(bt, aid, done).rows
  {
    var g := Append(bt, aid, done);
    AppendMatches(bt, aid, done, g);
    AppendOwned(bt, aid, done, g);
  }

  /** The rows of `articles_blocks` that belong to article `aid`, in table order. */
  function RowsOf(rows: seq<BlockOrderRow>, aid: nat): seq<BlockOrderRow> {
    if rows == [] then []
    else RowsOf(rows[..|rows| - 1], aid) + (if rows[|rows| - 1].articleId == aid then [rows[|rows| - 1]] else [])
  }

  lemma {:induction false} RowsOfConcat(a: seq<BlockOrderRow>, b: seq<BlockOrderRow>, aid: nat)
    ensures RowsOf(a + b, aid) == RowsOf(a, aid) + RowsOf(b, aid)
    decreases |b|
  {
    if b == [] {
      assert a + b == a;
    } else {
      assert (a + b)[..|a + b| - 1] == a + b[..|b| - 1];
      RowsOfConcat(a, b[..|b| - 1], aid);
    }
  }

  lemma {:induction false} RowsOfAll(rows: seq<BlockOrderRow>, aid: nat)
    requires forall j :: 0 <= j < |rows| ==> rows[j].articleId == aid
    ensures RowsOf(rows, aid) == rows
  {
    if rows != [] {
      RowsOfAll(rows[..|rows| - 1], aid);
    }
  }

  lemma {:induction false} RowsOfNone(rows: seq<BlockOrderRow>, aid: nat)
    requires forall j :: 0 <= j < |rows| ==> rows[j].articleId != aid
    ensures RowsOf(rows, aid) == []
  {
    if rows != [] {
      RowsOfNone(rows[..|rows| - 1], aid);
    }
  }

  /** Every row of `articles_blocks` belongs to one of the first `n` articles. */
  predicate RowsOwnedBy(rows: seq<BlockOrderRow>, n: nat) {
    forall j :: 0 <= j < |rows| ==> 1 <= rows[j].articleId <= n
  }

  /**
   * Dense ordering: the `block_order` values of every article are exactly
   * 0, 1, ..., k-1, in table order.
   */
  ghost predicate Dense(rows: seq<BlockOrderRow>) {
    forall aid: nat, j :: 0 <= j < |RowsOf(rows, aid)| ==> RowsOf(rows, aid)[j].order == j
  }

  /** Article `aid`'s rows in `rows` are one per block of `bs`, in order, with
      orders 0 .. k-1 and the block's type, and each joins in `bt` to its block. */
  predicate RowsMatch(bt: BlockTables, rows: seq<BlockOrderRow>, aid: nat, bs: seq<Block>) {
    Matches(bt, RowsOf(rows, aid), bs)
  }

  /** Growing the block tables and adding rows of other articles keeps a match. */
  lemma {:induction false} RowsMatchGrow(bt: BlockTables, bt': BlockTables, rows: seq<BlockOrderRow>,
                      rows': seq<BlockOrderRow>, aid: nat, bs: seq<Block>)
    requires RowsMatch(bt, rows, aid, bs)
    requires bt.Prefix(bt') && RowsOf(rows', aid) == RowsOf(rows, aid)
    ensures RowsMatch(bt', rows', aid, bs)
  {
    var mine := RowsOf(rows, aid);
    forall j | 0 <= j < |mine|
      ensures bt'.At(mine[j].blockType, mine[j].blockId) == Some(bs[j])
    {
      AtPrefix(bt, bt', mine[j].blockType, mine[j].blockId);
    }
  }

  /** The rows of one article's blocks all carry its id. */
  lemma {:induction false} AppendOwned(bt: BlockTables, n: nat, bs: seq<Block>, g: Filled)
    requires g == Append(bt, n, bs)
    ensures forall j :: 0 <= j < |g.rows| ==> g.rows[j].articleId == n
  {
    AppendRows(bt, n, bs);
  }

  /** The rows of one article's blocks join to those blocks in the grown tables. */
  lemma {:induction false} AppendMatches(bt: BlockTables, n: nat, bs: seq<Block>, g: Filled)
    requires g == Append(bt, n, bs)
    ensures bt.Prefix(g.tables) && Matches(g.tables, g.rows, bs)
  {
    AppendRows(bt, n, bs);
  }

  /** The rows one article's blocks append match those blocks. */
  lemma {:induction false} LastArticleMatches(bt: BlockTables, rows: seq<BlockOrderRow>, n: nat, bs: seq<Block>,
                                              g: Filled)
    requires n >= 1 && RowsOwnedBy(rows, n - 1) && g == Append(bt, n, bs)
    ensures RowsMatch(g.tables, rows + g.rows, n, bs)
  {
    AppendOwned(bt, n, bs, g);
    AppendMatches(bt, n, bs, g);
    RowsOfConcat(rows, g.rows, n);
    RowsOfNone(rows, n);
    RowsOfAll(g.rows, n);
    assert RowsOf(rows + g.rows, n) == g.rows;
  }

  /** After one more article every row still belongs to an article. */
  lemma {:induction false} LastArticleOwned(bt: BlockTables, rows: seq<BlockOrderRow>, n: nat, bs: seq<Block>,
                                            g: Filled)
    requires n >= 1 && RowsOwnedBy(rows, n - 1) && g == Append(bt, n, bs)
    ensures RowsOwnedBy(rows + g.rows, n)
  {
    AppendOwned(bt, n, bs, g);
    OwnedConcat(rows, g.rows, n - 1, n);
  }

  lemma {:induction false} OwnedConcat(a: seq<BlockOrderRow>, b: seq<BlockOrderRow>, m: nat, n: nat)
    requires RowsOwnedBy(a, m) && RowsOwnedBy(b, n) && m <= n
    ensures RowsOwnedBy(a + b, n)
  {
    forall j | 0 <= j < |a + b| ensures 1 <= (a + b)[j].articleId <= n {
      if j >= |a| {
        assert (a + b)[j] == b[j - |a|];
      }
    }
  }

  /** Appending a later article's rows keeps an earlier article's match. */
  lemma {:induction false} EarlierArticleMatches(bt: BlockTables, rows: seq<BlockOrderRow>, n: nat, bs: seq<Block>,
                              aid: nat, mine: seq<Block>, g: Filled)
    requires RowsMatch(bt, rows, aid, mine) && aid != n && g == Append(bt, n, bs)
    ensures RowsMatch(g.tables, rows + g.rows, aid, mine)
  {
    AppendOwned(bt, n, bs, g);
    AppendMatches(bt, n, bs, g);
    RowsOfConcat(rows, g.rows, aid);
    RowsOfNone(g.rows, aid);
    RowsMatchGrow(bt, g.tables, rows, rows + g.rows, aid, mine);
  }

  /** What inserting the decoded blocks of all `articles` gives: no row
      belongs to an id outside the articles table, and article p's rows are
      one per recognized block, in source order, with orders 0 .. k-1 and the
      block's type, each joining to that block. */
  ghost predicate AllMatch(bt: BlockTables, articles: seq<seq<Block>>, f: Filled) {
    && bt.Prefix(f.tables)
    && RowsOwnedBy(f.rows, |articles|)
    && forall p :: 0 <= p < |articles| ==> RowsMatch(f.tables, f.rows, p + 1, articles[p])
  }

  /** One more article keeps `AllMatch`. */
  lemma {:induction false} AppendAllStep(bt: BlockTables, articles: seq<seq<Block>>, f: Filled, g: Filled)
    requires articles != [] && AllMatch(bt, articles[..|articles| - 1], f)
    requires g == Append(f.tables, |articles|, articles[|articles| - 1])
    ensures AllMatch(bt, articles, Filled(g.tables, f.rows + g.rows))
  {
    var n := |articles|;
    var prev := articles[..n - 1];
    LastArticleMatches(f.tables, f.rows, n, articles[n - 1], g);
    LastArticleOwned(f.tables, f.rows, n, articles[n - 1], g);
    AppendMatches(f.tables, n, articles[n - 1], g);
    EarlierArticlesMatch(f, prev, articles[n - 1], g);
    forall p | 0 <= p < n
      ensures RowsMatch(g.tables, f.rows + g.rows, p + 1, articles[p])
    {
      if p < n - 1 {
        assert prev[p] == articles[p];
      }
    }
  }

  /** Appending a later article's rows keeps every earlier article's match. */
  lemma {:induction false} EarlierArticlesMatch(f: Filled, prev: seq<seq<Block>>, bs: seq<Block>, g: Filled)
    requires g == Append(f.tables, |prev| + 1, bs)
    requires forall p :: 0 <= p < |prev| ==> RowsMatch(f.tables, f.rows, p + 1, prev[p])
    ensures forall p :: 0 <= p < |prev| ==> RowsMatch(g.tables, f.rows + g.rows, p + 1, prev[p])
  {
    forall p | 0 <= p < |prev|
      ensures RowsMatch(g.tables, f.rows + g.rows, p + 1, prev[p])
    {
      EarlierArticleMatches(f.tables, f.rows, |prev| + 1, bs, p + 1, prev[p], g);
    }
  }

  /**
   * After every article has been normalized: article p's rows in
   * `articles_blocks` are one per recognized block, in source order, with
   * orders 0 .. k-1 and the block's type, and each joins to that block; no
   * row belongs to any other id.
   */
  lemma {:induction false} AppendAllRows(bt: BlockTables, articles: seq<seq<Block>>)
    ensures AllMatch(bt, articles, AppendAll(bt, articles))
  {
    if articles != [] {
      var f := AppendAll(bt, articles[..|articles| - 1]);
      AppendAllRows(bt, articles[..|articles| - 1]);
      AppendAllStep(bt, articles, f, Append(f.tables, |articles|, articles[|articles| - 1]));
    }
  }

  /** Hence the rows are densely ordered. */
  lemma {:induction false} AppendAllDense(bt: BlockTables, articles: seq<seq<Block>>)
    ensures Dense(AppendAll(bt, articles).rows)
  {
    var f := AppendAll(bt, articles);
    AppendAllRows(bt, articles);
    forall aid: nat, j | 0 <= j < |RowsOf(f.rows, aid)| ensures RowsOf(f.rows, aid)[j].order == j {
      if 1 <= aid <= |articles| {
        assert RowsMatch(f.tables, f.rows, aid, articles[aid - 1]);
      } else {
        RowsOfNone(f.rows, aid);
      }
    }
  }

  /** Every article's content decoded in article order; the first failing
      article aborts the run. */
  function DecodeArticles(contents: seq<seq<RawBlock>>, env: Env): (r: Result<seq<seq<Block>>, Failure>)
    ensures r.Ok? ==> |r.value| == |contents|
    ensures r.Ok? ==> forall p :: 0 <= p < |contents| ==> DecodeAll(contents[p], env) == Ok(r.value[p])
  {
    if contents == [] then Ok([])
    else
      var done :- DecodeArticles(contents[..|contents| - 1], env);
      var bs :- DecodeAll(contents[|contents| - 1], env);
      Ok(done + [bs])
  }

  /** Decoding one more article. */
  lemma {:induction false} DecodeArticlesStep(contents: seq<seq<RawBlock>>, p: nat, env: Env)
    requires p < |contents|
    ensures DecodeArticles(contents[..p], env).Err? ==> DecodeArticles(contents[..p + 1], env) == DecodeArticles(contents[..p], env)
    ensures DecodeArticles(contents[..p], env).Ok? && DecodeAll(contents[p], env).Err? ==>
              DecodeArticles(contents[..p + 1], env) == Err(DecodeAll(contents[p], env).error)
    ensures DecodeArticles(contents[..p], env).Ok? && DecodeAll(contents[p], env).Ok? ==>
              DecodeArticles(contents[..p + 1], env) ==
              Ok(DecodeArticles(contents[..p], env).value + [DecodeAll(contents[p], env).value])
  {
    assert contents[..p + 1][..p] == contents[..p];
    assert contents[..p + 1][p] == contents[p];
  }

  /** Once some articles fail, the whole run fails with the same error. */
  lemma {:induction false} DecodeArticlesPrefixErr(contents: seq<seq<RawBlock>>, p: nat, env: Env)
    requires p <= |contents| && DecodeArticles(contents[..p], env).Err?
    ensures DecodeArticles(contents, env) == DecodeArticles(contents[..p], env)
    decreases |contents| - p
  {
    if p == |contents| {
      assert contents[..p] == contents;
    } else {
      DecodeArticlesStep(contents, p, env);
      DecodeArticlesPrefixErr(contents, p + 1, env);
    }
  }

  /** An article whose content fails to decode fails the whole run. */
  lemma {:induction false} DecodeArticlesFailsOnAny(contents: seq<seq<RawBlock>>, env: Env, p: nat)
    requires p < |contents| && DecodeAll(contents[p], env).Err?
    ensures DecodeArticles(contents, env).Err?
  {
    if p < |contents| - 1 {
      assert contents[..|contents| - 1][p] == contents[p];
      DecodeArticlesFailsOnAny(contents[..|contents| - 1], env, p);
    }
  }
}
