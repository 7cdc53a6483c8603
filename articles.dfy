/**
 * The articles table seen from the block loop and from its finalization: the
 * name-to-id map the block loop builds from the fetched rows, the content
 * column it reads, and the rows the table is rebuilt with when its content
 * column is dropped.
 */
module Articles {
  import opened Wrappers
  import opened Tables
  import opened TagLinks
  import opened Owners

  function ArticleName(a: ArticleRow): string { a.name }

  /**
   * `{row[1]: [row[0], row[2]] for row in articles_rows}`, keeping the id of
   * each pair; should a name occur twice, the later row wins.
   */
  function NameIds(rows: seq<ArticleRow>): map<string, nat> {
    if rows == [] then map[]
    else NameIds(rows[..|rows| - 1])[rows[|rows| - 1].name := |rows|]
  }

  /** The map holds exactly the fetched names, each mapped to the id of a row
      carrying it. */
  lemma {:induction false} NameIdsAt(rows: seq<ArticleRow>, name: string)
    ensures name in NameIds(rows) <==> name in Names(rows, ArticleName)
    ensures name in NameIds(rows) ==> 1 <= NameIds(rows)[name] <= |rows| && rows[NameIds(rows)[name] - 1].name == name
  {
    if rows != [] {
      var pre := rows[..|rows| - 1];
      NameIdsAt(pre, name);
      if name != rows[|rows| - 1].name && name in NameIds(pre) {
        var q := NameIds(pre)[name] - 1;
        assert rows[q] == pre[q];
      }
    }
  }

  /** With unique names (the UNIQUE constraint on `articles.name`), article p's
      name maps to its own id p + 1. */
  lemma {:induction false} NameIdsOfUnique(rows: seq<ArticleRow>, p: nat)
    requires NoRepeats(Names(rows, ArticleName)) && p < |rows|
    ensures rows[p].name in NameIds(rows) && NameIds(rows)[rows[p].name] == p + 1
  {
    var names := Names(rows, ArticleName);
    assert names[p] == rows[p].name;
    NameIdsAt(rows, rows[p].name);
    var q := NameIds(rows)[rows[p].name] - 1;
    assert names[q] == rows[p].name;
    if q < p {
      NoRepeatsDistinct(names, q, p);
    } else if p < q {
      NoRepeatsDistinct(names, p, q);
    }
  }

  /** With unique names, two ids whose rows carry the same name are equal. */
  lemma {:induction false} SameNameSameId(rows: seq<ArticleRow>, a: nat, b: nat, name: string)
    requires NoRepeats(Names(rows, ArticleName))
    requires 1 <= a <= |rows| && 1 <= b <= |rows|
    requires rows[a - 1].name == name
    requires rows[b - 1].name == name
    ensures a == b
  {
    var names := Names(rows, ArticleName);
    assert names[a - 1] == names[b - 1];
    if a < b {
      NoRepeatsDistinct(names, a - 1, b - 1);
    } else if b < a {
      NoRepeatsDistinct(names, b - 1, a - 1);
    }
  }

  /** The content column, in table order (a row without it reads as empty). */
  function Contents(rows: seq<ArticleRow>): (r: seq<seq<RawBlock>>)
    ensures |r| == |rows| && forall p :: 0 <= p < |rows| && rows[p].Raw? ==> r[p] == rows[p].content
  {
    if rows == [] then []
    else Contents(rows[..|rows| - 1]) + [if rows[|rows| - 1].Raw? then rows[|rows| - 1].content else []]
  }

  /** A row as copied into the rebuilt table: every column but `content`. */
  function Narrowed(a: ArticleRow): ArticleRow {
    Narrow(a.name, a.icon, a.title, a.synopsis)
  }

  /** `INSERT INTO articles_new (...) SELECT id, name, icon, title, synopsis
      FROM articles`: the rows of the rebuilt table, ids kept. */
  function NarrowAll(rows: seq<ArticleRow>): (r: seq<ArticleRow>)
    ensures |r| == |rows| && forall p :: 0 <= p < |rows| ==> r[p] == Narrowed(rows[p])
  {
    if rows == [] then [] else NarrowAll(rows[..|rows| - 1]) + [Narrowed(rows[|rows| - 1])]
  }

  /** Dropping the content column keeps every article's id (its position),
      name, icon, title and synopsis, leaves no content behind, and keeps the
      names' uniqueness. */
  lemma {:induction false} DropKeepsColumns(rows: seq<ArticleRow>)
    ensures |NarrowAll(rows)| == |rows|
    ensures forall p :: 0 <= p < |rows| ==>
              && NarrowAll(rows)[p].Narrow?
              && NarrowAll(rows)[p].name == rows[p].name && NarrowAll(rows)[p].icon == rows[p].icon
              && NarrowAll(rows)[p].title == rows[p].title && NarrowAll(rows)[p].synopsis == rows[p].synopsis
    ensures Names(NarrowAll(rows), ArticleName) == Names(rows, ArticleName)
  {
    var a := Names(NarrowAll(rows), ArticleName);
    var b := Names(rows, ArticleName);
    assert |a| == |b|;
    forall k | 0 <= k < |a| ensures a[k] == b[k] {
    }
  }
}
