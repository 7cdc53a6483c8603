/**
 * The loaders for categories and for articles as values: a table of rows
 * owning tags (categories or articles), the tags table and the owners' link
 * table. Inserting an owner adds its row, which the UNIQUE name constraint
 * rejects when the name is taken, then runs the tag loop for it.
 */
module Owners {
  import opened Wrappers
  import opened Tables
  import opened TagLinks

  datatype Tagged<R> = Tagged(rows: seq<R>, tags: seq<string>, links: seq<Link>)

  /** The names of the rows, in table order (or any other field of theirs,
      such as their tag lists). */
  function Names<R, V>(rows: seq<R>, nameOf: R -> V): (r: seq<V>)
    ensures |r| == |rows| && forall k :: 0 <= k < |rows| ==> r[k] == nameOf(rows[k])
  {
    if rows == [] then [] else Names(rows[..|rows| - 1], nameOf) + [nameOf(rows[|rows| - 1])]
  }

  /** The tables' integrity: unique owner names, unique tag names, unique links
      referring to existing tags and owners. */
  predicate TaggedValid<R>(t: Tagged<R>, nameOf: R -> string) {
    && NoRepeats(Names(t.rows, nameOf)) && NoRepeats(t.tags)
    && LinksValid(t.links, |t.tags|, |t.rows|) && NoRepeats(t.links)
  }

  /** `order` lists the distinct names of `names`, each once. */
  ghost predicate Listing(order: seq<string>, names: seq<string>) {
    NoRepeats(order) && forall x :: x in order <==> x in names
  }

  /** Tag order i names tags of input i, each at most once. */
  ghost predicate OrdersWithin(orders: seq<seq<string>>, tagLists: seq<seq<string>>) {
    && |orders| <= |tagLists|
    && forall i :: 0 <= i < |orders| ==> NoRepeats(orders[i]) && forall x :: x in orders[i] ==> x in tagLists[i]
  }

  /** Tag order i lists the distinct tags of input i, each once. */
  ghost predicate OrdersList(orders: seq<seq<string>>, tagLists: seq<seq<string>>) {
    && |orders| <= |tagLists|
    && forall i :: 0 <= i < |orders| ==> Listing(orders[i], tagLists[i])
  }

  /** The tag order of the next input keeps the orders within their inputs,
      and, when it lists all of that input's tags, keeps them complete. */
  lemma {:induction false} OrdersSnoc(orders: seq<seq<string>>, tagLists: seq<seq<string>>, order: seq<string>)
    requires OrdersWithin(orders, tagLists) && |orders| < |tagLists|
    requires NoRepeats(order) && forall x :: x in order ==> x in tagLists[|orders|]
    ensures OrdersWithin(orders + [order], tagLists)
    ensures OrdersList(orders, tagLists) && Listing(order, tagLists[|orders|]) ==> OrdersList(orders + [order], tagLists)
  {
  }

  /** The tables after some owners were loaded, and how the loading went. */
  datatype Load<R> = Load(t: Tagged<R>, res: Outcome<Failure>)

  /** One owner: its row, with id |rows| + 1, then its tags in `order`. */
  function AddOwner<R>(t: Tagged<R>, nameOf: R -> string, table: string, row: R, order: seq<string>): Load<R> {
    if nameOf(row) in Names(t.rows, nameOf) then Load(t, Fail(DuplicateName(table, nameOf(row))))
    else
      var linked := LinkNames(t.tags, t.links, |t.rows| + 1, order);
      Load(Tagged(t.rows + [row], linked.tags, linked.links), linked.res)
  }

  /** The next owner of a batch: a load that failed stays as it was. */
  function Step<R>(l: Load<R>, nameOf: R -> string, table: string, row: R, order: seq<string>): Load<R> {
    if l.res.Fail? then l else AddOwner(l.t, nameOf, table, row, order)
  }

  /** The owners in order, each with its tag order; the first failure stops. */
  function AddOwners<R>(t: Tagged<R>, nameOf: R -> string, table: string, rows: seq<R>, orders: seq<seq<string>>): Load<R>
    requires |orders| == |rows|
  {
    if rows == [] then Load(t, Pass)
    else Step(AddOwners(t, nameOf, table, rows[..|rows| - 1], orders[..|orders| - 1]),
              nameOf, table, rows[|rows| - 1], orders[|orders| - 1])
  }

  /** The names of an owner's tags are exactly those of `order`. */
  ghost predicate Linked<R>(t: Tagged<R>, owner: nat, order: seq<string>) {
    forall x :: x in LinkedNames(t.links, t.tags, owner) <==> x in order
  }

  /** `t'` only appended to `t`'s tables and left the tags of `t`'s owners as they were. */
  ghost predicate Extends<R>(t: Tagged<R>, t': Tagged<R>) {
    && t.rows <= t'.rows && t.tags <= t'.tags && t.links <= t'.links
    && forall o :: 1 <= o <= |t.rows| ==> LinkedNames(t'.links, t'.tags, o) == LinkedNames(t.links, t.tags, o)
  }

  lemma {:induction false} ExtendsTrans<R>(a: Tagged<R>, b: Tagged<R>, c: Tagged<R>)
    requires Extends(a, b) && Extends(b, c)
    ensures Extends(a, c)
  {
    forall o | 1 <= o <= |a.rows|
      ensures LinkedNames(c.links, c.tags, o) == LinkedNames(a.links, a.tags, o)
    {
      assert LinkedNames(c.links, c.tags, o) == LinkedNames(b.links, b.tags, o);
    }
  }

  /** Adding one owner keeps the tables' integrity, only appends to them and
      leaves every earlier owner's tags as they were. */
  lemma {:induction false} AddOwnerValid<R>(t: Tagged<R>, nameOf: R -> string, table: string, row: R, order: seq<string>)
    requires TaggedValid(t, nameOf) && NoRepeats(order)
    ensures TaggedValid(AddOwner(t, nameOf, table, row, order).t, nameOf)
    ensures Extends(t, AddOwner(t, nameOf, table, row, order).t)
  {
    if nameOf(row) !in Names(t.rows, nameOf) {
      var id := |t.rows| + 1;
      LinksGrowOwners(t.links, |t.tags|, |t.rows|, id);
      LinkNamesKeepsValid(t.tags, t.links, id, id, order);
      NamesAppend(t.rows, row, nameOf);
      var t' := AddOwner(t, nameOf, table, row, order).t;
      forall o | 1 <= o <= |t.rows|
        ensures LinkedNames(t'.links, t'.tags, o) == LinkedNames(t.links, t.tags, o)
      {
        LinkNamesKeepsOthers(t.tags, t.links, id, id, order, o);
      }
    }
  }

  /** Adding one owner fails exactly when its name is taken, and then changes
      nothing; otherwise it appends the row and links the new owner to exactly
      the names of `order`. */
  lemma {:induction false} AddOwnerOutcome<R>(t: Tagged<R>, nameOf: R -> string, table: string, row: R, order: seq<string>)
    requires TaggedValid(t, nameOf) && NoRepeats(order)
    ensures var l := AddOwner(t, nameOf, table, row, order);
            && (l.res.Fail? <==> nameOf(row) in Names(t.rows, nameOf))
            && (l.res.Fail? ==> l.t == t && l.res == Fail(DuplicateName(table, nameOf(row))))
            && (l.res.Pass? ==> Linked(l.t, |l.t.rows|, order))
  {
    if nameOf(row) !in Names(t.rows, nameOf) {
      var id := |t.rows| + 1;
      LinksGrowOwners(t.links, |t.tags|, |t.rows|, id);
      LinkNamesNewOwner(t.tags, t.links, id, id, order);
    }
  }

  /** Whatever the outcome, a step appends the row or nothing; a step that
      passes appends it after a load that passed. */
  lemma {:induction false} StepRows<R>(l: Load<R>, nameOf: R -> string, table: string, row: R, order: seq<string>, l': Load<R>)
    requires l' == Step(l, nameOf, table, row, order)
    ensures l'.t.rows == l.t.rows || l'.t.rows == l.t.rows + [row]
    ensures l'.res.Pass? ==> l.res.Pass? && l'.t.rows == l.t.rows + [row]
  {
  }

  /** A step keeps the tables' integrity and only appends to them. */
  lemma {:induction false} StepValid<R>(l: Load<R>, nameOf: R -> string, table: string, row: R, order: seq<string>, l': Load<R>)
    requires TaggedValid(l.t, nameOf) && NoRepeats(order)
    requires l' == Step(l, nameOf, table, row, order)
    ensures TaggedValid(l'.t, nameOf) && Extends(l.t, l'.t)
  {
    if l.res.Pass? {
      AddOwnerValid(l.t, nameOf, table, row, order);
    }
  }

  lemma {:induction false} NamesAppend<R>(rows: seq<R>, row: R, nameOf: R -> string)
    ensures Names(rows + [row], nameOf) == Names(rows, nameOf) + [nameOf(row)]
  {
    assert (rows + [row])[..|rows|] == rows;
  }

  lemma {:induction false} NamesConcat<R>(a: seq<R>, b: seq<R>, nameOf: R -> string)
    ensures Names(a + b, nameOf) == Names(a, nameOf) + Names(b, nameOf)
  {
  }

  /** Every tag order of a batch lists each name at most once. */
  predicate OrdersDistinct(orders: seq<seq<string>>) {
    forall i :: 0 <= i < |orders| ==> NoRepeats(orders[i])
  }

  /** A load that passed so far, followed by adding the next owner of the
      batch, is the load of one more owner. */
  lemma {:induction false} AddOwnersSnoc<R>(t: Tagged<R>, nameOf: R -> string, table: string,
                         rows: seq<R>, orders: seq<seq<string>>, order: seq<string>, prev: Load<R>, next: Load<R>)
    requires |orders| < |rows| && prev == AddOwners(t, nameOf, table, rows[..|orders|], orders)
    requires prev.res.Pass? && next == AddOwner(prev.t, nameOf, table, rows[|orders|], order)
    ensures next == AddOwners(t, nameOf, table, rows[..|orders| + 1], orders + [order])
  {
    var k := |orders|;
    assert rows[..k + 1][..k] == rows[..k] && rows[..k + 1][k] == rows[k];
    assert (orders + [order])[..k] == orders;
  }

  /** Loading owners keeps the tables' integrity, only ever appends to them,
      and leaves the tags of every owner that was already there as they were. */
  lemma {:induction false} AddOwnersValid<R>(t: Tagged<R>, nameOf: R -> string, table: string,
                                            rows: seq<R>, orders: seq<seq<string>>)
    requires TaggedValid(t, nameOf) && |orders| == |rows| && OrdersDistinct(orders)
    ensures TaggedValid(AddOwners(t, nameOf, table, rows, orders).t, nameOf)
    ensures Extends(t, AddOwners(t, nameOf, table, rows, orders).t)
  {
    if rows != [] {
      var n := |rows|;
      assert OrdersDistinct(orders[..n - 1]);
      AddOwnersValid(t, nameOf, table, rows[..n - 1], orders[..n - 1]);
      var l := AddOwners(t, nameOf, table, rows[..n - 1], orders[..n - 1]);
      StepValid(l, nameOf, table, rows[n - 1], orders[n - 1], AddOwners(t, nameOf, table, rows, orders));
      ExtendsTrans(t, l.t, AddOwners(t, nameOf, table, rows, orders).t);
    }
  }

  /** The rows a load adds, failed or not, are rows of the batch, after those
      that were there; a load that passed added all of them in order. */
  lemma {:induction false} AddOwnersRows<R>(t: Tagged<R>, nameOf: R -> string, table: string,
                                           rows: seq<R>, orders: seq<seq<string>>)
    requires |orders| == |rows|
    ensures var l := AddOwners(t, nameOf, table, rows, orders);
            && t.rows <= l.t.rows
            && (forall k :: |t.rows| <= k < |l.t.rows| ==> l.t.rows[k] in rows)
            && (l.res.Pass? ==> l.t.rows == t.rows + rows)
  {
    if rows == [] {
      assert t.rows + rows == t.rows;
    } else {
      var n := |rows|;
      var prefix := rows[..n - 1];
      AddOwnersRows(t, nameOf, table, prefix, orders[..n - 1]);
      var l := AddOwners(t, nameOf, table, prefix, orders[..n - 1]);
      var l' := AddOwners(t, nameOf, table, rows, orders);
      StepRows(l, nameOf, table, rows[n - 1], orders[n - 1], l');
      forall k | |t.rows| <= k < |l'.t.rows| ensures l'.t.rows[k] in rows {
        if k < |l.t.rows| {
          assert l.t.rows[k] in prefix;
        } else {
          assert l'.t.rows[k] == rows[n - 1];
        }
      }
      assert rows == prefix + [rows[n - 1]];
    }
  }

  /** Loading owners succeeds exactly when all their names are new and
      distinct. */
  lemma {:induction false} AddOwnersPass<R>(t: Tagged<R>, nameOf: R -> string, table: string,
                                           rows: seq<R>, orders: seq<seq<string>>)
    requires TaggedValid(t, nameOf) && |orders| == |rows| && OrdersDistinct(orders)
    ensures AddOwners(t, nameOf, table, rows, orders).res.Pass? <==>
              NoRepeats(Names(t.rows, nameOf) + Names(rows, nameOf))
  {
    if rows == [] {
      assert Names(t.rows, nameOf) + Names(rows, nameOf) == Names(t.rows, nameOf);
    } else {
      var n := |rows|;
      var prefix := rows[..n - 1];
      var before := Names(t.rows, nameOf) + Names(prefix, nameOf);
      assert OrdersDistinct(orders[..n - 1]);
      AddOwnersPass(t, nameOf, table, prefix, orders[..n - 1]);
      assert rows == prefix + [rows[n - 1]];
      NamesConcat(prefix, [rows[n - 1]], nameOf);
      assert Names(t.rows, nameOf) + Names(rows, nameOf) == before + [nameOf(rows[n - 1])];
      NoRepeatsSnoc(before, nameOf(rows[n - 1]));
      var l := AddOwners(t, nameOf, table, prefix, orders[..n - 1]);
      if l.res.Pass? {
        AddOwnersValid(t, nameOf, table, prefix, orders[..n - 1]);
        AddOwnersRows(t, nameOf, table, prefix, orders[..n - 1]);
        AddOwnerOutcome(l.t, nameOf, table, rows[n - 1], orders[n - 1]);
        NamesConcat(t.rows, prefix, nameOf);
      }
    }
  }

  /** Owner i of `orders` (id base + i + 1) is linked to exactly the names of
      its tag order. */
  ghost predicate LinkedFrom<R>(t: Tagged<R>, base: nat, orders: seq<seq<string>>) {
    forall i :: 0 <= i < |orders| ==> Linked(t, base + i + 1, orders[i])
  }

  /** A step that passes links its owner to its tag order and leaves the
      owners before it linked as they were. */
  lemma {:induction false} StepLinks<R>(l: Load<R>, nameOf: R -> string, table: string, row: R, order: seq<string>, l': Load<R>,
                     base: nat, orders: seq<seq<string>>)
    requires TaggedValid(l.t, nameOf) && NoRepeats(order)
    requires l' == Step(l, nameOf, table, row, order)
    requires l.res.Pass? ==> |l.t.rows| == base + |orders| && LinkedFrom(l.t, base, orders)
    ensures l'.res.Pass? ==> LinkedFrom(l'.t, base, orders + [order])
  {
    if l'.res.Pass? {
      AddOwnerValid(l.t, nameOf, table, row, order);
      AddOwnerOutcome(l.t, nameOf, table, row, order);
      forall i | 0 <= i < |orders| + 1 ensures Linked(l'.t, base + i + 1, (orders + [order])[i]) {
        if i < |orders| {
          assert Linked(l.t, base + i + 1, orders[i]);
        }
      }
    }
  }

  /** After a successful load, owner i of the batch (id |t.rows| + i + 1) is
      linked to exactly the names of its tag order. */
  lemma {:induction false} AddOwnersLinks<R>(t: Tagged<R>, nameOf: R -> string, table: string,
                                            rows: seq<R>, orders: seq<seq<string>>)
    requires TaggedValid(t, nameOf) && |orders| == |rows| && OrdersDistinct(orders)
    ensures var l := AddOwners(t, nameOf, table, rows, orders);
            l.res.Pass? ==> LinkedFrom(l.t, |t.rows|, orders)
  {
    if rows != [] {
      var n := |rows|;
      var prefix := rows[..n - 1];
      assert OrdersDistinct(orders[..n - 1]);
      AddOwnersLinks(t, nameOf, table, prefix, orders[..n - 1]);
      AddOwnersValid(t, nameOf, table, prefix, orders[..n - 1]);
      AddOwnersRows(t, nameOf, table, prefix, orders[..n - 1]);
      StepLinks(AddOwners(t, nameOf, table, prefix, orders[..n - 1]), nameOf, table, rows[n - 1], orders[n - 1],
                AddOwners(t, nameOf, table, rows, orders), |t.rows|, orders[..n - 1]);
      assert orders[..n - 1] + [orders[n - 1]] == orders;
    }
  }

  lemma {:induction false} NoRepeatsPrefix<T>(s: seq<T>, k: nat)
    requires NoRepeats(s) && k <= |s|
    ensures NoRepeats(s[..k])
    decreases |s|
  {
    if k < |s| {
      assert s[..|s| - 1][..k] == s[..k];
      NoRepeatsPrefix(s[..|s| - 1], k);
    } else {
      assert s[..k] == s;
    }
  }

  /** Names repeated among the first k rows of a batch are repeated in the batch. */
  lemma {:induction false} PrefixRepeats<R>(rows0: seq<R>, rows: seq<R>, k: nat, nameOf: R -> string)
    requires k <= |rows| && !NoRepeats(Names(rows0, nameOf) + Names(rows[..k], nameOf))
    ensures !NoRepeats(Names(rows0, nameOf) + Names(rows, nameOf))
  {
    var all := Names(rows0, nameOf) + Names(rows, nameOf);
    assert all[..|rows0| + k] == Names(rows0, nameOf) + Names(rows[..k], nameOf);
    if NoRepeats(all) {
      NoRepeatsPrefix(all, |rows0| + k);
    }
  }

  /**
   * What a load that reached the first |orders| owners of a batch leaves
   * behind: the tables keep their integrity and only grow, and the added
   * rows come from the batch.
   */
  lemma {:induction false} AddOwnersLoadedValid<R>(t: Tagged<R>, nameOf: R -> string, table: string,
                                rows: seq<R>, orders: seq<seq<string>>, t': Tagged<R>)
    requires TaggedValid(t, nameOf) && |orders| <= |rows| && OrdersDistinct(orders)
    requires t' == AddOwners(t, nameOf, table, rows[..|orders|], orders).t
    ensures TaggedValid(t', nameOf) && Extends(t, t')
    ensures forall k :: |t.rows| <= k < |t'.rows| ==> t'.rows[k] in rows
  {
    var batch := rows[..|orders|];
    AddOwnersValid(t, nameOf, table, batch, orders);
    AddOwnersRows(t, nameOf, table, batch, orders);
    forall j | |t.rows| <= j < |t'.rows| ensures t'.rows[j] in rows {
      assert t'.rows[j] in batch;
    }
  }

  /**
   * A load that reached the first |orders| owners of a batch, each tag order
   * listing its owner's tags, and went through the whole batch if it passed,
   * passed exactly when every name of the batch is new and distinct; then it
   * appended the batch's rows and linked every owner of the batch to exactly
   * its tags.
   */
  lemma {:induction false} AddOwnersLoaded<R>(t: Tagged<R>, nameOf: R -> string, table: string,
                           rows: seq<R>, orders: seq<seq<string>>, tagLists: seq<seq<string>>,
                           l: Load<R>)
    requires TaggedValid(t, nameOf) && |rows| == |tagLists| && OrdersWithin(orders, tagLists)
    requires l == AddOwners(t, nameOf, table, rows[..|orders|], orders)
    requires l.res.Pass? ==> |orders| == |rows| && OrdersList(orders, tagLists)
    ensures l.res.Pass? <==> NoRepeats(Names(t.rows, nameOf) + Names(rows, nameOf))
    ensures l.res.Pass? ==> l.t.rows == t.rows + rows
    ensures l.res.Pass? ==> forall i :: 0 <= i < |rows| ==>
              forall x :: x in LinkedNames(l.t.links, l.t.tags, |t.rows| + i + 1) <==> x in tagLists[i]
  {
    var batch := rows[..|orders|];
    assert OrdersDistinct(orders);
    AddOwnersPass(t, nameOf, table, batch, orders);
    if l.res.Fail? {
      PrefixRepeats(t.rows, rows, |orders|, nameOf);
    } else {
      assert batch == rows;
      AddOwnersRows(t, nameOf, table, rows, orders);
      AddOwnersLinks(t, nameOf, table, rows, orders);
      forall i | 0 <= i < |rows|
        ensures forall x :: x in LinkedNames(l.t.links, l.t.tags, |t.rows| + i + 1) <==> x in tagLists[i]
      {
        assert Linked(l.t, |t.rows| + i + 1, orders[i]);
        assert Listing(orders[i], tagLists[i]);
      }
    }
  }
}
