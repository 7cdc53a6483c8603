/**
 * Tag interning and tag links as values: the tags table, a link table
 * (`tags_categories` or `tags_articles`) and the loop that interns an
 * owner's tag names and links them to it, as a fold over the order in which
 * the loop visits the names.
 */
module TagLinks {
  import opened Wrappers
  import opened Tables

  /** No element repeats an earlier one. */
  predicate NoRepeats<T(==)>(s: seq<T>) {
    s == [] || (NoRepeats(s[..|s| - 1]) && s[|s| - 1] !in s[..|s| - 1])
  }

  lemma {:induction false} NoRepeatsDistinct<T>(s: seq<T>, i: nat, j: nat)
    requires NoRepeats(s) && i < j < |s|
    ensures s[i] != s[j]
  {
    var prefix := s[..|s| - 1];
    if j < |s| - 1 {
      NoRepeatsDistinct(prefix, i, j);
    } else {
      assert s[i] == prefix[i];
    }
  }

  /** Every link names an existing tag and an existing owner. */
  predicate LinksValid(links: seq<Link>, tagCount: nat, ownerCount: nat) {
    forall k :: 0 <= k < |links| ==> 1 <= links[k].tagId <= tagCount && 1 <= links[k].ownerId <= ownerCount
  }

  lemma {:induction false} LinksGrowTags(links: seq<Link>, tagCount: nat, tagCount': nat, ownerCount: nat)
    requires LinksValid(links, tagCount, ownerCount) && tagCount <= tagCount'
    ensures LinksValid(links, tagCount', ownerCount)
  {
  }

  lemma {:induction false} LinksGrowOwners(links: seq<Link>, tagCount: nat, ownerCount: nat, ownerCount': nat)
    requires LinksValid(links, tagCount, ownerCount) && ownerCount <= ownerCount'
    ensures LinksValid(links, tagCount, ownerCount')
  {
  }

  /** The names of the tags linked to `owner`. */
  function LinkedNames(links: seq<Link>, tags: seq<string>, owner: nat): set<string> {
    if links == [] then {}
    else
      var l := links[|links| - 1];
      LinkedNames(links[..|links| - 1], tags, owner) +
        (if l.ownerId == owner && 1 <= l.tagId <= |tags| then {tags[l.tagId - 1]} else {})
  }

  lemma {:induction false} LinkedNamesTagsGrow(links: seq<Link>, tags: seq<string>, tags': seq<string>, owner: nat, ownerCount: nat)
    requires tags <= tags' && LinksValid(links, |tags|, ownerCount)
    ensures LinkedNames(links, tags', owner) == LinkedNames(links, tags, owner)
  {
    if links != [] {
      LinkedNamesTagsGrow(links[..|links| - 1], tags, tags', owner, ownerCount);
    }
  }

  /** An owner with no link rows has no linked names. */
  lemma {:induction false} LinkedNamesNone(links: seq<Link>, tags: seq<string>, owner: nat)
    requires forall k :: 0 <= k < |links| ==> links[k].ownerId != owner
    ensures LinkedNames(links, tags, owner) == {}
  {
    if links != [] {
      LinkedNamesNone(links[..|links| - 1], tags, owner);
    }
  }

  /** Links of other owners leave an owner's names alone. */
  lemma {:induction false} LinkedNamesOthers(links: seq<Link>, more: seq<Link>, tags: seq<string>, owner: nat)
    requires forall k :: 0 <= k < |more| ==> more[k].ownerId != owner
    ensures LinkedNames(links + more, tags, owner) == LinkedNames(links, tags, owner)
    decreases |more|
  {
    if more == [] {
      assert links + more == links;
    } else {
      assert (links + more)[..|links + more| - 1] == links + more[..|more| - 1];
      LinkedNamesOthers(links, more[..|more| - 1], tags, owner);
    }
  }

  /** An owner has one link row per distinct tag name: with unique tag names
      and unique links, two different rows of one owner name different tags. */
  lemma {:induction false} OneLinkPerName(links: seq<Link>, tags: seq<string>, owner: nat, ownerCount: nat, i: nat, j: nat)
    requires NoRepeats(tags) && LinksValid(links, |tags|, ownerCount) && NoRepeats(links)
    requires i < j < |links| && links[i].ownerId == owner && links[j].ownerId == owner
    ensures tags[links[i].tagId - 1] != tags[links[j].tagId - 1]
  {
    NoRepeatsDistinct(links, i, j);
    if tags[links[i].tagId - 1] == tags[links[j].tagId - 1] {
      if links[i].tagId < links[j].tagId {
        NoRepeatsDistinct(tags, links[i].tagId - 1, links[j].tagId - 1);
      } else if links[j].tagId < links[i].tagId {
        NoRepeatsDistinct(tags, links[j].tagId - 1, links[i].tagId - 1);
      }
    }
  }

  // ---------------------------------------------------------------- interning

  /** The position of the first occurrence of `x` in `s`. */
  function FirstIndex(s: seq<string>, x: string): (r: nat)
    requires x in s
    ensures r < |s| && s[r] == x && forall k :: 0 <= k < r ==> s[k] != x
  {
    if s[0] == x then 0 else 1 + FirstIndex(s[1..], x)
  }

  /** The tags table after interning a name, and the name's tag id. */
  datatype Interned = Interned(tags: seq<string>, id: nat)

  /** Interning a tag name: the id of the first tag row with that name, or a
      new row appended for it. */
  function Intern(tags: seq<string>, name: string): Interned {
    if name in tags then Interned(tags, FirstIndex(tags, name) + 1) else Interned(tags + [name], |tags| + 1)
  }

  /** Interning yields a tag row holding the name, adds a row only for a new
      name, and keeps tag names unique. */
  lemma {:induction false} InternFinds(tags: seq<string>, name: string)
    ensures var i := Intern(tags, name);
            && 1 <= i.id <= |i.tags| && i.tags[i.id - 1] == name && tags <= i.tags
            && (name in tags ==> i.tags == tags)
            && (name !in tags ==> i.tags == tags + [name])
            && (NoRepeats(tags) ==> NoRepeats(i.tags))
  {
    if name !in tags {
      assert (tags + [name])[..|tags|] == tags;
    }
  }

  /** The tags table and one link table, and how the tag loop went. */
  datatype Linking = Linking(tags: seq<string>, links: seq<Link>, res: Outcome<Failure>)

  /** One iteration of the tag loop: intern the name, then insert the link;
      UNIQUE(tag_id, owner_id) rejects a link that is already there. */
  function LinkOne(tags: seq<string>, links: seq<Link>, owner: nat, name: string): Linking {
    var i := Intern(tags, name);
    if Link(i.id, owner) in links then Linking(i.tags, links, Fail(DuplicateLink(i.id, owner)))
    else Linking(i.tags, links + [Link(i.id, owner)], Pass)
  }

  /** The tag loop over the names in the order `order`, stopping at the first failure. */
  function LinkNames(tags: seq<string>, links: seq<Link>, owner: nat, order: seq<string>): Linking {
    if order == [] then Linking(tags, links, Pass)
    else
      var l := LinkNames(tags, links, owner, order[..|order| - 1]);
      if l.res.Fail? then l else LinkOne(l.tags, l.links, owner, order[|order| - 1])
  }

  /** One iteration keeps the tables' integrity and only appends to them,
      adding to the tags table at most its own name. */
  lemma {:induction false} LinkOneKeepsValid(tags: seq<string>, links: seq<Link>, owner: nat,
                                             ownerCount: nat, name: string)
    requires NoRepeats(tags) && LinksValid(links, |tags|, ownerCount) && NoRepeats(links)
    requires 1 <= owner <= ownerCount
    ensures var l := LinkOne(tags, links, owner, name);
            && NoRepeats(l.tags) && LinksValid(l.links, |l.tags|, ownerCount) && NoRepeats(l.links)
            && tags <= l.tags && links <= l.links
            && (forall t :: t in l.tags ==> t in tags || t == name)
  {
    InternFinds(tags, name);
    var i := Intern(tags, name);
    LinksGrowTags(links, |tags|, |i.tags|, ownerCount);
    if Link(i.id, owner) !in links {
      NoRepeatsSnoc(links, Link(i.id, owner));
    }
  }

  lemma {:induction false} SplitLast<T>(s: seq<T>)
    requires s != []
    ensures s == s[..|s| - 1] + [s[|s| - 1]]
  {
  }

  lemma {:induction false} NoRepeatsSnoc<T>(s: seq<T>, x: T)
    ensures NoRepeats(s + [x]) <==> NoRepeats(s) && x !in s
  {
    assert (s + [x])[..|s|] == s;
  }

  /** The tag loop keeps the tables' integrity: tag names stay unique, link
      rows stay unique and refer to existing tags; the tags table only grows,
      and only by names of the loop. */
  lemma {:induction false} LinkNamesKeepsValid(tags: seq<string>, links: seq<Link>, owner: nat,
                                               ownerCount: nat, order: seq<string>)
    requires NoRepeats(tags) && LinksValid(links, |tags|, ownerCount) && NoRepeats(links)
    requires 1 <= owner <= ownerCount
    ensures var l := LinkNames(tags, links, owner, order);
            && NoRepeats(l.tags) && LinksValid(l.links, |l.tags|, ownerCount) && NoRepeats(l.links)
            && tags <= l.tags && links <= l.links
            && (forall t :: t in l.tags ==> t in tags || t in order)
  {
    if order != [] {
      var prefix := order[..|order| - 1];
      var name := order[|order| - 1];
      LinkNamesKeepsValid(tags, links, owner, ownerCount, prefix);
      var l := LinkNames(tags, links, owner, prefix);
      if l.res.Pass? {
        LinkOneKeepsValid(l.tags, l.links, owner, ownerCount, name);
      }
      assert forall t :: t in prefix ==> t in order;
    }
  }

  /** The rows after `links0` in `links` all belong to `owner` and name tags of `order`. */
  predicate NewRowsNamed(links0: seq<Link>, links: seq<Link>, tags: seq<string>, owner: nat, order: seq<string>) {
    forall k :: |links0| <= k < |links| ==>
      links[k].ownerId == owner && 1 <= links[k].tagId <= |tags| && tags[links[k].tagId - 1] in order
  }

  /** A link of a new owner to a name not visited yet is not there. */
  lemma {:induction false} NewLinkAbsent(links0: seq<Link>, links: seq<Link>, tags: seq<string>, owner: nat,
                                         order: seq<string>, id: nat, name: string)
    requires links0 <= links && forall k :: 0 <= k < |links0| ==> links0[k].ownerId != owner
    requires NewRowsNamed(links0, links, tags, owner, order)
    requires 1 <= id <= |tags| && tags[id - 1] == name && name !in order
    ensures Link(id, owner) !in links
  {
    forall k | 0 <= k < |links| ensures links[k] != Link(id, owner) {
      if k < |links0| {
        assert links[k] == links0[k];
      }
    }
  }

  lemma {:induction false} NewRowsGrow(links0: seq<Link>, links: seq<Link>, tags: seq<string>, tags': seq<string>,
                                       owner: nat, order: seq<string>)
    requires NewRowsNamed(links0, links, tags, owner, order) && tags <= tags'
    ensures NewRowsNamed(links0, links, tags', owner, order)
  {
    forall k | |links0| <= k < |links| ensures tags'[links[k].tagId - 1] in order {
      assert tags'[links[k].tagId - 1] == tags[links[k].tagId - 1];
    }
  }

  lemma {:induction false} NewRowsStep(links0: seq<Link>, links: seq<Link>, tags: seq<string>, tags': seq<string>,
                                       owner: nat, order: seq<string>, id: nat, name: string)
    requires NewRowsNamed(links0, links, tags, owner, order) && tags <= tags' && |links0| <= |links|
    requires 1 <= id <= |tags'| && tags'[id - 1] == name
    ensures NewRowsNamed(links0, links + [Link(id, owner)], tags', owner, order + [name])
  {
    var links' := links + [Link(id, owner)];
    forall k | |links0| <= k < |links'|
      ensures links'[k].ownerId == owner && 1 <= links'[k].tagId <= |tags'| && tags'[links'[k].tagId - 1] in order + [name]
    {
      if k < |links| {
        assert links'[k] == links[k];
        assert tags'[links[k].tagId - 1] == tags[links[k].tagId - 1];
        assert tags[links[k].tagId - 1] in order;
      }
    }
  }

  lemma {:induction false} LinkedNamesStep(links: seq<Link>, tags: seq<string>, tags': seq<string>, owner: nat,
                                           ownerCount: nat, id: nat, name: string)
    requires tags <= tags' && LinksValid(links, |tags|, ownerCount)
    requires 1 <= id <= |tags'| && tags'[id - 1] == name
    ensures LinkedNames(links + [Link(id, owner)], tags', owner) == LinkedNames(links, tags, owner) + {name}
  {
    LinkedNamesTagsGrow(links, tags, tags', owner, ownerCount);
    assert (links + [Link(id, owner)])[..|links|] == links;
  }

  /** What the tag loop for a new owner has done after visiting `prefix`. */
  ghost predicate NewOwnerLinked(links0: seq<Link>, l: Linking, owner: nat, prefix: seq<string>) {
    && l.res == Pass
    && links0 <= l.links && |l.links| == |links0| + |prefix|
    && NewRowsNamed(links0, l.links, l.tags, owner, prefix)
    && (forall t :: t in LinkedNames(l.links, l.tags, owner) <==> t in prefix)
  }

  /** Visiting a name not visited yet for a new owner links it. */
  lemma {:induction false} LinkOneNewOwner(links0: seq<Link>, l: Linking, owner: nat, ownerCount: nat,
                                           prefix: seq<string>, name: string)
    requires NoRepeats(l.tags) && LinksValid(l.links, |l.tags|, ownerCount)
    requires forall k :: 0 <= k < |links0| ==> links0[k].ownerId != owner
    requires NewOwnerLinked(links0, l, owner, prefix) && name !in prefix
    ensures NewOwnerLinked(links0, LinkOne(l.tags, l.links, owner, name), owner, prefix + [name])
  {
    InternFinds(l.tags, name);
    var i := Intern(l.tags, name);
    var links' := l.links + [Link(i.id, owner)];
    NewRowsGrow(links0, l.links, l.tags, i.tags, owner, prefix);
    NewLinkAbsent(links0, l.links, i.tags, owner, prefix, i.id, name);
    assert LinkOne(l.tags, l.links, owner, name) == Linking(i.tags, links', Pass);
    NewRowsStep(links0, l.links, l.tags, i.tags, owner, prefix, i.id, name);
    LinkedNamesStep(l.links, l.tags, i.tags, owner, ownerCount, i.id, name);
    forall t ensures t in LinkedNames(links', i.tags, owner) <==> t in prefix + [name] {
      assert t in LinkedNames(l.links, l.tags, owner) <==> t in prefix;
    }
  }

  /**
   * For an owner without links yet (a category or article just inserted) and
   * names visited once each, the tag loop never trips the UNIQUE constraint,
   * appends exactly one link row per name, all to that owner, and the owner's
   * linked names are exactly the names visited.
   */
  lemma {:induction false} LinkNamesNewOwner(tags: seq<string>, links: seq<Link>, owner: nat,
                                             ownerCount: nat, order: seq<string>)
    requires NoRepeats(tags) && LinksValid(links, |tags|, ownerCount) && NoRepeats(links)
    requires 1 <= owner <= ownerCount && NoRepeats(order)
    requires forall k :: 0 <= k < |links| ==> links[k].ownerId != owner
    ensures NewOwnerLinked(links, LinkNames(tags, links, owner, order), owner, order)
  {
    if order == [] {
      LinkedNamesNone(links, tags, owner);
    } else {
      var prefix := order[..|order| - 1];
      var name := order[|order| - 1];
      assert NoRepeats(prefix) && name !in prefix;
      LinkNamesNewOwner(tags, links, owner, ownerCount, prefix);
      LinkNamesKeepsValid(tags, links, owner, ownerCount, prefix);
      var l := LinkNames(tags, links, owner, prefix);
      SplitLast(order);
      assert LinkNames(tags, links, owner, order) == LinkOne(l.tags, l.links, owner, name);
      LinkOneNewOwner(links, l, owner, ownerCount, prefix, name);
    }
  }

  /** The link rows a loop for a new owner appends all belong to it, so
      they leave every other owner's tags as they were. */
  lemma {:induction false} NewRowsKeepOthers(links: seq<Link>, links': seq<Link>, tags: seq<string>, tags': seq<string>,
                                             owner: nat, ownerCount: nat, order: seq<string>, other: nat)
    requires links <= links' && tags <= tags' && LinksValid(links, |tags|, ownerCount)
    requires NewRowsNamed(links, links', tags', owner, order) && other != owner
    ensures LinkedNames(links', tags', other) == LinkedNames(links, tags, other)
  {
    var more := links'[|links|..];
    assert links' == links + more;
    forall k | 0 <= k < |more| ensures more[k].ownerId != other {
      assert more[k] == links'[|links| + k];
    }
    LinkedNamesOthers(links, more, tags', other);
    LinkedNamesTagsGrow(links, tags, tags', other, ownerCount);
  }

  /** Running the tag loop for a new owner leaves every other owner's tags as they were. */
  lemma {:induction false} LinkNamesKeepsOthers(tags: seq<string>, links: seq<Link>, owner: nat,
                                                ownerCount: nat, order: seq<string>, other: nat)
    requires NoRepeats(tags) && LinksValid(links, |tags|, ownerCount) && NoRepeats(links)
    requires 1 <= owner <= ownerCount && NoRepeats(order)
    requires forall k :: 0 <= k < |links| ==> links[k].ownerId != owner
    requires other != owner
    ensures var l := LinkNames(tags, links, owner, order);
            LinkedNames(l.links, l.tags, other) == LinkedNames(links, tags, other)
  {
    LinkNamesKeepsValid(tags, links, owner, ownerCount, order);
    LinkNamesNewOwner(tags, links, owner, ownerCount, order);
    var l := LinkNames(tags, links, owner, order);
    NewRowsKeepOthers(links, l.links, tags, l.tags, owner, ownerCount, order, other);
  }
}
