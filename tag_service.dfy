/**
 * `TagService`: the tag registry. The service owns the `Tags` table and reads
 * the `DocumentTags` association table; tag names are unique up to case.
 */
module Tags {
  import opened Wrappers
  import opened Text
  import opened Sorting
  import opened Rows

  /** A row of the `Tags` table, without its key. */
  datatype Tag = Tag(name: string, createdAt: Timestamp)

  /** A row of `DocumentTags`; the pair is the composite key. */
  datatype DocumentTag = DocumentTag(documentId: int, tagId: int)

  type TagTable = map<int, Tag>

  /** The exceptions the service throws. */
  datatype Error =
    | TagNotFound    // ArgumentException: the tag to rename does not exist
    | DuplicateName  // Exception: another tag already has the name, up to case
    | HasDocuments   // InvalidOperationException: the tag is still attached to documents

  /** `TagDto`. */
  datatype TagSummary = TagSummary(id: int, name: string, documentsCount: nat, createdAt: Timestamp)

  /** `DocumentTags.Count`: the association rows that name tag `id`. */
  function Associated(assocs: set<DocumentTag>, id: int): set<DocumentTag> {
    set a | a in assocs && a.tagId == id
  }

  /** Names agree up to case. */
  predicate SameName(a: string, b: string) {
    ToLower(a) == ToLower(b)
  }

  /** No two tags have names that agree up to case. */
  ghost predicate UniqueNames(tags: TagTable) {
    forall i, j :: i in tags && j in tags && SameName(tags[i].name, tags[j].name) ==> i == j
  }

  /** Adding a tag whose name no tag has, up to case, keeps names unique. */
  lemma AddKeepsUnique(tags: TagTable, id: int, t: Tag)
    requires UniqueNames(tags) && id !in tags
    requires forall k :: k in tags ==> !SameName(tags[k].name, t.name)
    ensures UniqueNames(tags[id := t])
  {
  }

  /** Renaming a tag to a name no other tag has, up to case, keeps names unique. */
  lemma RenameKeepsUnique(tags: TagTable, id: int, name: string)
    requires UniqueNames(tags) && id in tags
    requires forall k :: k in tags && k != id ==> !SameName(tags[k].name, name)
    ensures UniqueNames(tags[id := tags[id].(name := name)])
  {
  }

  /** Without the side condition the registry would accept two tags that differ only in case. */
  lemma CollidingAddBreaksUnique(tags: TagTable, id: int, t: Tag, k: int)
    requires id !in tags && k in tags && SameName(tags[k].name, t.name)
    ensures !UniqueNames(tags[id := t])
  {
    assert SameName(tags[id := t][id].name, tags[id := t][k].name);
  }

  /** `OrderBy(t => t.Name)`. */
  function ByName(a: TagSummary, b: TagSummary): bool {
    LexLe(a.name, b.name)
  }

  /** `OrderByDescending(t => t.DocumentTags.Count).ThenBy(t => t.Name)`. */
  function ByPopularity(a: TagSummary, b: TagSummary): bool {
    a.documentsCount > b.documentsCount || (a.documentsCount == b.documentsCount && LexLe(a.name, b.name))
  }

  lemma ByNameIsTotalPreorder()
    ensures TotalPreorder(ByName)
  {
    forall a: TagSummary, b: TagSummary ensures ByName(a, b) || ByName(b, a) {
      LexLeTotal(a.name, b.name);
    }
    forall a: TagSummary, b: TagSummary, c: TagSummary | ByName(a, b) && ByName(b, c) ensures ByName(a, c) {
      LexLeTransitive(a.name, b.name, c.name);
    }
  }

  lemma ByPopularityIsTotalPreorder()
    ensures TotalPreorder(ByPopularity)
  {
    forall a: TagSummary, b: TagSummary ensures ByPopularity(a, b) || ByPopularity(b, a) {
      LexLeTotal(a.name, b.name);
    }
    forall a: TagSummary, b: TagSummary, c: TagSummary | ByPopularity(a, b) && ByPopularity(b, c)
      ensures ByPopularity(a, c)
    {
      if a.documentsCount == b.documentsCount == c.documentsCount {
        LexLeTransitive(a.name, b.name, c.name);
      }
    }
  }

  /** The popularity ranking of a list of summaries, cut to its first `count` entries. */
  function Popular(summaries: seq<TagSummary>, count: int): (r: seq<TagSummary>)
    ensures |r| == if count <= 0 then 0 else if count < |summaries| then count else |summaries|
    ensures multiset(r) <= multiset(summaries)
    ensures SortedBy(r, ByPopularity)
    ensures forall y :: y in summaries && y !in r ==> forall x :: x in r ==> ByPopularity(x, y)
  {
    ByPopularityIsTotalPreorder();
    var ranked := SortBy(summaries, ByPopularity);
    TakeOfSorted(ranked, ByPopularity, count);
    assert forall y :: y in summaries <==> y in ranked by {
      assert forall y :: y in summaries <==> y in multiset(ranked);
    }
    Take(ranked, count)
  }

  /** A summary the ranking leaves out ranks no higher than every one it keeps. */
  lemma RankedAbove(summaries: seq<TagSummary>, count: int, y: TagSummary)
    requires y in summaries
    requires forall i :: 0 <= i < |Popular(summaries, count)| ==> Popular(summaries, count)[i].id != y.id
    ensures forall i :: 0 <= i < |Popular(summaries, count)| ==> ByPopularity(Popular(summaries, count)[i], y)
  {
    var r := Popular(summaries, count);
    assert y !in r;
    forall i | 0 <= i < |r| ensures ByPopularity(r[i], y) {
      assert r[i] in r;
    }
  }

  /** The tags `SeedData.Initialize` puts in the table, all in lower case. */
  function SeedTags(now: Timestamp): (tags: TagTable)
    ensures tags.Keys == {1, 2, 3, 4, 5}
    ensures UniqueNames(tags)
  {
    var tags := map[
      1 := Tag("tutorial", now), 2 := Tag("guide", now), 3 := Tag("advanced", now),
      4 := Tag("beginner", now), 5 := Tag("reference", now)];
    LowerCaseIsFixed("tutorial");
    LowerCaseIsFixed("guide");
    LowerCaseIsFixed("advanced");
    LowerCaseIsFixed("beginner");
    LowerCaseIsFixed("reference");
    tags
  }

  class TagService {
    /** The `Tags` table. */
    var tags: TagTable
    /** The table's keys in storage (primary key) order. */
    var rows: seq<int>
    /** The next value of the identity column. */
    var nextId: int
    /** The `DocumentTags` table. */
    var associations: set<DocumentTag>

    /**
     * The table is stored in key order, the identity column is ahead of every
     * key, every association names a stored tag, and names are unique up to case.
     */
    ghost predicate Valid()
      reads this
    {
      && Increasing(rows)
      && (forall id :: id in rows <==> id in tags)
      && (forall id :: id in tags ==> id < nextId)
      && (forall a :: a in associations ==> a.tagId in tags)
      && UniqueNames(tags)
    }

    /** The database after the seed migration, with no documents yet. */
    constructor Seeded(now: Timestamp)
      ensures Valid()
      ensures tags == SeedTags(now) && rows == [1, 2, 3, 4, 5] && nextId == 6
      ensures associations == {}
    {
      tags := SeedTags(now);
      rows := [1, 2, 3, 4, 5];
      nextId := 6;
      associations := {};
    }

    /** The `TagDto` of a stored tag. */
    function Summary(id: int): (s: TagSummary)
      reads this
      requires id in tags
      ensures s.id == id && s.name == tags[id].name && s.createdAt == tags[id].createdAt
      ensures s.documentsCount == |Associated(associations, id)|
    {
      TagSummary(id, tags[id].name, |Associated(associations, id)|, tags[id].createdAt)
    }

    /** The projection `Select(t => new TagDto { … })` over a list of rows. */
    function Summaries(ids: seq<int>): (r: seq<TagSummary>)
      reads this
      requires forall id :: id in ids ==> id in tags
      ensures |r| == |ids|
      ensures forall i :: 0 <= i < |ids| ==> r[i] == Summary(ids[i])
    {
      if ids == [] then [] else [Summary(ids[0])] + Summaries(ids[1..])
    }

    /** Part of the summaries of all rows, in any order, lists distinct stored tags. */
    lemma ListedSummaries(r: seq<TagSummary>)
      requires Valid()
      requires multiset(r) <= multiset(Summaries(rows))
      ensures forall i, j :: 0 <= i < j < |r| ==> r[i].id != r[j].id
      ensures forall i :: 0 <= i < |r| ==> r[i].id in tags && r[i] == Summary(r[i].id)
    {
      var all := Summaries(rows);
      assert forall i :: 0 <= i < |all| ==> all[i].id == rows[i];
      assert NoDuplicates(all) by {
        forall i, j | 0 <= i < j < |all| ensures all[i] != all[j] {
          assert all[i].id == rows[i] && all[j].id == rows[j];
        }
      }
      PermutationKeepsDistinct(all, r);
      forall i | 0 <= i < |r| ensures r[i].id in tags && r[i] == Summary(r[i].id) {
        assert r[i] in multiset(all);
        var k :| 0 <= k < |all| && all[k] == r[i];
      }
    }

    /** Any reordering of the summaries of all rows lists every tag exactly once. */
    lemma ReorderedSummaries(r: seq<TagSummary>)
      requires Valid()
      requires multiset(r) == multiset(Summaries(rows))
      ensures |r| == |tags|
      ensures forall id :: id in tags ==> exists i :: 0 <= i < |r| && r[i].id == id
      ensures forall i, j :: 0 <= i < j < |r| ==> r[i].id != r[j].id
      ensures forall i :: 0 <= i < |r| ==> r[i].id in tags && r[i] == Summary(r[i].id)
    {
      var all := Summaries(rows);
      ListedSummaries(r);
      assert |r| == |all| by {
        assert |multiset(r)| == |multiset(all)|;
      }
      RowsCount(rows, tags.Keys);
      forall id | id in tags ensures exists i :: 0 <= i < |r| && r[i].id == id {
        var k :| 0 <= k < |rows| && rows[k] == id;
        assert all[k] in multiset(r);
        var i :| 0 <= i < |r| && r[i] == all[k];
      }
    }

    /** `GetAllAsync`: every tag once, with its association count, in name order. */
    function GetAll(): (r: seq<TagSummary>)
      reads this
      requires Valid()
      ensures |r| == |tags| && ListsEveryTagOnce(r)
      ensures SortedBy(r, ByName)
    {
      ByNameIsTotalPreorder();
      var r := SortBy(Summaries(rows), ByName);
      NameOrderOfAll(r);
      r
    }

    /** The name ordering of the summaries of all rows lists every tag once, in name order. */
    lemma NameOrderOfAll(r: seq<TagSummary>)
      requires Valid()
      requires TotalPreorder(ByName) && r == SortBy(Summaries(rows), ByName)
      ensures |r| == |tags| && ListsEveryTagOnce(r)
      ensures SortedBy(r, ByName)
    {
      ReorderedSummaries(r);
    }

    /** `r` holds the summary of every stored tag, and each tag once. */
    ghost predicate ListsEveryTagOnce(r: seq<TagSummary>)
      reads this
    {
      && (forall id :: id in tags ==> exists i :: 0 <= i < |r| && r[i].id == id)
      && (forall i, j :: 0 <= i < j < |r| ==> r[i].id != r[j].id)
      && (forall i :: 0 <= i < |r| ==> r[i].id in tags && r[i] == Summary(r[i].id))
    }

    /** `GetByIdAsync`: the tag's summary, or nothing when no row has that key. */
    function GetById(id: int): (r: Option<TagSummary>)
      reads this
      ensures r.Some? <==> id in tags
      ensures r.Some? ==> r.value == Summary(id)
    {
      if id in tags then Some(Summary(id)) else None
    }

    /** The query `Where(t => t.Name.ToLower() == name.ToLower() && t.Id != except)` over the rows. */
    function NameMatches(name: string, except: Option<int>): (ids: seq<int>)
      reads this
      requires Valid()
      ensures forall id :: id in ids <==> id in tags && SameName(tags[id].name, name) && Some(id) != except
    {
      var ts := tags;
      Where(rows, t => t in ts && SameName(ts[t].name, name) && Some(t) != except)
    }

    /**
     * `GetByNameAsync`: the tag whose name equals `name` up to case, or nothing.
     * The query is not trimmed; the invariant makes the match unique.
     */
    function GetByName(name: string): (r: Option<TagSummary>)
      reads this
      requires Valid()
      ensures r.None? <==> forall id :: id in tags ==> !SameName(tags[id].name, name)
      ensures r.Some? ==> r.value.id in tags && SameName(tags[r.value.id].name, name) && r.value == Summary(r.value.id)
      ensures r.Some? ==> forall id :: id in tags && SameName(tags[id].name, name) ==> id == r.value.id
    {
      var matches := NameMatches(name, None);
      if matches == [] then None
      else
        assert matches[0] in matches;
        Some(Summary(matches[0]))
    }

    /**
     * `GetPopularAsync`: the `count` most-used tags, ties broken by name. No tag
     * left out ranks above a tag that is listed.
     */
    function GetPopular(count: int): (r: seq<TagSummary>)
      reads this
      requires Valid()
      ensures |r| == if count <= 0 then 0 else if count < |tags| then count else |tags|
      ensures forall i :: 0 <= i < |r| ==> r[i].id in tags && r[i] == Summary(r[i].id)
      ensures forall i, j :: 0 <= i < j < |r| ==> r[i].id != r[j].id
      ensures SortedBy(r, ByPopularity)
      ensures forall id :: id in tags && (forall i :: 0 <= i < |r| ==> r[i].id != id) ==>
        forall i :: 0 <= i < |r| ==> ByPopularity(r[i], Summary(id))
    {
      var r := Popular(Summaries(rows), count);
      PopularOfAll(count, r);
      r
    }

    /** What `Popular` promises about a list of summaries, restated for the stored tags. */
    lemma PopularOfAll(count: int, r: seq<TagSummary>)
      requires Valid()
      requires r == Popular(Summaries(rows), count)
      ensures |r| == (if count <= 0 then 0 else if count < |tags| then count else |tags|)
      ensures forall i :: 0 <= i < |r| ==> r[i].id in tags && r[i] == Summary(r[i].id)
      ensures forall i, j :: 0 <= i < j < |r| ==> r[i].id != r[j].id
      ensures SortedBy(r, ByPopularity)
      ensures forall id :: id in tags && (forall i :: 0 <= i < |r| ==> r[i].id != id) ==>
        forall i :: 0 <= i < |r| ==> ByPopularity(r[i], Summary(id))
    {
      RowsCount(rows, tags.Keys);
      ListedSummaries(r);
      EveryUnlistedRanksLower(count, r);
    }

    /** Every stored tag the ranking leaves out ranks no higher than each listed tag. */
    lemma EveryUnlistedRanksLower(count: int, r: seq<TagSummary>)
      requires Valid()
      requires r == Popular(Summaries(rows), count)
      ensures forall id :: id in tags && (forall i :: 0 <= i < |r| ==> r[i].id != id) ==>
        forall i :: 0 <= i < |r| ==> ByPopularity(r[i], Summary(id))
    {
      forall id | id in tags && (forall i :: 0 <= i < |r| ==> r[i].id != id)
        ensures forall i :: 0 <= i < |r| ==> ByPopularity(r[i], Summary(id))
      {
        UnlistedRanksLower(count, id, r);
      }
    }

    lemma UnlistedRanksLower(count: int, id: int, r: seq<TagSummary>)
      requires Valid() && id in tags
      requires r == Popular(Summaries(rows), count)
      requires forall i :: 0 <= i < |r| ==> r[i].id != id
      ensures forall i :: 0 <= i < |r| ==> ByPopularity(r[i], Summary(id))
    {
      var all := Summaries(rows);
      var k :| 0 <= k < |rows| && rows[k] == id;
      var y := all[k];
      assert y == Summary(id);
      RankedAbove(all, count, y);
    }

    /**
     * `CreateAsync`: stores a tag under the trimmed name unless a tag with that
     * name, up to case, exists already.
     */
    method Create(name: string, now: Timestamp) returns (r: Result<TagSummary, Error>)
      requires Valid()
      modifies this
      ensures Valid()
      ensures associations == old(associations)
      ensures r.Failure? <==> exists id :: id in old(tags) && SameName(old(tags)[id].name, Trim(name))
      ensures r.Failure? ==>
        r.error == DuplicateName && tags == old(tags) && rows == old(rows) && nextId == old(nextId)
      ensures r.Success? ==>
        && r.value.id == old(nextId) && r.value.id !in old(tags)
        && tags == old(tags)[r.value.id := Tag(Trim(name), now)]
        && rows == old(rows) + [r.value.id]
        && nextId > r.value.id
        && r.value == Summary(r.value.id)
        && r.value.documentsCount == 0
    {
      var normalizedName := Trim(name);
      var existing := GetByName(normalizedName);
      if existing.Some? {
        return Failure(DuplicateName);
      }
      var id := nextId;
      var tag := Tag(normalizedName, now);
      AddKeepsUnique(tags, id, tag);
      AppendKeepsRows(rows, tags.Keys, id);
      assert Associated(associations, id) == {} by {
        assert forall a :: a in associations ==> a.tagId != id;
      }
      tags := tags[id := tag];
      rows := rows + [id];
      nextId := nextId + 1;
      var found := GetById(id);
      r := Success(found.value);
    }

    /**
     * `UpdateAsync`: renames a tag to the trimmed name unless another tag has
     * that name up to case; a tag may take a case variant of its own name.
     */
    method Update(id: int, name: string) returns (r: Result<TagSummary, Error>)
      requires Valid()
      modifies this
      ensures Valid()
      ensures associations == old(associations) && rows == old(rows) && nextId == old(nextId)
      ensures id !in old(tags) ==> r == Failure(TagNotFound)
      ensures id in old(tags) ==>
        (r.Failure? <==> exists k :: k in old(tags) && k != id && SameName(old(tags)[k].name, Trim(name)))
      ensures r.Failure? ==> tags == old(tags) && (id in old(tags) ==> r.error == DuplicateName)
      ensures r.Success? ==>
        && id in old(tags)
        && tags == old(tags)[id := old(tags)[id].(name := Trim(name))]
        && r.value == Summary(id)
    {
      if id !in tags {
        return Failure(TagNotFound);
      }
      var normalizedName := Trim(name);
      var existing := NameMatches(normalizedName, Some(id));
      if existing != [] {
        assert existing[0] in existing;
        return Failure(DuplicateName);
      }
      RenameKeepsUnique(tags, id, normalizedName);
      var renamed := tags[id := tags[id].(name := normalizedName)];
      assert renamed.Keys == tags.Keys;
      tags := renamed;
      r := Success(Summary(id));
    }

    /**
     * `DeleteAsync`: false for an unknown id; refused while any document carries
     * the tag; otherwise removes exactly that tag.
     */
    method Delete(id: int) returns (r: Result<bool, Error>)
      requires Valid()
      modifies this
      ensures Valid()
      ensures associations == old(associations) && nextId == old(nextId)
      ensures r == Success(false) <==> id !in old(tags)
      ensures r.Failure? <==> id in old(tags) && exists a :: a in associations && a.tagId == id
      ensures r.Failure? ==> r.error == HasDocuments
      ensures r != Success(true) ==> tags == old(tags) && rows == old(rows)
      ensures r == Success(true) ==> tags == old(tags) - {id} && rows == Without(old(rows), id)
    {
      if id !in tags {
        return Success(false);
      }
      if Associated(associations, id) != {} {
        var a :| a in Associated(associations, id);
        return Failure(HasDocuments);
      }
      assert forall a :: a in associations ==> a !in Associated(associations, id);
      tags := tags - {id};
      rows := Without(rows, id);
      return Success(true);
    }
  }

  /**
   * "tutorial" and "guide" are each on five documents and "advanced" on two: the
   * two most popular are "guide" and then "tutorial". The tie is broken by name,
   * and the less used tag is cut although its name sorts first.
   */
  lemma PopularExample(now: Timestamp)
    ensures
      var tutorial := TagSummary(1, "tutorial", 5, now);
      var guide := TagSummary(2, "guide", 5, now);
      var advanced := TagSummary(3, "advanced", 2, now);
      var r := Popular([tutorial, guide, advanced], 2);
      |r| == 2 && r[0] == guide && r[1] == tutorial
  {
    var tutorial := TagSummary(1, "tutorial", 5, now);
    var guide := TagSummary(2, "guide", 5, now);
    var advanced := TagSummary(3, "advanced", 2, now);
    assert LexLe(guide.name, tutorial.name) && !LexLe(tutorial.name, guide.name);
    RankExample(tutorial, guide, advanced);
    PopularTakesFromRanking([tutorial, guide, advanced], 2);
    var ranked := SortBy([tutorial, guide, advanced], ByPopularity);
    assert ranked[0] == guide && ranked[1] == tutorial;
    assert Popular([tutorial, guide, advanced], 2) == ranked[..2];
  }

  /**
   * "alpha", "beta" and "delta" are each on five documents and "gamma" on two:
   * the three most popular are the three tied tags in name order. This follows
   * from the contract of `Popular` alone, not from how it sorts.
   */
  lemma PopularFourExample(now: Timestamp)
    ensures
      var a := TagSummary(1, "alpha", 5, now);
      var b := TagSummary(2, "beta", 5, now);
      var c := TagSummary(3, "gamma", 2, now);
      var d := TagSummary(4, "delta", 5, now);
      Popular([a, b, c, d], 3) == [a, b, d]
  {
    var a := TagSummary(1, "alpha", 5, now);
    var b := TagSummary(2, "beta", 5, now);
    var c := TagSummary(3, "gamma", 2, now);
    var d := TagSummary(4, "delta", 5, now);
    FourRanking(a, b, c, d, Popular([a, b, c, d], 3));
  }

  /** Any three of four summaries that satisfy the contract of `Popular` are the tied three in name order. */
  lemma FourRanking(a: TagSummary, b: TagSummary, c: TagSummary, d: TagSummary, r: seq<TagSummary>)
    requires a.documentsCount == b.documentsCount == d.documentsCount && c.documentsCount < a.documentsCount
    requires LexLe(a.name, b.name) && !LexLe(b.name, a.name)
    requires LexLe(b.name, d.name) && !LexLe(d.name, b.name)
    requires LexLe(a.name, d.name) && !LexLe(d.name, a.name)
    requires |r| == 3 && multiset(r) <= multiset([a, b, c, d]) && SortedBy(r, ByPopularity)
    requires forall y :: y in [a, b, c, d] && y !in r ==> forall x :: x in r ==> ByPopularity(x, y)
    ensures r == [a, b, d]
  {
    LeastIsCut(a, b, c, d, r);
    NoRepeats(a, b, c, d, r);
    assert ByPopularity(r[0], r[1]) && ByPopularity(r[1], r[2]) && ByPopularity(r[0], r[2]);
    assert !ByPopularity(b, a) && !ByPopularity(d, a) && !ByPopularity(d, b);
    ThreeInOrder(a, b, d, r, ByPopularity);
  }

  /** A sub-multiset of four distinct values repeats none of them. */
  lemma NoRepeats<T>(a: T, b: T, c: T, d: T, r: seq<T>)
    requires a != b && a != c && a != d && b != c && b != d && c != d
    requires |r| == 3 && multiset(r) <= multiset([a, b, c, d])
    ensures r[0] != r[1] && r[1] != r[2] && r[0] != r[2]
  {
    assert r == [r[0], r[1], r[2]];
    assert multiset(r) == multiset{r[0], r[1], r[2]};
    assert multiset([a, b, c, d]) == multiset{a, b, c, d};
    assert multiset{a, b, c, d}[r[0]] <= 1 && multiset{a, b, c, d}[r[1]] <= 1;
  }

  /** Three distinct values, placed in an order that `le` agrees with, are in the one order it allows. */
  lemma ThreeInOrder<T>(a: T, b: T, d: T, r: seq<T>, le: (T, T) -> bool)
    requires |r| == 3 && forall k :: 0 <= k < |r| ==> r[k] == a || r[k] == b || r[k] == d
    requires r[0] != r[1] && r[1] != r[2] && r[0] != r[2]
    requires le(r[0], r[1]) && le(r[1], r[2]) && le(r[0], r[2])
    requires !le(b, a) && !le(d, a) && !le(d, b)
    ensures r == [a, b, d]
  {
  }

  /** The one summary of four with the lower count is the one a ranking of three leaves out. */
  lemma LeastIsCut(a: TagSummary, b: TagSummary, c: TagSummary, d: TagSummary, r: seq<TagSummary>)
    requires a.documentsCount == b.documentsCount == d.documentsCount && c.documentsCount < a.documentsCount
    requires a != b && b != d && a != d
    requires |r| == 3 && multiset(r) <= multiset([a, b, c, d])
    requires forall y :: y in [a, b, c, d] && y !in r ==> forall x :: x in r ==> ByPopularity(x, y)
    ensures forall k :: 0 <= k < |r| ==> r[k] == a || r[k] == b || r[k] == d
  {
    var s := [a, b, c, d];
    var w := LeftOut(s, r);
    assert multiset(s)[w] == 1;
    assert w !in r;
    forall k | 0 <= k < |r| ensures r[k] == a || r[k] == b || r[k] == d {
      assert r[k] in multiset(s);
      assert r[k] in r;
      assert ByPopularity(r[k], w);
    }
  }

  /** A shorter sub-multiset leaves out some occurrence of an element. */
  lemma LeftOut<T>(s: seq<T>, r: seq<T>) returns (w: T)
    requires |r| < |s| && multiset(r) <= multiset(s)
    ensures w in s && multiset(r)[w] < multiset(s)[w]
  {
    assert |multiset(s) - multiset(r)| == |s| - |r|;
    w :| w in multiset(s) - multiset(r);
  }

  /** The ranking is cut from the full popularity order. */
  lemma PopularTakesFromRanking(summaries: seq<TagSummary>, count: int)
    ensures TotalPreorder(ByPopularity)
    ensures Popular(summaries, count) == Take(SortBy(summaries, ByPopularity), count)
  {
    ByPopularityIsTotalPreorder();
  }

  /** The full ranking of the example: the two tags with the higher count by name, then the third. */
  lemma RankExample(t: TagSummary, g: TagSummary, low: TagSummary)
    requires t.documentsCount == g.documentsCount && low.documentsCount < g.documentsCount
    requires LexLe(g.name, t.name) && !LexLe(t.name, g.name)
    ensures TotalPreorder(ByPopularity)
    ensures SortBy([t, g, low], ByPopularity) == [g, t, low]
  {
    RankPair(g, low);
    assert [t, g, low] == [t] + [g, low];
    SortByCons(t, [g, low], ByPopularity);
    InsertSecond(t, g, low);
  }

  /** A tag that ties with the leader on count but not on name goes second. */
  lemma InsertSecond(t: TagSummary, g: TagSummary, low: TagSummary)
    requires t.documentsCount == g.documentsCount && low.documentsCount < g.documentsCount
    requires !LexLe(t.name, g.name)
    requires TotalPreorder(ByPopularity) && SortedBy([g, low], ByPopularity)
    ensures Insert(t, [g, low], ByPopularity) == [g, t, low]
  {
    assert [g, low][1..] == [low];
    assert Insert(t, [low], ByPopularity) == [t] + [low];
  }

  /** A more used tag ranks before a less used one. */
  lemma RankPair(high: TagSummary, low: TagSummary)
    requires low.documentsCount < high.documentsCount
    ensures TotalPreorder(ByPopularity)
    ensures SortBy([high, low], ByPopularity) == [high, low]
  {
    ByPopularityIsTotalPreorder();
    assert [high, low] == [high] + [low] && [low] == [low] + [];
    SortByCons(low, [], ByPopularity);
    SortByCons(high, [low], ByPopularity);
  }

  /** "Guide" cannot be created next to the seeded "guide". */
  method CreateCaseVariantOnSeed(now: Timestamp) returns (r: Result<TagSummary, Error>)
    ensures r == Failure(DuplicateName)
  {
    var service := new TagService.Seeded(now);
    GuideMatchesSeed(now);
    r := service.Create("Guide", now);
  }

  /** A tag may be renamed to a case variant of its own name. */
  method RenameCaseVariantOnSeed(now: Timestamp) returns (r: Result<TagSummary, Error>)
    ensures r.Success? && r.value.id == 2 && r.value.name == "Guide"
  {
    var service := new TagService.Seeded(now);
    GuideMatchesSeed(now);
    r := service.Update(2, "Guide");
  }

  /** "Guide" is already trimmed, and matches the seeded tag 2 and no other seeded tag. */
  lemma GuideMatchesSeed(now: Timestamp)
    ensures Trim("Guide") == "Guide"
    ensures SameName(SeedTags(now)[2].name, "Guide")
    ensures forall k :: k in SeedTags(now) && k != 2 ==> !SameName(SeedTags(now)[k].name, "Guide")
  {
    assert ToLower("Guide") == "guide";
    assert IsTrimmed("Guide");
    TrimFixesTrimmed("Guide");
  }
}
