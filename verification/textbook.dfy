/** The textbook service's chapter routes (`app/routers/textbook.py`): an
    in-memory table `chapters_db: Dict[int, Chapter]` that the handlers read,
    extend, replace entries of and delete from. A Python dict also remembers
    the order its keys were inserted in, and `list(chapters_db.values())`
    lists the chapters in that order, so the table keeps that order too. */
module Textbook {
  import opened Wrappers

  datatype Chapter = Chapter(id: int, title: string, content: string, order: int)

  /** The body of `POST /chapters`. */
  datatype ChapterCreate = ChapterCreate(title: string, content: string, order: int)

  /** The body of `PUT /chapters/{id}`: a field is `Some` when the request
      set it, `None` when it left it out. */
  datatype ChapterUpdate = ChapterUpdate(title: Option<string>, content: Option<string>, order: Option<int>)

  const NotFound := HttpError(404, "Chapter not found")
  const DeletedMessage := "Chapter deleted successfully"

  predicate Distinct(keys: seq<int>) {
    forall i, j :: 0 <= i < j < |keys| ==> keys[i] != keys[j]
  }

  /** What the table always satisfies: every chapter is stored under its own
      id, and `keys` lists every key of the map exactly once. */
  ghost predicate TableInv(chapters: map<int, Chapter>, keys: seq<int>) {
    && (forall id :: id in chapters ==> chapters[id].id == id)
    && Distinct(keys)
    && (forall i :: 0 <= i < |keys| ==> keys[i] in chapters)
    && (forall id :: id in chapters ==> id in keys)
  }

  // ---------------------------------------------------------------------------
  // Pure parts of the handlers
  // ---------------------------------------------------------------------------

  /** `max(chapters_db.keys())`. */
  function MaxKey(keys: seq<int>): (m: int)
    requires |keys| > 0
    ensures m in keys
    ensures forall i :: 0 <= i < |keys| ==> keys[i] <= m
  {
    if |keys| == 1 then keys[0]
    else
      var rest := MaxKey(keys[1..]);
      if keys[0] >= rest then keys[0] else rest
  }

  /** The id `create_chapter` hands out: one more than the largest key, or 1
      for an empty table. It is never a key already in use, and nothing
      larger than it minus one is. */
  function NewId(keys: seq<int>): (id: int)
    ensures id !in keys
    ensures forall i :: 0 <= i < |keys| ==> keys[i] < id
    ensures |keys| > 0 ==> id - 1 in keys
    ensures |keys| == 0 ==> id == 1
  {
    if |keys| == 0 then 1 else MaxKey(keys) + 1
  }

  /** `chapter.copy(update=update.dict(exclude_unset=True))`: the fields the
      request set replace the stored ones; the id and the fields it left out
      stay as they were. */
  function ApplyUpdate(c: Chapter, u: ChapterUpdate): (r: Chapter)
    ensures r.id == c.id
    ensures r.title == (if u.title.Some? then u.title.value else c.title)
    ensures r.content == (if u.content.Some? then u.content.value else c.content)
    ensures r.order == (if u.order.Some? then u.order.value else c.order)
  {
    Chapter(c.id, u.title.GetOr(c.title), u.content.GetOr(c.content), u.order.GetOr(c.order))
  }

  /** An update that sets nothing leaves the chapter as it is. */
  lemma EmptyUpdateIsIdentity(c: Chapter)
    ensures ApplyUpdate(c, ChapterUpdate(None, None, None)) == c
  {
  }

  /** Sending the same update twice changes nothing the second time. */
  lemma ApplyUpdateIdempotent(c: Chapter, u: ChapterUpdate)
    ensures ApplyUpdate(ApplyUpdate(c, u), u) == ApplyUpdate(c, u)
  {
  }

  /** `keys` with `id` taken out, the others keeping their order (what `del`
      does to a dict's key order). */
  function RemoveKey(keys: seq<int>, id: int): (r: seq<int>)
    ensures forall k :: k in r <==> k in keys && k != id
  {
    if |keys| == 0 then []
    else if keys[0] == id then RemoveKey(keys[1..], id)
    else [keys[0]] + RemoveKey(keys[1..], id)
  }

  /** Removing a key from a list without repeats leaves a list without
      repeats, one shorter when the key was there. */
  lemma {:induction false} RemoveKeyDistinct(keys: seq<int>, id: int)
    requires Distinct(keys)
    ensures Distinct(RemoveKey(keys, id))
    ensures id in keys ==> |RemoveKey(keys, id)| == |keys| - 1
    ensures id !in keys ==> RemoveKey(keys, id) == keys
  {
    if |keys| > 0 {
      var rest := keys[1..];
      RemoveKeyDistinct(rest, id);
      assert keys == [keys[0]] + rest;
      assert keys[0] !in rest by {
        forall j | 0 <= j < |rest| ensures rest[j] != keys[0] {
          assert rest[j] == keys[j + 1];
        }
      }
      if keys[0] != id {
        var r := RemoveKey(rest, id);
        forall i, j | 0 <= i < j < |[keys[0]] + r|
          ensures ([keys[0]] + r)[i] != ([keys[0]] + r)[j]
        {
          if i == 0 {
            assert ([keys[0]] + r)[j] == r[j - 1];
            assert r[j - 1] in r;
          }
        }
      }
    }
  }

  /** `list(chapters_db.values())`: the chapters in key order. */
  function Listing(chapters: map<int, Chapter>, keys: seq<int>): (r: seq<Chapter>)
    requires forall i :: 0 <= i < |keys| ==> keys[i] in chapters
    ensures |r| == |keys|
    ensures forall i :: 0 <= i < |keys| ==> r[i] == chapters[keys[i]]
  {
    if |keys| == 0 then [] else [chapters[keys[0]]] + Listing(chapters, keys[1..])
  }

  /** A sequence without repeats has as many elements as the set of them. */
  lemma {:induction false} DistinctCount(keys: seq<int>)
    requires Distinct(keys)
    ensures |set k | k in keys| == |keys|
  {
    if |keys| > 0 {
      var rest := keys[1..];
      DistinctCount(rest);
      assert keys[0] !in rest by {
        forall j | 0 <= j < |rest| ensures rest[j] != keys[0] {
          assert rest[j] == keys[j + 1];
        }
      }
      assert (set k | k in keys) == (set k | k in rest) + {keys[0]} by {
        assert keys == [keys[0]] + rest;
      }
    }
  }

  /** The listing holds every stored chapter, once each: as many entries as
      the table has keys, and each chapter under its id. */
  lemma ListingComplete(chapters: map<int, Chapter>, keys: seq<int>)
    requires TableInv(chapters, keys)
    ensures |Listing(chapters, keys)| == |chapters|
    ensures forall id :: id in chapters ==> chapters[id] in Listing(chapters, keys)
  {
    DistinctCount(keys);
    var inKeys := set k | k in keys;
    forall k ensures k in chapters.Keys <==> k in inKeys {
      if k in keys {
        var i :| 0 <= i < |keys| && keys[i] == k;
      }
    }
    assert chapters.Keys == inKeys;
    var r := Listing(chapters, keys);
    forall id | id in chapters ensures chapters[id] in r {
      var i :| 0 <= i < |keys| && keys[i] == id;
      assert r[i] == chapters[id];
    }
  }

  /** Deleting the chapter with the largest id and creating a new one hands
      the deleted id out again: with the sample table, delete 3 then create
      gives id 3. */
  lemma DeletedIdReused()
    ensures NewId([1, 2, 3]) == 4
    ensures NewId(RemoveKey([1, 2, 3], 3)) == 3
  {
    assert RemoveKey([1, 2, 3], 3) == [1, 2];
  }

  // ---------------------------------------------------------------------------
  // The table
  // ---------------------------------------------------------------------------

  const Sample1 := Chapter(1, "Introduction to Physical AI",
    "# Introduction to Physical AI\n\nWelcome to the fascinating world of Physical AI...", 1)
  const Sample2 := Chapter(2, "Robotics Fundamentals",
    "# Robotics Fundamentals\n\nRobots are physical agents that interact with the real world...", 2)
  const Sample3 := Chapter(3, "Computer Vision in Physical Systems",
    "# Computer Vision in Physical Systems\n\nComputer vision enables robots and other physical systems to perceive their environment...", 3)

  class ChapterTable {
    var chapters: map<int, Chapter>
    /** The dict's keys in insertion order. */
    var keys: seq<int>

    ghost predicate Valid()
      reads this
    {
      TableInv(chapters, keys)
    }

    /** The module starts with the three sample chapters. */
    constructor ()
      ensures Valid()
      ensures chapters == map[1 := Sample1, 2 := Sample2, 3 := Sample3]
      ensures keys == [1, 2, 3]
    {
      chapters := map[1 := Sample1, 2 := Sample2, 3 := Sample3];
      keys := [1, 2, 3];
    }

    /** `GET /chapters`: every stored chapter, once each, in insertion order. */
    method GetChapters() returns (r: seq<Chapter>)
      requires Valid()
      ensures |r| == |chapters| == |keys|
      ensures forall i :: 0 <= i < |keys| ==> r[i] == chapters[keys[i]]
      ensures forall id :: id in chapters ==> chapters[id] in r
    {
      r := Listing(chapters, keys);
      ListingComplete(chapters, keys);
    }

    /** `GET /chapters/{id}`: the chapter stored under `id`, or 404. */
    method GetChapter(id: int) returns (r: Result<Chapter, HttpError>)
      requires Valid()
      ensures id in chapters ==> r.Success? && r.value == chapters[id] && r.value.id == id
      ensures id !in chapters ==> r == Failure(NotFound)
    {
      if id !in chapters {
        return Failure(NotFound);
      }
      r := Success(chapters[id]);
    }

    /** `POST /chapters`: stores the new chapter under a fresh id and returns
      it; every chapter already there stays as it was. */
    method CreateChapter(c: ChapterCreate) returns (r: Chapter)
      requires Valid()
      modifies this
      ensures Valid()
      ensures r == Chapter(NewId(old(keys)), c.title, c.content, c.order)
      ensures r.id !in old(chapters)
      ensures chapters == old(chapters)[r.id := r]
      ensures keys == old(keys) + [r.id]
    {
      var newId := NewId(keys);
      r := Chapter(newId, c.title, c.content, c.order);
      chapters := chapters[newId := r];
      keys := keys + [newId];
    }

    /** `PUT /chapters/{id}`: replaces the fields the request set and returns
      the updated chapter, or fails with 404 and changes nothing. The key
      keeps its place in the order. */
    method UpdateChapter(id: int, u: ChapterUpdate) returns (r: Result<Chapter, HttpError>)
      requires Valid()
      modifies this
      ensures Valid()
      ensures keys == old(keys)
      ensures id !in old(chapters) ==> r == Failure(NotFound) && chapters == old(chapters)
      ensures id in old(chapters) ==>
        && r == Success(ApplyUpdate(old(chapters)[id], u))
        && chapters == old(chapters)[id := r.value]
    {
      if id !in chapters {
        return Failure(NotFound);
      }
      var updated := ApplyUpdate(chapters[id], u);
      chapters := chapters[id := updated];
      r := Success(updated);
    }

    /** `DELETE /chapters/{id}`: removes exactly that key and confirms, or
      fails with 404 and changes nothing. */
    method DeleteChapter(id: int) returns (r: Result<string, HttpError>)
      requires Valid()
      modifies this
      ensures Valid()
      ensures id !in old(chapters) ==>
        r == Failure(NotFound) && chapters == old(chapters) && keys == old(keys)
      ensures id in old(chapters) ==>
        && r == Success(DeletedMessage)
        && chapters == old(chapters) - {id}
        && keys == RemoveKey(old(keys), id)
    {
      if id !in chapters {
        return Failure(NotFound);
      }
      RemoveKeyDistinct(keys, id);
      chapters := chapters - {id};
      keys := RemoveKey(keys, id);
      forall i | 0 <= i < |keys| ensures keys[i] in chapters {
        assert keys[i] in keys;
      }
      r := Success(DeletedMessage);
    }
  }

  /** A chapter just created is what a lookup of its id then finds, and the
      chapters that were already there are found unchanged. */
  lemma CreateThenGet(chapters: map<int, Chapter>, keys: seq<int>, c: ChapterCreate, id: int)
    requires TableInv(chapters, keys)
    ensures var created := Chapter(NewId(keys), c.title, c.content, c.order);
      var after := chapters[created.id := created];
      && created.id in after && after[created.id] == created
      && (id in chapters ==> id in after && after[id] == chapters[id])
  {
  }
}
