/** The existence check: which requested ids the query did not return, and the
    message of the 404 Not Found that lists them. */
module Reconciler {
  import opened Php
  import opened Query

  /** `array_diff($requested, array_keys($found))`: the requested ids, in request order
      and with repetitions kept, that are not ids of a found node. */
  function Missing(requested: seq<int>, found: seq<Node>): seq<int> {
    if requested == [] then []
    else (if requested[0] in Nids(found) then [] else [requested[0]]) + Missing(requested[1..], found)
  }

  /** An id is missing exactly when it was requested and no found node has it. */
  lemma {:induction false} MissingExactly(requested: seq<int>, found: seq<Node>)
    ensures forall x :: x in Missing(requested, found) <==> x in requested && x !in Nids(found)
  {
    if requested != [] {
      MissingExactly(requested[1..], found);
      assert requested == [requested[0]] + requested[1..];
    }
  }

  /** The difference keeps the request's order: it distributes over consecutive parts
      of the request. */
  lemma {:induction false} MissingKeepsOrder(a: seq<int>, b: seq<int>, found: seq<Node>)
    ensures Missing(a + b, found) == Missing(a, found) + Missing(b, found)
  {
    if a != [] {
      MissingKeepsOrder(a[1..], b, found);
      assert (a + b)[1..] == a[1..] + b;
    } else {
      assert a + b == b;
    }
  }

  /** With nothing found, every requested id is missing, in order. */
  lemma {:induction false} NothingFoundMeansAllMissing(requested: seq<int>)
    ensures Missing(requested, []) == requested
  {
    if requested != [] {
      NothingFoundMeansAllMissing(requested[1..]);
      assert requested == [requested[0]] + requested[1..];
    }
  }

  /** The store holds no published article in the filter's language with id `x`. */
  predicate Unavailable(store: seq<Node>, f: Filter, x: int) {
    forall n :: n in store && n.nid == x ==> !(n.bundle == "article" && n.status == 1 && n.language == f.lang)
  }

  /** Against the store: a requested id is missing exactly when the store holds no
      published article in the language with that id. With no ids requested, nothing
      is missing. */
  lemma MissingFromStore(store: seq<Node>, f: Filter)
    ensures f.ids == [] ==> Missing(f.ids, Select(store, f)) == []
    ensures forall x :: x in Missing(f.ids, Select(store, f)) <==>
      x in f.ids && Unavailable(store, f, x)
  {
    var found := Select(store, f);
    SelectExactly(store, f);
    MissingExactly(f.ids, found);
    forall x | x in f.ids
      ensures x in Nids(found) <==> exists n :: n in store && n.nid == x && n.bundle == "article" && n.status == 1 && n.language == f.lang
    {
      if x in Nids(found) {
        var n :| n in found && n.nid == x;
        assert n in store && Matches(n, f);
      }
      if exists n :: n in store && n.nid == x && n.bundle == "article" && n.status == 1 && n.language == f.lang {
        var n :| n in store && n.nid == x && n.bundle == "article" && n.status == 1 && n.language == f.lang;
        assert Matches(n, f);
        assert n in found;
      }
    }
  }

  function IdStrings(ids: seq<int>): seq<string> {
    seq(|ids|, i requires 0 <= i < |ids| => IntToString(ids[i]))
  }

  /** The 404 message: the missing ids joined by ", ". */
  function NotFoundMessage(ids: seq<int>): string {
    "Cannot found nodes: " + Join(", ", IdStrings(ids)) + "."
  }

  /** The 404 message names every missing id, not only the first. */
  lemma NotFoundMessageNamesEach(ids: seq<int>, k: nat)
    requires k < |ids|
    ensures Contains(NotFoundMessage(ids), IntToString(ids[k]))
  {
    var prefix := "Cannot found nodes: ";
    var joined := Join(", ", IdStrings(ids));
    JoinContainsEach(", ", IdStrings(ids), k);
    var i: nat :| i <= |joined| && OccursAt(joined, IntToString(ids[k]), i);
    var msg := NotFoundMessage(ids);
    assert msg == prefix + joined + ".";
    assert msg[|prefix| + i..|prefix| + i + |IntToString(ids[k])|] == joined[i..i + |IntToString(ids[k])|];
    assert OccursAt(msg, IntToString(ids[k]), |prefix| + i);
  }
}
