/** The node query of the endpoint: which stored nodes it selects, and in what order.
    The content store is the sequence of nodes in the order the storage returns them;
    running the entity query and loading the matching nodes both become `Select`. */
module Query {

  /** The fields of a node the endpoint reads: its id, bundle (content type),
      published status, `field_idioma`, label and body. */
  datatype Node = Node(nid: int, bundle: string, status: int, language: string, title: string, body: string)

  /** The normalised request: the ids to restrict to (empty means no restriction)
      and the language. */
  datatype Filter = Filter(ids: seq<int>, lang: string)

  /** The conditions the query carries: type `article`, status 1, `field_idioma` equal
      to the language, and `nid IN ids` only when the id list is non-empty. */
  predicate Matches(n: Node, f: Filter) {
    && n.bundle == "article"
    && n.status == 1
    && n.language == f.lang
    && (f.ids != [] ==> n.nid in f.ids)
  }

  /** The nodes the query returns, in store order. */
  function Select(store: seq<Node>, f: Filter): seq<Node> {
    if store == [] then []
    else (if Matches(store[0], f) then [store[0]] else []) + Select(store[1..], f)
  }

  /** The ids of a list of nodes (the keys of the loaded-node array). */
  function Nids(nodes: seq<Node>): set<int> {
    set n | n in nodes :: n.nid
  }

  /** Storage is keyed by nid: no two nodes of the list share an id. */
  predicate DistinctNids(nodes: seq<Node>) {
    forall i, j :: 0 <= i < j < |nodes| ==> nodes[i].nid != nodes[j].nid
  }

  /** A list with distinct ids has as many ids as nodes. */
  lemma {:induction false} DistinctNidsCount(nodes: seq<Node>)
    requires DistinctNids(nodes)
    ensures |Nids(nodes)| == |nodes|
  {
    if nodes != [] {
      var rest := nodes[1..];
      assert DistinctNids(rest) by {
        forall i, j | 0 <= i < j < |rest| ensures rest[i].nid != rest[j].nid {
          assert rest[i] == nodes[i + 1] && rest[j] == nodes[j + 1];
        }
      }
      DistinctNidsCount(rest);
      assert nodes[0].nid !in Nids(rest) by {
        forall n | n in rest ensures n.nid != nodes[0].nid {
          var k :| 0 <= k < |rest| && rest[k] == n;
          assert n == nodes[k + 1];
        }
      }
      assert Nids(nodes) == {nodes[0].nid} + Nids(rest) by {
        assert nodes == [nodes[0]] + rest;
      }
    }
  }

  /** A node is selected exactly when it is in the store and meets every condition. */
  lemma {:induction false} SelectExactly(store: seq<Node>, f: Filter)
    ensures forall n :: n in Select(store, f) <==> n in store && Matches(n, f)
  {
    if store != [] {
      SelectExactly(store[1..], f);
      assert store == [store[0]] + store[1..];
    }
  }

  /** Every selected node is a published article in the requested language, and,
      when ids were requested, one of them. */
  lemma SelectedNodesMeetTheConditions(store: seq<Node>, f: Filter, n: Node)
    requires n in Select(store, f)
    ensures n in store
    ensures n.bundle == "article" && n.status == 1 && n.language == f.lang
    ensures f.ids != [] ==> n.nid in f.ids
  {
    SelectExactly(store, f);
  }

  /** With no ids requested every published article in the language is selected. */
  lemma NoIdsMeansNoIdCondition(store: seq<Node>, lang: string, n: Node)
    requires n in store && n.bundle == "article" && n.status == 1 && n.language == lang
    ensures n in Select(store, Filter([], lang))
  {
    SelectExactly(store, Filter([], lang));
  }

  /** When no stored node meets the conditions the query returns nothing. */
  lemma {:induction false} NoMatchSelectsNothing(store: seq<Node>, f: Filter)
    requires forall n :: n in store ==> !Matches(n, f)
    ensures Select(store, f) == []
  {
    if store != [] {
      assert store[0] in store;
      NoMatchSelectsNothing(store[1..], f);
    }
  }

  /** A store keyed by nid yields a selection keyed by nid: `loadMultiple` returns at
      most one node per id. */
  lemma {:induction false} SelectKeepsDistinct(store: seq<Node>, f: Filter)
    requires DistinctNids(store)
    ensures DistinctNids(Select(store, f))
  {
    if store != [] {
      var tail := store[1..];
      assert DistinctNids(tail) by {
        forall i, j | 0 <= i < j < |tail| ensures tail[i].nid != tail[j].nid {
          assert tail[i] == store[i + 1] && tail[j] == store[j + 1];
        }
      }
      SelectKeepsDistinct(tail, f);
      SelectExactly(tail, f);
      var rest := Select(tail, f);
      forall j | 0 <= j < |rest| ensures rest[j].nid != store[0].nid {
        assert rest[j] in tail;
        var k :| 0 <= k < |tail| && tail[k] == rest[j];
        assert rest[j] == store[k + 1];
      }
    }
  }

  /** Selection keeps the store's order: selecting from two consecutive parts of the
      store gives the two selections one after the other. */
  lemma {:induction false} SelectKeepsOrder(a: seq<Node>, b: seq<Node>, f: Filter)
    ensures Select(a + b, f) == Select(a, f) + Select(b, f)
  {
    if a != [] {
      SelectKeepsOrder(a[1..], b, f);
      assert (a + b)[1..] == a[1..] + b;
    } else {
      assert a + b == b;
    }
  }
}
