/** The response assembler: one `{titulo, contenido}` entry per found node, the
    payload around them, and the list of cacheable dependencies the response is given. */
module Assembler {
  import opened Php
  import opened Query

  datatype Entry = Entry(titulo: string, contenido: string)

  /** The JSON body. `time` is what `DrupalDateTime::format('U')` returns: the Unix
      time written in decimal, as a string. */
  datatype Payload = Payload(message: string, data: seq<Entry>, time: string)

  /** The arguments of `addCacheableDependency`, in call order: the render array
      carrying the `url.path.query_args` context, then each found node's metadata. */
  datatype CacheDependency = QueryArgsContext | NodeCacheability(nid: int)

  datatype Response = Response(body: Payload, dependencies: seq<CacheDependency>)

  /** The entry of one node: its label and its rendered body with `trim` applied. */
  function MakeEntry(n: Node, render: string -> string): Entry {
    Entry(n.title, Trim(render(n.body)))
  }

  function Entries(found: seq<Node>, render: string -> string): seq<Entry> {
    seq(|found|, i requires 0 <= i < |found| => MakeEntry(found[i], render))
  }

  function Dependencies(found: seq<Node>): seq<CacheDependency> {
    seq(|found|, i requires 0 <= i < |found| => NodeCacheability(found[i].nid))
  }

  function Assemble(found: seq<Node>, render: string -> string, now: int): Response {
    Response(Payload("", Entries(found, render), IntToString(now)), [QueryArgsContext] + Dependencies(found))
  }

  /** One entry per found node, in the same order, titled by the node's label, with
      content that neither starts nor ends with a trim character. */
  lemma EntriesOnePerNode(found: seq<Node>, render: string -> string)
    ensures |Entries(found, render)| == |found|
    ensures forall i :: 0 <= i < |found| ==>
      && Entries(found, render)[i].titulo == found[i].title
      && Entries(found, render)[i].contenido == Trim(render(found[i].body))
    ensures forall i :: 0 <= i < |found| ==>
      var c := Entries(found, render)[i].contenido;
      c == [] || (!IsTrimChar(c[0]) && !IsTrimChar(c[|c| - 1]))
  {
    forall i | 0 <= i < |found|
      ensures var c := Entries(found, render)[i].contenido;
        c == [] || (!IsTrimChar(c[0]) && !IsTrimChar(c[|c| - 1]))
    {
      TrimIsStrippedSlice(render(found[i].body));
    }
  }

  /** The payload of a successful call: empty message and the entries; the
      query-arguments context comes first among the dependencies, then one per node. */
  lemma AssembledResponse(found: seq<Node>, render: string -> string, now: int)
    ensures var r := Assemble(found, render, now);
      && r.body.message == ""
      && r.body.data == Entries(found, render)
      && |r.dependencies| == |found| + 1
      && r.dependencies[0] == QueryArgsContext
      && forall i :: 0 <= i < |found| ==> r.dependencies[i + 1] == NodeCacheability(found[i].nid)
  {
  }

  /** The response depends on the query arguments and on every found node, and on
      nothing else: one dependency more than there are entries, the context first. */
  lemma DependenciesCoverTheFoundNodes(found: seq<Node>, render: string -> string, now: int)
    ensures var r := Assemble(found, render, now);
      && |r.dependencies| == |r.body.data| + 1
      && r.dependencies[0] == QueryArgsContext
      && forall x :: NodeCacheability(x) in r.dependencies <==> x in Nids(found)
  {
    var r := Assemble(found, render, now);
    forall x | NodeCacheability(x) in r.dependencies ensures x in Nids(found) {
      var k :| 0 <= k < |r.dependencies| && r.dependencies[k] == NodeCacheability(x);
      assert found[k - 1] in found;
    }
    forall x | x in Nids(found) ensures NodeCacheability(x) in r.dependencies {
      var n :| n in found && n.nid == x;
      var k :| 0 <= k < |found| && found[k] == n;
      assert r.dependencies[k + 1] == NodeCacheability(x);
    }
  }

  /** The `time` field read back with `intval` is the clock value. */
  lemma TimeReadsBack(found: seq<Node>, render: string -> string, now: int)
    requires MinInt <= now <= MaxInt
    ensures IntVal(Assemble(found, render, now).body.time) == now
  {
    IntValOfIntToString(now);
  }

  /** `$data` as the loop leaves it: never assigned, so undefined (read as null),
      when no node was found. */
  function DataAsWritten(found: seq<Node>, render: string -> string): Option<seq<Entry>> {
    if found == [] then None else Some(Entries(found, render))
  }

  /** With no node found, the payload's `data` is null rather than an empty list;
      otherwise it is the list of entries. */
  lemma UndefinedDataWhenNothingFound(render: string -> string, found: seq<Node>)
    ensures DataAsWritten([], render) == None
    ensures found != [] ==> DataAsWritten(found, render) == Some(Entries(found, render))
    ensures Entries([], render) == []
  {
  }
}
