/** `EjemploREST::get()`: normalise the request, query the store, check that every
    requested node was found, and build the response. The content store, the
    sanitiser (`Xss::filter`), the renderer and the clock are parameters. */
module Endpoint {
  import opened Php
  import opened Query
  import opened Normalizer
  import opened Reconciler
  import opened Assembler

  /** The HTTP outcome: 400 with its message, 404 with the missing ids and its
      message, or 200 with the response. */
  datatype Outcome =
    | BadRequest(message: string)
    | NotFound(ids: seq<int>, message: string)
    | Ok(response: Response)

  /** What `get()` answers, as a function of the request and its collaborators. */
  function Handle(nodeIds: Param, lang: Option<string>, store: seq<Node>,
                  sanitize: string -> string, render: string -> string, now: int): Outcome
  {
    match Normalize(nodeIds, lang, sanitize)
    case Rejected(message) => BadRequest(message)
    case Accepted(f) => Respond(f, store, render, now)
  }

  /** What `get()` answers once the request is normalised: the query, the existence
      check and the response. */
  function Respond(f: Filter, store: seq<Node>, render: string -> string, now: int): Outcome {
    var found := Select(store, f);
    var missing := Missing(f.ids, found);
    if missing != [] then NotFound(missing, NotFoundMessage(missing))
    else Ok(Assemble(found, render, now))
  }

  /** The by-reference `foreach` over `node_ids`: each element, in order, is sanitised
      and converted; the first that converts to 0 stops the loop and is reported by its
      raw value, otherwise every element is replaced by its integer. */
  method CleanEach(raw: seq<string>, sanitize: string -> string) returns (c: Cleaned)
    ensures c == CleanIds(raw, sanitize)
  {
    var ids: seq<int> := [];
    var i := 0;
    while i < |raw|
      invariant 0 <= i <= |raw| && |ids| == i
      invariant forall k :: 0 <= k < i ==> ids[k] == Clean(raw[k], sanitize) && ids[k] != 0
    {
      var clean := IntVal(sanitize(raw[i]));
      if clean == 0 {
        CleanIdsRejectsFirst(raw, sanitize, i);
        return BadValue(raw[i]);
      }
      ids := ids + [clean];
      i := i + 1;
    }
    CleanIdsAccepts(raw, sanitize);
    c := Ids(ids);
  }

  /** The loop over the found nodes that collects each node's cache metadata and its
      entry, then the response built around them. */
  method BuildResponse(found: seq<Node>, render: string -> string, now: int) returns (r: Response)
    ensures r == Assemble(found, render, now)
  {
    var caches: seq<CacheDependency> := [];
    var data: seq<Entry> := [];
    for j := 0 to |found|
      invariant |caches| == j && |data| == j
      invariant forall k :: 0 <= k < j ==> caches[k] == NodeCacheability(found[k].nid)
      invariant forall k :: 0 <= k < j ==> data[k] == MakeEntry(found[k], render)
    {
      caches := caches + [NodeCacheability(found[j].nid)];
      data := data + [Entry(found[j].title, Trim(render(found[j].body)))];
    }
    assert caches == Dependencies(found);
    assert data == Entries(found, render);
    r := Response(Payload("", data, IntToString(now)), [QueryArgsContext] + caches);
  }

  /** The request handler, step by step: `node_ids` is reassigned to a list, its
      elements are cleaned, the language is defaulted, the query runs, a missing id
      ends the call with a 404, and otherwise the response is built. */
  method Get(nodeIds: Param, lang: Option<string>, store: seq<Node>,
             sanitize: string -> string, render: string -> string, now: int)
    returns (out: Outcome)
    ensures out == Handle(nodeIds, lang, store, sanitize, render, now)
  {
    if IsEmpty(nodeIds) {
      return BadRequest(MissingNodesMessage);
    }

    // One is a special case of many.
    var raw: seq<string>;
    if nodeIds.Arr? {
      raw := nodeIds.items;
    } else if nodeIds.value == "all" {
      raw := [];
    } else {
      raw := [nodeIds.value];
    }
    assert raw == Candidates(nodeIds);

    var cleaned := CleanEach(raw, sanitize);
    if cleaned.BadValue? {
      return BadRequest(InvalidValueMessage(cleaned.raw));
    }
    var ids := cleaned.ids;

    var language := if lang.Some? then lang.value else "";
    if EmptyString(language) {
      language := "en";
    }
    assert language == Language(lang);

    var found := Select(store, Filter(ids, language));
    var missing := Missing(ids, found);
    if missing != [] {
      return NotFound(missing, NotFoundMessage(missing));
    }
    var response := BuildResponse(found, render, now);
    out := Ok(response);
  }

  /** The "must provide" 400 is answered exactly when `node_ids` is empty. */
  lemma MissingNodeIdsIsBadRequest(nodeIds: Param, lang: Option<string>, store: seq<Node>,
                                   sanitize: string -> string, render: string -> string, now: int)
    ensures Handle(nodeIds, lang, store, sanitize, render, now) == BadRequest(MissingNodesMessage)
        <==> IsEmpty(nodeIds)
  {
    MissingNodesExactlyWhenEmpty(nodeIds, lang, sanitize);
  }

  /** A rejected request does not depend on the store, the renderer or the clock:
      no query is run for it. */
  lemma RejectionIgnoresStore(nodeIds: Param, lang: Option<string>, store: seq<Node>, store': seq<Node>,
                              sanitize: string -> string, render: string -> string, render': string -> string,
                              now: int, now': int)
    requires Handle(nodeIds, lang, store, sanitize, render, now).BadRequest?
    ensures Handle(nodeIds, lang, store', sanitize, render', now') == Handle(nodeIds, lang, store, sanitize, render, now)
  {
  }

  /** In "all" mode the answer is always 200, with one entry per published article in
      the language, in store order, however the store looks. */
  lemma AllModeNeverNotFound(lang: Option<string>, store: seq<Node>,
                             sanitize: string -> string, render: string -> string, now: int)
    ensures Handle(Str("all"), lang, store, sanitize, render, now)
         == Ok(Assemble(Select(store, Filter([], Language(lang))), render, now))
  {
  }

  /** After normalisation the answer is never a 400. It is a 404 exactly when some
      requested id has no published article in the language in the store; the 404
      lists, in request order, exactly those ids, and its message names each of them. */
  lemma NotFoundListsExactlyTheMissing(f: Filter, store: seq<Node>, render: string -> string, now: int)
    ensures var out := Respond(f, store, render, now);
      && !out.BadRequest?
      && (out.NotFound? <==> exists x :: x in f.ids && Unavailable(store, f, x))
      && (out.NotFound? ==>
            && out.ids == Missing(f.ids, Select(store, f))
            && (forall x :: x in out.ids <==> x in f.ids && Unavailable(store, f, x))
            && forall k :: 0 <= k < |out.ids| ==> Contains(out.message, IntToString(out.ids[k])))
  {
    var out := Respond(f, store, render, now);
    var missing := Missing(f.ids, Select(store, f));
    MissingFromStore(store, f);
    if exists x :: x in f.ids && Unavailable(store, f, x) {
      var x :| x in f.ids && Unavailable(store, f, x);
      assert x in missing;
    }
    if out.NotFound? {
      assert missing[0] in missing;
      forall k | 0 <= k < |out.ids|
        ensures Contains(out.message, IntToString(out.ids[k]))
      {
        NotFoundMessageNamesEach(out.ids, k);
      }
    }
  }

  /** A 200 for explicit ids returns exactly the requested nodes: it is answered
      exactly when every requested id was found, and then the found ids are the
      requested ids, as sets. */
  lemma OkReturnsExactlyTheRequested(f: Filter, store: seq<Node>, render: string -> string, now: int)
    ensures Respond(f, store, render, now).Ok? <==> (set x | x in f.ids) <= Nids(Select(store, f))
    ensures f.ids != [] && Respond(f, store, render, now).Ok? ==>
      Nids(Select(store, f)) == set x | x in f.ids
  {
    var found := Select(store, f);
    var missing := Missing(f.ids, found);
    MissingExactly(f.ids, found);
    SelectExactly(store, f);
    if missing != [] {
      assert missing[0] in missing;
    }
    if f.ids != [] && missing == [] {
      forall x | x in Nids(found) ensures x in f.ids {
        var n :| n in found && n.nid == x;
      }
      forall x | x in f.ids ensures x in Nids(found) {
        assert x !in missing;
      }
    }
  }

  /** With a store keyed by nid, a 200 for explicit ids carries exactly one entry per
      distinct requested id: `node_ids=5` gives a single entry. */
  lemma OkHasOneEntryPerRequestedId(f: Filter, store: seq<Node>, render: string -> string, now: int)
    requires DistinctNids(store)
    requires f.ids != []
    ensures Respond(f, store, render, now).Ok? ==>
      |Respond(f, store, render, now).response.body.data| == |set x | x in f.ids|
  {
    var found := Select(store, f);
    if Respond(f, store, render, now).Ok? {
      OkReturnsExactlyTheRequested(f, store, render, now);
      SelectKeepsDistinct(store, f);
      DistinctNidsCount(found);
      EntriesOnePerNode(found, render);
    }
  }

  /** A 200 carries an empty message, the time, and one entry per selected node in
      store order, each titled by the node's label with its trimmed rendered body. */
  lemma OkPayload(nodeIds: Param, lang: Option<string>, store: seq<Node>,
                  sanitize: string -> string, render: string -> string, now: int)
    requires MinInt <= now <= MaxInt
    requires Handle(nodeIds, lang, store, sanitize, render, now).Ok?
    ensures Normalize(nodeIds, lang, sanitize).Accepted?
    ensures var found := Select(store, Normalize(nodeIds, lang, sanitize).filter);
      var body := Handle(nodeIds, lang, store, sanitize, render, now).response.body;
      && body.message == ""
      && IntVal(body.time) == now
      && |body.data| == |found|
      && forall i :: 0 <= i < |found| ==>
           body.data[i] == Entry(found[i].title, Trim(render(found[i].body)))
  {
    var found := Select(store, Normalize(nodeIds, lang, sanitize).filter);
    AssembledResponse(found, render, now);
    TimeReadsBack(found, render, now);
    EntriesOnePerNode(found, render);
  }

  /** In "all" mode with no matching article the answer is 200 with an empty list. */
  lemma EmptyAllModeGivesEmptyList(lang: Option<string>, store: seq<Node>,
                                   sanitize: string -> string, render: string -> string, now: int)
    requires forall n :: n in store ==> !(n.bundle == "article" && n.status == 1 && n.language == Language(lang))
    ensures Handle(Str("all"), lang, store, sanitize, render, now).Ok?
    ensures Handle(Str("all"), lang, store, sanitize, render, now).response.body.data == []
    ensures DataAsWritten(Select(store, Filter([], Language(lang))), render) == None
  {
    NoMatchSelectsNothing(store, Filter([], Language(lang)));
  }
}
