/** The request normaliser: turns the `node_ids` and `lang` query parameters into
    a `Filter`, or into the message of a 400 Bad Request. */
module Normalizer {
  import opened Php
  import opened Query

  /** A query parameter as the request returns it: absent, one string, or a list of
      strings (`node_ids[]=...`). */
  datatype Param = Absent | Str(value: string) | Arr(items: seq<string>)

  /** `empty()` on a query parameter. */
  predicate IsEmpty(p: Param) {
    match p
    case Absent => true
    case Str(s) => EmptyString(s)
    case Arr(xs) => xs == []
  }

  const MissingNodesMessage: string := "You must provide the nodes to get."

  function InvalidValueMessage(raw: string): string {
    "Invalid value \"" + raw + "\"."
  }

  /** The list `node_ids` becomes before cleaning: "all" gives no ids, any other
      single value a list of one, a list stays as it is. */
  function Candidates(p: Param): seq<string>
    requires !IsEmpty(p)
  {
    match p
    case Str(s) => if s == "all" then [] else [s]
    case Arr(xs) => xs
  }

  /** One raw id sanitised and then converted with `intval`. */
  function Clean(raw: string, sanitize: string -> string): int {
    IntVal(sanitize(raw))
  }

  /** Either every id cleaned, or the raw value of the first one that cleans to 0. */
  datatype Cleaned = Ids(ids: seq<int>) | BadValue(raw: string)

  function CleanIds(raw: seq<string>, sanitize: string -> string): Cleaned {
    if raw == [] then Ids([])
    else
      var c := Clean(raw[0], sanitize);
      if c == 0 then BadValue(raw[0])
      else match CleanIds(raw[1..], sanitize)
        case Ids(rest) => Ids([c] + rest)
        case BadValue(r) => BadValue(r)
  }

  /** When no element cleans to 0 the ids are the cleaned elements, same length, same order. */
  lemma {:induction false} CleanIdsAccepts(raw: seq<string>, sanitize: string -> string)
    requires forall i :: 0 <= i < |raw| ==> Clean(raw[i], sanitize) != 0
    ensures CleanIds(raw, sanitize).Ids?
    ensures |CleanIds(raw, sanitize).ids| == |raw|
    ensures forall i :: 0 <= i < |raw| ==> CleanIds(raw, sanitize).ids[i] == Clean(raw[i], sanitize)
  {
    if raw != [] {
      assert Clean(raw[0], sanitize) != 0;
      CleanIdsAccepts(raw[1..], sanitize);
      var rest := CleanIds(raw[1..], sanitize).ids;
      assert CleanIds(raw, sanitize).ids == [Clean(raw[0], sanitize)] + rest;
    }
  }

  /** The first element that cleans to 0 is the one reported, by its raw value. */
  lemma {:induction false} CleanIdsRejectsFirst(raw: seq<string>, sanitize: string -> string, k: nat)
    requires k < |raw| && Clean(raw[k], sanitize) == 0
    requires forall j :: 0 <= j < k ==> Clean(raw[j], sanitize) != 0
    ensures CleanIds(raw, sanitize) == BadValue(raw[k])
  {
    if k > 0 {
      assert Clean(raw[0], sanitize) != 0;
      CleanIdsRejectsFirst(raw[1..], sanitize, k - 1);
    }
  }

  /** `lang`, defaulting to "en" when it is empty in the sense of `empty()`. */
  function Language(lang: Option<string>): (r: string)
    ensures !EmptyString(r)
    ensures lang.Some? && !EmptyString(lang.value) ==> r == lang.value
    ensures lang.None? || EmptyString(lang.value) ==> r == "en"
  {
    if lang.None? || EmptyString(lang.value) then "en" else lang.value
  }

  datatype Normalized = Accepted(filter: Filter) | Rejected(message: string)

  function Normalize(nodeIds: Param, lang: Option<string>, sanitize: string -> string): Normalized {
    if IsEmpty(nodeIds) then Rejected(MissingNodesMessage)
    else match CleanIds(Candidates(nodeIds), sanitize)
      case BadValue(raw) => Rejected(InvalidValueMessage(raw))
      case Ids(ids) => Accepted(Filter(ids, Language(lang)))
  }

  /** The "must provide" rejection happens exactly when `node_ids` is empty. */
  lemma MissingNodesExactlyWhenEmpty(nodeIds: Param, lang: Option<string>, sanitize: string -> string)
    ensures Normalize(nodeIds, lang, sanitize) == Rejected(MissingNodesMessage) <==> IsEmpty(nodeIds)
  {
    if !IsEmpty(nodeIds) {
      var c := CleanIds(Candidates(nodeIds), sanitize);
      if c.BadValue? {
        assert InvalidValueMessage(c.raw)[0] != MissingNodesMessage[0];
      }
    }
  }

  /** A non-empty `node_ids` is rejected exactly when one of its candidates cleans to 0,
      and then by the raw value of the first such candidate. */
  lemma InvalidValueNamesFirstBadCandidate(nodeIds: Param, lang: Option<string>, sanitize: string -> string, k: nat)
    requires !IsEmpty(nodeIds)
    requires k < |Candidates(nodeIds)| && Clean(Candidates(nodeIds)[k], sanitize) == 0
    requires forall j :: 0 <= j < k ==> Clean(Candidates(nodeIds)[j], sanitize) != 0
    ensures Normalize(nodeIds, lang, sanitize) == Rejected(InvalidValueMessage(Candidates(nodeIds)[k]))
  {
    CleanIdsRejectsFirst(Candidates(nodeIds), sanitize, k);
  }

  /** When every candidate cleans to a non-zero integer, the filter holds those integers
      in order and the language. */
  lemma AcceptedFilter(nodeIds: Param, lang: Option<string>, sanitize: string -> string)
    requires !IsEmpty(nodeIds)
    requires forall i :: 0 <= i < |Candidates(nodeIds)| ==> Clean(Candidates(nodeIds)[i], sanitize) != 0
    ensures Normalize(nodeIds, lang, sanitize).Accepted?
    ensures var f := Normalize(nodeIds, lang, sanitize).filter;
      && f.lang == Language(lang)
      && |f.ids| == |Candidates(nodeIds)|
      && forall i :: 0 <= i < |f.ids| ==> f.ids[i] == Clean(Candidates(nodeIds)[i], sanitize) && f.ids[i] != 0
  {
    CleanIdsAccepts(Candidates(nodeIds), sanitize);
  }

  /** "all" means no id restriction. */
  lemma AllMeansNoIds(lang: Option<string>, sanitize: string -> string)
    ensures Normalize(Str("all"), lang, sanitize) == Accepted(Filter([], Language(lang)))
  {
  }

  /** A single value other than "all" is handled as a list of one. */
  lemma SingleValueIsListOfOne(v: string, lang: Option<string>, sanitize: string -> string)
    requires v != "all" && !EmptyString(v)
    ensures Normalize(Str(v), lang, sanitize) == Normalize(Arr([v]), lang, sanitize)
  {
  }

  /** Only 0 is refused after `intval`: a negative id that the sanitiser leaves
      alone passes the check. */
  lemma NegativeIdAccepted(lang: Option<string>, sanitize: string -> string)
    requires sanitize("-3") == "-3"
    ensures Normalize(Arr(["-3"]), lang, sanitize) == Accepted(Filter([-3], Language(lang)))
  {
    assert NatToString(3) == "3";
    assert "-" + NatToString(3) == "-3";
    NegativeRoundTrip(3);
    assert Clean("-3", sanitize) == -3;
    CleanIdsAccepts(["-3"], sanitize);
  }

  /** A value with no leading digits, which the sanitiser leaves alone, is refused and
      named in the message. */
  lemma NonNumericIdRejected(lang: Option<string>, sanitize: string -> string)
    requires sanitize("abc") == "abc"
    ensures Normalize(Str("abc"), lang, sanitize) == Rejected("Invalid value \"abc\".")
  {
    IntValOfNonNumeric("abc");
  }
}
