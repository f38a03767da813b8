/** role.link: a link is a provider or a requester according to the LINK entry of its room's
    configuration; a provider sends its energy to the requester holding the least. */
module RoleLink {
  import opened Screeps

  datatype LinkKind = Provider | Requester

  /** The LINK entry of a room's configuration. */
  datatype LinkConfig = LinkConfig(providers: seq<string>, requesters: seq<string>)

  /** `getType`: PROVIDERS is looked at first, so a link listed in both is a provider; a link
      in neither has no type (`undefined`). */
  function GetType(cfg: LinkConfig, id: string): (kind: Option<LinkKind>)
    ensures kind == Some(Provider) <==> id in cfg.providers
    ensures kind == Some(Requester) <==> id !in cfg.providers && id in cfg.requesters
    ensures kind.None? <==> id !in cfg.providers && id !in cfg.requesters
  {
    if id in cfg.providers then Some(Provider)
    else if id in cfg.requesters then Some(Requester)
    else None
  }

  /** The requester at `b` resolves to a link, none of the requesters that resolve holds less
      energy, and every one before it holds more. `links` maps the ids `Game.getObjectById`
      resolves to the energy their link holds. */
  predicate LowestRequesterAt(req: seq<string>, links: map<string, nat>, b: int) {
    LowestAmongFirst(req, links, b, |req|)
  }

  /** The same among the first `n` requesters. */
  predicate LowestAmongFirst(req: seq<string>, links: map<string, nat>, b: int, n: int) {
    0 <= b < n <= |req| && req[b] in links &&
    (forall j :: 0 <= j < n && req[j] in links ==> links[req[b]] <= links[req[j]]) &&
    (forall j :: 0 <= j < b && req[j] in links ==> links[req[b]] < links[req[j]])
  }

  /** The lowest requester is determined: ties go to the earliest. */
  lemma LowestRequesterUnique(req: seq<string>, links: map<string, nat>, a: int, b: int)
    requires LowestRequesterAt(req, links, a) && LowestRequesterAt(req, links, b)
    ensures a == b
  {
    assert links[req[a]] <= links[req[b]] && links[req[b]] <= links[req[a]];
  }

  /** `getLowestRequester` throws when the first requester does not resolve and a later one
      does: its energy is then read from `null`. */
  predicate LowestThrows(req: seq<string>, links: map<string, nat>) {
    |req| > 0 && req[0] !in links && exists i :: 0 <= i < |req| && req[i] in links
  }

  /** `getLowestRequester`: starts from the first requester, skips the ids that do not resolve
      and moves to a requester holding strictly less energy. With no requester it returns
      `undefined` (None); when no requester resolves it returns the first one. */
  method GetLowestRequester(req: seq<string>, links: map<string, nat>)
    returns (lowest: Option<string>, thrown: bool, ghost at: nat)
    ensures thrown <==> LowestThrows(req, links)
    ensures thrown ==> lowest.None?
    ensures !thrown ==> (lowest.None? <==> req == [])
    ensures lowest.Some? && req[0] in links ==> at < |req| && lowest.value == req[at] && LowestRequesterAt(req, links, at)
    ensures lowest.Some? && req[0] !in links ==> lowest.value == req[0] && forall j :: 0 <= j < |req| ==> req[j] !in links
  {
    if |req| == 0 {
      return None, false, 0;
    }
    var lowestId := req[0];
    at := 0;
    var i := 0;
    while i < |req|
      invariant 0 <= i <= |req| && at < |req| && at <= i && lowestId == req[at]
      invariant req[0] in links ==> lowestId in links
      invariant req[0] in links && i > 0 ==> LowestAmongFirst(req, links, at, i)
      invariant req[0] !in links ==> at == 0 && forall j :: 0 <= j < i ==> req[j] !in links
    {
      var id := req[i];
      if id !in links {
        i := i + 1;
        continue;
      }
      if lowestId !in links {
        return None, true, at;
      }
      if links[id] < links[lowestId] {
        lowestId := id;
        at := i;
      }
      i := i + 1;
    }
    return Some(lowestId), false, at;
  }

  /** A stale first requester id ("gone") and a live requester ("l1"): the loop skips "gone",
      then reads the energy of `Game.getObjectById("gone")`, which is null. */
  lemma StaleFirstRequesterThrows()
    ensures LowestThrows(["gone", "l1"], map["l1" := 0])
  {
    assert ["gone", "l1"][1] in map["l1" := 0];
  }

  /** `getLowestRequester` skipping every id that does not resolve, the first one included, as
      the warning in its loop intends: None exactly when no requester resolves. */
  method GetLowestResolvedRequester(req: seq<string>, links: map<string, nat>)
    returns (lowest: Option<string>, ghost at: nat)
    ensures lowest.None? <==> forall j :: 0 <= j < |req| ==> req[j] !in links
    ensures lowest.Some? ==> at < |req| && lowest.value == req[at] && LowestRequesterAt(req, links, at)
  {
    lowest, at := None, 0;
    var i := 0;
    while i < |req|
      invariant 0 <= i <= |req|
      invariant lowest.None? <==> forall j :: 0 <= j < i ==> req[j] !in links
      invariant lowest.Some? ==> LowestAmongFirst(req, links, at, i) && lowest.value == req[at]
    {
      var id := req[i];
      if id in links && (lowest.None? || links[id] < links[lowest.value]) {
        lowest, at := Some(id), i;
      }
      i := i + 1;
    }
  }

  /** `run` for the link `id`: a requester does nothing; a provider transfers its energy to the
      lowest requester when that id resolves; an unconfigured link only logs. The value
      `transferEnergy` returns is not used. */
  method Run(cfg: LinkConfig, links: map<string, nat>, id: string)
    returns (transferTo: Option<string>, thrown: bool, ghost at: nat)
    ensures thrown <==> GetType(cfg, id) == Some(Provider) && LowestThrows(cfg.requesters, links)
    ensures transferTo.Some? <==>
      GetType(cfg, id) == Some(Provider) && |cfg.requesters| > 0 && cfg.requesters[0] in links
    ensures transferTo.Some? ==>
      at < |cfg.requesters| && transferTo.value == cfg.requesters[at] && LowestRequesterAt(cfg.requesters, links, at)
  {
    var kind := GetType(cfg, id);
    if kind == Some(Requester) {
      return None, false, 0;
    }
    if kind == Some(Provider) {
      var lowestId;
      lowestId, thrown, at := GetLowestRequester(cfg.requesters, links);
      if thrown || lowestId.None? {
        return None, thrown, at;
      }
      if lowestId.value !in links {
        return None, false, at;
      }
      return Some(lowestId.value), false, at;
    }
    return None, false, 0;
  }
}
