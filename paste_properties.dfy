/** Properties of the paste store over single requests and over any sequence of
    requests the server handles, one at a time, during the life of the process. */
module PasteProperties {
  import opened PasteStore

  /** One request to the service: a form submission or a view of an id. */
  datatype Request =
    | Post(text: Option<string>, id: string, ip: string, now: int)
    | Get(id: string, now: int)

  function Apply(pastes: Table, req: Request): Table
  {
    match req
    case Post(text, id, ip, now) => CreateStep(pastes, text, id, ip, now).pastes
    case Get(id, now) => ViewStep(pastes, id, now).pastes
  }

  /** The table after handling `reqs` in order. */
  function Run(pastes: Table, reqs: seq<Request>): Table
    decreases |reqs|
  {
    if reqs == [] then pastes else Run(Apply(pastes, reqs[0]), reqs[1..])
  }

  /** The ids under which the submissions among `reqs` stored a paste. */
  function CreatedIds(reqs: seq<Request>): set<string>
    decreases |reqs|
  {
    if reqs == [] then {}
    else
      var here := if reqs[0].Post? && Submitted(reqs[0].text) then {reqs[0].id} else {};
      here + CreatedIds(reqs[1..])
  }

  /** A paste that has been created can be viewed at once, and the view returns
      exactly the submitted text and records the read. */
  lemma CreateThenView(pastes: Table, text: string, id: string, ip: string, now: int)
    requires text != ""
    ensures var created := CreateStep(pastes, Some(text), id, ip, now);
      var viewed := ViewStep(created.pastes, id, now);
      && created.result == Created(id)
      && viewed.result == Shown(text)
      && viewed.pastes[id].lastRead == Some(now)
  {
  }

  /** A new paste is still viewable exactly 24 hours after creation and no longer one
      millisecond later. */
  lemma ExpiryBoundary(pastes: Table, text: string, id: string, ip: string, now: int)
    requires text != ""
    ensures var created := CreateStep(pastes, Some(text), id, ip, now).pastes;
      && ViewStep(created, id, now + 86400000 - 1).result == Shown(text)
      && ViewStep(created, id, now + 86400000).result == Shown(text)
      && ViewStep(created, id, now + 86400000 + 1).result == NotFound
  {
  }

  /** Once a stored paste is not found at some time, because it expired or was
      deleted, it stays not found at every later time, whatever requests come in
      between, unless a submission stores a new paste under the same id. */
  lemma {:induction false} ExpiredStaysNotFound(pastes: Table, reqs: seq<Request>, id: string, t: int, later: int)
    requires id in pastes && ViewStep(pastes, id, t).result == NotFound && t <= later
    requires id !in CreatedIds(reqs)
    ensures id in Run(pastes, reqs)
    ensures Run(pastes, reqs)[id].deleted == pastes[id].deleted
    ensures Run(pastes, reqs)[id].expiresAt == pastes[id].expiresAt
    ensures ViewStep(Run(pastes, reqs), id, later).result == NotFound
    decreases |reqs|
  {
    if reqs != [] {
      var next := Apply(pastes, reqs[0]);
      assert id in next && next[id].deleted == pastes[id].deleted && next[id].expiresAt == pastes[id].expiresAt;
      ExpiredStaysNotFound(next, reqs[1..], id, t, later);
    }
  }

  /** Two views in a row of a live paste both show its text, and the table keeps the
      time of the later one. */
  lemma RepeatedViews(pastes: Table, id: string, t1: int, t2: int)
    requires id in pastes && Accessible(pastes[id], t1) && Accessible(pastes[id], t2)
    ensures var first := ViewStep(pastes, id, t1);
      var second := ViewStep(first.pastes, id, t2);
      && first.result == Shown(pastes[id].text)
      && second.result == Shown(pastes[id].text)
      && second.pastes[id].lastRead == Some(t2)
      && second.pastes[id].text == pastes[id].text
  {
  }

  /** Every record the service ever holds is well formed: non-empty text, expiry exactly
      24 hours after creation, and `deleted` false, since no request sets it. */
  lemma {:induction false} RunPreservesWellFormed(pastes: Table, reqs: seq<Request>)
    requires AllWellFormed(pastes)
    ensures AllWellFormed(Run(pastes, reqs))
    ensures forall id :: id in Run(pastes, reqs) ==> !Run(pastes, reqs)[id].deleted
    decreases |reqs|
  {
    if reqs != [] {
      var next := Apply(pastes, reqs[0]);
      assert AllWellFormed(next) by {
        match reqs[0]
        case Post(text, id, ip, now) =>
          var s := CreateStep(pastes, text, id, ip, now);
          assert s.pastes == next;
        case Get(id, now) =>
          var s := ViewStep(pastes, id, now);
          assert s.pastes == next;
      }
      RunPreservesWellFormed(next, reqs[1..]);
    }
  }

  /** No request removes a record: expired pastes stay in the table forever. */
  lemma {:induction false} RunNeverRemoves(pastes: Table, reqs: seq<Request>)
    ensures pastes.Keys <= Run(pastes, reqs).Keys
    ensures Run(pastes, reqs).Keys == pastes.Keys + CreatedIds(reqs)
    decreases |reqs|
  {
    if reqs != [] {
      var next := Apply(pastes, reqs[0]);
      RunNeverRemoves(next, reqs[1..]);
    }
  }

  /** An id that no submission stored a paste under is not found, whatever happened
      before: in particular every id is not found on a freshly started service unless
      a submission created it. */
  lemma {:induction false} UncreatedIdNotFound(pastes: Table, reqs: seq<Request>, id: string, now: int)
    requires id !in pastes && id !in CreatedIds(reqs)
    ensures id !in Run(pastes, reqs)
    ensures ViewStep(Run(pastes, reqs), id, now).result == NotFound
    decreases |reqs|
  {
    if reqs != [] {
      UncreatedIdNotFound(Apply(pastes, reqs[0]), reqs[1..], id, now);
    }
  }

  /** The handler as written shows a page for an id nobody created, when the id names
      a member of Object.prototype; the modelled handler answers not found. */
  lemma InheritedNameShowsPastePage(now: int)
    ensures ViewAsWritten(map[], ObjectPrototypeNames, "constructor", now).page == PastePage(None)
    ensures ViewStep(map[], "constructor", now).result == NotFound
  {
  }

  /** A view of `__proto__` stamps `lastRead` onto Object.prototype, after which a view
      of `lastRead`, an id no submission created either, also shows a page. */
  lemma PrototypeStampShowsLastRead(t1: int, t2: int)
    ensures var first := ViewAsWritten(map[], ObjectPrototypeNames, "__proto__", t1);
      var second := ViewAsWritten(first.pastes, first.inherited, "lastRead", t2);
      && "lastRead" !in ObjectPrototypeNames
      && first.page == PastePage(None)
      && second.page == PastePage(None)
    ensures ViewStep(map[], "lastRead", t2).result == NotFound
  {
  }

  /** Apart from inherited names, the handler as written agrees with the model. */
  lemma AsWrittenAgreesOffPrototype(pastes: Table, inherited: set<string>, id: string, now: int)
    requires id in pastes || id !in inherited
    ensures ViewAsWritten(pastes, inherited, id, now).pastes == ViewStep(pastes, id, now).pastes
    ensures ViewAsWritten(pastes, inherited, id, now).page ==
      match ViewStep(pastes, id, now).result
      case NotFound => NotFoundPage
      case Shown(text) => PastePage(Some(text))
  {
  }
}
