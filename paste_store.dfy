/** The in-memory paste store of the pastebin service: a table from paste id to
    paste record, the create handler that inserts into it and the view handler
    that reads from it and stamps the read time.

    Time is an integer clock in milliseconds passed in by the caller, and the id
    of a new paste is passed in as well (the service draws it at random). */
module PasteStore {

  datatype Option<+T> = None | Some(value: T)

  /** How long a paste stays viewable after it is created: 24 hours, in milliseconds. */
  const Lifetime: int := 24 * 60 * 60 * 1000

  /** One stored paste. `lastRead` is `None` until the first successful view. */
  datatype Paste = Paste(
    text: string,
    createdAt: int,
    ip: string,
    expiresAt: int,
    deleted: bool,
    lastRead: Option<int>)

  type Table = map<string, Paste>

  /** What the create handler answers: a rejection (status 400) or a redirect to the new id. */
  datatype CreateResult = Rejected | Created(id: string)

  /** What the view handler answers: the not-found page (status 404) or the paste's text. */
  datatype ViewResult = NotFound | Shown(text: string)

  /** The outcome of one request together with the table it leaves behind. */
  datatype Step<R> = Step(result: R, pastes: Table)

  /** The form field passes the handler's emptiness test: it is present and not the
      empty string. Whitespace-only text passes. */
  predicate Submitted(text: Option<string>)
  {
    text.Some? && text.value != ""
  }

  /** A paste can be viewed at time `now`: it is not deleted and `now` is not past its
      expiry. At `now == expiresAt` the paste is still viewable. */
  predicate Accessible(p: Paste, now: int)
  {
    !p.deleted && !(now > p.expiresAt)
  }

  /** The shape every record written by the create handler has, and that a view keeps. */
  predicate WellFormed(p: Paste)
  {
    p.text != "" && !p.deleted && p.expiresAt == p.createdAt + Lifetime
  }

  predicate AllWellFormed(pastes: Table)
  {
    forall id :: id in pastes ==> WellFormed(pastes[id])
  }

  /** The create handler as a function of the table: reject missing or empty text and
      leave the table alone, otherwise store a fresh record under `id`, replacing
      whatever was there. */
  function CreateStep(pastes: Table, text: Option<string>, id: string, ip: string, now: int): (r: Step<CreateResult>)
    ensures r.result == Rejected <==> !Submitted(text)
    ensures r.result == Rejected ==> r.pastes == pastes
    ensures r.result != Rejected ==>
      && r.result == Created(id)
      && r.pastes.Keys == pastes.Keys + {id}
      && (forall k :: k in pastes && k != id ==> r.pastes[k] == pastes[k])
      && r.pastes[id].text == text.value
      && r.pastes[id].ip == ip
      && r.pastes[id].createdAt == now
      && r.pastes[id].expiresAt == r.pastes[id].createdAt + 86400000
      && !r.pastes[id].deleted
      && r.pastes[id].lastRead == None
      && WellFormed(r.pastes[id])
  {
    if !Submitted(text) then
      Step(Rejected, pastes)
    else
      var expiration := now + Lifetime;
      Step(Created(id), pastes[id := Paste(text.value, now, ip, expiration, false, None)])
  }

  /** The view handler as a function of the table: not found when the id is absent
      or its record is not accessible; otherwise the record's text, with `lastRead`
      set to `now` and nothing else changed. */
  function ViewStep(pastes: Table, id: string, now: int): (r: Step<ViewResult>)
    ensures r.result == NotFound <==> (id !in pastes || pastes[id].deleted || now > pastes[id].expiresAt)
    ensures r.result == NotFound ==> r.pastes == pastes
    ensures r.result != NotFound ==>
      && id in pastes
      && r.result == Shown(pastes[id].text)
      && r.pastes.Keys == pastes.Keys
      && (forall k :: k in pastes && k != id ==> r.pastes[k] == pastes[k])
      && r.pastes[id].lastRead == Some(now)
      && r.pastes[id].text == pastes[id].text
      && r.pastes[id].createdAt == pastes[id].createdAt
      && r.pastes[id].expiresAt == pastes[id].expiresAt
      && r.pastes[id].deleted == pastes[id].deleted
      && r.pastes[id].ip == pastes[id].ip
  {
    if id !in pastes || !Accessible(pastes[id], now) then
      Step(NotFound, pastes)
    else
      var paste := pastes[id];
      Step(Shown(paste.text), pastes[id := paste.(lastRead := Some(now))])
  }

  /** The process-wide table of pastes and the two request handlers that use it. */
  class Store {
    var pastes: Table

    ghost predicate Valid()
      reads this
    {
      AllWellFormed(pastes)
    }

    /** The table starts empty when the process starts. */
    constructor ()
      ensures Valid() && pastes == map[]
    {
      pastes := map[];
    }

    /** Handles a submission of the form field `text` from client address `ip`. */
    method Create(text: Option<string>, id: string, ip: string, now: int) returns (r: CreateResult)
      requires Valid()
      modifies this
      ensures Valid()
      ensures Step(r, pastes) == CreateStep(old(pastes), text, id, ip, now)
    {
      if text.None? || text.value == "" {
        return Rejected;
      }
      var expiration := now + Lifetime;
      pastes := pastes[id := Paste(text.value, now, ip, expiration, false, None)];
      r := Created(id);
    }

    /** Handles a request for the paste `id`, stamping its read time on success. */
    method View(id: string, now: int) returns (r: ViewResult)
      requires Valid()
      modifies this
      ensures Valid()
      ensures Step(r, pastes) == ViewStep(old(pastes), id, now)
      ensures r.Shown? ==> r.text != ""
    {
      if id !in pastes || pastes[id].deleted || now > pastes[id].expiresAt {
        return NotFound;
      }
      var paste := pastes[id];
      pastes := pastes[id := paste.(lastRead := Some(now))];
      r := Shown(paste.text);
    }
  }

  // The view handler as it is written. The table is a plain JavaScript object, so
  // looking up an id also finds the names every object inherits from
  // Object.prototype. Such a value is truthy, has no `deleted` field and no
  // `expiresAt` (so `now > expiresAt` is false), and the handler goes on to stamp
  // `lastRead` onto it and render the paste page with an undefined text. When the
  // id is `__proto__` the value is Object.prototype itself, so the stamp makes
  // `lastRead` a name that every object inherits from then on.

  /** The property names a plain JavaScript object inherits from a fresh Object.prototype. */
  const ObjectPrototypeNames: set<string> := {
    "constructor", "__proto__", "hasOwnProperty", "isPrototypeOf",
    "propertyIsEnumerable", "toLocaleString", "toString", "valueOf",
    "__defineGetter__", "__defineSetter__", "__lookupGetter__", "__lookupSetter__"
  }

  /** The page the handler renders; `PastePage(None)` is the paste page with an undefined text. */
  datatype Page = NotFoundPage | PastePage(text: Option<string>)

  /** The outcome of the view handler as written: the page, the table of own records,
      and the names every object inherits afterwards. */
  datatype AsWrittenStep = AsWrittenStep(page: Page, pastes: Table, inherited: set<string>)

  function ViewAsWritten(pastes: Table, inherited: set<string>, id: string, now: int): (r: AsWrittenStep)
    ensures id in pastes ==> (r.page == PastePage(Some(pastes[id].text)) <==> Accessible(pastes[id], now))
    ensures id in pastes ==> (r.page == NotFoundPage <==> !Accessible(pastes[id], now))
    ensures id in pastes ==> r.pastes == ViewStep(pastes, id, now).pastes && r.inherited == inherited
    ensures id !in pastes ==> (r.page == NotFoundPage <==> id !in inherited)
    ensures id !in pastes && id in inherited ==> r.page == PastePage(None)
    ensures id !in pastes ==> r.pastes == pastes
    ensures inherited <= r.inherited <= inherited + {"lastRead"}
    ensures id !in pastes && id in inherited && id == "__proto__" ==> "lastRead" in r.inherited
    ensures r.inherited != inherited ==> id == "__proto__"
  {
    if id in pastes then
      var step := ViewStep(pastes, id, now);
      AsWrittenStep(if step.result.Shown? then PastePage(Some(step.result.text)) else NotFoundPage,
                    step.pastes, inherited)
    else if id in inherited then
      AsWrittenStep(PastePage(None), pastes, if id == "__proto__" then inherited + {"lastRead"} else inherited)
    else
      AsWrittenStep(NotFoundPage, pastes, inherited)
  }
}
