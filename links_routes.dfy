// The handlers of routes/links.js on the in-memory backend: list, stats,
// create and delete. The MongoDB branch is not modelled; the backend choice
// is fixed to the memory store. `Math.random().toString(36).substring(2, 8)`
// is an arbitrary string `generated`, `new Date()` the clock reading `now`,
// and `process.env.BASE_URL` the optional `baseUrl`.

module LinkRoutes {
  import opened Wrappers
  import opened ShortCodes
  import opened Validation
  import opened MemoryStore
  import opened StatsPage

  const DefaultBaseUrl: string := "http://localhost:3000"

  /** The short URL echoed by a successful create. */
  function ShortUrl(baseUrl: Option<string>, code: string): (u: string)
    ensures Truthy(baseUrl) ==> u == baseUrl.value + "/" + code
    ensures !Truthy(baseUrl) ==> u == DefaultBaseUrl + "/" + code
  {
    (if Truthy(baseUrl) then baseUrl.value else DefaultBaseUrl) + "/" + code
  }

  /** The echoed short URL reaches the `/:code` redirect with exactly the
      code it was made for: its last path segment is that code. */
  lemma ShortUrlCarriesCode(baseUrl: Option<string>, code: string)
    requires '/' !in code
    ensures LastSegment(ShortUrl(baseUrl, code)) == code
  {
    LastSegmentAfterSeparator(if Truthy(baseUrl) then baseUrl.value else DefaultBaseUrl, code);
  }

  /** Valid short codes hold no separator, so the short URL of every code the
      create route stores carries it back. */
  lemma ShortUrlOfValidCode(baseUrl: Option<string>, code: string)
    requires IsValidCode(code)
    ensures LastSegment(ShortUrl(baseUrl, code)) == code
  {
    assert '/' !in code by {
      forall i | 0 <= i < |code| ensures code[i] != '/' {
        assert IsCodeChar(code[i]);
      }
    }
    ShortUrlCarriesCode(baseUrl, code);
  }

  /** Outcome of the checks that precede any store access: a 400 error, or
      the short code to try. */
  datatype Choice = Refused(error: string) | Chosen(code: string)

  /** Lines 64-83: the URL check, then the custom code if one is given
      (truthy), otherwise the generated code. The route repeats the checks of
      the validation middleware, and refuses exactly the requests it refuses,
      with the same message. */
  function ChooseCode(originalUrl: Option<string>, customCode: Option<string>,
                      generated: string, isUrl: string -> bool): (c: Choice)
    ensures c.Refused? <==> ValidateCreateLink(originalUrl, customCode, isUrl).Reject?
    ensures c.Refused? ==> ValidateCreateLink(originalUrl, customCode, isUrl) == Reject(400, c.error)
    ensures c.Chosen? && Truthy(customCode) ==> c.code == customCode.value && IsValidCode(c.code)
    ensures c.Chosen? && !Truthy(customCode) ==> c.code == generated
    ensures c.Chosen? ==> UrlAccepted(originalUrl, isUrl)
  {
    if !UrlAccepted(originalUrl, isUrl) then Refused(UrlError)
    else if Truthy(customCode) then
      if !IsValidCode(customCode.value) then Refused(CodeError) else Chosen(customCode.value)
    else Chosen(generated)
  }

  /** The JSON body of a 201 answer. */
  datatype CreatedBody = CreatedBody(
    shortCode: string, originalUrl: string, shortUrl: string, clicks: nat, createdAt: int)

  datatype CreateReply = BadRequest(error: string) | Conflict | Created(body: CreatedBody)
  {
    function Status(): nat
    {
      match this
      case BadRequest(_) => 400
      case Conflict => 409
      case Created(_) => 201
    }
  }

  const ConflictError: string := "Short code already exists"
  const NotFoundError: string := "Link not found"

  /** POST /api/links. A code already in the store, custom or generated, is
      answered with 409 and no retry; otherwise exactly one record is added. */
  method HandleCreate(db: MemoryDB, originalUrl: Option<string>, customCode: Option<string>,
                      generated: string, isUrl: string -> bool, now: int, baseUrl: Option<string>)
    returns (reply: CreateReply)
    requires db.Valid()
    modifies db
    ensures db.Valid()
    ensures ChooseCode(originalUrl, customCode, generated, isUrl).Refused? ==>
      && reply == BadRequest(ChooseCode(originalUrl, customCode, generated, isUrl).error)
      && unchanged(db)
    ensures ChooseCode(originalUrl, customCode, generated, isUrl).Chosen? ==>
      var code := ChooseCode(originalUrl, customCode, generated, isUrl).code;
      && (code in old(db.links) ==> reply == Conflict && unchanged(db))
      && (code !in old(db.links) ==>
            && reply == Created(CreatedBody(code, originalUrl.value, ShortUrl(baseUrl, code), 0, now))
            && db.links == old(db.links)[code := Link(code, code, originalUrl.value, 0, None, now)]
            && db.order == old(db.order) + [code]
            && db.clicks == old(db.clicks)[code := 0]
            && |db.links| == |old(db.links)| + 1)
  {
    var choice := ChooseCode(originalUrl, customCode, generated, isUrl);
    if choice.Refused? {
      return BadRequest(choice.error);
    }
    var shortCode := choice.code;
    var existing := db.FindLink(shortCode);
    if existing.Some? {
      return Conflict;
    }
    var newLink := db.CreateLink(shortCode, originalUrl.value, now);
    reply := Created(CreatedBody(newLink.shortCode, newLink.originalUrl,
                                 ShortUrl(baseUrl, newLink.shortCode), newLink.clicks, newLink.createdAt));
  }

  /** GET /api/links: every record, newest first. */
  method HandleList(db: MemoryDB) returns (links: seq<Link>)
    requires db.Valid()
    ensures NewestFirst(links)
    ensures multiset(links) == multiset(db.links.Values)
    ensures links == db.FindAllLinks()
  {
    links := db.FindAllLinks();
  }

  datatype StatsReply = StatsNotFound | Stats(link: Link)
  {
    function Status(): nat
    {
      if StatsNotFound? then 404 else 200
    }
  }

  /** GET /api/links/:code: the stored record, or 404; the store is only read. */
  method HandleStats(db: MemoryDB, code: string) returns (reply: StatsReply)
    requires db.Valid()
    ensures reply.StatsNotFound? <==> code !in db.links
    ensures reply.Stats? ==> reply.link == db.links[code] && reply.link.shortCode == code
  {
    var link := db.FindLink(code);
    if link.None? {
      return StatsNotFound;
    }
    reply := Stats(link.value);
  }

  datatype DeleteReply = DeleteNotFound | Deleted
  {
    function Status(): nat
    {
      if DeleteNotFound? then 404 else 200
    }
  }

  /** DELETE /api/links/:code: 404 for an absent code, otherwise the record
      is removed. */
  method HandleDelete(db: MemoryDB, code: string) returns (reply: DeleteReply)
    requires db.Valid()
    modifies db
    ensures db.Valid()
    ensures reply == DeleteNotFound <==> code !in old(db.links)
    ensures code !in old(db.links) ==> unchanged(db)
    ensures db.links == old(db.links) - {code}
    ensures db.order == RemoveKey(old(db.order), code)
    ensures db.clicks == old(db.clicks) - {code}
    ensures code !in db.links
  {
    var deleted := db.DeleteLink(code);
    if !deleted {
      return DeleteNotFound;
    }
    reply := Deleted;
  }
}
