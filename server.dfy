// The redirect handler of server.js (`app.get('/:code', ...)`) on the
// in-memory backend: look the code up, count the click, redirect.

module Server {
  import opened Wrappers
  import opened MemoryStore

  datatype RedirectReply = RedirectNotFound | Redirect(location: string)
  {
    function Status(): nat
    {
      if RedirectNotFound? then 404 else 302
    }
  }

  /** GET /:code at clock reading `now`. */
  method HandleRedirect(db: MemoryDB, code: string, now: int) returns (reply: RedirectReply)
    requires db.Valid()
    modifies db
    ensures db.Valid()
    ensures code !in old(db.links) ==> reply == RedirectNotFound && unchanged(db)
    ensures code in old(db.links) ==>
      && reply == Redirect(old(db.links)[code].originalUrl)
      && db.links == old(db.links)[code := Clicked(old(db.links)[code], now)]
    ensures db.order == old(db.order) && db.clicks == old(db.clicks)
  {
    var link := db.FindLink(code);
    if link.Some? {
      var _ := db.IncrementClicks(code, now);
    }
    if link.None? {
      return RedirectNotFound;
    }
    reply := Redirect(link.value.originalUrl);
  }
}
