// The in-memory link store of models/MemoryDB.js: a class holding a map from
// short code to link record and a second map of click counters.
//
// A JavaScript `Map` remembers insertion order: `set` on a new key appends it,
// `set` on an existing key keeps its position, `delete` removes it. The model
// keeps that order explicitly in `order`, because `findAllLinks` iterates the
// map's values before sorting them, and the sort is stable.

module MemoryStore {
  import opened Wrappers

  /** One stored record. `id` mirrors the record's `_id`, which is always the
      short code. Times are readings of an integer clock. */
  datatype Link = Link(
    id: string,
    shortCode: string,
    originalUrl: string,
    clicks: nat,
    lastClicked: Option<int>,
    createdAt: int)

  /** The record `incrementClicks` leaves behind for a click at time `now`. */
  function Clicked(l: Link, now: int): (r: Link)
    ensures r.clicks == l.clicks + 1 && r.lastClicked == Some(now)
    ensures r.id == l.id && r.shortCode == l.shortCode
    ensures r.originalUrl == l.originalUrl && r.createdAt == l.createdAt
  {
    l.(clicks := l.clicks + 1, lastClicked := Some(now))
  }

  // ---------------------------------------------------------------------
  // Keys in insertion order
  // ---------------------------------------------------------------------

  predicate Distinct<T(==)>(s: seq<T>)
  {
    forall i, j :: 0 <= i < j < |s| ==> s[i] != s[j]
  }

  /** `order` with `key` taken out, the rest in the same order (what
      `Map.delete` does to the iteration order). */
  function RemoveKey(order: seq<string>, key: string): (r: seq<string>)
    ensures forall k :: k in r <==> k in order && k != key
    ensures Distinct(order) ==> Distinct(r)
    ensures key !in order ==> r == order
  {
    if order == [] then []
    else if order[0] == key then RemoveKey(order[1..], key)
    else
      var rest := RemoveKey(order[1..], key);
      assert Distinct(order) ==> forall j :: 0 <= j < |order[1..]| ==> order[1..][j] != order[0];
      assert Distinct(order) ==> Distinct(order[1..]) && order[0] !in rest;
      assert forall i :: 0 < i <= |rest| ==> ([order[0]] + rest)[i] == rest[i - 1];
      [order[0]] + rest
  }

  /** The tail of a duplicate-free sequence is duplicate-free and misses its head. */
  lemma DistinctTail(order: seq<string>)
    requires order != [] && Distinct(order)
    ensures Distinct(order[1..]) && order[0] !in order[1..]
  {
    forall i, j | 0 <= i < j < |order[1..]| ensures order[1..][i] != order[1..][j] {
      assert order[1..][i] == order[i + 1] && order[1..][j] == order[j + 1];
    }
  }

  /** Taking out position `q` of the tail is taking out position `q + 1`
      of the whole sequence. */
  lemma SpliceAfterHead(order: seq<string>, q: nat, rest: seq<string>)
    requires q + 1 < |order|
    requires rest == order[1..][..q] + order[1..][q + 1..]
    ensures [order[0]] + rest == order[..q + 1] + order[q + 2..]
  {
    assert order[..q + 1] == [order[0]] + order[1..][..q];
    assert order[q + 2..] == order[1..][q + 1..];
  }

  /** Deleting a key of a duplicate-free order takes out exactly its one
      position: every other key keeps its place relative to the rest. */
  lemma {:induction false} RemoveKeyInPlace(order: seq<string>, key: string)
    requires Distinct(order) && key in order
    ensures exists p :: 0 <= p < |order| && order[p] == key && RemoveKey(order, key) == order[..p] + order[p + 1..]
  {
    var p := PositionRemoved(order, key);
  }

  lemma {:induction false} PositionRemoved(order: seq<string>, key: string) returns (p: nat)
    requires Distinct(order) && key in order
    ensures p < |order| && order[p] == key && RemoveKey(order, key) == order[..p] + order[p + 1..]
  {
    DistinctTail(order);
    if order[0] == key {
      assert RemoveKey(order, key) == RemoveKey(order[1..], key) == order[1..];
      assert order[..0] + order[1..] == order[1..];
      p := 0;
    } else {
      assert key in order[1..];
      var q := PositionRemoved(order[1..], key);
      assert RemoveKey(order, key) == [order[0]] + RemoveKey(order[1..], key);
      SpliceAfterHead(order, q, RemoveKey(order[1..], key));
      p := q + 1;
    }
  }

  /** The values of `m` listed in the order of `keys` (`Array.from(map.values())`). */
  function InOrder(keys: seq<string>, m: map<string, Link>): (r: seq<Link>)
    requires forall k :: k in keys ==> k in m
    ensures |r| == |keys|
    ensures forall i :: 0 <= i < |keys| ==> r[i] == m[keys[i]]
  {
    if keys == [] then [] else [m[keys[0]]] + InOrder(keys[1..], m)
  }

  /** Listing each key once lists every value of the map once, provided
      each record sits under its own short code. */
  lemma {:induction false} InOrderIsPermutation(keys: seq<string>, m: map<string, Link>)
    requires Distinct(keys)
    requires forall k :: k in keys <==> k in m
    requires forall k :: k in m ==> m[k].shortCode == k
    ensures multiset(InOrder(keys, m)) == multiset(m.Values)
  {
    if keys == [] {
      assert m.Keys == {};
      assert m.Values == {};
    } else {
      var k0 := keys[0];
      var m' := m - {k0};
      TailKeys(keys, m);
      InOrderIsPermutation(keys[1..], m');
      assert InOrder(keys[1..], m') == InOrder(keys[1..], m);
      assert InOrder(keys, m) == [m[k0]] + InOrder(keys[1..], m);
      SplitValues(m, k0);
    }
  }

  /** Dropping the first of distinct keys leaves the keys of the map without it. */
  lemma TailKeys(keys: seq<string>, m: map<string, Link>)
    requires keys != [] && Distinct(keys)
    requires forall k :: k in keys <==> k in m
    ensures Distinct(keys[1..])
    ensures forall k :: k in keys[1..] <==> k in m - {keys[0]}
  {
  }

  /** Taking one key out of a map keyed by short code takes out exactly its value. */
  lemma SplitValues(m: map<string, Link>, k0: string)
    requires k0 in m
    requires forall k :: k in m ==> m[k].shortCode == k
    ensures multiset(m.Values) == multiset((m - {k0}).Values) + multiset{m[k0]}
  {
    var m' := m - {k0};
    assert m.Values == m'.Values + {m[k0]} by {
      forall v | v in m.Values ensures v in m'.Values + {m[k0]} {
        var k :| k in m && m[k] == v;
        if k != k0 { assert m'[k] == v; }
      }
    }
    forall v | v in m'.Values ensures v != m[k0] {
      var k :| k in m' && m'[k] == v;
      assert v.shortCode == k != k0;
    }
  }

  // ---------------------------------------------------------------------
  // Newest-first ordering: Array.prototype.sort with the comparator
  // (a, b) => b.createdAt - a.createdAt. The JavaScript sort is stable, so
  // records created at the same instant keep their insertion order; the
  // model is a stable insertion sort.
  // ---------------------------------------------------------------------

  /** Non-increasing creation time along the sequence. */
  predicate NewestFirst(s: seq<Link>)
  {
    forall i, j :: 0 <= i < j < |s| ==> s[i].createdAt >= s[j].createdAt
  }

  /** The records of `s` created at time `t`, in the order of `s`. A sort is
      stable exactly when it keeps this subsequence for every `t`. */
  function CreatedAt(s: seq<Link>, t: int): seq<Link>
  {
    if s == [] then []
    else if s[0].createdAt == t then [s[0]] + CreatedAt(s[1..], t)
    else CreatedAt(s[1..], t)
  }

  /** Places `x` after every record strictly newer than it and before the
      first one that is not. */
  function Insert(x: Link, s: seq<Link>): seq<Link>
  {
    if s == [] || s[0].createdAt <= x.createdAt then [x] + s
    else [s[0]] + Insert(x, s[1..])
  }

  function SortNewestFirst(s: seq<Link>): seq<Link>
  {
    if s == [] then [] else Insert(s[0], SortNewestFirst(s[1..]))
  }

  lemma {:induction false} InsertPermutes(x: Link, s: seq<Link>)
    ensures multiset(Insert(x, s)) == multiset{x} + multiset(s)
  {
    if s == [] || s[0].createdAt <= x.createdAt {
    } else {
      InsertPermutes(x, s[1..]);
      assert s == [s[0]] + s[1..];
    }
  }

  lemma {:induction false} InsertKeepsOrder(x: Link, s: seq<Link>)
    requires NewestFirst(s)
    ensures NewestFirst(Insert(x, s))
  {
    if s == [] || s[0].createdAt <= x.createdAt {
    } else {
      var tail := Insert(x, s[1..]);
      InsertKeepsOrder(x, s[1..]);
      InsertPermutes(x, s[1..]);
      forall l | l in tail ensures l.createdAt <= s[0].createdAt {
        assert l in multiset(tail);
        if l != x {
          assert l in multiset(s[1..]);
          var j :| 0 <= j < |s[1..]| && s[1..][j] == l;
          assert s[j + 1] == l;
        }
      }
      assert Insert(x, s) == [s[0]] + tail;
    }
  }

  lemma {:induction false} InsertIsStable(x: Link, s: seq<Link>, t: int)
    requires NewestFirst(s)
    ensures CreatedAt(Insert(x, s), t) == CreatedAt([x] + s, t)
  {
    if s == [] || s[0].createdAt <= x.createdAt {
    } else {
      var s' := s[1..];
      assert NewestFirst(s');
      InsertIsStable(x, s', t);
      assert ([s[0]] + Insert(x, s'))[1..] == Insert(x, s');
      assert ([x] + s)[1..] == s;
      assert ([x] + s')[1..] == s';
      assert s == [s[0]] + s';
      assert ([s[0]] + s')[1..] == s';
    }
  }

  /** The sort of `findAllLinks` returns a newest-first permutation of its
      input that keeps the input order among records of equal age. */
  lemma {:induction false} SortNewestFirstCorrect(s: seq<Link>)
    ensures NewestFirst(SortNewestFirst(s))
    ensures multiset(SortNewestFirst(s)) == multiset(s)
    ensures forall t :: CreatedAt(SortNewestFirst(s), t) == CreatedAt(s, t)
  {
    if s != [] {
      var r := SortNewestFirst(s[1..]);
      SortNewestFirstCorrect(s[1..]);
      InsertKeepsOrder(s[0], r);
      InsertPermutes(s[0], r);
      assert s == [s[0]] + s[1..];
      forall t ensures CreatedAt(SortNewestFirst(s), t) == CreatedAt(s, t) {
        InsertIsStable(s[0], r, t);
        assert ([s[0]] + r)[1..] == r;
      }
    }
  }

  // ---------------------------------------------------------------------
  // The store
  // ---------------------------------------------------------------------

  class MemoryDB {
    /** `this.links`: short code to record. */
    var links: map<string, Link>
    /** The iteration order of `this.links`. */
    var order: seq<string>
    /** `this.clicks`: short code to counter; written on create and delete only. */
    var clicks: map<string, nat>

    /** Every record sits under its own short code, `order` lists each key of
        `links` once, and `clicks` has the same keys, all still mapped to 0
        (no operation ever increments this second map). */
    ghost predicate Valid()
      reads this
    {
      && (forall k :: k in links ==> links[k].shortCode == k && links[k].id == k)
      && Distinct(order)
      && (forall k :: k in order <==> k in links)
      && clicks.Keys == links.Keys
      && (forall k :: k in clicks ==> clicks[k] == 0)
    }

    constructor ()
      ensures Valid()
      ensures links == map[] && order == [] && clicks == map[]
    {
      links := map[];
      order := [];
      clicks := map[];
    }

    /** Stores a fresh record under `shortCode`, silently replacing any record
        already there (there is no duplicate check), and returns it. */
    method CreateLink(shortCode: string, originalUrl: string, now: int) returns (link: Link)
      requires Valid()
      modifies this
      ensures Valid()
      ensures link == Link(shortCode, shortCode, originalUrl, 0, None, now)
      ensures links == old(links)[shortCode := link]
      ensures clicks == old(clicks)[shortCode := 0]
      ensures order == if shortCode in old(links) then old(order) else old(order) + [shortCode]
      ensures FindLink(shortCode) == Some(link)
    {
      link := Link(shortCode, shortCode, originalUrl, 0, None, now);
      if shortCode !in links {
        order := order + [shortCode];
      }
      links := links[shortCode := link];
      clicks := clicks[shortCode := 0];
    }

    /** The stored record, or `None` exactly when the code is not a key. */
    function FindLink(shortCode: string): (r: Option<Link>)
      reads this
      ensures r.None? <==> shortCode !in links
      ensures r.Some? ==> shortCode in links && r.value == links[shortCode]
    {
      if shortCode in links then Some(links[shortCode]) else None
    }

    /** The stored records in map iteration order, before sorting. */
    function Entries(): seq<Link>
      reads this
      requires Valid()
    {
      InOrder(order, links)
    }

    /** Every stored record exactly once, newest first; records created at
        the same time stay in insertion order. */
    function FindAllLinks(): (r: seq<Link>)
      reads this
      requires Valid()
      ensures NewestFirst(r)
      ensures multiset(r) == multiset(links.Values)
      ensures |r| == |links|
      ensures forall t :: CreatedAt(r, t) == CreatedAt(Entries(), t)
    {
      SortNewestFirstCorrect(Entries());
      InOrderIsPermutation(order, links);
      var r := SortNewestFirst(Entries());
      assert |multiset(r)| == |r|;
      assert |multiset(links.Values)| == |links.Values| == |links.Keys| by {
        ValuesCount(links);
      }
      r
    }

    /** Adds one click and stamps `lastClicked` on the record, in place;
        `None` and no change when the code is absent. */
    method IncrementClicks(shortCode: string, now: int) returns (r: Option<Link>)
      requires Valid()
      modifies this
      ensures Valid()
      ensures shortCode in old(links) ==>
        && r == Some(Clicked(old(links)[shortCode], now))
        && links == old(links)[shortCode := r.value]
      ensures shortCode !in old(links) ==> r == None && links == old(links)
      ensures order == old(order) && clicks == old(clicks)
    {
      if shortCode in links {
        var link := Clicked(links[shortCode], now);
        links := links[shortCode := link];
        r := Some(link);
      } else {
        r := None;
      }
    }

    /** Removes the code from both maps and reports whether it was there. */
    method DeleteLink(shortCode: string) returns (existed: bool)
      requires Valid()
      modifies this
      ensures Valid()
      ensures existed <==> shortCode in old(links)
      ensures links == old(links) - {shortCode}
      ensures clicks == old(clicks) - {shortCode}
      ensures order == RemoveKey(old(order), shortCode)
      ensures !LinkExists(shortCode)
      ensures !existed ==> unchanged(this)
    {
      existed := shortCode in links;
      // `Map.delete` of an absent key leaves the map as it is
      if existed {
        links := links - {shortCode};
        order := RemoveKey(order, shortCode);
        clicks := clicks - {shortCode};
      }
    }

    /** Whether the code is a key; agrees with `FindLink` finding a record. */
    function LinkExists(shortCode: string): (b: bool)
      reads this
      ensures b <==> FindLink(shortCode).Some?
    {
      shortCode in links
    }
  }

  /** The create, find, click and delete sequence a client can rely on,
      from the contracts alone. */
  method StoreScenario(now: int)
  {
    var db := new MemoryDB();
    var created := db.CreateLink("abc123", "https://example.com", now);
    var found := db.FindLink("abc123");
    assert found == Some(Link("abc123", "abc123", "https://example.com", 0, None, now));
    var clicked := db.IncrementClicks("abc123", now + 1);
    assert clicked.Some? && clicked.value.clicks == 1 && clicked.value.lastClicked == Some(now + 1);
    var missing := db.FindLink("nonexistent");
    assert missing == None;
    var first := db.DeleteLink("abc123");
    var second := db.DeleteLink("abc123");
    assert first && !second;
    assert db.FindLink("abc123") == None;
  }

  /** A map with records keyed by their own short code has as many distinct
      values as keys. */
  lemma ValuesCount(m: map<string, Link>)
    requires forall k :: k in m ==> m[k].shortCode == k
    ensures |m.Values| == |m.Keys|
  {
    var f := (l: Link) => l.shortCode;
    forall k ensures k in m.Keys <==> k in (set v | v in m.Values :: f(v)) {
      if k in m.Keys { assert f(m[k]) == k; }
    }
    assert m.Keys == set v | v in m.Values :: f(v);
    InjectiveImageCount(m.Values, f);
  }

  lemma {:induction false} InjectiveImageCount(vs: set<Link>, f: Link -> string)
    requires forall a, b :: a in vs && b in vs && f(a) == f(b) ==> a == b
    ensures |set v | v in vs :: f(v)| == |vs|
  {
    if vs != {} {
      var v :| v in vs;
      var rest := vs - {v};
      InjectiveImageCount(rest, f);
      assert (set w | w in vs :: f(w)) == (set w | w in rest :: f(w)) + {f(v)};
      assert f(v) !in (set w | w in rest :: f(w));
    }
  }
}
