/** `get_all_data` of core/people.py: a breadth-first crawl from a seed name over the
  * "related people" links of the profile pages. */
module Crawl {
  import opened Wrappers
  import opened Seqs
  import opened Dicts
  import opened Extract
  import opened People

  /** The names a profile page links to; a page whose list cannot be read links nowhere. */
  function Links(site: Site, name: string): seq<string> {
    var r := Extract.RelevantPerson(PageOf(site, name).document);
    if r.Success? then r.value else []
  }

  /** The links of the pages of `visited`, page after page, repeats included. */
  function Linked(site: Site, visited: seq<string>): seq<string>
    decreases |visited|
  {
    if visited == [] then []
    else Linked(site, visited[..|visited| - 1]) + Links(site, visited[|visited| - 1])
  }

  /** Every name met after visiting `visited`, in the order met: the seed, then the
    * links of each visited page in visit order. */
  function Discovered(site: Site, start: string, visited: seq<string>): seq<string> {
    [start] + Linked(site, visited)
  }

  /** The order of a breadth-first visit from `start`: no name twice, the names are
    * exactly the distinct names met, in the order first met, and each name was met
    * on the pages visited before it. */
  ghost predicate VisitOrder(site: Site, start: string, keys: seq<string>) {
    && NoDuplicates(keys)
    && keys == Dedup(Discovered(site, start, keys))
    && forall j :: 0 <= j < |keys| ==> MetBefore(site, start, keys, j)
  }

  /** `keys[j]` was met on the pages visited before it (or is the seed). */
  ghost predicate MetBefore(site: Site, start: string, keys: seq<string>, j: int) {
    0 <= j < |keys| && keys[j] in Discovered(site, start, keys[..j])
  }

  /** What a successful crawl returns: keys in breadth-first order, each with the record
    * built from its own page. */
  ghost predicate BreadthFirst(site: Site, start: string, people: Dict<string, Person>) {
    Recorded(site, people) && VisitOrder(site, start, people.keys)
  }

  /** Each key holds the record built from its own page. */
  ghost predicate Recorded(site: Site, people: Dict<string, Person>) {
    && Valid(people)
    && forall n {:trigger Fetch(site, n)} :: n in people.values ==> Fetch(site, n) == Success(people.values[n])
  }

  /** The state of the crawl at the head of its loop: the records so far, visited in
    * breadth-first order, and a queue that, after them, lists the names met so far. */
  ghost predicate Crawling(site: Site, start: string, people: Dict<string, Person>, queue: seq<string>) {
    && Recorded(site, people)
    && Dedup(people.keys + queue) == Dedup(Discovered(site, start, people.keys))
    && (forall j :: 0 <= j < |people.keys| ==> MetBefore(site, start, people.keys, j))
    && forall y :: y in queue ==> y in Discovered(site, start, people.keys)
  }

  ghost predicate IsPath(site: Site, p: seq<string>) {
    p != [] && forall i :: 0 <= i < |p| - 1 ==> p[i + 1] in Links(site, p[i])
  }

  /** `n` can be reached from `start` by following links. */
  ghost predicate Reachable(site: Site, start: string, n: string) {
    exists p :: IsPath(site, p) && p[0] == start && p[|p| - 1] == n
  }

  /** The URLs requested while building the records of `names`, in order. */
  function Requests(names: seq<string>): seq<string>
    decreases |names|
  {
    if names == [] then []
    else
      var n := names[|names| - 1];
      Requests(names[..|names| - 1]) + [ImageUrl(n), Url(n)]
  }

  /** The name `get_all_data` starts from when it is given none. */
  const DEFAULT_SEED := "启功"

  /** `get_all_data(start)`; a call without a name starts from `DEFAULT_SEED`. The pickle dump at the end is not modelled. `requests` lists
    * the URLs downloaded, in order. */
  method GetAllData(site: Site, start: string := DEFAULT_SEED)
    returns (r: Result<Dict<string, Person>, Error>, ghost requests: seq<string>)
    ensures r.Success? ==> BreadthFirst(site, start, r.value)
    ensures r.Success? ==> forall n :: n in r.value.values ==>
      r.value.values[n].name == n && r.value.values[n].url == Url(n)
    ensures r.Success? ==> requests == Requests(r.value.keys)
    ensures NoDuplicates(requests)
    ensures r.Failure? ==> exists n :: Reachable(site, start, n) && Fetch(site, n) == Failure(r.error)
  {
    var queue := [start];
    var people: Dict<string, Person> := Empty();
    requests := [];
    DedupSingle(start);
    while queue != []
      invariant Crawling(site, start, people, queue)
      invariant people.values.Keys <= site.Keys
      invariant requests == Requests(people.keys)
      decreases site.Keys - people.values.Keys, |queue|
    {
      var name := queue[0];
      ghost var before := queue;
      queue := queue[1..];
      if name in people.values {
        // a name met again is only logged
        CrawlSkip(site, start, people, before);
      } else {
        ghost var downloads;
        var record;
        record, downloads := Scrape(site, name);
        RequestsAppend(people.keys, name);
        requests := requests + downloads;
        if record.Failure? {
          CrawlReaches(site, start, people, before);
          r := Failure(record.error);
          assert Reachable(site, start, name) && Fetch(site, name) == Failure(r.error);
          return;
        }
        CrawlStep(site, start, people, before, record.value);
        people := Set(people, name, record.value);
        queue := queue + Without(record.value.relevantPerson, (set y | y in queue) + people.values.Keys);
      }
    }
    CrawlDone(site, start, people);
    r := Success(people);
  }

  /** `PersonPage(name).data`: a fresh page object, so both downloads happen. */
  method Scrape(site: Site, name: string) returns (record: Result<Person, Error>, ghost downloads: seq<string>)
    ensures record == Fetch(site, name)
    ensures downloads == [ImageUrl(name), Url(name)]
  {
    var page := new PersonPage(site, name);
    record := page.Data();
    downloads := page.requests;
  }

  /** A name already visited is dropped from the queue. */
  lemma CrawlSkip(site: Site, start: string, people: Dict<string, Person>, queue: seq<string>)
    requires Crawling(site, start, people, queue)
    requires queue != [] && queue[0] in people.values
    ensures Crawling(site, start, people, queue[1..])
  {
    var name, rest := queue[0], queue[1..];
    assert queue == [name] + rest;
    DedupSkip(people.keys, name, rest);
    assert people.keys + queue == people.keys + [name] + rest;
    assert forall y :: y in rest ==> y in queue;
  }

  /** A new name is visited: its record is added, and the names its page links to that
    * are neither queued nor visited join the end of the queue. */
  lemma CrawlStep(site: Site, start: string, people: Dict<string, Person>, queue: seq<string>, record: Person)
    requires Crawling(site, start, people, queue)
    requires queue != [] && queue[0] !in people.values
    requires Fetch(site, queue[0]) == Success(record)
    ensures var people' := Set(people, queue[0], record);
      var rest := queue[1..];
      Crawling(site, start, people', rest + Without(record.relevantPerson, (set y | y in rest) + people'.values.Keys))
  {
    var keys, name := people.keys, queue[0];
    var related := record.relevantPerson;
    var seen := (set y | y in queue[1..]) + Set(people, name, record).values.Keys;
    RecordedStep(site, people, name, record);
    VisitStep(site, start, keys, name, related);
    SeenQueued(people, queue, record);
    QueueStep(keys, queue, Discovered(site, start, keys), related, seen);
  }

  /** Adding the record built from a page keeps every record built from its own page. */
  lemma RecordedStep(site: Site, people: Dict<string, Person>, name: string, record: Person)
    requires Recorded(site, people)
    requires Fetch(site, name) == Success(record)
    ensures Recorded(site, Set(people, name, record))
  {
    var people' := Set(people, name, record);
    forall n | n in people'.values
      ensures Fetch(site, n) == Success(people'.values[n])
    {
      if n != name {
        assert Fetch(site, n) == Success(people.values[n]);
      }
    }
  }

  /** The names already queued or visited after visiting the head of the queue all
    * occur in the visited names followed by the queue. */
  lemma SeenQueued<V>(d: Dict<string, V>, queue: seq<string>, v: V)
    requires Valid(d) && queue != []
    ensures forall x :: x in (set y | y in queue[1..]) + Set(d, queue[0], v).values.Keys ==> x in d.keys + queue
  {
    assert queue == [queue[0]] + queue[1..];
  }

  /** Taking the head of the queue and appending its unseen links keeps the queue, after
    * the visited names, listing the names met (first occurrences in order). */
  lemma QueueStep<T>(keys: seq<T>, queue: seq<T>, met: seq<T>, related: seq<T>, seen: set<T>)
    requires queue != []
    requires Dedup(keys + queue) == Dedup(met)
    requires forall y :: y in queue ==> y in met
    requires forall x :: x in seen ==> x in keys + queue
    ensures Dedup((keys + [queue[0]]) + (queue[1..] + Without(related, seen))) == Dedup(met + related)
    ensures forall y :: y in queue[1..] + Without(related, seen) ==> y in met + related
  {
    var rest := queue[1..];
    assert queue == [queue[0]] + rest;
    DedupAppendUnseen(keys + queue, met, related, seen);
    ConcatShift(keys, queue[0], rest, Without(related, seen));
    WithoutContents(related, seen);
  }

  /** A name taken from the queue is reachable from the seed. */
  lemma CrawlReaches(site: Site, start: string, people: Dict<string, Person>, queue: seq<string>)
    requires Crawling(site, start, people, queue)
    requires queue != [] && queue[0] !in people.values
    ensures Reachable(site, start, queue[0])
    ensures NoDuplicates(Requests(people.keys + [queue[0]]))
  {
    DiscoveredReachable(site, start, people.keys, queue[0]);
    RequestsDistinct(people.keys + [queue[0]]);
  }

  /** An empty queue ends the crawl in breadth-first order. */
  lemma CrawlDone(site: Site, start: string, people: Dict<string, Person>)
    requires Crawling(site, start, people, [])
    ensures BreadthFirst(site, start, people)
    ensures NoDuplicates(Requests(people.keys))
    ensures forall n :: n in people.values ==> people.values[n].name == n && people.values[n].url == Url(n)
  {
    forall n | n in people.values
      ensures people.values[n].name == n && people.values[n].url == Url(n)
    {
      assert Fetch(site, n) == Success(people.values[n]);
    }
    assert people.keys + [] == people.keys;
    DedupOfDistinct(people.keys);
    RequestsDistinct(people.keys);
  }

  /** At the head of the loop every name a visited page links to is visited or queued;
    * with an empty queue, the visited names are closed under the links. */
  lemma CrawlCovers(site: Site, start: string, people: Dict<string, Person>, queue: seq<string>)
    requires Crawling(site, start, people, queue)
    ensures forall n, m :: n in people.keys && m in Links(site, n) ==> m in people.keys || m in queue
  {
    DedupContents(Discovered(site, start, people.keys));
    DedupContents(people.keys + queue);
    forall n, m | n in people.keys && m in Links(site, n)
      ensures m in people.keys || m in queue
    {
      var i :| 0 <= i < |people.keys| && people.keys[i] == n;
      LinkedContains(site, people.keys, i);
      assert m in Discovered(site, start, people.keys);
      assert m in people.keys + queue;
    }
  }

  lemma ConcatShift<T>(a: seq<T>, x: T, b: seq<T>, c: seq<T>)
    ensures (a + [x]) + (b + c) == (a + ([x] + b)) + c
  {
  }

  /** Visiting `name` after `keys` keeps every name met before its visit, and adds the
    * links of its page to the names met. */
  lemma VisitStep(site: Site, start: string, keys: seq<string>, name: string, related: seq<string>)
    requires forall j :: 0 <= j < |keys| ==> MetBefore(site, start, keys, j)
    requires name in Discovered(site, start, keys)
    requires related == Links(site, name)
    ensures forall j :: 0 <= j < |keys| + 1 ==> MetBefore(site, start, keys + [name], j)
    ensures Discovered(site, start, keys + [name]) == Discovered(site, start, keys) + related
  {
    var keys' := keys + [name];
    DiscoveredAppend(site, start, keys, name);
    forall j | 0 <= j < |keys'|
      ensures MetBefore(site, start, keys', j)
    {
      if j < |keys| {
        MetBeforeExtend(site, start, keys, name, j);
      } else {
        assert keys'[..j] == keys;
      }
    }
  }

  lemma DiscoveredAppend(site: Site, start: string, keys: seq<string>, name: string)
    ensures Discovered(site, start, keys + [name]) == Discovered(site, start, keys) + Links(site, name)
  {
    assert (keys + [name])[..|keys|] == keys;
  }

  lemma MetBeforeExtend(site: Site, start: string, keys: seq<string>, name: string, j: int)
    requires MetBefore(site, start, keys, j)
    ensures MetBefore(site, start, keys + [name], j)
  {
    assert (keys + [name])[..j] == keys[..j];
  }


  // ---------------------------------------------------------------- reachability

  /** A name in `Linked(site, visited)` is a link of some visited page. */
  lemma {:induction false} LinkedSource(site: Site, visited: seq<string>, y: string) returns (i: nat)
    requires y in Linked(site, visited)
    ensures i < |visited| && y in Links(site, visited[i])
    decreases |visited|
  {
    var v' := visited[..|visited| - 1];
    if y in Linked(site, v') {
      i := LinkedSource(site, v', y);
    } else {
      i := |visited| - 1;
    }
  }

  /** Every link of a visited page is in `Linked(site, visited)`. */
  lemma {:induction false} LinkedContains(site: Site, visited: seq<string>, i: nat)
    requires i < |visited|
    ensures forall y :: y in Links(site, visited[i]) ==> y in Linked(site, visited)
    decreases |visited|
  {
    if i < |visited| - 1 {
      LinkedContains(site, visited[..|visited| - 1], i);
    }
  }

  lemma ReachableStep(site: Site, start: string, a: string, b: string)
    requires Reachable(site, start, a) && b in Links(site, a)
    ensures Reachable(site, start, b)
  {
    var p :| IsPath(site, p) && p[0] == start && p[|p| - 1] == a;
    var q := p + [b];
    assert forall i :: 0 <= i < |p| ==> q[i] == p[i];
    assert IsPath(site, q);
  }

  /** Each name of a visit order is reachable from the seed. */
  lemma {:induction false} VisitedReachable(site: Site, start: string, keys: seq<string>)
    requires forall j :: 0 <= j < |keys| ==> MetBefore(site, start, keys, j)
    ensures forall j :: 0 <= j < |keys| ==> Reachable(site, start, keys[j])
    decreases |keys|
  {
    if keys != [] {
      var k := |keys| - 1;
      var prefix := keys[..k];
      forall j | 0 <= j < |prefix|
        ensures MetBefore(site, start, prefix, j)
      {
        assert MetBefore(site, start, keys, j);
        assert prefix[..j] == keys[..j];
      }
      VisitedReachable(site, start, prefix);
      assert MetBefore(site, start, keys, k);
      if keys[k] == start {
        assert IsPath(site, [start]);
      } else {
        var i := LinkedSource(site, prefix, keys[k]);
        assert prefix[i] == keys[i];
        ReachableStep(site, start, keys[i], keys[k]);
      }
    }
  }

  /** Every name met while visiting in order is reachable from the seed. */
  lemma DiscoveredReachable(site: Site, start: string, keys: seq<string>, y: string)
    requires forall j :: 0 <= j < |keys| ==> MetBefore(site, start, keys, j)
    requires y in Discovered(site, start, keys)
    ensures Reachable(site, start, y)
  {
    if y == start {
      assert IsPath(site, [start]);
    } else {
      VisitedReachable(site, start, keys);
      var i := LinkedSource(site, keys, y);
      ReachableStep(site, start, keys[i], y);
    }
  }

  // ---------------------------------------------------------------- requests

  lemma RequestsAppend(names: seq<string>, n: string)
    ensures Requests(names + [n]) == Requests(names) + [ImageUrl(n), Url(n)]
  {
    assert (names + [n])[..|names|] == names;
  }

  lemma {:induction false} RequestsFor(names: seq<string>, u: string) returns (n: string)
    requires u in Requests(names)
    ensures n in names && (u == ImageUrl(n) || u == Url(n))
    decreases |names|
  {
    var names' := names[..|names| - 1];
    if u in Requests(names') {
      n := RequestsFor(names', u);
    } else {
      n := names[|names| - 1];
    }
  }

  /** Distinct names give distinct downloads: no URL is requested twice. */
  lemma {:induction false} RequestsDistinct(names: seq<string>)
    requires NoDuplicates(names)
    ensures NoDuplicates(Requests(names))
    decreases |names|
  {
    if names != [] {
      var names', n := names[..|names| - 1], names[|names| - 1];
      RequestsDistinct(names');
      var old_ := Requests(names');
      UrlsDistinct(n, n);
      forall u | u in old_
        ensures u != ImageUrl(n) && u != Url(n)
      {
        var m := RequestsFor(names', u);
        UrlsDistinct(m, n);
        UrlsDistinct(n, m);
      }
      var all := old_ + [ImageUrl(n), Url(n)];
      forall i, j | 0 <= i < j < |all|
        ensures all[i] != all[j]
      {
        if j >= |old_| && i < |old_| {
          assert all[i] in old_;
        }
      }
    }
  }

  // ---------------------------------------------------------------- breadth-first order

  /** The seed is the first key. */
  lemma SeedFirst(site: Site, start: string, keys: seq<string>)
    requires VisitOrder(site, start, keys)
    ensures keys != [] && keys[0] == start
  {
    var rest := Linked(site, keys);
    DedupPrefix([start], rest);
    DedupSingle(start);
  }

  /** The names of a visit order are closed under links: every page they link to is
    * among them. */
  lemma LinksClosed(site: Site, start: string, keys: seq<string>)
    requires VisitOrder(site, start, keys)
    ensures forall n, m :: n in keys && m in Links(site, n) ==> m in keys
  {
    DedupContents(Discovered(site, start, keys));
    forall n, m | n in keys && m in Links(site, n)
      ensures m in keys
    {
      var i :| 0 <= i < |keys| && keys[i] == n;
      LinkedContains(site, keys, i);
    }
  }

  /** The keys are closed under links: every related name of every record is a key. */
  lemma Closed(site: Site, start: string, people: Dict<string, Person>)
    requires BreadthFirst(site, start, people)
    ensures forall n, m :: n in people.values && m in people.values[n].relevantPerson ==>
      m in people.values
  {
    LinksClosed(site, start, people.keys);
    forall n, m | n in people.values && m in people.values[n].relevantPerson
      ensures m in people.values
    {
      assert Fetch(site, n) == Success(people.values[n]);
      assert m in Links(site, n);
    }
  }

  /** Every key is reachable from the seed. */
  lemma KeysReachable(site: Site, start: string, people: Dict<string, Person>)
    requires BreadthFirst(site, start, people)
    ensures forall n :: n in people.values ==> Reachable(site, start, n)
  {
    VisitedReachable(site, start, people.keys);
  }

  /** Every name reachable from the seed is a key. */
  lemma ReachableKeys(site: Site, start: string, people: Dict<string, Person>, n: string)
    requires BreadthFirst(site, start, people)
    requires Reachable(site, start, n)
    ensures n in people.values
  {
    var p :| IsPath(site, p) && p[0] == start && p[|p| - 1] == n;
    SeedFirst(site, start, people.keys);
    LinksClosed(site, start, people.keys);
    var i := 0;
    while i < |p| - 1
      invariant 0 <= i < |p|
      invariant p[i] in people.values
    {
      assert p[i + 1] in Links(site, p[i]);
      i := i + 1;
    }
  }

  /** `Linked` of a prefix is a prefix of `Linked`. */
  lemma {:induction false} LinkedPrefix(site: Site, visited: seq<string>, j: nat)
    requires j <= |visited|
    ensures var a := Linked(site, visited[..j]);
      |a| <= |Linked(site, visited)| && Linked(site, visited)[..|a|] == a
    decreases |visited|
  {
    if j < |visited| {
      var v' := visited[..|visited| - 1];
      assert v'[..j] == visited[..j];
      LinkedPrefix(site, v', j);
    } else {
      assert visited[..j] == visited;
    }
  }

  /** In a visit order, the names met on the first `j` pages, deduplicated, are a prefix
    * of the order, and one that already covers its first `j + 1` names. */
  lemma MetPrefix(site: Site, start: string, keys: seq<string>, j: nat)
    requires VisitOrder(site, start, keys)
    requires j <= |keys|
    ensures var met := Dedup(Discovered(site, start, keys[..j]));
      |met| <= |keys| && keys[..|met|] == met && (j < |keys| ==> j < |met|)
  {
    var a := Discovered(site, start, keys[..j]);
    var all := Discovered(site, start, keys);
    LinkedPrefix(site, keys, j);
    assert all == a + all[|a|..];
    DedupPrefix(a, all[|a|..]);
    var met := Dedup(a);
    if j < |keys| {
      DedupContents(a);
      assert MetBefore(site, start, keys, j);
      assert keys[j] in met;
      var i :| 0 <= i < |met| && met[i] == keys[j];
      assert keys[i] == keys[j];
    }
  }

  lemma {:induction false} VisitOrdersAgree(site: Site, start: string, k1: seq<string>, k2: seq<string>, j: nat)
    requires VisitOrder(site, start, k1) && VisitOrder(site, start, k2)
    requires j <= |k1| && j <= |k2|
    ensures k1[..j] == k2[..j]
    decreases j
  {
    if j > 0 {
      VisitOrdersAgree(site, start, k1, k2, j - 1);
      MetPrefix(site, start, k1, j - 1);
      MetPrefix(site, start, k2, j - 1);
      assert k1[..j] == k1[..j - 1] + [k1[j - 1]];
      assert k2[..j] == k2[..j - 1] + [k2[j - 1]];
    }
  }

  /** There is only one visit order: breadth-first order is fully determined by the site
    * and the seed. */
  lemma VisitOrderUnique(site: Site, start: string, k1: seq<string>, k2: seq<string>)
    requires VisitOrder(site, start, k1) && VisitOrder(site, start, k2)
    ensures k1 == k2
  {
    if |k1| < |k2| {
      VisitOrdersAgree(site, start, k1, k2, |k1|);
      assert k2[..|k1|] == k1;
      MetPrefix(site, start, k2, |k1|);
      assert false;
    } else if |k2| < |k1| {
      VisitOrdersAgree(site, start, k1, k2, |k2|);
      assert k1[..|k2|] == k2;
      MetPrefix(site, start, k1, |k2|);
      assert false;
    } else {
      VisitOrdersAgree(site, start, k1, k2, |k1|);
      assert k1 == k1[..|k1|] && k2 == k2[..|k2|];
    }
  }

  /** A successful crawl's result is determined by the site and the seed. */
  lemma BreadthFirstUnique(site: Site, start: string, p1: Dict<string, Person>, p2: Dict<string, Person>)
    requires BreadthFirst(site, start, p1) && BreadthFirst(site, start, p2)
    ensures p1 == p2
  {
    VisitOrderUnique(site, start, p1.keys, p2.keys);
    RecordedUnique(site, p1, p2);
  }

  lemma RecordedUnique(site: Site, p1: Dict<string, Person>, p2: Dict<string, Person>)
    requires Recorded(site, p1) && Recorded(site, p2) && p1.keys == p2.keys
    ensures p1 == p2
  {
    assert p1.values.Keys == p2.values.Keys;
    forall n | n in p1.values
      ensures p1.values[n] == p2.values[n]
    {
      assert Fetch(site, n) == Success(p1.values[n]);
    }
  }
}
