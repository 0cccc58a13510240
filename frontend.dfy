/** The record-to-view projection of main.py: the view of one person that the profile
  * page renders, and the list of known names behind the index page. The `people`
  * mapping that main.py loads or crawls at start-up is a parameter here. */
module Frontend {
  import opened Wrappers
  import opened Seqs
  import opened Dicts
  import opened People
  import Crawl

  /** A value of the view: a string, a list of strings, or the events mapping. */
  datatype Value = Str(text: string) | Strs(items: seq<string>) | Groups(groups: Dict<string, seq<string>>)

  /** `people[name]` on a name that is not a key. */
  datatype LookupError = KeyError(key: string)

  const INTRODUCTION_KEY := "简介"
  const RELATED_PEOPLE_KEY := "相关人物"
  const ORGANISATIONS_KEY := "相关机构"
  const SUBJECTS_KEY := "相关学科"
  const EVENTS_KEY := "相关事件"

  const LINK_OPEN := "<a href=\"/person/"
  const LINK_MIDDLE := "\">"
  const LINK_CLOSE := "</a>"

  /** The anchor the view shows for a related name: a link to that person's page. */
  function PersonLink(i: string): string {
    LINK_OPEN + i + LINK_MIDDLE + i + LINK_CLOSE
  }

  /** The name a link points to, if `s` is such a link. */
  function LinkTarget(s: string): Option<string> {
    var fixed := |LINK_OPEN| + |LINK_MIDDLE| + |LINK_CLOSE|;
    if |s| < fixed || (|s| - fixed) % 2 != 0 then None
    else
      var i := s[|LINK_OPEN|..|LINK_OPEN| + (|s| - fixed) / 2];
      if PersonLink(i) == s then Some(i) else None
  }

  lemma PersonLinkLength(i: string)
    ensures |PersonLink(i)| == |LINK_OPEN| + |LINK_MIDDLE| + |LINK_CLOSE| + 2 * |i|
  {
  }

  /** The name sits right after the fixed opening of the link. */
  lemma PersonLinkName(i: string)
    ensures PersonLink(i)[|LINK_OPEN|..|LINK_OPEN| + |i|] == i
  {
    var s := PersonLink(i);
    assert s == LINK_OPEN + (i + (LINK_MIDDLE + i + LINK_CLOSE));
    assert forall k :: 0 <= k < |i| ==> s[|LINK_OPEN| + k] == i[k];
  }

  /** A link can be read back: `LinkTarget` inverts `PersonLink`, and accepts nothing
    * else. */
  lemma LinkTargetInverts(s: string, i: string)
    ensures LinkTarget(s) == Some(i) <==> s == PersonLink(i)
  {
    if s == PersonLink(i) {
      PersonLinkLength(i);
      PersonLinkName(i);
    }
  }

  /** Distinct names give distinct links. */
  lemma PersonLinkInjective(a: string, b: string)
    ensures PersonLink(a) == PersonLink(b) <==> a == b
  {
    LinkTargetInverts(PersonLink(a), a);
    LinkTargetInverts(PersonLink(b), b);
  }

  /** The five keys of the view are distinct. */
  lemma KeysDistinct()
    ensures INTRODUCTION_KEY != RELATED_PEOPLE_KEY && INTRODUCTION_KEY != ORGANISATIONS_KEY
    ensures INTRODUCTION_KEY != SUBJECTS_KEY && INTRODUCTION_KEY != EVENTS_KEY
    ensures RELATED_PEOPLE_KEY != ORGANISATIONS_KEY && RELATED_PEOPLE_KEY != SUBJECTS_KEY
    ensures RELATED_PEOPLE_KEY != EVENTS_KEY && ORGANISATIONS_KEY != SUBJECTS_KEY
    ensures ORGANISATIONS_KEY != EVENTS_KEY && SUBJECTS_KEY != EVENTS_KEY
  {
    assert INTRODUCTION_KEY[0] != RELATED_PEOPLE_KEY[0];
    assert RELATED_PEOPLE_KEY[2] != ORGANISATIONS_KEY[2];
    assert RELATED_PEOPLE_KEY[2] != SUBJECTS_KEY[2];
    assert RELATED_PEOPLE_KEY[2] != EVENTS_KEY[2];
    assert ORGANISATIONS_KEY[2] != SUBJECTS_KEY[2];
    assert ORGANISATIONS_KEY[2] != EVENTS_KEY[2];
    assert SUBJECTS_KEY[2] != EVENTS_KEY[2];
  }

  /** The related-people entry of the view: one link per related name, in order. Each
    * entry reads back as the name it was made from. */
  function PersonLinks(names: seq<string>): (r: seq<string>)
    ensures |r| == |names|
    ensures forall k :: 0 <= k < |r| ==> LinkTarget(r[k]) == Some(names[k])
  {
    var r := seq(|names|, k requires 0 <= k < |names| => PersonLink(names[k]));
    assert forall k :: 0 <= k < |r| ==> LinkTarget(r[k]) == Some(names[k]) by {
      forall k | 0 <= k < |r| ensures LinkTarget(r[k]) == Some(names[k]) {
        LinkTargetInverts(r[k], names[k]);
      }
    }
    r
  }

  /** The key order of the view: 简介, 相关人物, [相关机构], [相关学科], 相关事件, the
    * bracketed ones present exactly when the record's list is non-empty. */
  function ViewKeyOrder(p: Person): seq<string> {
    [INTRODUCTION_KEY, RELATED_PEOPLE_KEY]
      + (if p.apartments != [] then [ORGANISATIONS_KEY] else [])
      + (if p.subjects != [] then [SUBJECTS_KEY] else [])
      + [EVENTS_KEY]
  }

  /** The assignments `to_json` makes, in order. */
  function ViewPairs(p: Person): seq<(string, Value)> {
    [(INTRODUCTION_KEY, Str(p.introduction)), (RELATED_PEOPLE_KEY, Strs(PersonLinks(p.relevantPerson)))]
      + (if p.apartments != [] then [(ORGANISATIONS_KEY, Strs(p.apartments))] else [])
      + (if p.subjects != [] then [(SUBJECTS_KEY, Strs(p.subjects))] else [])
      + [(EVENTS_KEY, Groups(p.events))]
  }

  /** The view of one record. `to_json` starts from a dict literal and assigns further keys
    * that are not yet present, which is the same as `dict` of the assignments in order. */
  function View(p: Person): (r: Dict<string, Value>)
    ensures Valid(r)
  {
    FromPairs(ViewPairs(p))
  }

  lemma ViewPairKeys(p: Person)
    ensures Firsts(ViewPairs(p)) == ViewKeyOrder(p)
    ensures NoDuplicates(ViewKeyOrder(p))
  {
    var ps, ks := ViewPairs(p), ViewKeyOrder(p);
    assert |ps| == |ks|;
    forall i | 0 <= i < |ps| ensures Firsts(ps)[i] == ks[i] {
      FirstsAt(ps, i);
    }
    KeysDistinct();
  }

  /** The view's keys come in the order 简介, 相关人物, [相关机构], [相关学科], 相关事件,
    * the bracketed ones present exactly when the record's list is non-empty. */
  lemma ViewKeys(p: Person)
    ensures View(p).keys == [INTRODUCTION_KEY, RELATED_PEOPLE_KEY]
      + (if p.apartments != [] then [ORGANISATIONS_KEY] else [])
      + (if p.subjects != [] then [SUBJECTS_KEY] else [])
      + [EVENTS_KEY]
  {
    ViewPairKeys(p);
    FromPairsKeys(ViewPairs(p));
    DedupOfDistinct(ViewKeyOrder(p));
  }

  /** The keys every view has hold the introduction, the links and the events. */
  lemma ViewFixed(p: Person)
    ensures INTRODUCTION_KEY in View(p).values && View(p).values[INTRODUCTION_KEY] == Str(p.introduction)
    ensures RELATED_PEOPLE_KEY in View(p).values && View(p).values[RELATED_PEOPLE_KEY] == Strs(PersonLinks(p.relevantPerson))
    ensures EVENTS_KEY in View(p).values && View(p).values[EVENTS_KEY] == Groups(p.events)
  {
    var ps := ViewPairs(p);
    ViewPairKeys(p);
    FromPairsDistinct(ps, 0);
    FromPairsDistinct(ps, 1);
    FromPairsDistinct(ps, |ps| - 1);
  }

  /** A key is in the view exactly when it is in the key order. */
  lemma ViewHas(p: Person, k: string)
    ensures k in View(p).values <==> k in ViewKeyOrder(p)
  {
    ViewPairKeys(p);
    FromPairsKeys(ViewPairs(p));
  }

  /** The optional keys are in the key order exactly when their lists are non-empty. */
  lemma KeyOrderOptional(p: Person)
    ensures ORGANISATIONS_KEY in ViewKeyOrder(p) <==> p.apartments != []
    ensures SUBJECTS_KEY in ViewKeyOrder(p) <==> p.subjects != []
  {
    KeysDistinct();
    var organisations := if p.apartments != [] then [ORGANISATIONS_KEY] else [];
    var subjects := if p.subjects != [] then [SUBJECTS_KEY] else [];
    assert ViewKeyOrder(p) == [INTRODUCTION_KEY, RELATED_PEOPLE_KEY] + organisations + subjects + [EVENTS_KEY];
  }

  /** 相关机构 is present exactly when the record lists organisations, and then holds
    * them. */
  lemma ViewOrganisations(p: Person)
    ensures ORGANISATIONS_KEY in View(p).values <==> p.apartments != []
    ensures p.apartments != [] ==> View(p).values[ORGANISATIONS_KEY] == Strs(p.apartments)
  {
    ViewHas(p, ORGANISATIONS_KEY);
    KeyOrderOptional(p);
    if p.apartments != [] {
      assert View(p).values[ORGANISATIONS_KEY] == Strs(p.apartments) by {
        ViewPairKeys(p);
        FromPairsDistinct(ViewPairs(p), 2);
      }
    }
  }

  /** 相关学科 is present exactly when the record lists subjects, and then holds them. */
  lemma ViewSubjects(p: Person)
    ensures SUBJECTS_KEY in View(p).values <==> p.subjects != []
    ensures p.subjects != [] ==> View(p).values[SUBJECTS_KEY] == Strs(p.subjects)
  {
    ViewHas(p, SUBJECTS_KEY);
    KeyOrderOptional(p);
    if p.subjects != [] {
      assert View(p).values[SUBJECTS_KEY] == Strs(p.subjects) by {
        var ps := ViewPairs(p);
        ViewPairKeys(p);
        FromPairsDistinct(ps, |ps| - 2);
      }
    }
  }

  /** `to_json(name)`: the view of `people[name]`, built by assigning its keys one after
    * the other; a name that is not a key fails the lookup. */
  method ToJson(people: Dict<string, Person>, name: string) returns (r: Result<Dict<string, Value>, LookupError>)
    ensures r.Failure? <==> name !in people.values
    ensures r.Failure? ==> r.error == KeyError(name)
    ensures r.Success? ==> r.value == View(people.values[name])
  {
    if name !in people.values {
      return Failure(KeyError(name));
    }
    var person := people.values[name];
    var links := PersonLinks(person.relevantPerson);
    var result := Set(Empty(), INTRODUCTION_KEY, Str(person.introduction));
    result := Set(result, RELATED_PEOPLE_KEY, Strs(links));
    ghost var base := [(INTRODUCTION_KEY, Str(person.introduction)), (RELATED_PEOPLE_KEY, Strs(links))];
    assert result == FromPairs(base) by {
      FromPairsSnoc([], INTRODUCTION_KEY, Str(person.introduction));
      assert [] + [(INTRODUCTION_KEY, Str(person.introduction))] == base[..1];
      FromPairsSnoc(base[..1], RELATED_PEOPLE_KEY, Strs(links));
      assert base[..1] + [(RELATED_PEOPLE_KEY, Strs(links))] == base;
    }
    ghost var organisations := if person.apartments != [] then [(ORGANISATIONS_KEY, Strs(person.apartments))] else [];
    if person.apartments != [] {
      result := Set(result, ORGANISATIONS_KEY, Strs(person.apartments));
      assert result == FromPairs(base + organisations) by {
        FromPairsSnoc(base, ORGANISATIONS_KEY, Strs(person.apartments));
      }
    } else {
      assert base + organisations == base;
    }
    ghost var subjects := if person.subjects != [] then [(SUBJECTS_KEY, Strs(person.subjects))] else [];
    if person.subjects != [] {
      result := Set(result, SUBJECTS_KEY, Strs(person.subjects));
      assert result == FromPairs(base + organisations + subjects) by {
        FromPairsSnoc(base + organisations, SUBJECTS_KEY, Strs(person.subjects));
      }
    } else {
      assert base + organisations + subjects == base + organisations;
    }
    result := Set(result, EVENTS_KEY, Groups(person.events));
    assert result == View(person) by {
      FromPairsSnoc(base + organisations + subjects, EVENTS_KEY, Groups(person.events));
      assert ViewPairs(person) == base + organisations + subjects + [(EVENTS_KEY, Groups(person.events))];
    }
    r := Success(result);
  }

  /** `get_all_nodes()`: the known names, each once, in the order they were recorded. */
  function GetAllNodes(people: Dict<string, Person>): (r: seq<string>)
    requires Valid(people)
    ensures r == people.keys
    ensures NoDuplicates(r)
    ensures forall n :: n in r <==> n in people.values
  {
    people.keys
  }

  /** After a successful crawl the index lists the seed first, and exactly the names
    * reachable from it. */
  lemma CrawledNodes(site: Site, start: string, people: Dict<string, Person>)
    requires Crawl.BreadthFirst(site, start, people)
    ensures GetAllNodes(people) != [] && GetAllNodes(people)[0] == start
    ensures forall n :: n in GetAllNodes(people) <==> Crawl.Reachable(site, start, n)
  {
    Crawl.SeedFirst(site, start, people.keys);
    Crawl.KeysReachable(site, start, people);
    forall n | Crawl.Reachable(site, start, n)
      ensures n in people.values
    {
      Crawl.ReachableKeys(site, start, people, n);
    }
  }
}
