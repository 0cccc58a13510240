/** The field rules of a profile page (`PersonPage` in core/people.py): each turns a
  * region of the parsed page into one field of the record. The HTML parser and the
  * positional selectors that find the regions are not modelled; a `Document` holds
  * the regions they would find. */
module Extract {
  import opened Wrappers
  import opened Seqs
  import opened Dicts
  import opened PyStr

  /** A child of a parsed element: a bare string (whose `.name` is None), or a tag with
    * its name, its `.text` (all the text inside it) and the text of its first `a`
    * descendant (`.a.text`), if it has one. */
  datatype Node =
    | Text(content: string)
    | Tag(name: string, text: string, anchor: Option<string>)

  /** The exceptions the field rules raise. */
  datatype Error =
    | NoRelatedList                        // the fourth `div` or its `ul` is missing
    | NoIntroduction                       // the third `div` is missing
    | NoEventList                          // the last `div` or its `dl` is missing
    | ItemWithoutLink                      // `li.a` is None: AttributeError
    | HeadingWithoutSibling(heading: string) // `find_next_sibling()` is None: AttributeError
    | DetailBeforeTerm                     // `elements[-1]` on an empty list: IndexError
    | NoSection                            // `section` is None: AttributeError on `find_all("h4")`

  /** The regions of a profile page the rules read; None when the page lacks one. */
  datatype Document = Document(
    relatedList: Option<seq<Node>>, // children of the `ul` in the section's fourth `div`
    introBlock: Option<string>,     // `.text` of the section's third `div`
    body: Option<seq<Node>>,        // the section's `h4` headings and their siblings, in order
    eventList: Option<seq<Node>>)   // children of the `dl` in the section's last `div`

  const ORGANISATIONS_LABEL := "相关机构"
  const SUBJECTS_LABEL := "相关学科"

  // ---------------------------------------------------------------- relevant_person

  predicate IsItem(n: Node) {
    n.Tag? && n.name == "li"
  }

  function ItemCount(children: seq<Node>): nat
    decreases |children|
  {
    if children == [] then 0 else (if IsItem(children[0]) then 1 else 0) + ItemCount(children[1..])
  }

  /** `relevant_person`: the link text of every `li` child, in order. A `li` without a
    * link raises; other children are skipped. */
  function RelatedNames(children: seq<Node>): (r: Result<seq<string>, Error>)
    ensures r.Success? <==>
      forall i :: 0 <= i < |children| && IsItem(children[i]) ==> children[i].anchor.Some?
    ensures r.Failure? ==> r.error == ItemWithoutLink
    ensures r.Success? ==> |r.value| == ItemCount(children)
    decreases |children|
  {
    if children == [] then Success([])
    else
      var n := children[0];
      var rest := RelatedNames(children[1..]);
      assert forall i :: 1 <= i < |children| ==> children[i] == children[1..][i - 1];
      if !IsItem(n) then rest
      else if n.anchor.None? then Failure(ItemWithoutLink)
      else if rest.Failure? then rest
      else Success([n.anchor.value] + rest.value)
  }

  /** `relevant_person` on a whole page: the names in its related-people list. */
  function RelevantPerson(doc: Document): (r: Result<seq<string>, Error>)
    ensures doc.relatedList.None? ==> r == Failure(NoRelatedList)
    ensures doc.relatedList.Some? ==>
      (r.Success? <==> forall i :: 0 <= i < |doc.relatedList.value| && IsItem(doc.relatedList.value[i]) ==>
        doc.relatedList.value[i].anchor.Some?)
    ensures doc.relatedList.Some? && r.Failure? ==> r.error == ItemWithoutLink
    ensures r.Success? ==> |r.value| == ItemCount(doc.relatedList.value)
  {
    match doc.relatedList
    case None => Failure(NoRelatedList)
    case Some(children) => RelatedNames(children)
  }

  /** One child contributes its link text if it is a `li`, and nothing otherwise. */
  lemma RelatedNamesOfOne(n: Node)
    ensures !IsItem(n) ==> RelatedNames([n]) == Success([])
    ensures IsItem(n) && n.anchor.Some? ==> RelatedNames([n]) == Success([n.anchor.value])
  {
    assert [n][1..] == [];
    if IsItem(n) && n.anchor.Some? {
      assert [n.anchor.value] + [] == [n.anchor.value];
    }
  }

  /** The names of a concatenation are the concatenation of the names: with the lemma
    * above this fixes `RelatedNames` on every list of children. */
  lemma {:induction false} RelatedNamesConcat(a: seq<Node>, b: seq<Node>)
    requires RelatedNames(a).Success? && RelatedNames(b).Success?
    ensures RelatedNames(a + b) == Success(RelatedNames(a).value + RelatedNames(b).value)
    decreases |a|
  {
    if a == [] {
      assert a + b == b;
      assert RelatedNames(a).value + RelatedNames(b).value == RelatedNames(b).value;
    } else {
      assert (a + b)[0] == a[0];
      assert (a + b)[1..] == a[1..] + b;
      RelatedNamesConcat(a[1..], b);
      if IsItem(a[0]) {
        var x, ra, rb := a[0].anchor.value, RelatedNames(a[1..]).value, RelatedNames(b).value;
        assert [x] + (ra + rb) == ([x] + ra) + rb;
      }
    }
  }

  // ---------------------------------------------------------------- introduction

  /** `introduction`: the text of the introduction block with the surrounding
    * whitespace stripped. */
  function Introduction(doc: Document): (r: Result<string, Error>)
    ensures r.Success? <==> doc.introBlock.Some?
    ensures r.Failure? ==> r.error == NoIntroduction
    ensures r.Success? ==> r.value == [] || (!IsSpace(r.value[0]) && !IsSpace(r.value[|r.value| - 1]))
    ensures r.Success? ==> |r.value| <= |doc.introBlock.value|
  {
    match doc.introBlock
    case None => Failure(NoIntroduction)
    case Some(t) => Success(Strip(t))
  }

  /** The introduction is the block's text less a whitespace prefix and a whitespace
    * suffix: `strip()` removes nothing else. */
  lemma IntroductionStrips(doc: Document) returns (i: nat)
    requires doc.introBlock.Some?
    ensures var t, r := doc.introBlock.value, Introduction(doc).value;
      i + |r| <= |t| && r == t[i..i + |r|] && AllSpace(t[..i]) && AllSpace(t[i + |r|..])
  {
    i := StripIsInfix(doc.introBlock.value);
  }

  // ---------------------------------------------------------------- apartments, subjects

  predicate IsHeading(n: Node, heading: string) {
    n.Tag? && n.name == "h4" && n.text == heading
  }

  /** The first `h4` at or after `i` whose text is exactly `heading`. */
  function FirstHeading(body: seq<Node>, heading: string, i: nat): (r: Option<nat>)
    requires i <= |body|
    ensures r.Some? ==> i <= r.value < |body| && IsHeading(body[r.value], heading)
    ensures r.Some? ==> forall k :: i <= k < r.value ==> !IsHeading(body[k], heading)
    ensures r.None? ==> forall k :: i <= k < |body| ==> !IsHeading(body[k], heading)
    decreases |body| - i
  {
    if i == |body| then None
    else if IsHeading(body[i], heading) then Some(i)
    else FirstHeading(body, heading, i + 1)
  }

  /** `find_next_sibling()` from position `i`: the first tag at or after `i`. */
  function NextTag(body: seq<Node>, i: nat): (r: Option<nat>)
    requires i <= |body|
    ensures r.Some? ==> i <= r.value < |body| && body[r.value].Tag?
    ensures r.Some? ==> forall k :: i <= k < r.value ==> !body[k].Tag?
    ensures r.None? ==> forall k :: i <= k < |body| ==> !body[k].Tag?
    decreases |body| - i
  {
    if i == |body| then None
    else if body[i].Tag? then Some(i)
    else NextTag(body, i + 1)
  }

  /** `apartments` and `subjects`: the whitespace-split text of the tag that follows the
    * first `h4` reading exactly `heading`; no such heading gives the empty list, and such
    * a heading with no tag after it raises. */
  function Labelled(body: seq<Node>, heading: string): (r: Result<seq<string>, Error>)
    ensures r.Success? ==> forall k :: 0 <= k < |r.value| ==> IsToken(r.value[k])
  {
    match FirstHeading(body, heading, 0)
    case None => Success([])
    case Some(h) =>
      match NextTag(body, h + 1)
      case None => Failure(HeadingWithoutSibling(heading))
      case Some(j) =>
        SplitTokens(body[j].text);
        Success(Split(body[j].text))
  }

  /** No heading reads `heading`: the field is empty. */
  lemma LabelledAbsent(body: seq<Node>, heading: string)
    requires forall k :: 0 <= k < |body| ==> !IsHeading(body[k], heading)
    ensures Labelled(body, heading) == Success([])
  {
    var f := FirstHeading(body, heading, 0);
  }

  lemma FirstHeadingAt(body: seq<Node>, heading: string, h: nat)
    requires h < |body| && IsHeading(body[h], heading)
    requires forall k :: 0 <= k < h ==> !IsHeading(body[k], heading)
    ensures FirstHeading(body, heading, 0) == Some(h)
  {
    var f := FirstHeading(body, heading, 0);
  }

  /** The first heading reading `heading` is at `h` and the first tag after it at `j`:
    * the field is that tag's text, split on whitespace. */
  lemma LabelledFound(body: seq<Node>, heading: string, h: nat, j: nat)
    requires h < j < |body| && IsHeading(body[h], heading) && body[j].Tag?
    requires forall k :: 0 <= k < h ==> !IsHeading(body[k], heading)
    requires forall k :: h < k < j ==> !body[k].Tag?
    ensures Labelled(body, heading) == Success(Split(body[j].text))
  {
    FirstHeadingAt(body, heading, h);
    NextTagAt(body, h + 1, j);
  }

  lemma NextTagAt(body: seq<Node>, i: nat, j: nat)
    requires i <= j < |body| && body[j].Tag?
    requires forall k :: i <= k < j ==> !body[k].Tag?
    ensures NextTag(body, i) == Some(j)
  {
    var t := NextTag(body, i);
  }

  /** The first heading reading `heading` is at `h` and no tag follows it: the
    * extractor raises. */
  lemma LabelledMissing(body: seq<Node>, heading: string, h: nat)
    requires h < |body| && IsHeading(body[h], heading)
    requires forall k :: 0 <= k < h ==> !IsHeading(body[k], heading)
    requires forall k :: h < k < |body| ==> !body[k].Tag?
    ensures Labelled(body, heading) == Failure(HeadingWithoutSibling(heading))
  {
    FirstHeadingAt(body, heading, h);
    var t := NextTag(body, h + 1);
  }

  /** `apartments`: the organisations listed under the heading 相关机构. A page without
    * a section raises. */
  function Apartments(body: Option<seq<Node>>): (r: Result<seq<string>, Error>)
    ensures body.None? ==> r == Failure(NoSection)
    ensures r.Success? ==> forall k :: 0 <= k < |r.value| ==> IsToken(r.value[k])
  {
    match body
    case None => Failure(NoSection)
    case Some(b) => Labelled(b, ORGANISATIONS_LABEL)
  }

  /** `subjects`: the subjects listed under the heading 相关学科. A page without a section
    * raises. */
  function Subjects(body: Option<seq<Node>>): (r: Result<seq<string>, Error>)
    ensures body.None? ==> r == Failure(NoSection)
    ensures r.Success? ==> forall k :: 0 <= k < |r.value| ==> IsToken(r.value[k])
  {
    match body
    case None => Failure(NoSection)
    case Some(b) => Labelled(b, SUBJECTS_LABEL)
  }

  // ---------------------------------------------------------------- events

  predicate IsTerm(n: Node) {
    n.Tag? && n.name == "dt"
  }

  predicate IsDetail(n: Node) {
    n.Tag? && n.name == "dd"
  }

  /** The list of (label, details) pairs that the loop in `events` builds: a `dt` opens
    * a new pair, a `dd` adds its text to the last pair, anything else is skipped. */
  function Grouped(children: seq<Node>): (r: Result<seq<(string, seq<string>)>, Error>)
    ensures r.Failure? ==> r.error == DetailBeforeTerm
    ensures r.Success? ==> |r.value| <= |children|
    decreases |children|
  {
    if children == [] then Success([])
    else
      var n := children[|children| - 1];
      match Grouped(children[..|children| - 1])
      case Failure(e) => Failure(e)
      case Success(es) =>
        if IsTerm(n) then Success(es + [(n.text, [])])
        else if IsDetail(n) then
          if es == [] then Failure(DetailBeforeTerm)
          else Success(es[..|es| - 1] + [(es[|es| - 1].0, es[|es| - 1].1 + [n.text])])
        else Success(es)
  }

  /** The loop of `events`, run over the children of the event list. */
  method GroupEvents(children: seq<Node>) returns (r: Result<seq<(string, seq<string>)>, Error>)
    ensures r == Grouped(children)
  {
    var elements: seq<(string, seq<string>)> := [];
    var i := 0;
    while i < |children|
      invariant 0 <= i <= |children|
      invariant Grouped(children[..i]) == Success(elements)
    {
      var element := children[i];
      assert children[..i + 1][..i] == children[..i];
      if IsTerm(element) {
        elements := elements + [(element.text, [])];
      } else if IsDetail(element) {
        if elements == [] {
          GroupedFailureSticks(children[..i + 1], children[i + 1..]);
          assert children[..i + 1] + children[i + 1..] == children;
          return Failure(DetailBeforeTerm);
        }
        var last := elements[|elements| - 1];
        elements := elements[..|elements| - 1] + [(last.0, last.1 + [element.text])];
      }
      i := i + 1;
    }
    assert children[..i] == children;
    r := Success(elements);
  }

  /** Once the loop of `events` has raised, later children do not matter. */
  lemma {:induction false} GroupedFailureSticks(c: seq<Node>, d: seq<Node>)
    requires Grouped(c).Failure?
    ensures Grouped(c + d) == Grouped(c)
    decreases |d|
  {
    if d == [] {
      assert c + d == c;
    } else {
      GroupedFailureSticks(c, d[..|d| - 1]);
      assert (c + d)[..|c + d| - 1] == c + d[..|d| - 1];
    }
  }

  /** The texts of the `dt` children, in order. */
  function TermTexts(children: seq<Node>): seq<string>
    decreases |children|
  {
    if children == [] then []
    else
      var last := children[|children| - 1];
      TermTexts(children[..|children| - 1]) + (if IsTerm(last) then [last.text] else [])
  }

  /** The texts of the `dd` children, in order. */
  function DetailTexts(children: seq<Node>): seq<string>
    decreases |children|
  {
    if children == [] then []
    else
      var last := children[|children| - 1];
      DetailTexts(children[..|children| - 1]) + (if IsDetail(last) then [last.text] else [])
  }

  /** One pair per `dt`, labelled with its text, in document order. */
  lemma {:induction false} GroupedLabels(children: seq<Node>)
    requires Grouped(children).Success?
    ensures Firsts(Grouped(children).value) == TermTexts(children)
    decreases |children|
  {
    if children != [] {
      var c := children[..|children| - 1];
      var n := children[|children| - 1];
      GroupedLabels(c);
      var es := Grouped(c).value;
      if IsDetail(n) && !IsTerm(n) {
        var es' := es[..|es| - 1] + [(es[|es| - 1].0, es[|es| - 1].1 + [n.text])];
        assert es'[..|es'| - 1] == es[..|es| - 1];
        assert es == es[..|es| - 1] + [es[|es| - 1]];
        assert Firsts(es) == Firsts(es[..|es| - 1]) + [es[|es| - 1].0];
      } else if IsTerm(n) {
        assert (es + [(n.text, [])])[..|es|] == es;
      }
    }
  }

  lemma {:induction false} NoTermsNoTexts(children: seq<Node>)
    ensures TermTexts(children) == [] <==> forall k :: 0 <= k < |children| ==> !IsTerm(children[k])
    decreases |children|
  {
    if children != [] {
      var c := children[..|children| - 1];
      NoTermsNoTexts(c);
      assert forall k :: 0 <= k < |c| ==> c[k] == children[k];
    }
  }

  /** `events` raises exactly when some `dd` comes before every `dt`. */
  lemma {:induction false} GroupedFails(children: seq<Node>)
    ensures Grouped(children).Failure? <==>
      exists i :: 0 <= i < |children| && IsDetail(children[i])
        && forall k :: 0 <= k < i ==> !IsTerm(children[k])
    ensures Grouped(children).Failure? ==> Grouped(children).error == DetailBeforeTerm
    decreases |children|
  {
    if children != [] {
      var c := children[..|children| - 1];
      var n := children[|children| - 1];
      GroupedFails(c);
      assert forall k :: 0 <= k < |c| ==> c[k] == children[k];
      if Grouped(c).Success? {
        GroupedLabels(c);
        NoTermsNoTexts(c);
        var es := Grouped(c).value;
        assert |Firsts(es)| == |es|;
        if Grouped(children).Failure? {
          assert IsDetail(n) && es == [];
          assert IsDetail(children[|c|]);
        }
      }
    }
  }

  /** A `dt` followed by children with no `dt` among them opens exactly one pair, whose
    * details are the texts of the `dd`s among those children, in order. */
  lemma {:induction false} GroupedSegment(c: seq<Node>, t: Node, d: seq<Node>)
    requires Grouped(c).Success? && IsTerm(t)
    requires forall k :: 0 <= k < |d| ==> !IsTerm(d[k])
    ensures Grouped(c + [t] + d) == Success(Grouped(c).value + [(t.text, DetailTexts(d))])
    decreases |d|
  {
    if d == [] {
      assert c + [t] + d == c + [t];
      assert (c + [t])[..|c|] == c;
    } else {
      var d', n := d[..|d| - 1], d[|d| - 1];
      GroupedSegment(c, t, d');
      assert (c + [t] + d)[..|c + [t] + d| - 1] == c + [t] + d';
      assert (c + [t] + d)[|c + [t] + d| - 1] == n;
      assert !IsTerm(n);
      var es := Grouped(c).value + [(t.text, DetailTexts(d'))];
      assert es[..|es| - 1] == Grouped(c).value;
      assert DetailTexts(d) == DetailTexts(d') + (if IsDetail(n) then [n.text] else []);
      if IsDetail(n) {
        assert Grouped(c + [t] + d)
          == Success(es[..|es| - 1] + [(es[|es| - 1].0, es[|es| - 1].1 + [n.text])]);
      } else {
        assert DetailTexts(d') + [] == DetailTexts(d');
        assert DetailTexts(d) == DetailTexts(d');
        assert Grouped(c + [t] + d) == Success(es);
      }
    }
  }

  /** `events`: `dict(elements)`. A label that occurs twice keeps the position of its
    * first `dt` and the details of its last. */
  function Events(list: Option<seq<Node>>): (r: Result<Dict<string, seq<string>>, Error>)
    ensures list.None? ==> r == Failure(NoEventList)
    ensures list.Some? && r.Failure? ==> r.error == DetailBeforeTerm
    ensures r.Success? ==> Valid(r.value)
  {
    match list
    case None => Failure(NoEventList)
    case Some(children) =>
      match Grouped(children)
      case Failure(e) => Failure(e)
      case Success(es) => Success(FromPairs(es))
  }

  /** The labels of `events`, in order: the distinct `dt` texts in order of first occurrence. */
  lemma EventsKeys(children: seq<Node>)
    requires Grouped(children).Success?
    ensures Events(Some(children)).Success?
    ensures Events(Some(children)).value.keys == Dedup(TermTexts(children))
  {
    GroupedLabels(children);
    FromPairsKeys(Grouped(children).value);
  }

  /** The details of a label in `events` are those of its last group: a `dt` label
    * that occurs again takes the details that follow its last occurrence. */
  lemma EventsValue(children: seq<Node>, i: nat)
    requires Grouped(children).Success? && i < |Grouped(children).value|
    requires forall j :: i < j < |Grouped(children).value| ==>
      Grouped(children).value[j].0 != Grouped(children).value[i].0
    ensures Events(Some(children)).Success?
    ensures var es := Grouped(children).value;
      es[i].0 in Events(Some(children)).value.values &&
      Events(Some(children)).value.values[es[i].0] == es[i].1
  {
    FromPairsValue(Grouped(children).value, i);
  }
}
