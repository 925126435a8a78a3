/**
 * `get_bookmarks`: from the children of the export's definition lists to an
 * ordered list of bookmark records. The XML parse itself is not modelled: the
 * input is the sequence of elements the parser found under `<dl>` elements.
 */
module Extract {
  import opened Wrappers
  import opened Text
  import opened Strike

  /** A parsed element: tag, attribute map, the text before its first child, children. */
  datatype Element = Element(tag: string, attrib: map<string, string>, text: Option<string>, children: seq<Element>)

  /** One bookmark record; `href` is absent for notes (and for anchors without an href). */
  datatype Bookmark = Bookmark(
    title: Option<string>,
    tags: seq<string>,
    body: string,
    addDate: Option<string>,
    href: Option<string>)

  /** How extraction fails (the source raises). */
  datatype ExtractError =
    | NotTitle(tag: string)   // the title-position assertion fails
    | NoAnchor                // the title element has no <a> child
    | NoteWithoutText         // a note's description element has no text

  const PrivateTag: string := "shaarli_private"
  const ImportTag: string := "shaarli_import"

  // ---------------------------------------------------------------------------
  // The element-tree queries the source uses

  /** `e.get(key)`. */
  function Get(attrib: map<string, string>, key: string): (r: Option<string>)
  {
    if key in attrib then Some(attrib[key]) else None
  }

  /** `e.get(key, default)`. */
  function GetOr(attrib: map<string, string>, key: string, default: string): (r: string)
  {
    Get(attrib, key).GetOr(default)
  }

  /** `e.find(tag)`: the first direct child with that tag. */
  function FindChild(children: seq<Element>, tag: string): (r: Option<Element>)
    ensures r.Some? ==> r.value in children && r.value.tag == tag
    ensures r.None? ==> forall c :: c in children ==> c.tag != tag
    ensures r.Some? ==> exists i :: 0 <= i < |children| && children[i] == r.value
                                   && forall j :: 0 <= j < i ==> children[j].tag != tag
  {
    if children == [] then None
    else if children[0].tag == tag then Some(children[0])
    else FindChild(children[1..], tag)
  }

  /** The `dt` elements among `es` and below them, in document order (`findall(".//dt")` on their parent). */
  function DtsIn(es: seq<Element>): (r: seq<Element>)
    ensures forall i :: 0 <= i < |r| ==> r[i].tag == "dt"
    decreases es
  {
    if es == [] then []
    else (if es[0].tag == "dt" then [es[0]] else []) + DtsIn(es[0].children) + DtsIn(es[1..])
  }

  /** `e.findall(".//dt")`: every `dt` strictly below `e`, in document order. */
  function DtDescendants(e: Element): (r: seq<Element>)
  {
    DtsIn(e.children)
  }

  /** The list comprehension keeping only title (`dt`) and description (`dd`) elements. */
  function TitlesAndBodies(found: seq<Element>): (r: seq<Element>)
    ensures forall i :: 0 <= i < |r| ==> r[i].tag in {"dt", "dd"}
  {
    if found == [] then []
    else (if found[0].tag in {"dt", "dd"} then [found[0]] else []) + TitlesAndBodies(found[1..])
  }

  /** The repair pass: every element followed by the `dt` elements buried inside it. */
  function Repaired(dlist: seq<Element>): (r: seq<Element>)
  {
    if dlist == [] then []
    else
      var last := dlist[|dlist| - 1];
      Repaired(dlist[..|dlist| - 1]) + [last] + DtDescendants(last)
  }

  // ---------------------------------------------------------------------------
  // One record

  /** `"%s" % value`. */
  function PyStr(o: Option<string>): (r: string)
  {
    if o.Some? then o.value else "None"
  }

  /** Python truthiness of an optional string. */
  predicate Truthy(o: Option<string>)
  {
    o.Some? && o.value != ""
  }

  /** The tag list: the comma-split attribute, then the private sentinel if flagged, then the import sentinel. */
  function Tags(a: Element): (r: seq<string>)
  {
    Split(GetOr(a.attrib, "tags", ""), ",")
    + (if Truthy(Get(a.attrib, "private")) then [PrivateTag] else [])
    + [ImportTag]
  }

  /** The markdown link line that starts a linked bookmark's body. */
  function LinkLine(href: Option<string>): (r: string)
  {
    "[link](" + PyStr(href) + ")"
  }

  /**
   * The link and body of a record, from its anchor and the text of its
   * description (`Some("")` when no description element follows): a `?` href
   * marks a note, whose body is the raw description; any other href, missing
   * included, is a link whose body starts with a markdown link line. The
   * strike-through rewrite is applied last.
   */
  function Described(a: Element, desc: Option<string>): (r: Result<(Option<string>, string), ExtractError>)
  {
    if StartsWith(GetOr(a.attrib, "href", ""), "?") then
      if desc.None? then Failure(NoteWithoutText)
      else Success((None, Struck(desc.value)))
    else
      var href := Get(a.attrib, "href");
      Success((href, Struck(Strip(LinkLine(href) + "\n\n" + PyStr(desc)))))
  }

  /** The record built from a title element and the description element that directly follows it, if any. */
  function MakeRecord(dt: Element, dd: Option<Element>): (r: Result<Bookmark, ExtractError>)
  {
    match FindChild(dt.children, "a")
    case None => Failure(NoAnchor)
    case Some(a) =>
      match Described(a, if dd.Some? then dd.value.text else Some(""))
      case Failure(e) => Failure(e)
      case Success(hb) => Success(Bookmark(a.text, Tags(a), hb.1, Get(a.attrib, "add_date"), hb.0))
  }

  // ---------------------------------------------------------------------------
  // The queue walk

  function Prepend(done: seq<Bookmark>, rest: Result<seq<Bookmark>, ExtractError>): (r: Result<seq<Bookmark>, ExtractError>)
  {
    match rest
    case Success(bs) => Success(done + bs)
    case Failure(e) => Failure(e)
  }

  /** The walk over the repaired list: a title, then its description if one comes next. */
  function Walk(q: seq<Element>): (r: Result<seq<Bookmark>, ExtractError>)
    decreases |q|
  {
    if q == [] then Success([])
    else if q[0].tag != "dt" then Failure(NotTitle(q[0].tag))
    else
      var hasBody := |q| > 1 && q[1].tag == "dd";
      match MakeRecord(q[0], if hasBody then Some(q[1]) else None)
      case Failure(e) => Failure(e)
      case Success(b) => Prepend([b], Walk(if hasBody then q[2..] else q[1..]))
  }

  /** One step of the walk: the title at the front, with the description consumed with it if any. */
  lemma WalkFirst(q: seq<Element>, dd: Option<Element>, rest: seq<Element>)
    requires q != [] && q[0].tag == "dt"
    requires dd == (if |q| > 1 && q[1].tag == "dd" then Some(q[1]) else None)
    requires rest == if dd.Some? then q[2..] else q[1..]
    ensures Walk(q) == match MakeRecord(q[0], dd)
                       case Failure(e) => Failure(e)
                       case Success(b) => Prepend([b], Walk(rest))
  {
  }

  lemma PrependNothing(rest: Result<seq<Bookmark>, ExtractError>)
    ensures Prepend([], rest) == rest
  {
    if rest.Success? {
      assert [] + rest.value == rest.value;
    }
  }

  lemma PrependTwice(done: seq<Bookmark>, b: Bookmark, rest: Result<seq<Bookmark>, ExtractError>)
    ensures Prepend(done, Prepend([b], rest)) == Prepend(done + [b], rest)
  {
    if rest.Success? {
      assert done + ([b] + rest.value) == done + [b] + rest.value;
    }
  }

  /** What `get_bookmarks` returns for the elements found under the definition lists. */
  function Extracted(found: seq<Element>): (r: Result<seq<Bookmark>, ExtractError>)
  {
    Walk(Repaired(TitlesAndBodies(found)))
  }

  /** The repair loop: each element appended, then the `dt` elements buried inside it. */
  method RepairBuried(dlist: seq<Element>) returns (dlist2: seq<Element>)
    ensures dlist2 == Repaired(dlist)
  {
    dlist2 := [];
    for k := 0 to |dlist|
      invariant dlist2 == Repaired(dlist[..k])
    {
      assert dlist[..k + 1][..k] == dlist[..k];
      dlist2 := dlist2 + [dlist[k]];
      dlist2 := dlist2 + DtDescendants(dlist[k]);
    }
    assert dlist[..|dlist|] == dlist;
  }

  /** The href and body statements of the loop, ending with the strike-through call. */
  method LinkAndBody(a: Element, desc: Option<string>) returns (r: Result<(Option<string>, string), ExtractError>)
    ensures r == Described(a, desc)
  {
    var href: Option<string>;
    var body: string;
    if StartsWith(GetOr(a.attrib, "href", ""), "?") {
      href := None;
      if desc.None? {
        return Failure(NoteWithoutText);
      }
      body := desc.value;
    } else {
      href := Get(a.attrib, "href");
      body := Strip(LinkLine(href) + "\n\n" + PyStr(desc));
    }
    body := StrikeThrough(body);
    r := Success((href, body));
  }

  /** The record appended for anchor `a`, whose tags are then extended in place. */
  method AppendBookmark(bookmarks: seq<Bookmark>, a: Element, href: Option<string>, body: string) returns (extended: seq<Bookmark>)
    ensures extended == bookmarks + [Bookmark(a.text, Tags(a), body, Get(a.attrib, "add_date"), href)]
  {
    var userTags := Split(GetOr(a.attrib, "tags", ""), ",");
    extended := bookmarks + [Bookmark(a.text, userTags, body, Get(a.attrib, "add_date"), href)];
    var last := |extended| - 1;
    if Truthy(Get(a.attrib, "private")) {
      extended := extended[last := extended[last].(tags := extended[last].tags + [PrivateTag])];
    }
    extended := extended[last := extended[last].(tags := extended[last].tags + [ImportTag])];
    assert extended[last].tags == Tags(a);
    assert extended == bookmarks + [extended[last]];
  }

  /** `get_bookmarks`: filter, repair, then drain the list from the front. */
  method GetBookmarks(found: seq<Element>) returns (r: Result<seq<Bookmark>, ExtractError>)
    ensures r == Extracted(found)
  {
    var dlist := TitlesAndBodies(found);
    dlist := RepairBuried(dlist);
    PrependNothing(Walk(dlist));

    var bookmarks: seq<Bookmark> := [];
    while dlist != []
      invariant Extracted(found) == Prepend(bookmarks, Walk(dlist))
      decreases |dlist|
    {
      ghost var before := dlist;
      var title := dlist[0];
      dlist := dlist[1..];
      if title.tag != "dt" {
        return Failure(NotTitle(title.tag));
      }
      var anchor := FindChild(title.children, "a");
      var desc: Option<string>;
      ghost var dd: Option<Element> := None;
      if dlist != [] && dlist[0].tag == "dd" {
        desc := dlist[0].text;
        dd := Some(dlist[0]);
        dlist := dlist[1..];
      } else {
        desc := Some("");
      }
      WalkFirst(before, dd, dlist);
      if anchor.None? {
        return Failure(NoAnchor);
      }
      var a := anchor.value;
      var hb := LinkAndBody(a, desc);
      if hb.Failure? {
        return Failure(hb.error);
      }
      ghost var done := bookmarks;
      bookmarks := AppendBookmark(bookmarks, a, hb.value.0, hb.value.1);
      ghost var b := Bookmark(a.text, Tags(a), hb.value.1, Get(a.attrib, "add_date"), hb.value.0);
      assert MakeRecord(title, dd) == Success(b);
      PrependTwice(done, b, Walk(dlist));
    }
    assert bookmarks + [] == bookmarks;
    r := Success(bookmarks);
  }

  // ---------------------------------------------------------------------------
  // What the filter and the repair pass promise

  /** Element `x` sits somewhere in the forest `es`, at any depth. */
  predicate Within(es: seq<Element>, x: Element)
    decreases es
  {
    es != [] && (es[0] == x || Within(es[0].children, x) || Within(es[1..], x))
  }

  /** `findall(".//dt")` finds exactly the `dt` elements at any depth. */
  lemma {:induction false} DtsInExactly(es: seq<Element>, x: Element)
    ensures x in DtsIn(es) <==> x.tag == "dt" && Within(es, x)
    decreases es
  {
    if es != [] {
      DtsInExactly(es[0].children, x);
      DtsInExactly(es[1..], x);
    }
  }

  /** The filter keeps exactly the `dt` and `dd` elements. */
  lemma {:induction false} TitlesAndBodiesExactly(found: seq<Element>, x: Element)
    ensures x in TitlesAndBodies(found) <==> x in found && x.tag in {"dt", "dd"}
    decreases |found|
  {
    if found != [] {
      TitlesAndBodiesExactly(found[1..], x);
      assert found == [found[0]] + found[1..];
    }
  }

  /** The filter keeps a single element exactly when it is a title or a description. */
  lemma TitlesAndBodiesSingle(x: Element)
    ensures TitlesAndBodies([x]) == if x.tag in {"dt", "dd"} then [x] else []
  {
    assert [x][1..] == [];
  }

  /**
   * The filter works piecewise: filtering a concatenation concatenates the
   * filtered pieces. With `TitlesAndBodiesSingle` this fixes the result
   * completely: the kept elements, in their original order, with repeats.
   */
  lemma {:induction false} TitlesAndBodiesAppend(a: seq<Element>, b: seq<Element>)
    ensures TitlesAndBodies(a + b) == TitlesAndBodies(a) + TitlesAndBodies(b)
    decreases |a|
  {
    if a == [] {
      assert a + b == b;
    } else {
      assert (a + b)[0] == a[0];
      assert (a + b)[1..] == a[1..] + b;
      TitlesAndBodiesAppend(a[1..], b);
    }
  }

  /** The repair of a prefix is a prefix of the repair. */
  lemma {:induction false} RepairedPrefix(d: seq<Element>, j: nat)
    requires j <= |d|
    ensures |Repaired(d[..j])| <= |Repaired(d)|
    ensures Repaired(d)[..|Repaired(d[..j])|] == Repaired(d[..j])
    decreases |d|
  {
    if j < |d| {
      var init := d[..|d| - 1];
      assert init[..j] == d[..j];
      RepairedPrefix(init, j);
    } else {
      assert d[..j] == d;
    }
  }

  /**
   * Layout of the repaired list: element `d[i]` sits at the offset where the
   * repair of `d[..i]` ends, immediately followed by its buried `dt`
   * elements, and the repair of `d[..i + 1]` ends right after them. So the
   * order of `d` is kept and no element is dropped.
   */
  lemma RepairedLayout(d: seq<Element>, i: nat)
    requires i < |d|
    ensures var off := |Repaired(d[..i])|;
            var ds := DtDescendants(d[i]);
            |Repaired(d[..i + 1])| == off + 1 + |ds| <= |Repaired(d)|
            && Repaired(d)[off] == d[i]
            && Repaired(d)[off + 1 .. off + 1 + |ds|] == ds
  {
    RepairedPrefix(d, i + 1);
    assert d[..i + 1][..i] == d[..i];
  }

  // ---------------------------------------------------------------------------
  // What the walk promises

  /** The description element directly after position `p`, if any. */
  function After(q: seq<Element>, p: nat): (r: Option<Element>)
    requires p < |q|
  {
    if p + 1 < |q| && q[p + 1].tag == "dd" then Some(q[p + 1]) else None
  }

  /** The positions from `k` on that hold a title element, ascending. */
  function DtFrom(q: seq<Element>, k: nat): (ps: seq<nat>)
    requires k <= |q|
    ensures forall i :: 0 <= i < |ps| ==> k <= ps[i] < |q| && q[ps[i]].tag == "dt"
    ensures forall i, j :: 0 <= i < j < |ps| ==> ps[i] < ps[j]
    ensures forall p :: k <= p < |q| && q[p].tag == "dt" ==> p in ps
    decreases |q| - k
  {
    if k == |q| then [] else (if q[k].tag == "dt" then [k] else []) + DtFrom(q, k + 1)
  }

  /** From `k` on, every element out of title position is a description right after a title. */
  predicate PairedFrom(q: seq<Element>, k: nat)
  {
    forall p :: k <= p < |q| && q[p].tag != "dt" ==> q[p].tag == "dd" && p > k && q[p - 1].tag == "dt"
  }

  /** A paired list stays paired past a title and its description. */
  lemma PairedNext(q: seq<Element>, k: nat, next: nat)
    requires k < |q| && q[k].tag == "dt" && PairedFrom(q, k)
    requires next == if After(q, k).Some? then k + 2 else k + 1
    ensures PairedFrom(q, next)
  {
    forall p | next <= p < |q| && q[p].tag != "dt"
      ensures q[p].tag == "dd" && p > next && q[p - 1].tag == "dt"
    {
      if p == next {
        assert false;
      }
    }
  }

  /** An element out of place past a title and its description is still out of place after them. */
  lemma UnpairedNext(q: seq<Element>, k: nat, next: nat)
    requires k < |q| && q[k].tag == "dt" && !PairedFrom(q, k)
    requires next == if After(q, k).Some? then k + 2 else k + 1
    ensures !PairedFrom(q, next)
  {
    var p :| k <= p < |q| && q[p].tag != "dt" && !(q[p].tag == "dd" && p > k && q[p - 1].tag == "dt");
    assert next <= p;
    assert !(q[p].tag == "dd" && p > next && q[p - 1].tag == "dt");
  }

  /** A title at `k`, and where the walk continues after consuming it and its description. */
  lemma WalkStep(q: seq<Element>, k: nat) returns (next: nat)
    requires k < |q| && q[k].tag == "dt"
    ensures next == if After(q, k).Some? then k + 2 else k + 1
    ensures next <= |q|
    ensures Walk(q[k..]) == match MakeRecord(q[k], After(q, k))
                            case Failure(e) => Failure(e)
                            case Success(b) => Prepend([b], Walk(q[next..]))
    ensures DtFrom(q, k) == [k] + DtFrom(q, next)
  {
    var s := q[k..];
    next := if After(q, k).Some? then k + 2 else k + 1;
    assert s[0] == q[k];
    assert (if After(q, k).Some? then s[2..] else s[1..]) == q[next..];
    if After(q, k).Some? {
      assert DtFrom(q, k + 1) == DtFrom(q, k + 2);
    }
  }

  lemma {:induction false} WalkRecordsFrom(q: seq<Element>, k: nat)
    requires k <= |q| && PairedFrom(q, k) && Walk(q[k..]).Success?
    ensures |Walk(q[k..]).value| == |DtFrom(q, k)|
    ensures forall i :: 0 <= i < |DtFrom(q, k)| ==>
              MakeRecord(q[DtFrom(q, k)[i]], After(q, DtFrom(q, k)[i])) == Success(Walk(q[k..]).value[i])
    decreases |q| - k
  {
    if k < |q| {
      var next := WalkStep(q, k);
      var b := MakeRecord(q[k], After(q, k)).value;
      PairedNext(q, k, next);
      WalkRecordsFrom(q, next);
      var rest := Walk(q[next..]).value;
      assert Walk(q[k..]).value == [b] + rest;
      forall i | 0 <= i < |DtFrom(q, k)|
        ensures MakeRecord(q[DtFrom(q, k)[i]], After(q, DtFrom(q, k)[i])) == Success(Walk(q[k..]).value[i])
      {
        if i > 0 {
          assert DtFrom(q, k)[i] == DtFrom(q, next)[i - 1];
        }
      }
    } else {
      assert q[k..] == [];
    }
  }

  lemma {:induction false} WalkRejectsFrom(q: seq<Element>, k: nat)
    requires k <= |q| && !PairedFrom(q, k)
    ensures Walk(q[k..]).Failure?
    decreases |q| - k
  {
    assert k < |q|;
    if q[k].tag != "dt" {
      assert q[k..][0] == q[k];
    } else {
      var next := WalkStep(q, k);
      if MakeRecord(q[k], After(q, k)).Success? {
        UnpairedNext(q, k, next);
        WalkRejectsFrom(q, next);
      }
    }
  }

  lemma {:induction false} WalkTitlesFrom(q: seq<Element>, k: nat)
    requires k <= |q| && PairedFrom(q, k)
    ensures Walk(q[k..]).Failure? ==> !Walk(q[k..]).error.NotTitle?
    decreases |q| - k
  {
    if k < |q| {
      var next := WalkStep(q, k);
      if MakeRecord(q[k], After(q, k)).Success? {
        PairedNext(q, k, next);
        WalkTitlesFrom(q, next);
      }
    }
  }

  /** Every title from `k` on builds a record together with its description. */
  predicate TitlesBuild(q: seq<Element>, k: nat)
  {
    forall p :: k <= p < |q| && q[p].tag == "dt" ==> MakeRecord(q[p], After(q, p)).Success?
  }

  /** On a paired list, the walk succeeds exactly when every title builds a record. */
  lemma {:induction false} WalkSucceedsFrom(q: seq<Element>, k: nat)
    requires k <= |q| && PairedFrom(q, k)
    ensures Walk(q[k..]).Success? <==> TitlesBuild(q, k)
    decreases |q| - k
  {
    if k < |q| {
      var next := WalkStep(q, k);
      if MakeRecord(q[k], After(q, k)).Success? {
        PairedNext(q, k, next);
        WalkSucceedsFrom(q, next);
        if TitlesBuild(q, next) {
          forall p | k <= p < |q| && q[p].tag == "dt"
            ensures MakeRecord(q[p], After(q, p)).Success?
          {
            assert p == k || next <= p;
          }
        }
      }
    } else {
      assert q[k..] == [];
    }
  }

  /** Position `p` holds the first title from `k` on whose record cannot be built. */
  predicate FirstUnbuilt(q: seq<Element>, k: nat, p: nat)
  {
    k <= p < |q| && q[p].tag == "dt" && MakeRecord(q[p], After(q, p)).Failure?
    && forall t :: k <= t < p && q[t].tag == "dt" ==> MakeRecord(q[t], After(q, t)).Success?
  }

  /** The first unbuilt title after a title that builds is also the first one from that title on. */
  lemma FirstUnbuiltStep(q: seq<Element>, k: nat, next: nat, p: nat)
    requires k < |q| && q[k].tag == "dt" && MakeRecord(q[k], After(q, k)).Success?
    requires next == if After(q, k).Some? then k + 2 else k + 1
    requires FirstUnbuilt(q, next, p)
    ensures FirstUnbuilt(q, k, p)
  {
    forall t | k <= t < p && q[t].tag == "dt"
      ensures MakeRecord(q[t], After(q, t)).Success?
    {
      assert t == k || next <= t;
    }
  }

  /**
   * On a paired list, a failing walk reports the error of the first title
   * whose record cannot be built.
   */
  lemma {:induction false} WalkFailsFrom(q: seq<Element>, k: nat)
    requires k <= |q| && PairedFrom(q, k) && Walk(q[k..]).Failure?
    ensures exists p: nat :: FirstUnbuilt(q, k, p) && MakeRecord(q[p], After(q, p)) == Failure(Walk(q[k..]).error)
    decreases |q| - k
  {
    if k == |q| {
      assert false;
    } else {
      var next := WalkStep(q, k);
      if MakeRecord(q[k], After(q, k)).Success? {
        PairedNext(q, k, next);
        WalkFailsFrom(q, next);
        var p: nat :| FirstUnbuilt(q, next, p) && MakeRecord(q[p], After(q, p)) == Failure(Walk(q[next..]).error);
        FirstUnbuiltStep(q, k, next, p);
      } else {
        assert FirstUnbuilt(q, k, k);
      }
    }
  }

  /**
   * The walk over a list: when every description follows a title, it
   * succeeds exactly when every title builds its record, and then emits one
   * record per title in order, each built from that title and the
   * description directly after it (if any); otherwise it fails with the
   * error of the first title that does not build, never on the title check.
   * When some element is out of place, it fails.
   */
  lemma WalkRecords(q: seq<Element>)
    ensures PairedFrom(q, 0) && Walk(q).Success? ==>
              |Walk(q).value| == |DtFrom(q, 0)|
              && forall i :: 0 <= i < |DtFrom(q, 0)| ==>
                   MakeRecord(q[DtFrom(q, 0)[i]], After(q, DtFrom(q, 0)[i])) == Success(Walk(q).value[i])
    ensures PairedFrom(q, 0) && Walk(q).Failure? ==> !Walk(q).error.NotTitle?
    ensures PairedFrom(q, 0) ==> (Walk(q).Success? <==> TitlesBuild(q, 0))
    ensures PairedFrom(q, 0) && Walk(q).Failure? ==>
              exists p: nat :: FirstUnbuilt(q, 0, p) && MakeRecord(q[p], After(q, p)) == Failure(Walk(q).error)
    ensures !PairedFrom(q, 0) ==> Walk(q).Failure?
  {
    assert q[0..] == q;
    if PairedFrom(q, 0) {
      WalkTitlesFrom(q, 0);
      WalkSucceedsFrom(q, 0);
      if Walk(q).Success? {
        WalkRecordsFrom(q, 0);
      } else {
        WalkFailsFrom(q, 0);
      }
    } else {
      WalkRejectsFrom(q, 0);
    }
  }

  // ---------------------------------------------------------------------------
  // What one record promises

  /**
   * The tag list ends with the import sentinel, has the private sentinel just
   * before it when the `private` attribute is set, and the tags in front are
   * the attribute cut at every comma: none holds a comma, and they join back
   * to the attribute text (an absent or empty attribute gives `[""]`).
   */
  lemma TagsShape(a: Element)
    ensures var ts := Tags(a);
            var n := |ts| - (if Truthy(Get(a.attrib, "private")) then 2 else 1);
            1 <= n
            && ts[|ts| - 1] == ImportTag
            && (Truthy(Get(a.attrib, "private")) ==> ts[|ts| - 2] == PrivateTag)
            && Join(ts[..n], ",") == GetOr(a.attrib, "tags", "")
            && (forall k :: 0 <= k < n ==> ',' !in ts[k])
            && (GetOr(a.attrib, "tags", "") == "" ==> ts[..n] == [""])
  {
    var attr := GetOr(a.attrib, "tags", "");
    var user := Split(attr, ",");
    var ts := Tags(a);
    var n := |ts| - (if Truthy(Get(a.attrib, "private")) then 2 else 1);
    assert ts[..n] == user;
    SplitJoin(attr, ",");
    SplitPartsFree(attr, ",");
    forall k | 0 <= k < n
      ensures ',' !in ts[k]
    {
      assert ts[k] == user[k];
      ContainsChar(user[k], ',');
    }
  }

  /** A note (`?` href): no link, and the body is the description after the rewrite; a note needs text. */
  lemma NoteRecord(dt: Element, dd: Option<Element>, a: Element)
    requires FindChild(dt.children, "a") == Some(a)
    requires StartsWith(GetOr(a.attrib, "href", ""), "?")
    ensures var desc := if dd.Some? then dd.value.text else Some("");
            (desc.None? ==> MakeRecord(dt, dd) == Failure(NoteWithoutText))
            && (desc.Some? ==>
                  MakeRecord(dt, dd).Success?
                  && MakeRecord(dt, dd).value == Bookmark(a.text, Tags(a), Struck(desc.value), Get(a.attrib, "add_date"), None)
                  && (!Contains(desc.value, Marker) ==> MakeRecord(dt, dd).value.body == desc.value))
  {
    var desc := if dd.Some? then dd.value.text else Some("");
    if desc.Some? && !Contains(desc.value, Marker) {
      StruckUnchanged(desc.value);
    }
  }

  /** Whatever follows a line and a newline, rewriting keeps that line when it holds no marker. */
  lemma StruckKeepsFirstLine(t: string, line: string)
    requires !Contains(line, Marker)
    requires t == line || StartsWith(t, line + Newline)
    ensures StartsWith(Struck(t), line)
  {
    StruckUnchanged(line);
    if t != line {
      var rest := t[|line| + 1..];
      assert t == line + Newline + rest;
      StruckAppend(line, rest);
    }
  }

  /** The link line starts and ends with a bracket, so stripping never touches it. */
  lemma LinkLineEnds(href: Option<string>)
    ensures |LinkLine(href)| >= 2 && LinkLine(href)[0] == '[' && LinkLine(href)[|LinkLine(href)| - 1] == ')'
  {
  }

  /** A prefix of `line + "\n" + rest` that keeps `line` either is `line` or keeps the newline too. */
  lemma PrefixAtNewline(s: string, t: string, line: string, rest: string)
    requires s == line + Newline + rest
    requires StartsWith(t, line) && |t| <= |s| && t == s[..|t|]
    ensures t == line || StartsWith(t, line + Newline)
  {
    if |t| > |line| {
      assert t[|line|] == s[|line|] == '\n';
      assert t[..|line| + 1] == line + Newline;
    } else {
      assert t == line;
    }
  }

  /** The body of a link starts with its link line, when that line holds no marker. */
  lemma LinkBody(href: Option<string>, desc: Option<string>)
    requires !Contains(LinkLine(href), Marker)
    ensures StartsWith(Struck(Strip(LinkLine(href) + "\n\n" + PyStr(desc))), LinkLine(href))
  {
    var line := LinkLine(href);
    var s := line + "\n\n" + PyStr(desc);
    LinkLineEnds(href);
    assert s == line + Newline + ("\n" + PyStr(desc));
    StripKeepsPrefix(s, line);
    PrefixAtNewline(s, Strip(s), line, "\n" + PyStr(desc));
    StruckKeepsFirstLine(Strip(s), line);
  }

  /**
   * A link (any href not starting with `?`, missing included): the record
   * keeps the href, and its body starts with the markdown link line, provided
   * that line holds no marker for the rewrite to disturb.
   */
  lemma LinkRecord(dt: Element, dd: Option<Element>, a: Element)
    requires FindChild(dt.children, "a") == Some(a)
    requires !StartsWith(GetOr(a.attrib, "href", ""), "?")
    requires !Contains(LinkLine(Get(a.attrib, "href")), Marker)
    ensures MakeRecord(dt, dd).Success?
    ensures MakeRecord(dt, dd).value.href == Get(a.attrib, "href")
    ensures StartsWith(MakeRecord(dt, dd).value.body, LinkLine(Get(a.attrib, "href")))
  {
    var desc := if dd.Some? then dd.value.text else Some("");
    LinkBody(Get(a.attrib, "href"), desc);
  }

  /** The link line of a missing href holds neither a tilde nor a newline. */
  lemma NoneLinkLine()
    ensures LinkLine(None) == "[link](None)"
    ensures '~' !in LinkLine(None) && '\n' !in LinkLine(None)
  {
  }

  /** A title whose anchor has no href is treated as a link to `None`. */
  lemma MissingHref(dt: Element, dd: Option<Element>, a: Element)
    requires FindChild(dt.children, "a") == Some(a)
    requires "href" !in a.attrib
    ensures MakeRecord(dt, dd).Success?
    ensures MakeRecord(dt, dd).value.href == None
    ensures StartsWith(MakeRecord(dt, dd).value.body, "[link](None)")
  {
    NoneLinkLine();
    ContainsNoLead(LinkLine(None), Marker);
    assert !StartsWith("", "?");
    LinkRecord(dt, dd, a);
  }

  /** A title without an anchor, or a stray element in title position, fails the extraction. */
  lemma NoAnchorFails(dt: Element, dd: Option<Element>)
    requires forall c :: c in dt.children ==> c.tag != "a"
    ensures MakeRecord(dt, dd) == Failure(NoAnchor)
  {
    assert FindChild(dt.children, "a").None?;
  }
}
