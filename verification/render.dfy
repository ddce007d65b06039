/** The plugin's `init` over a deck given as plain data: the discovery pass
    that numbers the keys, the rewrite pass that turns every marker into a
    superscript and fills each slide's citation bar, and the bibliography
    sorted by number. */
module Render {
  import opened Wrappers
  import opened Text
  import opened BibParse
  import opened CiteFormat
  import opened Numbering

  /** A slide section: whether it is a vertical stack or hidden, whether it
      holds a citation bar, and the `data-cite` values of its markers in
      document order. */
  datatype Slide = Slide(isStack: bool, hidden: bool, hasBar: bool, markers: seq<string>)

  /** The slides in document order, and whether a sources section exists already. */
  datatype Deck = Deck(slides: seq<Slide>, hasSources: bool)

  /** The options that decide text. `sourcesTitle` "" stands for the unset
      (`null`) default. */
  datatype Options = Options(
    supWrapWithBrackets: bool,
    addTitleToSup: bool,
    sourcesTitle: string,
    createSourcesSlide: bool,
    sourceIdPrefix: string)

  /** The plugin's `defaultOptions`. */
  const DefaultOptions: Options := Options(false, true, "", true, "src-")

  /** Only slides that are neither stacks nor hidden are numbered or rewritten. */
  predicate Eligible(s: Slide) {
    !s.isStack && !s.hidden
  }

  /** `slides.filter(s => !isStack(s) && !hidden(s))`: the slides the plugin touches. */
  function EligibleOnly(slides: seq<Slide>): (e: seq<Slide>)
    ensures forall i :: 0 <= i < |e| ==> Eligible(e[i])
    ensures |e| <= |slides|
  {
    if |slides| == 0 then []
    else (if Eligible(slides[0]) then [slides[0]] else []) + EligibleOnly(slides[1..])
  }

  /** The keys of a slide's markers, in document order, repeats kept. */
  function MarkerKeys(markers: seq<string>): seq<string> {
    if |markers| == 0 then [] else SplitKeys(markers[0]) + MarkerKeys(markers[1..])
  }

  /** The keys of all eligible slides, in document order, repeats kept. */
  function DeckKeys(slides: seq<Slide>): seq<string> {
    if |slides| == 0 then []
    else (if Eligible(slides[0]) then MarkerKeys(slides[0].markers) else []) + DeckKeys(slides[1..])
  }

  /** The discovery pass. */
  function Discover(slides: seq<Slide>): (r: Registry)
    ensures Valid(r)
    ensures Known(r, DeckKeys(slides))
  {
    EnsureAll(Fresh, DeckKeys(slides))
  }

  // ------------------------------------------------------------ superscripts

  /** The superscript that replaces a marker: its text and its tooltip. */
  datatype Sup = Sup(text: string, title: Option<string>)

  /** `keys.map(k => keyToNumber.get(k)).filter(Number.isFinite)`. */
  function Numbers(r: Registry, keys: seq<string>): (ns: seq<nat>)
    ensures |ns| <= |keys|
    ensures Known(r, keys) ==> |ns| == |keys| && forall i :: 0 <= i < |keys| ==> ns[i] == r.number[keys[i]]
  {
    if |keys| == 0 then []
    else
      var rest := Numbers(r, keys[1..]);
      var ns := (if keys[0] in r.number then [r.number[keys[0]]] else []) + rest;
      assert Known(r, keys) ==>
        Known(r, keys[1..]) && forall i :: 1 <= i < |keys| ==> ns[i] == rest[i - 1] && keys[i] == keys[1..][i - 1];
      ns
  }

  /** One key gives its number when it has one and nothing otherwise: the
      `Number.isFinite` filter drops exactly the keys without a number. */
  lemma NumbersOne(r: Registry, k: string)
    ensures Numbers(r, [k]) == if k in r.number then [r.number[k]] else []
  {
    assert [k][1..] == [];
  }

  /** The numbers of a marker are taken key by key, so they distribute over
      concatenation of the keys. */
  lemma {:induction false} NumbersAppend(r: Registry, a: seq<string>, b: seq<string>)
    ensures Numbers(r, a + b) == Numbers(r, a) + Numbers(r, b)
    decreases |a|
  {
    if |a| == 0 {
      assert a + b == b;
    } else {
      assert (a + b)[0] == a[0];
      assert (a + b)[1..] == a[1..] + b;
      NumbersAppend(r, a[1..], b);
    }
  }

  /** Each number as a template string shows it. */
  function Numerals(ns: seq<nat>): (ss: seq<string>)
    ensures |ss| == |ns|
    ensures forall i :: 0 <= i < |ns| ==> ss[i] == NatToString(ns[i])
  {
    if |ns| == 0 then [] else [NatToString(ns[0])] + Numerals(ns[1..])
  }

  const Brackets: set<char> := {'[', ']'}

  /** A list of numerals joined by "," holds digits and commas only, so no bracket. */
  lemma NumeralListUnbracketed(ns: seq<nat>)
    ensures NoneIn(Join(Numerals(ns), ","), Brackets)
  {
    var ss := Numerals(ns);
    forall i | 0 <= i < |ss|
      ensures NoneIn(ss[i], Brackets)
    {
      assert forall j :: 0 <= j < |ss[i]| ==> IsDigit(ss[i][j]);
    }
    JoinNoneIn(ss, ",", Brackets);
  }

  /** `replaceCiteNode`: the numbers joined by ",", in brackets if configured,
      and the keys joined by ", " as the tooltip if configured. */
  function SupOf(r: Registry, keys: seq<string>, opts: Options): (s: Sup)
    ensures opts.supWrapWithBrackets ==> |s.text| >= 2 && s.text[0] == '[' && s.text[|s.text| - 1] == ']'
    ensures opts.supWrapWithBrackets ==> NoneIn(s.text[1..|s.text| - 1], Brackets)
    ensures !opts.supWrapWithBrackets ==> NoneIn(s.text, Brackets)
    ensures s.title.Some? <==> opts.addTitleToSup
  {
    var list := Join(Numerals(Numbers(r, keys)), ",");
    NumeralListUnbracketed(Numbers(r, keys));
    assert opts.supWrapWithBrackets ==> ("[" + list + "]")[1..|list| + 1] == list;
    Sup(if opts.supWrapWithBrackets then "[" + list + "]" else list,
        if opts.addTitleToSup then Some(Join(keys, ", ")) else None)
  }

  /** The tooltip lists a marker's keys; splitting it again gives back exactly those keys. */
  lemma TooltipReadsBack(r: Registry, marker: string, opts: Options)
    requires opts.addTitleToSup
    ensures SplitKeys(SupOf(r, SplitKeys(marker), opts).title.value) == SplitKeys(marker)
  {
    var keys := SplitKeys(marker);
    assert [] + Join(keys, ", ") == Join(keys, ", ");
    PaddedJoin([], keys);
  }

  /** The list inside the superscript, brackets removed. */
  function SupList(s: Sup, opts: Options): string
    requires opts.supWrapWithBrackets ==> |s.text| >= 2
  {
    if opts.supWrapWithBrackets then s.text[1..|s.text| - 1] else s.text
  }

  /** The superscript reads back as the keys' numbers, one per key, in the
      marker's order: no key is dropped once it has a number. */
  lemma SupReadsBack(r: Registry, keys: seq<string>, opts: Options)
    requires |keys| > 0 && Known(r, keys)
    ensures var parts := Split(SupList(SupOf(r, keys, opts), opts), {','});
      && |parts| == |keys|
      && forall i :: 0 <= i < |keys| ==>
           (forall j :: 0 <= j < |parts[i]| ==> IsDigit(parts[i][j]))
           && parts[i] == NatToString(r.number[keys[i]])
           && ParseDigits(parts[i]) == r.number[keys[i]]
  {
    var ns := Numbers(r, keys);
    var ss := Numerals(ns);
    var list := Join(ss, ",");
    assert SupList(SupOf(r, keys, opts), opts) == list;
    assert forall i :: 0 <= i < |ss| ==> NoneIn(ss[i], {','}) by {
      forall i | 0 <= i < |ss|
        ensures NoneIn(ss[i], {','})
      {
        assert forall j :: 0 <= j < |ss[i]| ==> IsDigit(ss[i][j]);
      }
    }
    SplitJoin(ss, ',', {','});
    forall i | 0 <= i < |keys|
      ensures ParseDigits(ss[i]) == r.number[keys[i]]
    {
      ParseNatToString(r.number[keys[i]]);
    }
  }

  // ------------------------------------------------------------ citation bar

  /** `keyToEntry.get(key)`. */
  function Lookup(store: map<string, Entry>, k: string): (e: Option<Entry>)
    ensures e.Some? <==> k in store
    ensures e.Some? ==> e.value == store[k]
  {
    if k in store then Some(store[k]) else None
  }

  /** `${num}` for a key's number, which is "undefined" for a key without one. */
  function NumberText(r: Registry, k: string): (t: string)
    ensures k in r.number ==> |t| > 0 && (forall j :: 0 <= j < |t| ==> IsDigit(t[j])) && ParseDigits(t) == r.number[k]
    ensures k !in r.number ==> t == "undefined"
  {
    ParseNatToString(if k in r.number then r.number[k] else 0);
    if k in r.number then NatToString(r.number[k]) else "undefined"
  }

  /** The "n. short" parts of a citation bar, one per used key. */
  function BarParts(r: Registry, store: map<string, Entry>, used: seq<string>): (ps: seq<string>)
    ensures |ps| == |used|
    ensures forall i :: 0 <= i < |used| ==>
      ps[i] == NumberText(r, used[i]) + ". " + FormatShort(Lookup(store, used[i]))
  {
    if |used| == 0 then []
    else
      var rest := BarParts(r, store, used[1..]);
      var ps := [NumberText(r, used[0]) + ". " + FormatShort(Lookup(store, used[0]))] + rest;
      assert forall i :: 0 < i < |used| ==> ps[i] == rest[i - 1] && used[1..][i - 1] == used[i];
      ps
  }

  /** `fillCitationBarInSlide`: the text of the generated paragraph, or None
      when the slide has no bar or cites nothing (the bar is then left alone). */
  function BarText(r: Registry, store: map<string, Entry>, used: seq<string>, hasBar: bool): (t: Option<string>)
    ensures t.Some? <==> hasBar && |used| > 0
  {
    if !hasBar || |used| == 0 then None else Some(Join(BarParts(r, store, used), "; "))
  }

  /** With every used key numbered, each part of the bar starts with the key's
      number and shows "Unknown, n.d." exactly for keys missing from the store. */
  lemma BarNumbered(r: Registry, store: map<string, Entry>, used: seq<string>, i: nat)
    requires i < |used| && used[i] in r.number
    ensures BarParts(r, store, used)[i] ==
      NatToString(r.number[used[i]]) + ". " + FormatShort(Lookup(store, used[i]))
    ensures FormatShort(Lookup(store, used[i])) == UnknownShort <==> used[i] !in store
  {
  }

  // ------------------------------------------------------------ rewrite pass

  /** What the rewrite pass does to one slide. */
  datatype SlideOut = SlideOut(sups: seq<Sup>, bar: Option<string>)

  /** The markers of one slide, in order: ensure each key's number, record it
      as used on first use, and build the superscript. Returns the registry,
      the used keys and the superscripts. */
  function RewriteMarkers(r: Registry, markers: seq<string>, used: seq<string>, opts: Options)
    : (out: (Registry, seq<string>, seq<Sup>))
    requires Valid(r)
    ensures Valid(out.0)
    ensures |out.2| == |markers|
    decreases |markers|
  {
    if |markers| == 0 then (r, used, [])
    else
      var keys := SplitKeys(markers[0]);
      var r1 := EnsureAll(r, keys);
      var rest := RewriteMarkers(r1, markers[1..], DedupFrom(used, keys), opts);
      (rest.0, rest.1, [SupOf(r1, keys, opts)] + rest.2)
  }

  function RewriteSlide(r: Registry, s: Slide, store: map<string, Entry>, opts: Options)
    : (out: (Registry, SlideOut))
    requires Valid(r)
    ensures Valid(out.0)
  {
    var m := RewriteMarkers(r, s.markers, [], opts);
    (m.0, SlideOut(m.2, BarText(m.0, store, m.1, s.hasBar)))
  }

  /** The rewrite pass over the eligible slides, one output per eligible slide. */
  function RewriteAll(r: Registry, slides: seq<Slide>, store: map<string, Entry>, opts: Options)
    : (out: (Registry, seq<SlideOut>))
    requires Valid(r)
    ensures Valid(out.0)
    ensures |out.1| == |EligibleOnly(slides)|
    decreases |slides|
  {
    if |slides| == 0 then (r, [])
    else if !Eligible(slides[0]) then RewriteAll(r, slides[1..], store, opts)
    else
      var first := RewriteSlide(r, slides[0], store, opts);
      var rest := RewriteAll(first.0, slides[1..], store, opts);
      (rest.0, [first.1] + rest.1)
  }

  /** Stacks and hidden slides are skipped entirely: the keys and the rewrite
      pass of a deck are those of its eligible slides alone. */
  lemma {:induction false} IneligibleSkipped(r: Registry, slides: seq<Slide>, store: map<string, Entry>, opts: Options)
    requires Valid(r)
    ensures DeckKeys(slides) == DeckKeys(EligibleOnly(slides))
    ensures RewriteAll(r, slides, store, opts) == RewriteAll(r, EligibleOnly(slides), store, opts)
    decreases |slides|
  {
    if |slides| > 0 {
      var e := EligibleOnly(slides[1..]);
      IneligibleSkipped(r, slides[1..], store, opts);
      if Eligible(slides[0]) {
        var whole := [slides[0]] + e;
        assert whole[0] == slides[0] && whole[1..] == e;
        var first := RewriteSlide(r, slides[0], store, opts);
        IneligibleSkipped(first.0, slides[1..], store, opts);
      } else {
        assert EligibleOnly(slides) == e;
      }
    }
  }

  lemma KnownSplit(r: Registry, a: seq<string>, b: seq<string>)
    requires Known(r, a + b)
    ensures Known(r, a) && Known(r, b)
  {
    assert forall k :: k in a ==> k in a + b;
    assert forall k :: k in b ==> k in a + b;
  }

  /** The first marker of a slide whose keys are all numbered leaves the registry alone. */
  lemma RewriteMarkersStep(r: Registry, markers: seq<string>, used: seq<string>, opts: Options)
    requires Valid(r) && |markers| > 0
    requires Known(r, MarkerKeys(markers))
    ensures Known(r, MarkerKeys(markers[1..]))
    ensures var keys := SplitKeys(markers[0]);
      var rest := RewriteMarkers(r, markers[1..], DedupFrom(used, keys), opts);
      RewriteMarkers(r, markers, used, opts) == (rest.0, rest.1, [SupOf(r, keys, opts)] + rest.2)
  {
    var keys := SplitKeys(markers[0]);
    KnownSplit(r, keys, MarkerKeys(markers[1..]));
    EnsureAllKnown(r, keys);
  }

  /** With every key already numbered, the markers of a slide leave the
      registry alone and collect the slide's keys in first-use order. */
  lemma {:induction false} RewriteMarkersKnown(r: Registry, markers: seq<string>, used: seq<string>, opts: Options)
    requires Valid(r)
    requires Known(r, MarkerKeys(markers))
    ensures RewriteMarkers(r, markers, used, opts).0 == r
    ensures RewriteMarkers(r, markers, used, opts).1 == DedupFrom(used, MarkerKeys(markers))
    decreases |markers|
  {
    if |markers| > 0 {
      var keys := SplitKeys(markers[0]);
      RewriteMarkersStep(r, markers, used, opts);
      RewriteMarkersKnown(r, markers[1..], DedupFrom(used, keys), opts);
      DedupFromAppend(used, keys, MarkerKeys(markers[1..]));
    }
  }

  /** The superscripts of a slide's markers, each numbered by the registry. */
  function MarkerSups(r: Registry, markers: seq<string>, opts: Options): (sups: seq<Sup>)
    ensures |sups| == |markers|
  {
    seq(|markers|, j requires 0 <= j < |markers| => SupOf(r, SplitKeys(markers[j]), opts))
  }

  lemma MarkerSupsCons(r: Registry, markers: seq<string>, opts: Options)
    requires |markers| > 0
    ensures MarkerSups(r, markers, opts) ==
      [SupOf(r, SplitKeys(markers[0]), opts)] + MarkerSups(r, markers[1..], opts)
  {
    var whole := MarkerSups(r, markers, opts);
    var rest := MarkerSups(r, markers[1..], opts);
    forall j | 0 < j < |markers|
      ensures whole[j] == rest[j - 1]
    {
      assert markers[1..][j - 1] == markers[j];
    }
  }

  /** With every key already numbered, the j-th superscript of a slide shows
      the numbers of the j-th marker's keys. */
  lemma {:induction false} RewriteMarkersSups(r: Registry, markers: seq<string>, used: seq<string>, opts: Options)
    requires Valid(r)
    requires Known(r, MarkerKeys(markers))
    ensures RewriteMarkers(r, markers, used, opts).2 == MarkerSups(r, markers, opts)
    decreases |markers|
  {
    if |markers| > 0 {
      var used' := DedupFrom(used, SplitKeys(markers[0]));
      RewriteMarkersStep(r, markers, used, opts);
      RewriteMarkersSups(r, markers[1..], used', opts);
      MarkerSupsCons(r, markers, opts);
    }
  }

  /** The rewrite pass after the discovery pass: the registry stays as the
      discovery pass left it, so no number changes and no key is added. */
  lemma {:induction false} RewriteKeepsNumbers(r: Registry, slides: seq<Slide>, store: map<string, Entry>, opts: Options)
    requires Valid(r)
    requires Known(r, DeckKeys(slides))
    ensures RewriteAll(r, slides, store, opts).0 == r
    decreases |slides|
  {
    if |slides| > 0 {
      var own := if Eligible(slides[0]) then MarkerKeys(slides[0].markers) else [];
      var tail := DeckKeys(slides[1..]);
      assert DeckKeys(slides) == own + tail;
      if Eligible(slides[0]) {
        RewriteMarkersKnown(r, slides[0].markers, [], opts);
      }
      RewriteKeepsNumbers(r, slides[1..], store, opts);
    }
  }

  /** A slide's citation bar after the discovery pass: the slide's distinct
      keys in first-use order, each with its global number and short form. */
  lemma SlideBar(r: Registry, s: Slide, store: map<string, Entry>, opts: Options)
    requires Valid(r)
    requires Known(r, MarkerKeys(s.markers))
    ensures RewriteSlide(r, s, store, opts).1.bar ==
      BarText(r, store, Dedup(MarkerKeys(s.markers)), s.hasBar)
    ensures RewriteSlide(r, s, store, opts).1.bar.Some? <==> s.hasBar && |MarkerKeys(s.markers)| > 0
  {
    RewriteMarkersKnown(r, s.markers, [], opts);
    var keys := MarkerKeys(s.markers);
    if |keys| > 0 {
      assert keys[0] in Dedup(keys);
    }
  }

  /** What the rewrite pass writes for an eligible slide whose keys are all
      numbered: one superscript per marker showing the numbers of that
      marker's keys, and a bar listing the slide's distinct keys in first-use
      order. */
  function NumberedSlide(r: Registry, store: map<string, Entry>, s: Slide, opts: Options): SlideOut {
    SlideOut(MarkerSups(r, s.markers, opts), BarText(r, store, Dedup(MarkerKeys(s.markers)), s.hasBar))
  }

  /** One slide whose keys are all numbered leaves the registry alone. */
  lemma SlideKnown(r: Registry, s: Slide, store: map<string, Entry>, opts: Options)
    requires Valid(r)
    requires Known(r, MarkerKeys(s.markers))
    ensures RewriteSlide(r, s, store, opts) == (r, NumberedSlide(r, store, s, opts))
  {
    RewriteMarkersKnown(r, s.markers, [], opts);
    RewriteMarkersSups(r, s.markers, [], opts);
    var out := RewriteSlide(r, s, store, opts);
    assert out.0 == r && out.1 == NumberedSlide(r, store, s, opts);
    assert out == (out.0, out.1);
  }

  /** The first step of the rewrite pass once every key is numbered. */
  lemma RewriteAllStep(r: Registry, slides: seq<Slide>, store: map<string, Entry>, opts: Options)
    requires Valid(r) && |slides| > 0
    requires Known(r, DeckKeys(slides))
    ensures Known(r, DeckKeys(slides[1..]))
    ensures RewriteAll(r, slides, store, opts).1 ==
      (if Eligible(slides[0]) then [NumberedSlide(r, store, slides[0], opts)] else []) + RewriteAll(r, slides[1..], store, opts).1
  {
    var s := slides[0];
    var own := if Eligible(s) then MarkerKeys(s.markers) else [];
    assert DeckKeys(slides) == own + DeckKeys(slides[1..]);
    KnownSplit(r, own, DeckKeys(slides[1..]));
    if Eligible(s) {
      SlideKnown(r, s, store, opts);
    }
  }

  /** The numbered rewrites of a list of slides, in order. */
  function NumberedSlides(r: Registry, store: map<string, Entry>, e: seq<Slide>, opts: Options): (out: seq<SlideOut>)
    ensures |out| == |e|
  {
    if |e| == 0 then [] else [NumberedSlide(r, store, e[0], opts)] + NumberedSlides(r, store, e[1..], opts)
  }

  lemma {:induction false} NumberedSlidesAt(r: Registry, store: map<string, Entry>, e: seq<Slide>, opts: Options, i: nat)
    requires i < |e|
    ensures NumberedSlides(r, store, e, opts)[i] == NumberedSlide(r, store, e[i], opts)
    decreases i
  {
    if i > 0 {
      NumberedSlidesAt(r, store, e[1..], opts, i - 1);
    }
  }

  /** The rewrite pass after the discovery pass: the i-th output belongs to the
      i-th eligible slide and is that slide's numbered rewrite. */
  lemma RewriteAllSlides(r: Registry, slides: seq<Slide>, store: map<string, Entry>, opts: Options)
    requires Valid(r)
    requires Known(r, DeckKeys(slides))
    ensures var e := EligibleOnly(slides);
      var out := RewriteAll(r, slides, store, opts).1;
      forall i :: 0 <= i < |e| ==> out[i] == NumberedSlide(r, store, e[i], opts)
  {
    var e := EligibleOnly(slides);
    RewriteAllNumbered(r, slides, store, opts);
    forall i | 0 <= i < |e|
      ensures NumberedSlides(r, store, e, opts)[i] == NumberedSlide(r, store, e[i], opts)
    {
      NumberedSlidesAt(r, store, e, opts, i);
    }
  }

  lemma {:induction false} RewriteAllNumbered(r: Registry, slides: seq<Slide>, store: map<string, Entry>, opts: Options)
    requires Valid(r)
    requires Known(r, DeckKeys(slides))
    ensures RewriteAll(r, slides, store, opts).1 == NumberedSlides(r, store, EligibleOnly(slides), opts)
    decreases |slides|
  {
    if |slides| > 0 {
      RewriteAllStep(r, slides, store, opts);
      RewriteAllNumbered(r, slides[1..], store, opts);
      var tail := EligibleOnly(slides[1..]);
      if Eligible(slides[0]) {
        var e := [slides[0]] + tail;
        assert EligibleOnly(slides) == e;
        assert e[0] == slides[0] && e[1..] == tail;
      } else {
        assert EligibleOnly(slides) == tail;
      }
    }
  }

  // ------------------------------------------------------------ bibliography

  /** `Array.from(keyToNumber.entries())`: key and number in insertion order. */
  function Entries(r: Registry): (es: seq<(string, nat)>)
    requires Valid(r)
    ensures |es| == |r.order|
    ensures forall i :: 0 <= i < |es| ==> es[i] == (r.order[i], i + 1)
  {
    seq(|r.order|, i requires 0 <= i < |r.order| => (r.order[i], r.number[r.order[i]]))
  }

  predicate SortedByNumber(s: seq<(string, nat)>) {
    forall i, j :: 0 <= i < j < |s| ==> s[i].1 <= s[j].1
  }

  /** Inserts `x` after every element whose number is not larger: the step of
      a stable sort. */
  function InsertByNumber(x: (string, nat), s: seq<(string, nat)>): (r: seq<(string, nat)>)
    requires SortedByNumber(s)
    ensures SortedByNumber(r)
    ensures |r| == |s| + 1 && (r[0] == x || (|s| > 0 && r[0] == s[0]))
    decreases |s|
  {
    if |s| == 0 then [x]
    else if x.1 < s[0].1 then
      ConsSorted(x, s);
      [x] + s
    else
      SortedTail(s);
      var r := InsertByNumber(x, s[1..]);
      assert r[0] == x || r[0] == s[1];
      ConsSorted(s[0], r);
      assert s == [s[0]] + s[1..];
      [s[0]] + r
  }

  lemma SortedTail(s: seq<(string, nat)>)
    requires SortedByNumber(s) && |s| > 0
    ensures SortedByNumber(s[1..])
    ensures |s| > 1 ==> s[0].1 <= s[1].1
  {
    assert forall i :: 0 <= i < |s| - 1 ==> s[1..][i] == s[i + 1];
  }

  /** A first element no larger than the head of a sorted list keeps it sorted. */
  lemma ConsSorted(a: (string, nat), r: seq<(string, nat)>)
    requires SortedByNumber(r) && (|r| == 0 || a.1 <= r[0].1)
    ensures SortedByNumber([a] + r)
  {
    var t := [a] + r;
    forall i, j | 0 <= i < j < |t|
      ensures t[i].1 <= t[j].1
    {
      if i > 0 {
        assert t[i] == r[i - 1] && t[j] == r[j - 1];
      } else {
        assert t[j] == r[j - 1];
      }
    }
  }

  /** An element no smaller than all others goes last. */
  lemma {:induction false} InsertLast(x: (string, nat), s: seq<(string, nat)>)
    requires SortedByNumber(s)
    requires |s| == 0 || s[|s| - 1].1 <= x.1
    ensures InsertByNumber(x, s) == s + [x]
    decreases |s|
  {
    if |s| > 0 {
      SortedEnds(s);
      SortedTail(s);
      InsertLast(x, s[1..]);
      assert s == [s[0]] + s[1..];
    }
  }

  lemma SortedEnds(s: seq<(string, nat)>)
    requires SortedByNumber(s) && |s| > 0
    ensures s[0].1 <= s[|s| - 1].1
  {
  }

  /** `sort((a, b) => a[1] - b[1])`: a stable sort by number. */
  function SortByNumber(s: seq<(string, nat)>): (r: seq<(string, nat)>)
    ensures SortedByNumber(r)
    ensures |r| == |s|
    decreases |s|
  {
    if |s| == 0 then []
    else
      assert s == s[..|s| - 1] + [s[|s| - 1]];
      InsertByNumber(s[|s| - 1], SortByNumber(s[..|s| - 1]))
  }

  /** Inserting adds exactly the one element. */
  lemma {:induction false} InsertByNumberPermutes(x: (string, nat), s: seq<(string, nat)>)
    requires SortedByNumber(s)
    ensures multiset(InsertByNumber(x, s)) == multiset(s) + multiset{x}
    decreases |s|
  {
    if |s| > 0 && s[0].1 <= x.1 {
      SortedTail(s);
      InsertByNumberPermutes(x, s[1..]);
      assert s == [s[0]] + s[1..];
    }
  }

  /** The sort is a permutation: it neither loses nor invents an entry. */
  lemma {:induction false} SortByNumberPermutes(s: seq<(string, nat)>)
    ensures multiset(SortByNumber(s)) == multiset(s)
    decreases |s|
  {
    if |s| > 0 {
      var front := s[..|s| - 1];
      SortByNumberPermutes(front);
      InsertByNumberPermutes(s[|s| - 1], SortByNumber(front));
      assert s == front + [s[|s| - 1]];
    }
  }

  /** Sorting what is sorted changes nothing. */
  lemma {:induction false} SortSortedIdentity(s: seq<(string, nat)>)
    requires SortedByNumber(s)
    ensures SortByNumber(s) == s
    decreases |s|
  {
    if |s| > 0 {
      var front := s[..|s| - 1];
      var x := s[|s| - 1];
      SortedFront(s);
      SortSortedIdentity(front);
      InsertLast(x, front);
      assert s == front + [x];
    }
  }

  lemma SortedFront(s: seq<(string, nat)>)
    requires SortedByNumber(s) && |s| > 0
    ensures SortedByNumber(s[..|s| - 1])
    ensures |s| > 1 ==> s[..|s| - 1][|s| - 2].1 <= s[|s| - 1].1
  {
  }

  /** One bibliography item: its element id, its key, and its content. */
  datatype Item = Item(id: string, citeKey: string, pieces: seq<Piece>)

  /** The note appended to the item of a key the store lacks. */
  function MissingNote(key: string): string {
    " (Missing in .bib: " + key + ")"
  }

  /** The list item of one key: "n. ", the long form, and the missing-record note. */
  function ItemOf(key: string, num: nat, store: map<string, Entry>, lang: Lang, prefix: string): (it: Item)
    ensures it.id == prefix + key && it.citeKey == key
    ensures |it.pieces| >= 2 && it.pieces[0] == Text(NatToString(num) + ". ")
    ensures key in store ==> it.pieces[1..] == LongForm(Some(store[key]), lang)
    ensures key !in store ==>
      it.pieces == [Text(NatToString(num) + ". "), Text(UnknownSource), Text(MissingNote(key))]
  {
    var e := Lookup(store, key);
    var long := LongForm(e, lang);
    var note := if e.None? then [Text(MissingNote(key))] else [];
    PiecesAfter(Text(NatToString(num) + ". "), long, note);
    Item(prefix + key, key, [Text(NatToString(num) + ". ")] + long + note)
  }

  lemma PiecesAfter(p: Piece, ps: seq<Piece>, note: seq<Piece>)
    ensures ([p] + ps + note)[0] == p
    ensures ([p] + ps + note)[1..] == ps + note
    ensures ps + [] == ps
  {
  }

  function ItemsOf(pairs: seq<(string, nat)>, store: map<string, Entry>, lang: Lang, prefix: string)
    : (items: seq<Item>)
    ensures |items| == |pairs|
  {
    seq(|pairs|, i requires 0 <= i < |pairs| => ItemOf(pairs[i].0, pairs[i].1, store, lang, prefix))
  }

  /** The bibliography, when there is a sources section to put it in. */
  function Bibliography(r: Registry, store: map<string, Entry>, lang: Lang, opts: Options, hasSources: bool)
    : (b: Option<seq<Item>>)
    requires Valid(r)
    ensures b.Some? <==> hasSources || opts.createSourcesSlide
  {
    if !hasSources && !opts.createSourcesSlide then None
    else Some(ItemsOf(SortByNumber(Entries(r)), store, lang, opts.sourceIdPrefix))
  }

  /** The bibliography lists every numbered key once, in ascending number
      order: the i-th item is the key numbered i + 1. */
  lemma BibliographyOrder(r: Registry, store: map<string, Entry>, lang: Lang, opts: Options, hasSources: bool)
    requires Valid(r) && (hasSources || opts.createSourcesSlide)
    ensures var items := Bibliography(r, store, lang, opts, hasSources).value;
      && |items| == |r.order|
      && forall i :: 0 <= i < |items| ==>
           && items[i].citeKey == r.order[i]
           && r.number[items[i].citeKey] == i + 1
           && items[i].id == opts.sourceIdPrefix + r.order[i]
           && items[i].pieces[0] == Text(NatToString(i + 1) + ". ")
  {
    var es := Entries(r);
    assert SortedByNumber(es);
    SortSortedIdentity(es);
    var items := ItemsOf(es, store, lang, opts.sourceIdPrefix);
    assert Bibliography(r, store, lang, opts, hasSources).value == items;
    forall i | 0 <= i < |items|
      ensures items[i].citeKey == r.order[i] && r.number[items[i].citeKey] == i + 1
      ensures items[i].id == opts.sourceIdPrefix + r.order[i]
      ensures items[i].pieces[0] == Text(NatToString(i + 1) + ". ")
    {
      assert items[i] == ItemOf(r.order[i], i + 1, store, lang, opts.sourceIdPrefix);
    }
  }

  /** The missing-record note appears exactly on items whose key the store lacks. */
  lemma MissingNoteExactly(key: string, num: nat, store: map<string, Entry>, lang: Lang, prefix: string)
    ensures var it := ItemOf(key, num, store, lang, prefix);
      (key !in store <==> |it.pieces| == 3 && it.pieces[2] == Text(MissingNote(key)) && it.pieces[1] == Text(UnknownSource))
  {
    var it := ItemOf(key, num, store, lang, prefix);
    if key in store {
      assert |it.pieces| == 1 + |LongForm(Some(store[key]), lang)|;
    }
  }

  // ------------------------------------------------------------------ init

  /** The heading of a sources section the plugin creates: the configured title,
      or the language's word for "Sources". */
  function SourcesHeading(opts: Options, lang: Lang, hasSources: bool): (h: Option<string>)
    ensures h.Some? <==> !hasSources && opts.createSourcesSlide
    ensures h.Some? && opts.sourcesTitle == "" ==> h.value == T(lang, "sourcesTitle")
    ensures h.Some? && opts.sourcesTitle != "" ==> h.value == opts.sourcesTitle
  {
    if !hasSources && opts.createSourcesSlide then Some(OrElse(opts.sourcesTitle, T(lang, "sourcesTitle")))
    else None
  }

  /** Everything `init` writes into the deck. */
  datatype Rendered = Rendered(slides: seq<SlideOut>, heading: Option<string>, bibliography: Option<seq<Item>>)

  /** `init`, after the `.bib` text has been fetched. */
  function Init(deck: Deck, bibText: string, opts: Options, lang: Lang): (out: Rendered)
    ensures |out.slides| == |EligibleOnly(deck.slides)|
    ensures out.heading.Some? <==> !deck.hasSources && opts.createSourcesSlide
    ensures out.bibliography.Some? <==> deck.hasSources || opts.createSourcesSlide
  {
    var store := ParseBibTeX(bibText);
    var r := Discover(deck.slides);
    var pass := RewriteAll(r, deck.slides, store, opts);
    Rendered(pass.1, SourcesHeading(opts, lang, deck.hasSources),
             Bibliography(pass.0, store, lang, opts, deck.hasSources))
  }

  /** The slides `init` writes: the i-th output belongs to the i-th eligible
      slide, its superscripts and bar numbered by the discovery pass. */
  lemma InitSlides(deck: Deck, bibText: string, opts: Options, lang: Lang)
    ensures var e := EligibleOnly(deck.slides);
      var r := Discover(deck.slides);
      var out := Init(deck, bibText, opts, lang).slides;
      forall i :: 0 <= i < |e| ==> out[i] == NumberedSlide(r, ParseBibTeX(bibText), e[i], opts)
  {
    RewriteAllSlides(Discover(deck.slides), deck.slides, ParseBibTeX(bibText), opts);
  }

  /** The bibliography `init` writes numbers the keys of the eligible slides in
      order of first appearance, each key once: item i is the (i+1)-th distinct
      key of the deck. */
  lemma InitBibliography(deck: Deck, bibText: string, opts: Options, lang: Lang)
    requires deck.hasSources || opts.createSourcesSlide
    ensures var items := Init(deck, bibText, opts, lang).bibliography.value;
      && |items| == |Dedup(DeckKeys(deck.slides))|
      && forall i :: 0 <= i < |items| ==> items[i].citeKey == Dedup(DeckKeys(deck.slides))[i]
  {
    var store := ParseBibTeX(bibText);
    var r := Discover(deck.slides);
    RewriteKeepsNumbers(r, deck.slides, store, opts);
    EnsureAllOrder(Fresh, DeckKeys(deck.slides));
    BibliographyOrder(r, store, lang, opts, deck.hasSources);
  }

  // ---------------------------------------------------------------- defaults

  /** Under the default options a superscript shows its numbers bare and
      carries a tooltip, and a deck without a sources section gets one, under
      the translated title, whose items are anchored at "src-" and the key. */
  lemma DefaultBehaviour(r: Registry, keys: seq<string>, store: map<string, Entry>, lang: Lang)
    requires Valid(r)
    ensures NoneIn(SupOf(r, keys, DefaultOptions).text, Brackets)
    ensures SupOf(r, keys, DefaultOptions).title.Some?
    ensures SourcesHeading(DefaultOptions, lang, false) == Some(T(lang, "sourcesTitle"))
    ensures var b := Bibliography(r, store, lang, DefaultOptions, false);
            && b.Some?
            && forall i :: 0 <= i < |b.value| ==> b.value[i].id == "src-" + b.value[i].citeKey
  {
  }
}
