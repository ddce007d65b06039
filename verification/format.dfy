/** The text the citation engine derives from parsed records: the keys of a
    citation marker, DOI links, author abbreviations, the short form shown in a
    slide's citation bar, the long form of a bibliography item, and the two
    message tables (German and English). */
module CiteFormat {
  import opened Wrappers
  import opened Text
  import opened BibParse

  // ------------------------------------------------------------ marker keys

  /** The characters `splitKeys` splits a `data-cite` attribute on (`/[;,]/`). */
  const KeySeparators: set<char> := {',', ';'}

  /** A key as `splitKeys` can return it. */
  predicate IsCiteKey(k: string) {
    |k| > 0 && Trimmed(k) && NoneIn(k, KeySeparators)
  }

  /** `splitKeys`: the keys of a `data-cite` attribute, split on `,` and `;`,
      trimmed, blanks dropped. */
  function SplitKeys(raw: string): (keys: seq<string>)
    ensures forall i :: 0 <= i < |keys| ==> IsCiteKey(keys[i])
    ensures |keys| <= 1 + Count(raw, KeySeparators)
  {
    var parts := Split(raw, KeySeparators);
    TrimNonEmptyNoneIn(parts, KeySeparators);
    TrimNonEmpty(parts)
  }

  /** Trimming removes characters and so never brings in a separator. */
  lemma {:induction false} TrimNonEmptyNoneIn(parts: seq<string>, cs: set<char>)
    requires forall i :: 0 <= i < |parts| ==> NoneIn(parts[i], cs)
    ensures forall i :: 0 <= i < |TrimNonEmpty(parts)| ==> NoneIn(TrimNonEmpty(parts)[i], cs)
  {
    if |parts| > 0 {
      TrimNonEmptyNoneIn(parts[1..], cs);
      var t := Trim(parts[0]);
      assert forall j :: 0 <= j < |t| ==> t[j] in t;
    }
  }

  /** A list of keys written with either separator reads back as that list. */
  lemma SplitKeysJoin(keys: seq<string>, sep: char)
    requires sep in KeySeparators
    requires forall i :: 0 <= i < |keys| ==> IsCiteKey(keys[i])
    ensures SplitKeys(Join(keys, [sep])) == keys
  {
    if |keys| == 0 {
      assert Split([], KeySeparators) == [[]];
    } else {
      SplitJoin(keys, sep, KeySeparators);
      TrimNonEmptyKeeps(keys);
    }
  }

  /** Any separator-free pieces joined with `,` or `;` read back as those
      pieces trimmed, the blank ones dropped: "a, b", "a;" and "a,,b" all
      follow from this. */
  lemma SplitKeysParts(parts: seq<string>, sep: char)
    requires sep in KeySeparators
    requires forall i :: 0 <= i < |parts| ==> NoneIn(parts[i], KeySeparators)
    ensures SplitKeys(Join(parts, [sep])) == TrimNonEmpty(parts)
  {
    if |parts| == 0 {
      assert Split([], KeySeparators) == [[]];
      TrimNonEmptyOne([]);
    } else {
      SplitJoin(parts, sep, KeySeparators);
    }
  }

  /** Keys joined with ", ", the way a superscript's tooltip shows them, read
      back as those keys, whatever white space comes in front. */
  lemma {:induction false} PaddedJoin(w: string, keys: seq<string>)
    requires AllSpace(w)
    requires forall i :: 0 <= i < |keys| ==> IsCiteKey(keys[i])
    ensures SplitKeys(w + Join(keys, ", ")) == keys
    decreases |keys|
  {
    if |keys| == 0 {
      assert w + Join(keys, ", ") == w;
      SplitKeysPiece(w);
    } else {
      var k := keys[0];
      PaddedOneKey(w, k);
      if |keys| > 1 {
        var rest := keys[1..];
        var j := Join(rest, ", ");
        assert Join(keys, ", ") == k + ", " + j;
        assert w + (k + ", " + j) == (w + k) + [','] + ([' '] + j);
        PaddedJoin([' '], rest);
        SplitKeysAtSep(w + k, ',', [' '] + j);
        assert [k] + rest == keys;
      }
    }
  }

  /** One key behind white space is that key. */
  lemma PaddedOneKey(w: string, k: string)
    requires AllSpace(w) && IsCiteKey(k)
    ensures SplitKeys(w + k) == [k]
  {
    var s := w + k;
    forall i | 0 <= i < |s|
      ensures s[i] !in KeySeparators
    {
      if i >= |w| {
        assert s[i] == k[i - |w|];
      }
    }
    assert s[|w|] == k[0];
    TrimPadded(w, k);
    SplitKeysPiece(s);
  }

  /** A separator, `,` or `;` alike, divides the keys: those of the text
      before it come first, then those of the text after it. */
  lemma SplitKeysAtSep(x: string, c: char, y: string)
    requires c in KeySeparators
    ensures SplitKeys(x + [c] + y) == SplitKeys(x) + SplitKeys(y)
  {
    SplitAtSep(x, c, y, KeySeparators);
    TrimNonEmptyAppend(Split(x, KeySeparators), Split(y, KeySeparators));
  }

  /** A piece without a separator gives no key when it is blank, and its
      trimmed text otherwise. */
  lemma SplitKeysPiece(p: string)
    requires NoneIn(p, KeySeparators)
    ensures SplitKeys(p) == if AllSpace(p) then [] else [Trim(p)]
  {
    SplitNoSep(p, KeySeparators);
    TrimNonEmptyOne(p);
  }

  /** A character that makes a one-letter key. */
  predicate KeyChar(c: char) {
    !IsSpace(c) && c !in KeySeparators
  }

  /** A marker as it is usually written, "a, b": the blank after the comma goes. */
  lemma SplitKeysPadded(a: char, b: char)
    requires KeyChar(a) && KeyChar(b)
    ensures SplitKeys([a, ',', ' ', b]) == [[a], [b]]
  {
    var p: string := [a, ',', ' ', b];
    var x: string := [a];
    var y: string := [' ', b];
    assert p == x + [','] + y;
    assert y == [' '] + [b] + [];
    OneKey(a);
    PaddedKey(y, [' '], b, []);
    KeysAround(p, x, ',', y, [[a]], [[b]]);
  }

  /** A trailing separator gives no key: "a;" holds the one key "a". */
  lemma SplitKeysTrailing(a: char)
    requires KeyChar(a)
    ensures SplitKeys([a, ';']) == [[a]]
  {
    var p: string := [a, ';'];
    var x: string := [a];
    var y: string := [];
    assert p == x + [';'] + y;
    OneKey(a);
    NoKeys();
    KeysAround(p, x, ';', y, [[a]], []);
  }

  /** Two separators in a row give no key between them: "a,,b" holds "a" and "b". */
  lemma SplitKeysDoubled(a: char, b: char)
    requires KeyChar(a) && KeyChar(b)
    ensures SplitKeys([a, ',', ',', b]) == [[a], [b]]
  {
    var p: string := [a, ',', ',', b];
    var x: string := [a];
    var y: string := [',', b];
    assert p == x + [','] + y;
    OneKey(a);
    LeadingSeparator(b);
    KeysAround(p, x, ',', y, [[a]], [[b]]);
  }

  /** A leading separator gives no key: ",b" holds the one key "b". */
  lemma LeadingSeparator(b: char)
    requires KeyChar(b)
    ensures SplitKeys([',', b]) == [[b]]
  {
    var y: string := [',', b];
    var e: string := [];
    assert y == e + [','] + [b];
    NoKeys();
    OneKey(b);
    KeysAround(y, e, ',', [b], [], [[b]]);
  }

  /** The keys on both sides of a separator, given the keys of each side. */
  lemma KeysAround(p: string, x: string, c: char, y: string, kx: seq<string>, ky: seq<string>)
    requires c in KeySeparators && p == x + [c] + y
    requires SplitKeys(x) == kx && SplitKeys(y) == ky
    ensures SplitKeys(p) == kx + ky
  {
    SplitKeysAtSep(x, c, y);
  }

  /** A one-letter text that is neither blank nor a separator is one key. */
  lemma OneKey(k: char)
    requires KeyChar(k)
    ensures SplitKeys([k]) == [[k]]
  {
    var x: string := [k];
    assert x == [] + [k] + [];
    PaddedKey(x, [], k, []);
  }

  /** The empty text holds no key. */
  lemma NoKeys()
    ensures SplitKeys([]) == []
  {
    SplitKeysPiece([]);
  }

  /** One key with blanks around it. */
  lemma PaddedKey(p: string, w1: string, k: char, w2: string)
    requires p == w1 + [k] + w2
    requires AllSpace(w1) && AllSpace(w2) && KeyChar(k)
    ensures SplitKeys(p) == [[k]]
  {
    assert p[..|w1|] == w1;
    assert p[|w1| + 1..] == w2;
    assert p[|w1|] == k;
    assert NoneIn(p, KeySeparators);
    TrimOneChar(p, |w1|);
    SplitKeysPiece(p);
  }

  /** Blank pieces disappear: an empty attribute has no keys, and so has one
      made only of separators and white space. */
  lemma {:induction false} SplitKeysBlank(raw: string)
    requires forall i :: 0 <= i < |raw| ==> IsSpace(raw[i]) || raw[i] in KeySeparators
    ensures SplitKeys(raw) == []
  {
    BlankPieces(raw);
    TrimNonEmptyBlank(Split(raw, KeySeparators));
  }

  lemma {:induction false} BlankPieces(raw: string)
    requires forall i :: 0 <= i < |raw| ==> IsSpace(raw[i]) || raw[i] in KeySeparators
    ensures forall i :: 0 <= i < |Split(raw, KeySeparators)| ==> AllSpace(Split(raw, KeySeparators)[i])
  {
    if |raw| > 0 {
      BlankPieces(raw[1..]);
      var rest := Split(raw[1..], KeySeparators);
      if raw[0] !in KeySeparators {
        var first := [raw[0]] + rest[0];
        assert forall j :: 1 <= j < |first| ==> first[j] == rest[0][j - 1];
      }
    }
  }

  lemma {:induction false} TrimNonEmptyBlank(parts: seq<string>)
    requires forall i :: 0 <= i < |parts| ==> AllSpace(parts[i])
    ensures TrimNonEmpty(parts) == []
  {
    if |parts| > 0 {
      TrimNonEmptyBlank(parts[1..]);
    }
  }

  // -------------------------------------------------------------------- DOI

  const DoiResolver: string := "https://doi.org/"

  predicate IsHttpUrl(s: string) {
    StartsWith(s, "http://") || StartsWith(s, "https://")
  }

  /** `normalizeDoi`: a bare DOI becomes a resolver link; a DOI already given
      as an http(s) address stays as it is; white space alone gives "". */
  function NormalizeDoi(raw: string): (r: string)
    ensures |r| == 0 <==> AllSpace(raw)
    ensures |r| > 0 ==> IsHttpUrl(r) && Trimmed(r)
    ensures r == Trim(raw) || r == DoiResolver + Trim(raw)
    ensures IsHttpUrl(Trim(raw)) ==> r == Trim(raw)
  {
    var d := Trim(raw);
    if |d| == 0 then ""
    else if IsHttpUrl(d) then d
    else
      var r := DoiResolver + d;
      assert r[..8] == "https://";
      assert r[|r| - 1] == d[|d| - 1];
      r
  }

  /** Normalizing twice is normalizing once. */
  lemma NormalizeDoiIdempotent(raw: string)
    ensures NormalizeDoi(NormalizeDoi(raw)) == NormalizeDoi(raw)
  {
    var r := NormalizeDoi(raw);
    if |r| > 0 {
      assert Trim(r) == r;
    }
  }

  /** A bare DOI is resolved through doi.org. */
  lemma NormalizeBareDoi(doi: string)
    requires |doi| > 0 && Trimmed(doi) && !IsHttpUrl(doi)
    ensures NormalizeDoi(doi) == DoiResolver + doi
  {
  }

  // ---------------------------------------------------------------- authors

  /** Length of a match of `/\s+and\s+/i` at the start of `t`: white space,
      the word "and" in any case, white space. */
  function SepLen(t: string): (r: Option<nat>)
    ensures r.Some? ==> 5 <= r.value <= |t|
  {
    var k := SkipLen(t, IsSpace);
    if k == 0 then None
    else
      var u := t[k..];
      if !StartsWithCi(u, "and") then None
      else
        var v := u[3..];
        var m := SkipLen(v, IsSpace);
        if m == 0 then None else Some(k + 3 + m)
  }

  /** `split(/\s+and\s+/i)`: the separator is tried at every position from the
      left, and a match ends the current piece. */
  function SplitAnd(t: string): (parts: seq<string>)
    ensures |parts| >= 1
    decreases |t|
  {
    if |t| == 0 then [[]]
    else
      match SepLen(t)
      case Some(n) => [[]] + SplitAnd(t[n..])
      case None =>
        var rest := SplitAnd(t[1..]);
        [[t[0]] + rest[0]] + rest[1..]
  }

  /** `split(/\s+/)`: every run of white space ends a piece. */
  function SplitSpaces(t: string): (parts: seq<string>)
    ensures |parts| >= 1
    ensures |parts| == 1 ==> parts[0] == t
    ensures |parts| > 1 ==> |parts[|parts| - 1]| < |t|
    decreases |t|
  {
    if |t| == 0 then [[]]
    else
      var k := SkipLen(t, IsSpace);
      if k > 0 then
        var rest := SplitSpaces(t[k..]);
        var parts := [[]] + rest;
        assert parts[|parts| - 1] == rest[|rest| - 1];
        parts
      else
        var rest := SplitSpaces(t[1..]);
        var parts := [[t[0]] + rest[0]] + rest[1..];
        assert |rest| == 1 ==> [t[0]] + rest[0] == t;
        assert |rest| > 1 ==> parts[|parts| - 1] == rest[|rest| - 1];
        parts
  }

  function Last<T>(s: seq<T>): T
    requires |s| > 0
  {
    s[|s| - 1]
  }

  /** `r` is the final word of `t`: a suffix without white space that is all of
      `t` or follows white space. Exactly one suffix of `t` has this shape. */
  predicate IsLastWord(t: string, r: string) {
    && |r| <= |t|
    && t[|t| - |r|..] == r
    && NoSpace(r)
    && (|r| == |t| || IsSpace(t[|t| - |r| - 1]))
  }

  /** `split(/\s+/).slice(-1)[0]` is the final word. */
  lemma {:induction false} LastPieceIsLastWord(t: string)
    ensures IsLastWord(t, Last(SplitSpaces(t)))
    decreases |t|
  {
    if |t| > 0 {
      var k := SkipLen(t, IsSpace);
      if k > 0 {
        LastPieceIsLastWord(t[k..]);
        LastPieceAfterSpace(t);
      } else {
        LastPieceIsLastWord(t[1..]);
        LastPieceAfterWordChar(t);
      }
    }
  }

  /** Leading white space: the final word is that of the text after it. */
  lemma LastPieceAfterSpace(t: string)
    requires 0 < SkipLen(t, IsSpace)
    requires IsLastWord(t[SkipLen(t, IsSpace)..], Last(SplitSpaces(t[SkipLen(t, IsSpace)..])))
    ensures IsLastWord(t, Last(SplitSpaces(t)))
  {
    var k := SkipLen(t, IsSpace);
    SkipLenBefore(t);
    LastCons([], SplitSpaces(t[k..]));
    LastWordOfSuffix(t, k, Last(SplitSpaces(t[k..])));
  }

  lemma LastCons<T>(x: T, s: seq<T>)
    requires |s| > 0
    ensures Last([x] + s) == Last(s)
  {
  }

  lemma SkipLenBefore(t: string)
    requires SkipLen(t, IsSpace) > 0
    ensures IsSpace(t[SkipLen(t, IsSpace) - 1])
  {
    SkipLenAll(t, IsSpace);
  }

  /** A leading word character: it joins the first piece of the rest. */
  lemma LastPieceAfterWordChar(t: string)
    requires |t| > 0 && SkipLen(t, IsSpace) == 0
    requires IsLastWord(t[1..], Last(SplitSpaces(t[1..])))
    ensures IsLastWord(t, Last(SplitSpaces(t)))
  {
    if |SplitSpaces(t[1..])| == 1 {
      OneWord(t);
    } else {
      LaterWord(t);
    }
  }

  /** No white space after the first character: the text is one word. */
  lemma OneWord(t: string)
    requires |t| > 0 && SkipLen(t, IsSpace) == 0 && |SplitSpaces(t[1..])| == 1
    requires IsLastWord(t[1..], Last(SplitSpaces(t[1..])))
    ensures IsLastWord(t, Last(SplitSpaces(t)))
  {
    var parts := SplitSpaces(t);
    var rest := SplitSpaces(t[1..]);
    assert parts == [[t[0]] + rest[0]] + rest[1..];
    assert |parts| == 1;
    NoSpaceCons(t);
  }

  /** White space after the first character: the last word lies after it. */
  lemma LaterWord(t: string)
    requires |t| > 0 && SkipLen(t, IsSpace) == 0 && |SplitSpaces(t[1..])| > 1
    requires IsLastWord(t[1..], Last(SplitSpaces(t[1..])))
    ensures IsLastWord(t, Last(SplitSpaces(t)))
  {
    var rest := SplitSpaces(t[1..]);
    assert Last(SplitSpaces(t)) == Last(rest);
    LastWordOfSuffix(t, 1, Last(rest));
  }

  /** The final word of a suffix is the final word of the whole text, unless
      it is the entire suffix and a word character precedes it. */
  lemma LastWordOfSuffix(t: string, k: nat, r: string)
    requires 0 < k <= |t| && IsLastWord(t[k..], r)
    requires |r| < |t| - k || IsSpace(t[k - 1])
    ensures IsLastWord(t, r)
  {
    var s := t[k..];
    assert t[|t| - |r|..] == s[|s| - |r|..];
    if |r| < |s| {
      assert t[|t| - |r| - 1] == s[|s| - |r| - 1];
    }
  }

  lemma NoSpaceCons(t: string)
    requires |t| > 0 && !IsSpace(t[0]) && NoSpace(t[1..])
    ensures NoSpace(t)
  {
    assert forall j :: 1 <= j < |t| ==> t[j] == t[1..][j - 1];
  }

  /** The family name in one author: the text before the first comma
      ("Knuth, Donald"), or else the final word ("Donald Knuth"). */
  function LastName(name: string): (r: string)
    ensures ',' !in name ==> IsLastWord(name, r)
  {
    if ',' in name then Trim(Split(name, {','})[0])
    else
      LastPieceIsLastWord(name);
      Last(SplitSpaces(name))
  }

  /** "Family, Given" gives the trimmed family part. */
  lemma LastNameComma(family: string, given: string)
    requires ',' !in family
    ensures LastName(family + [','] + given) == Trim(family)
  {
    var name := family + [','] + given;
    assert name[|family|] == ',';
    SplitPiece(family, given, ',', {','});
  }

  /** No `and` separator starts anywhere in `name`, even if a space follows it. */
  predicate NoSeparator(name: string)
    decreases |name|
  {
    |name| == 0 || (SepLen(name + " ").None? && NoSeparator(name[1..]))
  }

  /** An author that can stand in an author list joined with " and ". */
  predicate IsAuthorName(name: string) {
    |name| > 0 && Trimmed(name) && NoSeparator(name)
  }

  /** The separator matches its defining shape: white space, "and" in any
      case, and all the white space that follows. */
  lemma SepLenOf(s1: string, w: string, s2: string, rest: string)
    requires |s1| > 0 && AllSpace(s1) && |s2| > 0 && AllSpace(s2)
    requires |w| == 3 && StartsWithCi(w, "and")
    requires |rest| == 0 || !IsSpace(rest[0])
    ensures SepLen(s1 + w + s2 + rest) == Some(|s1| + 3 + |s2|)
  {
    var z2 := s2 + rest;
    var z1 := w + z2;
    var t := s1 + z1;
    Regroup(s1, w, s2, rest);
    assert LowerChar(w[0]) == 'a';
    SpacesThen(s1, z1);
    DropPrefix(s1, z1);
    assert StartsWithCi(z1, "and") by {
      assert forall i :: 0 <= i < 3 ==> z1[i] == w[i];
    }
    DropPrefix(w, z2);
    SpacesThen(s2, rest);
  }

  /** `a + b + c + d`, grouped from the right. */
  lemma Regroup<T>(a: seq<T>, b: seq<T>, c: seq<T>, d: seq<T>)
    ensures a + b + c + d == a + (b + (c + d))
  {
  }

  /** White space followed by something else is skipped exactly. */
  lemma SpacesThen(s: string, z: string)
    requires AllSpace(s)
    requires |z| == 0 || !IsSpace(z[0])
    ensures SkipLen(s + z, IsSpace) == |s|
  {
    var t := s + z;
    assert forall j :: 0 <= j < |s| ==> t[j] == s[j];
    SkipLenUnique(t, IsSpace, |s|);
  }

  /** Extending the text never undoes a separator match at its start. */
  lemma SepLenExtend(t: string, x: string)
    requires SepLen(t).Some?
    ensures SepLen(t + x).Some?
  {
    var k := SkipLen(t, IsSpace);
    SkipLenAppend(t, x, IsSpace);
    var u := t[k..];
    assert (t + x)[k..] == u + x;
    assert forall i :: 0 <= i < 3 ==> (u + x)[i] == u[i];
    var v := u[3..];
    assert (u + x)[3..] == v + x;
    assert (v + x)[0] == v[0];
  }

  /** "and" cannot straddle a space. */
  lemma AndNeedsThree(b: string, z: string)
    requires |z| > 0 && z[0] == ' '
    ensures StartsWithCi(b + z, "and") ==> |b| >= 3
  {
    var u := b + z;
    if |b| < 3 {
      assert u[|b|] == ' ';
    }
  }

  /** Whether a separator starts a word that ends without white space and is
      followed by a space does not depend on what comes after that space. */
  lemma SepAfterWord(a: string, z1: string, z2: string)
    requires |a| > 0 && !IsSpace(a[|a| - 1])
    requires |z1| > 0 && z1[0] == ' ' && |z2| > 0 && z2[0] == ' '
    requires SepLen(a + z1).Some?
    ensures SepLen(a + z2).Some?
  {
    var k := SkipLen(a, IsSpace);
    SkipLenShort(a);
    SkipLenAppend(a, z1, IsSpace);
    SkipLenAppend(a, z2, IsSpace);
    var b := a[k..];
    SliceAppend(a, z1, k);
    SliceAppend(a, z2, k);
    AndNeedsThree(b, z1);
    SameHead(b, z1, z2);
    SliceAppend(b, z1, 3);
    SliceAppend(b, z2, 3);
    SkipLenStarts(b[3..] + z1);
    SkipLenStarts(b[3..] + z2);
  }

  /** "and" at the start of a word of three or more characters does not
      depend on what follows the word. */
  lemma SameHead(b: string, z1: string, z2: string)
    requires |b| >= 3
    ensures StartsWithCi(b + z1, "and") == StartsWithCi(b + z2, "and")
  {
    assert forall i :: 0 <= i < 3 ==> (b + z1)[i] == b[i] == (b + z2)[i];
  }

  /** A text not ending in white space is not all white space. */
  lemma SkipLenShort(t: string)
    requires |t| > 0 && !IsSpace(t[|t| - 1])
    ensures SkipLen(t, IsSpace) < |t|
  {
    SkipLenAll(t, IsSpace);
  }

  /** White space is skipped exactly when the text starts with it. */
  lemma SkipLenStarts(t: string)
    ensures SkipLen(t, IsSpace) > 0 <==> |t| > 0 && IsSpace(t[0])
  {
  }

  /** A word that does not end in white space and holds no separator of its own
      is not the start of a separator when " and " follows it. */
  lemma SepAfter(a: string, z: string)
    requires |a| > 0 && !IsSpace(a[|a| - 1])
    requires SepLen(a + " ").None?
    requires |z| > 0 && z[0] == ' '
    ensures SepLen(a + z).None?
  {
    if SepLen(a + z).Some? {
      SepAfterWord(a, z, " ");
    }
  }

  /** " and " is a separator, and it takes no more than its trailing space
      when a word follows. */
  lemma SepLenAnd(z: string, rest: string)
    requires z == " and " + rest
    requires |rest| == 0 || !IsSpace(rest[0])
    ensures SepLen(z) == Some(5)
    ensures z[5..] == rest
  {
    assert z[0] == ' ' && z[1] == 'a' && z[2] == 'n' && z[3] == 'd' && z[4] == ' ';
    SkipLenUnique(z, IsSpace, 1);
    var u := z[1..];
    assert StartsWithCi(u, "and");
    var v := u[3..];
    assert v == z[4..];
    assert |v| > 1 ==> v[1] == rest[0];
    SkipLenUnique(v, IsSpace, 1);
  }

  /** Where no separator starts, the first character joins the first piece. */
  lemma SplitAndNoSep(t: string)
    requires |t| > 0 && SepLen(t).None?
    ensures SplitAnd(t) == [[t[0]] + SplitAnd(t[1..])[0]] + SplitAnd(t[1..])[1..]
  {
  }

  /** An author followed by text that begins with a separator is split off
      whole. */
  lemma {:induction false} SplitAndWord(a: string, z: string, tail: seq<string>)
    requires |a| > 0 && !IsSpace(a[|a| - 1]) && NoSeparator(a)
    requires |z| > 0 && z[0] == ' ' && SplitAnd(z) == [[]] + tail
    ensures SplitAnd(a + z) == [a] + tail
    decreases |a|
  {
    var t := a + z;
    SepAfter(a, z);
    SplitAndNoSep(t);
    SliceAppend(a, z, 1);
    if |a| == 1 {
      assert t[1..] == z;
      assert [t[0]] + [] == a;
    } else {
      var a' := a[1..];
      assert a'[|a'| - 1] == a[|a| - 1];
      assert NoSeparator(a');
      SplitAndWord(a', z, tail);
      assert [a[0]] + a' == a;
    }
  }

  /** A single author is not split at all. */
  lemma {:induction false} SplitAndAlone(a: string)
    requires NoSeparator(a)
    ensures SplitAnd(a) == [a]
    decreases |a|
  {
    if |a| > 0 {
      if SepLen(a).Some? {
        SepLenExtend(a, " ");
        assert false;
      }
      SplitAndAlone(a[1..]);
      assert [a[0]] + a[1..] == a;
    }
  }

  /** Splitting authors joined with " and " gives back the authors. */
  lemma {:induction false} SplitAndJoin(names: seq<string>)
    requires |names| >= 1
    requires forall i :: 0 <= i < |names| ==> IsAuthorName(names[i])
    ensures SplitAnd(Join(names, " and ")) == names
  {
    if |names| == 1 {
      SplitAndAlone(names[0]);
    } else {
      var rest := Join(names[1..], " and ");
      var z := JoinAnd(names);
      SplitAndJoin(names[1..]);
      SplitAndSep(z, rest);
      assert IsAuthorName(names[0]);
      SplitAndWord(names[0], z, SplitAnd(rest));
    }
  }

  /** The first name and the rest of a join: `A and B and C` is `A` followed
      by " and " and the join of the others, which starts with a word. */
  lemma JoinAnd(names: seq<string>) returns (z: string)
    requires |names| >= 2
    requires forall i :: 0 <= i < |names| ==> IsAuthorName(names[i])
    ensures z == " and " + Join(names[1..], " and ")
    ensures Join(names, " and ") == names[0] + z
    ensures |Join(names[1..], " and ")| > 0 && !IsSpace(Join(names[1..], " and ")[0])
  {
    var rest := Join(names[1..], " and ");
    assert IsAuthorName(names[1]);
    if |names| > 2 {
      assert rest == names[1] + " and " + Join(names[2..], " and ");
    }
    assert rest[0] == names[1][0];
    z := " and " + rest;
  }

  /** After a separator the split starts a new author. */
  lemma SplitAndSep(z: string, rest: string)
    requires z == " and " + rest
    requires |rest| == 0 || !IsSpace(rest[0])
    ensures SplitAnd(z) == [[]] + SplitAnd(rest)
  {
    SepLenAnd(z, rest);
  }

  /** `formatAuthors`: the family name of the first author, followed by
      " & " and the second family name when there are exactly two authors,
      or by " et al." when there are more. */
  function FormatAuthors(field: string): (r: string)
    ensures AllSpace(field) ==> r == ""
  {
    if |field| == 0 then ""
    else
      var names := TrimNonEmpty(SplitAnd(field));
      SplitAndBlank(field);
      if |names| == 0 then ""
      else if |names| == 1 then LastName(names[0])
      else if |names| == 2 then LastName(names[0]) + " & " + LastName(names[1])
      else LastName(names[0]) + " et al."
  }

  /** A blank author field has only blank pieces. */
  lemma SplitAndBlank(field: string)
    ensures AllSpace(field) ==> TrimNonEmpty(SplitAnd(field)) == []
  {
    if AllSpace(field) {
      SplitAndBlankPieces(field);
      TrimNonEmptyBlank(SplitAnd(field));
    }
  }

  lemma {:induction false} SplitAndBlankPieces(field: string)
    requires AllSpace(field)
    ensures forall i :: 0 <= i < |SplitAnd(field)| ==> AllSpace(SplitAnd(field)[i])
    decreases |field|
  {
    if |field| > 0 {
      match SepLen(field)
      case Some(_) =>
        assert false;
      case None =>
        SplitAndBlankPieces(field[1..]);
        var rest := SplitAnd(field[1..]);
        var first := [field[0]] + rest[0];
        assert forall j :: 1 <= j < |first| ==> first[j] == rest[0][j - 1];
    }
  }

  /** The author law: zero, one, two and three or more authors joined with
      " and ". */
  lemma AuthorLaw(names: seq<string>)
    requires forall i :: 0 <= i < |names| ==> IsAuthorName(names[i])
    ensures |names| == 0 ==> FormatAuthors(Join(names, " and ")) == ""
    ensures |names| == 1 ==> FormatAuthors(Join(names, " and ")) == LastName(names[0])
    ensures |names| == 2 ==>
      FormatAuthors(Join(names, " and ")) == LastName(names[0]) + " & " + LastName(names[1])
    ensures |names| >= 3 ==>
      FormatAuthors(Join(names, " and ")) == LastName(names[0]) + " et al."
  {
    if |names| > 0 {
      var j := Join(names, " and ");
      assert |j| > 0 by {
        if |names| > 1 {
          assert j == names[0] + " and " + Join(names[1..], " and ");
        }
      }
      SplitAndJoin(names);
      TrimNonEmptyKeeps(names);
    }
  }

  // ------------------------------------------------------------ short form

  /** What a missing record is cited as in a citation bar. */
  const UnknownShort: string := "Unknown, n.d."

  /** `f.name || ""`: a field's value, or "" when the record lacks it. */
  function FieldText(f: map<string, string>, name: string): (r: string)
    ensures name in f ==> r == f[name]
    ensures name !in f ==> r == ""
  {
    if name in f then f[name] else ""
  }

  /** `s || fallback`. */
  function OrElse(s: string, fallback: string): (r: string)
    ensures |s| > 0 ==> r == s
    ensures |s| == 0 ==> r == fallback
  {
    if |s| > 0 then s else fallback
  }

  /** `formatShort`: "authors (year)" with "Unknown" and "n.d." standing in
      for what is missing; a missing record gives "Unknown, n.d.", which no
      record can produce. */
  function FormatShort(e: Option<Entry>): (r: string)
    ensures e.None? <==> r == UnknownShort
    ensures e.Some? ==> |r| > 0 && r[|r| - 1] == ')'
  {
    match e
    case None => UnknownShort
    case Some(entry) =>
      var a := OrElse(FormatAuthors(FieldText(entry.fields, "author")), "Unknown");
      var y := OrElse(FieldText(entry.fields, "year"), "n.d.");
      var r := a + " (" + y + ")";
      assert UnknownShort[|UnknownShort| - 1] == '.';
      r
  }

  /** A record whose author field is missing or blank is cited as "Unknown",
      with its year, or "n.d." when the year is missing or empty. */
  lemma ShortNoAuthor(e: Entry, year: string)
    requires AllSpace(FieldText(e.fields, "author"))
    requires FieldText(e.fields, "year") == year
    ensures year != "" ==> FormatShort(Some(e)) == "Unknown (" + year + ")"
    ensures year == "" ==> FormatShort(Some(e)) == "Unknown (n.d.)"
  {
    assert OrElse(FormatAuthors(FieldText(e.fields, "author")), "Unknown") == "Unknown";
    ShortParts(e, "Unknown", year);
    JoinLiterals(if year != "" then year else "n.d.");
  }

  /** Literal pieces of the short form glue together. */
  lemma JoinLiterals(y: string)
    ensures "Unknown" + " (" + y + ")" == "Unknown (" + y + ")"
    ensures y == "n.d." ==> "Unknown (" + y + ")" == "Unknown (n.d.)"
  {
    assert "Unknown" + " (" == "Unknown (";
  }

  /** The short form joins the author text and the year text around " (". */
  lemma ShortParts(e: Entry, a: string, year: string)
    requires OrElse(FormatAuthors(FieldText(e.fields, "author")), "Unknown") == a
    requires FieldText(e.fields, "year") == year
    ensures FormatShort(Some(e)) == a + " (" + (if year != "" then year else "n.d.") + ")"
  {
  }

  /** The short form of a record with authors: one, two, or three and more
      names, with its year or "n.d." when the year is missing or empty. A
      single name whose family part is empty falls back to "Unknown". */
  lemma ShortOfAuthors(e: Entry, names: seq<string>, year: string)
    requires |names| >= 1
    requires forall i :: 0 <= i < |names| ==> IsAuthorName(names[i])
    requires "author" in e.fields && e.fields["author"] == Join(names, " and ")
    requires FieldText(e.fields, "year") == year
    ensures var y := if year != "" then year else "n.d.";
      && (|names| == 1 && LastName(names[0]) != "" ==>
            FormatShort(Some(e)) == LastName(names[0]) + " (" + y + ")")
      && (|names| == 1 && LastName(names[0]) == "" ==>
            FormatShort(Some(e)) == "Unknown (" + y + ")")
      && (|names| == 2 ==>
            FormatShort(Some(e)) == LastName(names[0]) + " & " + LastName(names[1]) + " (" + y + ")")
      && (|names| >= 3 ==>
            FormatShort(Some(e)) == LastName(names[0]) + " et al." + " (" + y + ")")
  {
    assert AuthorsOf(e, names, year);
    if |names| == 1 {
      ShortOne(e, names, year);
    } else if |names| == 2 {
      ShortTwo(e, names, year);
    } else {
      ShortMany(e, names, year);
    }
  }

  /** A record whose author field joins `names` and whose year is `year`. */
  predicate AuthorsOf(e: Entry, names: seq<string>, year: string) {
    && (forall i :: 0 <= i < |names| ==> IsAuthorName(names[i]))
    && "author" in e.fields && e.fields["author"] == Join(names, " and ")
    && FieldText(e.fields, "year") == year
  }

  /** The short form of a record with one author. */
  lemma ShortOne(e: Entry, names: seq<string>, year: string)
    requires |names| == 1 && AuthorsOf(e, names, year)
    ensures var y := if year != "" then year else "n.d.";
      && (LastName(names[0]) != "" ==> FormatShort(Some(e)) == LastName(names[0]) + " (" + y + ")")
      && (LastName(names[0]) == "" ==> FormatShort(Some(e)) == "Unknown (" + y + ")")
  {
    AuthorLaw(names);
    if LastName(names[0]) == "" {
      ShortParts(e, "Unknown", year);
      JoinLiterals(if year != "" then year else "n.d.");
    } else {
      ShortParts(e, LastName(names[0]), year);
    }
  }

  /** The short form of a record with two authors. */
  lemma ShortTwo(e: Entry, names: seq<string>, year: string)
    requires |names| == 2 && AuthorsOf(e, names, year)
    ensures var y := if year != "" then year else "n.d.";
      FormatShort(Some(e)) == LastName(names[0]) + " & " + LastName(names[1]) + " (" + y + ")"
  {
    AuthorLaw(names);
    ShortParts(e, OrElse(LastName(names[0]) + " & " + LastName(names[1]), "Unknown"), year);
  }

  /** The short form of a record with three or more authors. */
  lemma ShortMany(e: Entry, names: seq<string>, year: string)
    requires |names| >= 3 && AuthorsOf(e, names, year)
    ensures var y := if year != "" then year else "n.d.";
      FormatShort(Some(e)) == LastName(names[0]) + " et al." + " (" + y + ")"
  {
    AuthorLaw(names);
    ShortParts(e, LastName(names[0]) + " et al.", year);
  }

  // --------------------------------------------------------------- messages

  /** The document language `getDocLang` settles on. */
  datatype Lang = De | En

  /** The entries of the `I18N` table for one language. */
  function Message(lang: Lang, key: string): (r: Option<string>)
    ensures r.Some? ==> |r.value| > 0
  {
    match lang
    case De =>
      if key == "sourcesTitle" then Some("Literaturverzeichnis")
      else if key == "lastAccessed" then Some("Letzter Zugriff am")
      else if key == "missingUrlDate" then Some("FEHLT: urldate")
      else None
    case En =>
      if key == "sourcesTitle" then Some("Sources")
      else if key == "lastAccessed" then Some("Last accessed")
      else if key == "missingUrlDate" then Some("MISSING: urldate")
      else None
  }

  /** `t(lang, key)`: the language's text, else the English text, else the key itself. */
  function T(lang: Lang, key: string): (r: string)
    ensures |key| > 0 ==> |r| > 0
  {
    match Message(lang, key)
    case Some(s) => OrElse(s, OrElse(Message(En, key).GetOr(""), key))
    case None => OrElse(Message(En, key).GetOr(""), key)
  }

  /** The keys the code asks for. */
  predicate IsMessageKey(key: string) {
    key == "sourcesTitle" || key == "lastAccessed" || key == "missingUrlDate"
  }

  /** Both languages know every key, so the English fallback never decides a
      text, and a key nobody knows is shown as itself. */
  lemma MessageTables(lang: Lang, key: string)
    ensures Message(lang, key).Some? <==> IsMessageKey(key)
    ensures IsMessageKey(key) ==> T(lang, key) == Message(lang, key).value
    ensures !IsMessageKey(key) ==> T(lang, key) == key
  {
  }

  // ------------------------------------------------------------- long form

  /** A piece of a bibliography item: text, or a link opened in a new tab. */
  datatype Piece = Text(s: string) | Link(href: string, linkText: string)

  /** `filter(Boolean)` on strings: drops the empty ones and keeps the order. */
  function Compact(parts: seq<string>): (r: seq<string>)
    ensures forall i :: 0 <= i < |r| ==> |r[i]| > 0
    ensures |r| <= |parts|
    ensures (forall i :: 0 <= i < |parts| ==> |parts[i]| > 0) ==> r == parts
  {
    if |parts| == 0 then []
    else (if |parts[0]| > 0 then [parts[0]] else []) + Compact(parts[1..])
  }

  /** `[a, b].filter(Boolean).join(sep)`: `sep` only between two non-empty texts. */
  lemma JoinCompactPair(a: string, b: string, sep: string)
    ensures Join(Compact([a, b]), sep) ==
      if |a| == 0 then b else if |b| == 0 then a else a + sep + b
  {
    assert [a, b][1..] == [b];
  }

  /** `a || b || c || ""`: the first non-empty text. */
  function FirstNonEmpty(parts: seq<string>): (r: string)
    ensures |r| == 0 <==> forall i :: 0 <= i < |parts| ==> |parts[i]| == 0
  {
    if |parts| == 0 then ""
    else if |parts[0]| > 0 then parts[0]
    else FirstNonEmpty(parts[1..])
  }

  /** The text chosen is the first non-empty one. */
  lemma {:induction false} FirstNonEmptyIs(parts: seq<string>, i: nat)
    requires i < |parts| && |parts[i]| > 0
    requires forall j :: 0 <= j < i ==> |parts[j]| == 0
    ensures FirstNonEmpty(parts) == parts[i]
  {
    if i > 0 {
      FirstNonEmptyIs(parts[1..], i - 1);
    }
  }

  /** The venue: journal, else book title, else publisher. */
  function Container(f: map<string, string>): string {
    FirstNonEmpty([FieldText(f, "journal"), FieldText(f, "booktitle"), FieldText(f, "publisher")])
  }

  /** "authors, year — title. venue", with empty parts and their separators left out. */
  function BaseText(f: map<string, string>): (r: string)
    ensures |r| == 0 <==>
      |FormatAuthors(FieldText(f, "author"))| == 0 && |FieldText(f, "year")| == 0
      && |FieldText(f, "title")| == 0 && |Container(f)| == 0
  {
    var a := FormatAuthors(FieldText(f, "author"));
    var y := FieldText(f, "year");
    var ti := FieldText(f, "title");
    var c := Container(f);
    var head := Join(Compact([a, y]), ", ");
    var mid := Join(Compact([ti, c]), ". ");
    JoinCompactPair(a, y, ", ");
    JoinCompactPair(ti, c, ". ");
    JoinCompactPair(head, mid, " \U{2014} ");
    Join(Compact([head, mid]), " \U{2014} ")
  }

  /** A record with everything present reads "A, Y — T. V". */
  lemma BaseTextFull(f: map<string, string>)
    requires |FormatAuthors(FieldText(f, "author"))| > 0 && |FieldText(f, "year")| > 0
    requires |FieldText(f, "title")| > 0 && |Container(f)| > 0
    ensures BaseText(f) ==
      FormatAuthors(FieldText(f, "author")) + ", " + FieldText(f, "year") + " \U{2014} "
      + FieldText(f, "title") + ". " + Container(f)
  {
    var a := FormatAuthors(FieldText(f, "author"));
    var y := FieldText(f, "year");
    var ti := FieldText(f, "title");
    var c := Container(f);
    JoinCompactPair(a, y, ", ");
    JoinCompactPair(ti, c, ". ");
    JoinCompactPair(a + ", " + y, ti + ". " + c, " \U{2014} ");
    AppendThree(a + ", " + y + " \U{2014} ", ti, ". ", c);
  }

  /** Appending a text of three parts is appending its parts in turn. */
  lemma AppendThree(x: string, p: string, q: string, r: string)
    ensures x + (p + q + r) == x + p + q + r
  {
  }

  /** A record with none of author, year, title or venue has an empty base text. */
  lemma BaseTextEmpty(f: map<string, string>)
    requires "author" !in f && "year" !in f && "title" !in f
    requires "journal" !in f && "booktitle" !in f && "publisher" !in f
    ensures BaseText(f) == ""
  {
    JoinCompactPair("", "", ", ");
    JoinCompactPair("", "", ". ");
    JoinCompactPair("", "", " \U{2014} ");
  }

  /** What a missing record renders as in the bibliography. */
  const UnknownSource: string := "Unknown source"

  /** Links open the address they show. */
  predicate SelfLabelled(ps: seq<Piece>) {
    |ps| == 0 || ((ps[0].Link? ==> ps[0].href == ps[0].linkText) && SelfLabelled(ps[1..]))
  }

  /** A text, then a link that shows its own address, then `tail`. */
  function LinkThen(lead: string, href: string, tail: seq<Piece>): (ps: seq<Piece>)
    requires |tail| <= 1 && (|tail| == 1 ==> tail[0].Text?)
    ensures |ps| == 2 + |tail| && ps[0].Text? && ps[1].Link?
    ensures |tail| == 1 ==> ps[2] == tail[0]
    ensures SelfLabelled(ps)
  {
    var ps := [Text(lead), Link(href, href)] + tail;
    assert ps[1..] == [Link(href, href)] + tail;
    assert ps[1..][1..] == tail;
    assert |tail| == 1 ==> tail[1..] == [];
    assert SelfLabelled(tail);
    assert SelfLabelled(ps[1..]);
    ps
  }

  /** The text after a linked URL: the access date, or a marker that it is missing. */
  function AccessNote(date: string, lang: Lang): string {
    if |date| > 0 then ", " + T(lang, "lastAccessed") + " " + date
    else " (" + T(lang, "missingUrlDate") + ")"
  }

  /** What follows the base text: the DOI link, which wins over a URL, or the
      URL link followed by its access note. */
  function Reference(f: map<string, string>, lang: Lang): (ps: seq<Piece>)
    ensures |ps| == 0 || |ps| == 2 || |ps| == 3
    ensures |ps| > 0 ==> ps[0].Text? && ps[1].Link?
    ensures |ps| == 3 ==> ps[2].Text?
    ensures SelfLabelled(ps)
  {
    var doi := Trim(FieldText(f, "doi"));
    var url := Trim(FieldText(f, "url"));
    if |doi| > 0 then LinkThen(". DOI: ", NormalizeDoi(doi), [])
    else if |url| > 0 then LinkThen(". ", url, [Text(AccessNote(Trim(FieldText(f, "urldate")), lang))])
    else []
  }

  /** `formatEntryNodes`: the base text and the reference, or "Unknown source"
      for a missing record. */
  function LongForm(e: Option<Entry>, lang: Lang): (ps: seq<Piece>)
    ensures e.None? ==> ps == [Text(UnknownSource)]
    ensures |ps| == 1 || |ps| == 3 || |ps| == 4
    ensures ps[0].Text? && SelfLabelled(ps)
  {
    match e
    case None => [Text(UnknownSource)]
    case Some(entry) =>
      var rest := Reference(entry.fields, lang);
      var ps := [Text(BaseText(entry.fields))] + rest;
      assert ps[1..] == rest;
      ps
  }

  /** A DOI wins: the only link is the normalized DOI, whatever the URL. */
  lemma DoiWins(e: Entry, lang: Lang)
    requires !AllSpace(FieldText(e.fields, "doi"))
    ensures LongForm(Some(e), lang) ==
      [Text(BaseText(e.fields)), Text(". DOI: "),
       Link(NormalizeDoi(FieldText(e.fields, "doi")), NormalizeDoi(FieldText(e.fields, "doi")))]
  {
    var raw := FieldText(e.fields, "doi");
    assert Trim(Trim(raw)) == Trim(raw);
  }

  /** Without a DOI, a URL is linked and followed by its access date. */
  lemma UrlWithDate(e: Entry, lang: Lang)
    requires AllSpace(FieldText(e.fields, "doi"))
    requires !AllSpace(FieldText(e.fields, "url")) && !AllSpace(FieldText(e.fields, "urldate"))
    ensures var url := Trim(FieldText(e.fields, "url"));
      LongForm(Some(e), lang) ==
        [Text(BaseText(e.fields)), Text(". "), Link(url, url),
         Text(", " + T(lang, "lastAccessed") + " " + Trim(FieldText(e.fields, "urldate")))]
  {
    UrlPieces(e, lang);
  }

  /** Without a DOI, a URL without an access date is flagged. */
  lemma UrlWithoutDate(e: Entry, lang: Lang)
    requires AllSpace(FieldText(e.fields, "doi"))
    requires !AllSpace(FieldText(e.fields, "url")) && AllSpace(FieldText(e.fields, "urldate"))
    ensures var url := Trim(FieldText(e.fields, "url"));
      LongForm(Some(e), lang) ==
        [Text(BaseText(e.fields)), Text(". "), Link(url, url),
         Text(" (" + T(lang, "missingUrlDate") + ")")]
  {
    UrlPieces(e, lang);
  }

  lemma UrlPieces(e: Entry, lang: Lang)
    requires AllSpace(FieldText(e.fields, "doi")) && !AllSpace(FieldText(e.fields, "url"))
    ensures var url := Trim(FieldText(e.fields, "url"));
      LongForm(Some(e), lang) ==
        [Text(BaseText(e.fields)), Text(". "), Link(url, url),
         Text(AccessNote(Trim(FieldText(e.fields, "urldate")), lang))]
  {
    var url := Trim(FieldText(e.fields, "url"));
    var note := Text(AccessNote(Trim(FieldText(e.fields, "urldate")), lang));
    LongFormSome(e, lang);
    ReferenceUrl(e.fields, lang);
    ConsThree(Text(BaseText(e.fields)), Text(". "), Link(url, url), note);
  }

  lemma ReferenceUrl(f: map<string, string>, lang: Lang)
    requires AllSpace(FieldText(f, "doi")) && !AllSpace(FieldText(f, "url"))
    ensures var url := Trim(FieldText(f, "url"));
      Reference(f, lang) == [Text(". "), Link(url, url), Text(AccessNote(Trim(FieldText(f, "urldate")), lang))]
  {
    var url := Trim(FieldText(f, "url"));
    var note := Text(AccessNote(Trim(FieldText(f, "urldate")), lang));
    assert Reference(f, lang) == LinkThen(". ", url, [note]);
    LinkThenIs(". ", url, [note]);
  }

  lemma ConsThree<T>(x: T, a: T, b: T, c: T)
    ensures [x] + [a, b, c] == [x, a, b, c]
  {
  }

  lemma LongFormSome(e: Entry, lang: Lang)
    ensures LongForm(Some(e), lang) == [Text(BaseText(e.fields))] + Reference(e.fields, lang)
  {
  }

  lemma LinkThenIs(lead: string, href: string, tail: seq<Piece>)
    requires |tail| <= 1 && (|tail| == 1 ==> tail[0].Text?)
    ensures LinkThen(lead, href, tail) == [Text(lead), Link(href, href)] + tail
  {
  }

  /** Without DOI and URL there is no link, only the base text. */
  lemma NoLink(e: Entry, lang: Lang)
    requires AllSpace(FieldText(e.fields, "doi")) && AllSpace(FieldText(e.fields, "url"))
    ensures LongForm(Some(e), lang) == [Text(BaseText(e.fields))]
  {
  }
}
