/** Characters and strings as the JavaScript engine sees them: white space,
    trimming, ASCII lower-casing, splitting on separator characters, joining,
    the decimal rendering of a number in a template string, and property
    assignment on a plain JavaScript object. */
module Text {

  /** Line terminators: where `^` and `$` match in multiline mode and what `.` refuses. */
  predicate IsLineTerminator(c: char) {
    c == '\n' || c == '\r' || c == '\U{2028}' || c == '\U{2029}'
  }

  /** JavaScript white space: the regular-expression class `\s`, which is also
      exactly the set of characters `String.prototype.trim` removes. */
  predicate IsSpace(c: char) {
    || IsLineTerminator(c)
    || c == '\t' || c == '\U{B}' || c == '\U{C}' || c == ' '
    || c == '\U{A0}' || c == '\U{1680}' || ('\U{2000}' <= c <= '\U{200A}')
    || c == '\U{202F}' || c == '\U{205F}' || c == '\U{3000}' || c == '\U{FEFF}'
  }

  predicate NoneIn(s: seq<char>, cs: set<char>) {
    forall i :: 0 <= i < |s| ==> s[i] !in cs
  }

  predicate AllSpace(s: seq<char>) {
    forall i :: 0 <= i < |s| ==> IsSpace(s[i])
  }

  predicate NoSpace(s: seq<char>) {
    forall i :: 0 <= i < |s| ==> !IsSpace(s[i])
  }

  /** No white space at either end: the shape of every `trim()` result. */
  predicate Trimmed(s: seq<char>) {
    |s| == 0 || (!IsSpace(s[0]) && !IsSpace(s[|s| - 1]))
  }

  predicate StartsWith(s: seq<char>, prefix: seq<char>) {
    |prefix| <= |s| && s[..|prefix|] == prefix
  }

  /** Length of the longest prefix of `t` whose characters all satisfy `p`:
      the effect of `while (i < n && p(t[i])) i++`. */
  function SkipLen(t: seq<char>, p: char -> bool): (n: nat)
    ensures n <= |t|
    ensures n < |t| ==> !p(t[n])
  {
    if |t| > 0 && p(t[0]) then 1 + SkipLen(t[1..], p) else 0
  }

  /** Every character SkipLen passes over satisfies `p`. Kept apart from
      SkipLen's contract so that the quantifier is in scope only where a
      proof asks for it. */
  lemma {:induction false} SkipLenAll(t: seq<char>, p: char -> bool)
    ensures forall j :: 0 <= j < SkipLen(t, p) ==> p(t[j])
  {
    if |t| > 0 && p(t[0]) {
      SkipLenAll(t[1..], p);
      assert forall j :: 1 <= j < SkipLen(t, p) ==> t[j] == t[1..][j - 1];
    }
  }

  /** SkipLen is the only length with its three properties. */
  lemma {:induction false} SkipLenUnique(t: seq<char>, p: char -> bool, m: nat)
    requires m <= |t|
    requires forall j :: 0 <= j < m ==> p(t[j])
    requires m < |t| ==> !p(t[m])
    ensures SkipLen(t, p) == m
  {
    if m > 0 {
      assert p(t[0]);
      assert forall j :: 0 <= j < m - 1 ==> t[1..][j] == t[j + 1];
      SkipLenUnique(t[1..], p, m - 1);
    }
  }

  /** Skipping over a run that lies wholly inside `a` ignores what follows `a`. */
  lemma SkipLenAppend(a: seq<char>, b: seq<char>, p: char -> bool)
    ensures SkipLen(a, p) < |a| ==> SkipLen(a + b, p) == SkipLen(a, p)
    ensures SkipLen(a, p) == |a| ==> SkipLen(a + b, p) == |a| + SkipLen(b, p)
  {
    var n := SkipLen(a, p);
    SkipLenAll(a, p);
    if n < |a| {
      SkipLenUnique(a + b, p, n);
    } else {
      var m := SkipLen(b, p);
      SkipLenAll(b, p);
      assert forall j :: |a| <= j < |a| + m ==> (a + b)[j] == b[j - |a|];
      SkipLenUnique(a + b, p, |a| + m);
    }
  }

  /** A run that fills `a` exactly and is stopped by the first character of `b`. */
  lemma SkipLenPrefix(a: seq<char>, b: seq<char>, p: char -> bool)
    requires forall j :: 0 <= j < |a| ==> p(a[j])
    requires |b| > 0 && !p(b[0])
    ensures SkipLen(a + b, p) == |a|
  {
    assert forall j :: 0 <= j < |a| ==> (a + b)[j] == a[j];
    assert (a + b)[|a|] == b[0];
    SkipLenUnique(a + b, p, |a|);
  }

  lemma DropPrefix<T>(a: seq<T>, b: seq<T>)
    ensures (a + b)[|a|..] == b
  {
  }

  lemma SliceAppend<T>(a: seq<T>, z: seq<T>, k: nat)
    requires k <= |a|
    ensures (a + z)[k..] == a[k..] + z
  {
  }

  /** Length of the longest suffix of `t` whose characters all satisfy `p`. */
  function TrailLen(t: seq<char>, p: char -> bool): (n: nat)
    ensures n <= |t|
    ensures forall j :: |t| - n <= j < |t| ==> p(t[j])
    ensures n < |t| ==> !p(t[|t| - n - 1])
  {
    if |t| > 0 && p(t[|t| - 1]) then 1 + TrailLen(t[..|t| - 1], p) else 0
  }

  /** `r` sits in `s` at position `a` with only white space before and after it. */
  predicate CoreAt(s: seq<char>, r: seq<char>, a: int) {
    && 0 <= a && a + |r| <= |s|
    && s[a..a + |r|] == r
    && AllSpace(s[..a])
    && AllSpace(s[a + |r|..])
  }

  /** `String.prototype.trim`: white space goes from both ends, and the
      interior is kept as it is. */
  function Trim(s: seq<char>): (r: seq<char>)
    ensures Trimmed(r)
    ensures exists a :: CoreAt(s, r, a)
    ensures Trimmed(s) ==> r == s
    ensures |r| == 0 <==> AllSpace(s)
    ensures |r| <= |s|
    ensures forall c :: c in r ==> c in s
  {
    var a := SkipLen(s, IsSpace);
    var u := s[a..];
    var b := TrailLen(u, IsSpace);
    TrimEnds(s, a, b);
    TrimEmpty(s, a, b);
    TrimKeepsTrimmed(s, a, b);
    TrimCore(s, a, b);
    u[..|u| - b]
  }

  lemma TrimCore(s: seq<char>, a: nat, b: nat)
    requires a == SkipLen(s, IsSpace) && b == TrailLen(s[a..], IsSpace)
    ensures CoreAt(s, s[a..][..|s| - a - b], a)
  {
    SkippedSpace(s);
    TrailingSpace(s[a..]);
    CoreOfParts(s, a, b);
  }

  /** What is left between two runs of white space sits in the text between them. */
  lemma CoreOfParts(s: seq<char>, a: nat, b: nat)
    requires a + b <= |s|
    requires AllSpace(s[..a]) && AllSpace(s[a..][|s| - a - b..])
    ensures CoreAt(s, s[a..][..|s| - a - b], a)
  {
    var u := s[a..];
    var r := u[..|s| - a - b];
    assert s[a..a + |r|] == r;
    assert s[a + |r|..] == u[|s| - a - b..];
  }

  lemma SkippedSpace(s: seq<char>)
    ensures AllSpace(s[..SkipLen(s, IsSpace)])
  {
    SkipLenAll(s, IsSpace);
  }

  lemma TrailingSpace(u: seq<char>)
    ensures AllSpace(u[|u| - TrailLen(u, IsSpace)..])
  {
    var b := TrailLen(u, IsSpace);
    var t := u[|u| - b..];
    assert forall j :: 0 <= j < b ==> t[j] == u[|u| - b + j];
  }

  lemma TrimEnds(s: seq<char>, a: nat, b: nat)
    requires a == SkipLen(s, IsSpace) && b == TrailLen(s[a..], IsSpace)
    ensures Trimmed(s[a..][..|s| - a - b])
  {
    var t := s[a..];
    if b < |t| {
      EndsOfParts(s, a, b);
    } else {
      assert |t[..|s| - a - b]| == 0;
    }
  }

  lemma EndsOfParts(s: seq<char>, a: nat, b: nat)
    requires a + b < |s| && !IsSpace(s[a]) && !IsSpace(s[a..][|s[a..]| - b - 1])
    ensures Trimmed(s[a..][..|s| - a - b])
  {
    var r := s[a..][..|s| - a - b];
    assert r[0] == s[a];
    assert r[|r| - 1] == s[a..][|s[a..]| - b - 1];
  }

  /** Trimming leaves nothing exactly when the text is all white space. */
  lemma TrimEmpty(s: seq<char>, a: nat, b: nat)
    requires a == SkipLen(s, IsSpace) && b == TrailLen(s[a..], IsSpace)
    ensures a + b == |s| <==> AllSpace(s)
  {
    SkipLenAll(s, IsSpace);
    if a < |s| {
      assert s[a..][0] == s[a];
    }
  }

  lemma TrimKeepsTrimmed(s: seq<char>, a: nat, b: nat)
    requires a == SkipLen(s, IsSpace) && b == TrailLen(s[a..], IsSpace)
    ensures Trimmed(s) ==> a == 0 && b == 0
  {
    if |s| > 0 && Trimmed(s) {
      assert s[0..] == s;
    }
  }

  /** Trimming a string without white space at all changes nothing. */
  lemma TrimNoSpace(s: seq<char>)
    requires NoSpace(s)
    ensures Trim(s) == s
  {
  }

  function LowerChar(c: char): char {
    if 'A' <= c <= 'Z' then (c as int + 32) as char else c
  }

  /** `toLowerCase()` on text that is ASCII, which is the only text it is applied to here. */
  function Lower(s: seq<char>): (r: seq<char>)
    ensures |r| == |s|
    ensures forall i :: 0 <= i < |s| ==> r[i] == LowerChar(s[i])
  {
    if |s| == 0 then []
    else
      var r := [LowerChar(s[0])] + Lower(s[1..]);
      assert forall i :: 1 <= i < |s| ==> r[i] == Lower(s[1..])[i - 1];
      r
  }

  /** Case-insensitive match of a lower-case ASCII literal at the start of `t`
      (regular-expression flag `i`, which never maps a non-ASCII character to ASCII). */
  predicate StartsWithCi(t: seq<char>, lit: seq<char>) {
    |lit| <= |t| && forall i :: 0 <= i < |lit| ==> LowerChar(t[i]) == lit[i]
  }

  /** `replace(/[{}]/g, "")`. */
  function RemoveBraces(s: seq<char>): (r: seq<char>)
    ensures NoneIn(r, {'{', '}'})
    ensures |r| <= |s|
    ensures NoneIn(s, {'{', '}'}) ==> r == s
    ensures forall c :: c in r ==> c in s
  {
    if |s| == 0 then []
    else (if s[0] == '{' || s[0] == '}' then [] else [s[0]]) + RemoveBraces(s[1..])
  }

  /** Brace removal works character by character: a brace goes, anything else stays. */
  lemma RemoveBracesChar(x: char)
    ensures x == '{' || x == '}' ==> RemoveBraces([x]) == []
    ensures x != '{' && x != '}' ==> RemoveBraces([x]) == [x]
  {
  }

  /** Brace removal distributes over concatenation, so with RemoveBracesChar
      it keeps every other character, in order. */
  lemma {:induction false} RemoveBracesAppend(a: seq<char>, b: seq<char>)
    ensures RemoveBraces(a + b) == RemoveBraces(a) + RemoveBraces(b)
  {
    if |a| > 0 {
      assert (a + b)[1..] == a[1..] + b;
      RemoveBracesAppend(a[1..], b);
    } else {
      assert a + b == b;
    }
  }

  /** Number of characters of `s` that belong to `cs`. */
  function Count(s: seq<char>, cs: set<char>): nat {
    if |s| == 0 then 0 else (if s[0] in cs then 1 else 0) + Count(s[1..], cs)
  }

  /** `split` on a one-character separator (or a one-character class such as
      `/[;,]/`): every separator ends a piece, so "a,,b" has an empty middle
      piece and the empty string is one empty piece. */
  function Split(s: seq<char>, seps: set<char>): (parts: seq<seq<char>>)
    ensures |parts| == 1 + Count(s, seps)
    ensures forall i :: 0 <= i < |parts| ==> NoneIn(parts[i], seps)
  {
    if |s| == 0 then [[]]
    else
      var rest := Split(s[1..], seps);
      if s[0] in seps then [[]] + rest
      else
        var first := [s[0]] + rest[0];
        assert forall i :: 1 <= i < |first| ==> first[i] == rest[0][i - 1];
        [first] + rest[1..]
  }

  /** The number of characters in all the parts together. */
  function TotalLen(parts: seq<seq<char>>): nat {
    if |parts| == 0 then 0 else |parts[0]| + TotalLen(parts[1..])
  }

  /** `Array.prototype.join`. */
  function Join(parts: seq<seq<char>>, sep: seq<char>): seq<char> {
    if |parts| == 0 then []
    else if |parts| == 1 then parts[0]
    else parts[0] + sep + Join(parts[1..], sep)
  }

  /** A join holds every part and one separator between each two parts: its
      length is the parts' total plus one separator fewer than there are parts. */
  lemma {:induction false} JoinLength(parts: seq<seq<char>>, sep: seq<char>)
    ensures |parts| == 0 ==> Join(parts, sep) == []
    ensures |parts| > 0 ==> |Join(parts, sep)| == TotalLen(parts) + (|parts| - 1) * |sep|
  {
    if |parts| == 1 {
      assert TotalLen(parts) == |parts[0]| + TotalLen(parts[1..]);
    } else if |parts| > 1 {
      JoinLength(parts[1..], sep);
      assert (|parts| - 1) * |sep| == |sep| + (|parts| - 2) * |sep|;
    }
  }

  /** A join holds no character of `cs` when neither the parts nor the separator do. */
  lemma {:induction false} JoinNoneIn(parts: seq<seq<char>>, sep: seq<char>, cs: set<char>)
    requires forall i :: 0 <= i < |parts| ==> NoneIn(parts[i], cs)
    requires NoneIn(sep, cs)
    ensures NoneIn(Join(parts, sep), cs)
  {
    if |parts| > 1 {
      JoinNoneIn(parts[1..], sep, cs);
      var rest := Join(parts[1..], sep);
      assert Join(parts, sep) == parts[0] + sep + rest;
      forall k | 0 <= k < |parts[0] + sep + rest|
        ensures (parts[0] + sep + rest)[k] !in cs
      {
        if k >= |parts[0]| + |sep| {
          assert (parts[0] + sep + rest)[k] == rest[k - |parts[0]| - |sep|];
        }
      }
    }
  }

  /** Joining the pieces of a split with the separator gives back the text. */
  lemma {:induction false} JoinSplit(s: seq<char>, c: char)
    ensures Join(Split(s, {c}), [c]) == s
  {
    if |s| > 0 {
      JoinSplit(s[1..], c);
      var rest := Split(s[1..], {c});
      if s[0] != c {
        if |rest| == 1 {
        } else {
          assert Join(rest, [c]) == rest[0] + [c] + Join(rest[1..], [c]);
        }
      }
    }
  }

  /** Splitting a join gives back the pieces, provided no piece holds a separator. */
  lemma {:induction false} SplitJoin(parts: seq<seq<char>>, c: char, seps: set<char>)
    requires |parts| >= 1
    requires c in seps
    requires forall i :: 0 <= i < |parts| ==> NoneIn(parts[i], seps)
    ensures Split(Join(parts, [c]), seps) == parts
  {
    if |parts| == 1 {
      SplitNoSep(parts[0], seps);
    } else {
      SplitJoin(parts[1..], c, seps);
      SplitPiece(parts[0], Join(parts[1..], [c]), c, seps);
    }
  }

  lemma {:induction false} SplitNoSep(s: seq<char>, seps: set<char>)
    requires NoneIn(s, seps)
    ensures Split(s, seps) == [s]
  {
    if |s| > 0 {
      SplitNoSep(s[1..], seps);
      assert [s[0]] + s[1..] == s;
    }
  }

  /** A separator splits a text into the pieces before it and the pieces after it. */
  lemma {:induction false} SplitAtSep(x: seq<char>, c: char, y: seq<char>, seps: set<char>)
    requires c in seps
    ensures Split(x + [c] + y, seps) == Split(x, seps) + Split(y, seps)
    decreases |x|
  {
    if |x| == 0 {
      assert x + [c] + y == [c] + y;
      assert ([c] + y)[1..] == y;
    } else {
      assert (x + [c] + y)[0] == x[0];
      assert (x + [c] + y)[1..] == x[1..] + [c] + y;
      SplitAtSep(x[1..], c, y, seps);
    }
  }

  lemma {:induction false} SplitPiece(a: seq<char>, b: seq<char>, c: char, seps: set<char>)
    requires c in seps && NoneIn(a, seps)
    ensures Split(a + [c] + b, seps) == [a] + Split(b, seps)
  {
    if |a| == 0 {
      assert (a + [c] + b)[1..] == b;
    } else {
      assert (a + [c] + b)[1..] == a[1..] + [c] + b;
      assert (a + [c] + b)[0] == a[0];
      SplitPiece(a[1..], b, c, seps);
      assert [a[0]] + a[1..] == a;
    }
  }

  /** The pieces of a split that are non-empty after trimming, trimmed: the
      `split(..).map(s => s.trim()).filter(Boolean)` idiom. */
  function TrimNonEmpty(parts: seq<seq<char>>): (r: seq<seq<char>>)
    ensures forall i :: 0 <= i < |r| ==> |r[i]| > 0 && Trimmed(r[i])
    ensures |r| <= |parts|
  {
    if |parts| == 0 then []
    else
      var t := Trim(parts[0]);
      (if |t| > 0 then [t] else []) + TrimNonEmpty(parts[1..])
  }

  /** Pieces that are already trimmed and non-empty pass through unchanged. */
  lemma {:induction false} TrimNonEmptyKeeps(parts: seq<seq<char>>)
    requires forall i :: 0 <= i < |parts| ==> |parts[i]| > 0 && Trimmed(parts[i])
    ensures TrimNonEmpty(parts) == parts
  {
    if |parts| > 0 {
      TrimNonEmptyKeeps(parts[1..]);
    }
  }

  /** A text whose one non-blank character sits at `lead` trims to that character. */
  lemma TrimOneChar(p: seq<char>, lead: nat)
    requires lead < |p| && !IsSpace(p[lead])
    requires AllSpace(p[..lead]) && AllSpace(p[lead + 1..])
    ensures Trim(p) == [p[lead]]
  {
    var r := Trim(p);
    var a :| CoreAt(p, r, a);
    assert |r| > 0;
    forall i | 0 <= i < |p| && i != lead
      ensures IsSpace(p[i])
    {
      if i < lead {
        assert p[..lead][i] == p[i];
      } else {
        assert p[lead + 1..][i - lead - 1] == p[i];
      }
    }
    assert r[0] == p[a];
    assert r[|r| - 1] == p[a + |r| - 1];
    assert a == lead && |r| == 1;
  }

  /** White space in front of a trimmed text is all that trimming removes. */
  lemma TrimPadded(w: seq<char>, k: seq<char>)
    requires AllSpace(w) && |k| > 0 && Trimmed(k)
    ensures Trim(w + k) == k
  {
    var s := w + k;
    var r := Trim(s);
    var a :| CoreAt(s, r, a);
    assert s[|w|] == k[0] && s[|s| - 1] == k[|k| - 1];
    assert |r| > 0;
    forall i | 0 <= i < |w|
      ensures IsSpace(s[i])
    {
      assert s[i] == w[i];
    }
    assert r[0] == s[a] && r[|r| - 1] == s[a + |r| - 1];
    forall i | 0 <= i < a
      ensures IsSpace(s[i])
    {
      assert s[..a][i] == s[i];
    }
    assert a == |w| && a + |r| == |s|;
    assert s[|w|..] == k;
  }

  /** One piece is dropped when it is blank and trimmed otherwise. */
  lemma TrimNonEmptyOne(p: seq<char>)
    ensures TrimNonEmpty([p]) == if AllSpace(p) then [] else [Trim(p)]
  {
    assert [p][1..] == [];
  }

  /** Trimming and dropping blanks works piece by piece, so it distributes
      over concatenation. */
  lemma {:induction false} TrimNonEmptyAppend(a: seq<seq<char>>, b: seq<seq<char>>)
    ensures TrimNonEmpty(a + b) == TrimNonEmpty(a) + TrimNonEmpty(b)
    decreases |a|
  {
    if |a| > 0 {
      var ab := a + b;
      assert ab[0] == a[0];
      assert ab[1..] == a[1..] + b;
      var h: seq<seq<char>> := if |Trim(a[0])| > 0 then [Trim(a[0])] else [];
      assert TrimNonEmpty(ab) == h + TrimNonEmpty(a[1..] + b);
      assert TrimNonEmpty(a) == h + TrimNonEmpty(a[1..]);
      TrimNonEmptyAppend(a[1..], b);
      assert h + (TrimNonEmpty(a[1..]) + TrimNonEmpty(b)) == (h + TrimNonEmpty(a[1..])) + TrimNonEmpty(b);
    } else {
      assert a + b == b;
    }
  }

  predicate IsDigit(c: char) {
    '0' <= c <= '9'
  }

  function DigitChar(d: nat): (c: char)
    requires d < 10
    ensures IsDigit(c)
    ensures c as int - '0' as int == d
  {
    ('0' as int + d) as char
  }

  /** A number in a template string (`${num}`): its decimal numeral. */
  function NatToString(n: nat): (r: seq<char>)
    ensures |r| > 0
    ensures forall i :: 0 <= i < |r| ==> IsDigit(r[i])
    ensures |r| > 1 ==> r[0] != '0'
  {
    if n < 10 then [DigitChar(n)]
    else
      var r := NatToString(n / 10) + [DigitChar(n % 10)];
      assert r[0] == NatToString(n / 10)[0];
      r
  }

  /** Reads a decimal numeral back. */
  function ParseDigits(s: seq<char>): nat
    requires forall i :: 0 <= i < |s| ==> IsDigit(s[i])
  {
    if |s| == 0 then 0
    else
      assert IsDigit(s[|s| - 1]);
      10 * ParseDigits(s[..|s| - 1]) + (s[|s| - 1] as int - '0' as int)
  }

  /** The numeral of a number reads back as that number, so distinct numbers
      are rendered distinctly. */
  lemma {:induction false} ParseNatToString(n: nat)
    ensures ParseDigits(NatToString(n)) == n
  {
    if n >= 10 {
      ParseNatToString(n / 10);
      var r := NatToString(n);
      assert r[..|r| - 1] == NatToString(n / 10);
    }
  }

  /** The one property name a plain object does not store: assigning a string
      (or `undefined`) to `__proto__` goes to the prototype setter, which ignores it. */
  const ProtoName: seq<char> := "__proto__"

  /** `obj[name] = v` on a plain object whose keys are modelled by a map. */
  function SetProperty<V>(obj: map<seq<char>, V>, name: seq<char>, v: V): (r: map<seq<char>, V>)
    ensures name != ProtoName ==> name in r && r[name] == v
    ensures forall n :: n != name ==> (n in r <==> n in obj)
    ensures forall n :: n != name && n in obj ==> r[n] == obj[n]
    ensures ProtoName in r <==> ProtoName in obj
  {
    if name == ProtoName then obj else obj[name := v]
  }
}
