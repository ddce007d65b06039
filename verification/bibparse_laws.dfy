/** Laws of the BibTeX reader: what a brace, quoted or bare value reads back
    as, what one field and one entry parse to, which of several writes to
    the same key or field survives, and what comment removal takes out. */
module BibParseLaws {
  import opened Wrappers
  import opened Text
  import opened BibParse

  // ---------------------------------------------------------------- brace nesting

  /** How one character moves the brace depth. */
  function Step(c: char): int {
    if c == '{' then 1 else if c == '}' then -1 else 0
  }

  /** Net brace depth of a text: opening braces minus closing braces. */
  function Depth(s: seq<char>): int {
    if |s| == 0 then 0 else Step(s[0]) + Depth(s[1..])
  }

  /** Read from depth `d`, the text never brings the depth below 1: no brace in
      it closes the value it sits in. */
  predicate StaysOpen(s: seq<char>, d: int)
    decreases |s|
  {
    d >= 1 && (|s| == 0 || StaysOpen(s[1..], d + Step(s[0])))
  }

  /** A brace-balanced value: every `}` closes a `{` of its own. */
  predicate Balanced(s: seq<char>) {
    StaysOpen(s, 1) && Depth(s) == 0
  }

  /** The depth counter reads straight through a text that stays open. */
  lemma {:induction false} BracedLenAppend(a: seq<char>, b: seq<char>, d: nat)
    requires StaysOpen(a, d)
    ensures d + Depth(a) >= 1
    ensures BracedLen(a + b, d) == |a| + BracedLen(b, d + Depth(a))
  {
    if |a| == 0 {
      assert a + b == b;
    } else {
      assert (a + b)[1..] == a[1..] + b;
      BracedLenAppend(a[1..], b, d + Step(a[0]));
    }
  }

  /** A brace value ends at the `}` that matches its opening brace, not at
      the first `}`: a balanced text between the outer braces is read whole. */
  lemma BracedValue(v: seq<char>, rest: seq<char>)
    requires Balanced(v)
    ensures ReadValue(['{'] + v + ['}'] + rest) == (v, rest)
  {
    var t := ['{'] + v + ['}'] + rest;
    assert t[1..] == v + (['}'] + rest);
    BracedLenAppend(v, ['}'] + rest, 1);
    assert BracedLen(['}'] + rest, 1) == 1;
  }

  lemma {:induction false} DepthAppend(a: seq<char>, b: seq<char>)
    ensures Depth(a + b) == Depth(a) + Depth(b)
  {
    if |a| > 0 {
      assert (a + b)[1..] == a[1..] + b;
      DepthAppend(a[1..], b);
    } else {
      assert a + b == b;
    }
  }

  lemma {:induction false} StaysOpenAppend(a: seq<char>, b: seq<char>, d: int)
    requires StaysOpen(a, d) && StaysOpen(b, d + Depth(a))
    ensures StaysOpen(a + b, d)
  {
    if |a| > 0 {
      assert (a + b)[1..] == a[1..] + b;
      StaysOpenAppend(a[1..], b, d + Step(a[0]));
    } else {
      assert a + b == b;
    }
  }

  /** Text without braces leaves the depth where it is. */
  lemma {:induction false} BraceFreeStaysOpen(s: seq<char>, d: int)
    requires NoneIn(s, {'{', '}'}) && d >= 1
    ensures StaysOpen(s, d) && Depth(s) == 0
  {
    if |s| > 0 {
      assert s[0] !in {'{', '}'};
      BraceFreeStaysOpen(s[1..], d);
    }
  }

  /** A value with one inner brace pair, `{a{b}c}`, is read up to the outer
      closing brace, not the inner one, and removing braces then leaves `abc`. */
  lemma NestedBraces(a: seq<char>, b: seq<char>, c: seq<char>, rest: seq<char>)
    requires NoneIn(a, {'{', '}'}) && NoneIn(b, {'{', '}'}) && NoneIn(c, {'{', '}'})
    ensures ReadValue(['{'] + (a + ['{'] + b + ['}'] + c) + ['}'] + rest) == (a + ['{'] + b + ['}'] + c, rest)
    ensures RemoveBraces(a + ['{'] + b + ['}'] + c) == a + b + c
  {
    NestedBalanced(a, b, c);
    BracedValue(a + ['{'] + b + ['}'] + c, rest);
    NestedRemoved(a, b, c);
    assert RemoveBraces(a) == a && RemoveBraces(b) == b && RemoveBraces(c) == c;
  }

  lemma NestedBalanced(a: seq<char>, b: seq<char>, c: seq<char>)
    requires NoneIn(a, {'{', '}'}) && NoneIn(b, {'{', '}'}) && NoneIn(c, {'{', '}'})
    ensures Balanced(a + ['{'] + b + ['}'] + c)
  {
    BraceFreeStaysOpen(a, 1);
    BraceFreeStaysOpen(b, 2);
    BraceFreeStaysOpen(c, 1);
    StaysOpenAppend(['{'], b, 1);
    DepthAppend(['{'], b);
    StaysOpenAppend(['{'] + b, ['}'], 1);
    DepthAppend(['{'] + b, ['}']);
    var inner := ['{'] + b + ['}'];
    StaysOpenAppend(inner, c, 1);
    DepthAppend(inner, c);
    StaysOpenAppend(a, inner + c, 1);
    DepthAppend(a, inner + c);
    assert a + ['{'] + b + ['}'] + c == a + (inner + c);
  }

  lemma NestedRemoved(a: seq<char>, b: seq<char>, c: seq<char>)
    ensures RemoveBraces(a + ['{'] + b + ['}'] + c) == RemoveBraces(a) + RemoveBraces(b) + RemoveBraces(c)
  {
    var ra, rb := RemoveBraces(a), RemoveBraces(b);
    RemoveBracesAppend(a, ['{']);
    RemoveBracesChar('{');
    assert ra + [] == ra;
    assert RemoveBraces(a + ['{']) == ra;
    RemoveBracesAppend(a + ['{'], b);
    assert RemoveBraces(a + ['{'] + b) == ra + rb;
    RemoveBracesAppend(a + ['{'] + b, ['}']);
    RemoveBracesChar('}');
    assert (ra + rb) + [] == ra + rb;
    assert RemoveBraces(a + ['{'] + b + ['}']) == ra + rb;
    RemoveBracesAppend(a + ['{'] + b + ['}'], c);
  }

  /** A value that is already trimmed only loses its braces. */
  lemma CleanTrimmed(s: seq<char>)
    requires Trimmed(s)
    ensures CleanValue(s) == RemoveBraces(s)
  {
    TrimNoSpaceEnds(s);
  }

  /** A brace value left open runs to the end of the body and loses its last
      character, because the slice always drops the character it takes for
      the closing brace. */
  lemma UnterminatedBraceDropsLastChar(s: seq<char>)
    requires |s| > 0 && StaysOpen(s, 1)
    ensures ReadValue(['{'] + s) == (s[..|s| - 1], [])
  {
    assert (['{'] + s)[1..] == s;
    BracedLenAppend(s, [], 1);
    assert s + [] == s;
  }

  // ---------------------------------------------------------------- quoted values

  /** The inside of a well-formed quoted value: a sequence of units, each a
      character other than `"` and `\`, or a `\` followed by any character
      (an escaped quote or backslash among them). */
  predicate QuotedBody(v: seq<char>)
    decreases |v|
  {
    |v| == 0
    || (v[0] != '"' && v[0] != '\\' && QuotedBody(v[1..]))
    || (|v| >= 2 && v[0] == '\\' && QuotedBody(v[2..]))
  }

  /** The quoted scan passes over a well-formed body unit by unit and then
      carries on in whatever follows it. */
  lemma {:induction false} QuotedLenBody(v: seq<char>, tail: seq<char>)
    requires QuotedBody(v)
    ensures QuotedLen(v + tail) == |v| + QuotedLen(tail)
    decreases |v|
  {
    if |v| > 0 {
      var t := v + tail;
      assert t[0] == v[0];
      if v[0] == '\\' {
        assert |v| >= 2 && QuotedBody(v[2..]);
        assert t[2..] == v[2..] + tail;
        QuotedLenBody(v[2..], tail);
        assert QuotedLen(t) == 2 + QuotedLen(t[2..]);
      } else {
        assert v[0] != '"' && QuotedBody(v[1..]);
        assert t[1..] == v[1..] + tail;
        QuotedLenBody(v[1..], tail);
        assert QuotedLen(t) == 1 + QuotedLen(t[1..]);
      }
    } else {
      assert v + tail == tail;
    }
  }

  /** A quoted value ends at the first quote that is not the second character
      of an escape unit, and the backslashes stay in the stored text. */
  lemma QuotedValue(v: seq<char>, rest: seq<char>)
    requires QuotedBody(v)
    ensures ReadValue(['"'] + v + ['"'] + rest) == (v, rest)
  {
    QuotedLenBody(v, ['"'] + rest);
    ReadQuotedClosed(v, rest);
  }

  /** A quoted value whose closing quote is missing runs to the end of the
      body, a dangling backslash at the very end included. */
  lemma UnterminatedQuoteRunsToEnd(v: seq<char>)
    requires QuotedBody(v)
    ensures ReadValue(['"'] + v) == (v, [])
    ensures ReadValue(['"'] + v + ['\\']) == (v + ['\\'], [])
  {
    var t := ['"'] + v;
    assert t[1..] == v + [];
    QuotedLenBody(v, []);
    ReadQuotedOpen(t);
    var w := ['"'] + v + ['\\'];
    assert w[1..] == v + ['\\'];
    QuotedLenBody(v, ['\\']);
    assert QuotedLen(['\\']) == 1 + QuotedLen([]);
    ReadQuotedOpen(w);
  }

  /** `ReadValue` on a quoted value whose scan stops at the quote after `v`. */
  lemma ReadQuotedClosed(v: seq<char>, rest: seq<char>)
    requires QuotedLen(v + (['"'] + rest)) == |v|
    ensures ReadValue(['"'] + v + ['"'] + rest) == (v, rest)
  {
    var t := ['"'] + v + ['"'] + rest;
    var u := v + (['"'] + rest);
    assert t == ['"'] + u;
    ReadQuotedAt(u, |v|);
    assert u[..|v|] == v;
    assert u[|v| + 1..] == rest;
  }

  /** `ReadValue` on a quote followed by `u` whose scan stops after `n` characters. */
  lemma ReadQuotedAt(u: seq<char>, n: nat)
    requires n < |u| && QuotedLen(u) == n
    ensures ReadValue(['"'] + u) == (u[..n], u[n + 1..])
  {
    var t := ['"'] + u;
    assert t[0] == '"' && t[1..] == u;
    QuotedRead(t);
    var r := ReadValue(t);
    assert r.0 == u[..n] && r.1 == u[n + 1..];
    assert r == (r.0, r.1);
  }

  /** `ReadValue` on a quoted value whose scan runs to the end. */
  lemma ReadQuotedOpen(t: seq<char>)
    requires |t| > 0 && t[0] == '"' && QuotedLen(t[1..]) == |t| - 1
    ensures ReadValue(t) == (t[1..], [])
  {
    QuotedRead(t);
    assert t[1..][..|t| - 1] == t[1..];
  }

  /** The quoted branch of `ReadValue`, unfolded once: the text up to where
      the scan stops, and what follows the closing quote. */
  lemma QuotedRead(t: seq<char>)
    requires |t| > 0 && t[0] == '"'
    ensures var q := QuotedLen(t[1..]);
      && ReadValue(t).0 == t[1..][..q]
      && ReadValue(t).1 == if q < |t| - 1 then t[1..][q + 1..] else []
  {
  }

  /** Writes `"` and `\` with a backslash in front, as a BibTeX author would
      inside a quoted value. */
  function Escape(s: seq<char>): seq<char> {
    if |s| == 0 then []
    else (if s[0] == '"' || s[0] == '\\' then ['\\', s[0]] else [s[0]]) + Escape(s[1..])
  }

  /** Escaping any text gives a well-formed quoted body, so QuotedValue reads
      it back with its escapes. */
  lemma {:induction false} EscapeQuotedBody(s: seq<char>)
    ensures QuotedBody(Escape(s))
  {
    if |s| > 0 {
      EscapeQuotedBody(s[1..]);
      var h := if s[0] == '"' || s[0] == '\\' then ['\\', s[0]] else [s[0]];
      assert Escape(s) == h + Escape(s[1..]);
      assert Escape(s)[|h|..] == Escape(s[1..]);
    }
  }

  /** Escaping adds one backslash per quote or backslash, and QuotedValue keeps
      them all: the stored text is longer than the text the author meant by
      exactly that many characters. */
  lemma {:induction false} EscapeLength(s: seq<char>)
    ensures |Escape(s)| == |s| + Count(s, {'"', '\\'})
  {
    if |s| > 0 {
      EscapeLength(s[1..]);
    }
  }

  // ---------------------------------------------------------------- bare values

  /** A bare value runs up to the next `,` or newline. */
  lemma BareValue(v: seq<char>, rest: seq<char>)
    requires |v| > 0 && v[0] != '{' && v[0] != '"'
    requires NoneIn(v, {',', '\n'})
    requires |rest| == 0 || rest[0] == ',' || rest[0] == '\n'
    ensures ReadValue(v + rest) == (v, rest)
  {
    SkipLenAppend(v, rest, IsBareChar);
  }

  /** Trimming happens before the braces go, so a value can end up with white
      space at its ends: `{ A }` written inside quotes is stored as ` A `. */
  lemma CleanValueNotTrimmed(s: seq<char>)
    requires NoneIn(s, {'{', '}'}) && |s| > 0 && IsSpace(s[0])
    ensures CleanValue(['{'] + s + ['}']) == s
    ensures !Trimmed(CleanValue(['{'] + s + ['}']))
  {
    var t := ['{'] + s + ['}'];
    assert t[0] == '{' && t[|t| - 1] == '}';
    TrimNoSpaceEnds(t);
    assert t == [] + ['{'] + s + ['}'] + [];
    NestedRemoved([], s, []);
  }

  lemma TrimNoSpaceEnds(s: seq<char>)
    requires Trimmed(s)
    ensures Trim(s) == s
  {
  }

  // ---------------------------------------------------------------- one field

  /** A field name as written: `[A-Za-z_][A-Za-z0-9_-]*`. */
  predicate IsNameText(name: seq<char>) {
    |name| > 0 && IsNameStart(name[0]) && forall i :: 0 < i < |name| ==> IsNameChar(name[i])
  }

  lemma NameLenOf(name: seq<char>, tail: seq<char>)
    requires IsNameText(name)
    requires |tail| > 0 && !IsNameChar(tail[0])
    ensures NameLen(name + tail) == |name|
  {
    var t := name + tail;
    assert t[1..] == name[1..] + tail;
    SkipLenAppend(name[1..], tail, IsNameChar);
    SkipLenUnique(name[1..], IsNameChar, |name| - 1);
    SkipLenUnique(tail, IsNameChar, 0);
  }

  lemma EqualsSkipped(after: seq<char>)
    requires |after| > 0 && !IsSpaceOrEquals(after[0])
    ensures SkipLen(" = " + after, IsSpaceOrEquals) == 3
  {
    SkipLenAppend(" = ", after, IsSpaceOrEquals);
    SkipLenUnique(after, IsSpaceOrEquals, 0);
  }

  lemma CommaStepped(rest: seq<char>)
    ensures AfterValue([','] + rest) == rest
  {
    SkipLenUnique([','] + rest, IsBareChar, 0);
  }

  /** One field `name = <value text>,` is read as the lower-cased name and the
      cleaned raw value, and scanning resumes right after the comma. */
  lemma FieldStepOf(name: seq<char>, vt: seq<char>, raw: seq<char>, rest: seq<char>)
    requires IsNameText(name)
    requires |vt| > 0 && !IsSpaceOrEquals(vt[0])
    requires ReadValue(vt + [','] + rest) == (raw, [','] + rest)
    ensures FieldStep(name + " = " + vt + [','] + rest)
         == Some((Assignment(Lower(name), CleanValue(raw)), rest))
  {
    var after := vt + [','] + rest;
    var tail := " = " + after;
    var t := name + tail;
    assert t == name + " = " + vt + [','] + rest;
    SkipLenUnique(t, IsSpaceOrComma, 0);
    NameLenOf(name, tail);
    assert t[..|name|] == name && t[|name|..] == tail;
    EqualsSkipped(after);
    assert t[|name|..][3..] == after;
    FieldStepUnfold(t, |name|, 3);
    CommaStepped(rest);
  }

  /** FieldStep read off the three lengths it measures: the separators before
      the name, the name, and the `=` with its white space. */
  lemma FieldStepUnfold(t: seq<char>, n: nat, w: nat)
    requires SkipLen(t, IsSpaceOrComma) == 0
    requires 0 < n == NameLen(t)
    requires w == SkipLen(t[n..], IsSpaceOrEquals) && n + w < |t|
    ensures FieldStep(t) == Some((Assignment(LowerName(t[..n]), CleanValue(ReadValue(t[n..][w..]).0)),
                                  AfterValue(ReadValue(t[n..][w..]).1)))
  {
    assert t[0..] == t;
  }

  /** `name = {v},` with a balanced `v`. */
  lemma BracedFieldStep(name: seq<char>, v: seq<char>, rest: seq<char>)
    requires IsNameText(name) && Balanced(v)
    ensures FieldStep(name + " = {" + v + "}," + rest)
         == Some((Assignment(Lower(name), CleanValue(v)), rest))
  {
    var vt := ['{'] + v + ['}'];
    BracedValue(v, [','] + rest);
    assert vt + [','] + rest == ['{'] + v + ['}'] + ([','] + rest);
    FieldStepOf(name, vt, v, rest);
    BracedFieldText(name, v, rest);
  }

  lemma BracedFieldText(name: seq<char>, v: seq<char>, rest: seq<char>)
    ensures name + " = " + (['{'] + v + ['}']) + [','] + rest == name + " = {" + v + "}," + rest
  {
    assert " = {" == " = " + ['{'];
    assert "}," == ['}'] + [','];
  }

  /** The assignments of a body that starts with `name = {v},` are that field's
      followed by the assignments of the rest. */
  lemma BracedFieldFirst(name: seq<char>, v: seq<char>, rest: seq<char>)
    requires IsNameText(name) && Balanced(v)
    ensures Assignments(name + " = {" + v + "}," + rest)
         == [Assignment(Lower(name), CleanValue(v))] + Assignments(rest)
  {
    BracedFieldStep(name, v, rest);
  }

  /** Parsing stops at a position that does not start a name, and the entry
      keeps the fields read before it. */
  lemma FieldsKeptBeforeStop(name: seq<char>, v: seq<char>, bad: seq<char>)
    requires IsNameText(name) && Balanced(v) && Lower(name) != ProtoName
    requires |bad| > 0 && !IsNameStart(bad[0]) && !IsSpaceOrComma(bad[0])
    ensures Fields(name + " = {" + v + "}," + bad) == map[Lower(name) := CleanValue(v)]
  {
    var a := Assignment(Lower(name), CleanValue(v));
    BracedFieldFirst(name, v, bad);
    NoFieldAt(bad);
    assert Assignments(name + " = {" + v + "}," + bad) == [a];
    assert StoreAll(map[], [a]) == StoreAll(SetProperty(map[], a.name, a.value), []);
  }

  lemma NoFieldAt(bad: seq<char>)
    requires |bad| > 0 && !IsNameStart(bad[0]) && !IsSpaceOrComma(bad[0])
    ensures Assignments(bad) == []
  {
    SkipLenUnique(bad, IsSpaceOrComma, 0);
    assert bad[0..] == bad;
    assert FieldStep(bad) == None;
  }

  // ---------------------------------------------------------------- last write wins

  /** Index of the last assignment to `name`, or -1. */
  function LastAssignmentTo(asg: seq<Assignment>, name: string): (i: int)
    ensures -1 <= i < |asg|
    ensures i >= 0 ==> asg[i].name == name && forall j :: i < j < |asg| ==> asg[j].name != name
    ensures i == -1 ==> forall j :: 0 <= j < |asg| ==> asg[j].name != name
  {
    if |asg| == 0 then -1
    else
      var r := LastAssignmentTo(asg[1..], name);
      if r >= 0 then r + 1 else if asg[0].name == name then 0 else -1
  }

  lemma {:induction false} StoreAllLast(obj: map<string, string>, asg: seq<Assignment>, name: string)
    requires name != ProtoName
    ensures var r := StoreAll(obj, asg);
            var i := LastAssignmentTo(asg, name);
            && (i >= 0 ==> name in r && r[name] == asg[i].value)
            && (i < 0 ==> (name in r <==> name in obj) && (name in obj ==> r[name] == obj[name]))
    decreases |asg|
  {
    if |asg| > 0 {
      StoreAllLast(SetProperty(obj, asg[0].name, asg[0].value), asg[1..], name);
    }
  }

  /** A field is present exactly when some assignment wrote it, and it holds the
      value of the last such assignment. */
  lemma LastFieldWins(body: string, name: string)
    ensures var f := Fields(body);
            var asg := Assignments(body);
            var i := LastAssignmentTo(asg, name);
            && (name in f <==> i >= 0 && name != ProtoName)
            && (name in f ==> f[name] == asg[i].value)
  {
    if name != ProtoName {
      StoreAllLast(map[], Assignments(body), name);
    }
  }

  /** Index of the last entry match filed under `k`, or -1. */
  function LastMatchFor(ms: seq<EntryMatch>, k: string): (i: int)
    ensures -1 <= i < |ms|
    ensures i >= 0 ==> ms[i].key == k && forall j :: i < j < |ms| ==> ms[j].key != k
    ensures i == -1 ==> forall j :: 0 <= j < |ms| ==> ms[j].key != k
  {
    if |ms| == 0 then -1
    else
      var r := LastMatchFor(ms[1..], k);
      if r >= 0 then r + 1 else if ms[0].key == k then 0 else -1
  }

  lemma {:induction false} CollectLast(store: map<string, Entry>, ms: seq<EntryMatch>, k: string)
    requires ValidStore(store)
    requires forall i :: 0 <= i < |ms| ==> WellFormedMatch(ms[i])
    ensures var r := Collect(store, ms);
            var i := LastMatchFor(ms, k);
            && (i >= 0 ==> k in r && r[k] == EntryOf(ms[i]))
            && (i < 0 ==> (k in r <==> k in store) && (k in store ==> r[k] == store[k]))
    decreases |ms|
  {
    if |ms| > 0 {
      var store' := CollectStep(store, ms);
      CollectLast(store', ms[1..], k);
    }
  }

  /** One `entries.set`: the store after the first match, which is still valid. */
  lemma CollectStep(store: map<string, Entry>, ms: seq<EntryMatch>) returns (store': map<string, Entry>)
    requires ValidStore(store)
    requires forall i :: 0 <= i < |ms| ==> WellFormedMatch(ms[i])
    requires |ms| > 0
    ensures store' == store[ms[0].key := EntryOf(ms[0])]
    ensures ValidStore(store')
    ensures forall i :: 0 <= i < |ms[1..]| ==> WellFormedMatch(ms[1..][i])
    ensures Collect(store, ms) == Collect(store', ms[1..])
  {
    assert WellFormedMatch(ms[0]);
    store' := store[ms[0].key := EntryOf(ms[0])];
  }

  /** A key is in the store exactly when some entry carries it, and a later
      entry with the same key replaces an earlier one. */
  lemma LastEntryWins(text: string, k: string)
    ensures var r := ParseBibTeX(text);
            var ms := Matches(StripComments(text));
            var i := LastMatchFor(ms, k);
            && (k in r <==> i >= 0)
            && (k in r ==> r[k] == EntryOf(ms[i]))
  {
    CollectLast(map[], Matches(StripComments(text)), k);
  }

  // ---------------------------------------------------------------- no entries

  lemma {:induction false} MatchesWithoutAt(t: seq<char>)
    requires '@' !in t
    ensures Matches(t) == []
    decreases |t|
  {
    if |t| > 0 {
      MatchesWithoutAt(t[1..]);
    }
  }

  /** A text with no `@` has no entries: the result is an empty store, not an error. */
  lemma NoEntriesWithoutAt(text: string)
    requires '@' !in text
    ensures ParseBibTeX(text) == map[]
  {
    MatchesWithoutAt(StripComments(text));
  }

  // ---------------------------------------------------------------- one entry

  /** The head of one entry: `@type{key,`, with white space `w1` before the
      brace, `w2` after it and `w3` before the comma. */
  function HeadText(entryType: string, w1: string, w2: string, key: string, w3: string): string {
    "@" + entryType + w1 + "{" + w2 + key + w3 + ","
  }

  /** The text of one entry, its head, the body and `}` at the start of a
      line, followed by the text `rest`. */
  function EntryText(entryType: string, w1: string, w2: string, key: string, w3: string,
                     body: string, rest: string): string {
    HeadText(entryType, w1, w2, key, w3) + (body + "\n}" + rest)
  }

  predicate IsTypeText(s: string) {
    |s| > 0 && forall i :: 0 <= i < |s| ==> IsWordChar(s[i])
  }

  /** The body holds no newline followed by `}`: that pair would end the entry. */
  predicate NoCloser(body: string) {
    forall j :: 0 <= j < |body| ==> !IsCloserAt(body, j)
  }

  lemma CloserAt(t: seq<char>, from: nat, m: nat)
    requires from <= m && IsCloserAt(t, m)
    requires forall j :: from <= j < m ==> !IsCloserAt(t, j)
    ensures CloserFrom(t, from) == Some(m)
  {
  }

  /** The entry pattern reads an entry back, whatever white space its head
      holds where `\s*` allows it: its lower-cased type, its key and its body,
      and the match runs over the entry and the white space after it. */
  lemma EntryMatchOf(entryType: string, w1: string, w2: string, key: string, w3: string,
                     body: string, rest: string)
    requires IsTypeText(entryType) && IsEntryKey(key) && NoCloser(body)
    requires AllSpace(w1) && AllSpace(w2) && AllSpace(w3)
    ensures var m := MatchEntryAt(EntryText(entryType, w1, w2, key, w3, body, rest));
            && m.Some?
            && m.value.entryType == Lower(entryType)
            && m.value.key == key
            && m.value.body == body
            && m.value.len == |HeadText(entryType, w1, w2, key, w3)| + |body| + 2 + SkipLen(rest, IsSpace)
  {
    var head := HeadText(entryType, w1, w2, key, w3);
    HeadOf(entryType, w1, w2, key, w3, body + "\n}" + rest);
    EntryAfterHead(EntryText(entryType, w1, w2, key, w3, body, rest), |head|, |head| + |body|,
                   Lower(entryType), key, body, rest);
  }

  /** Once the head is read, the match runs over the body, the "\n}" at `j`
      that closes it, and the white space after that. */
  lemma EntryAfterHead(t: seq<char>, b: nat, j: nat, ty: string, key: string, body: string, rest: string)
    requires NoCloser(body)
    requires MatchHead(t).Some? && MatchHead(t).value.0 == ty && MatchHead(t).value.1 == key
    requires MatchHead(t).value.2 == b
    requires b <= |t| && t[b..] == body + "\n}" + rest && j == b + |body|
    ensures var m := MatchEntryAt(t);
            && m.Some?
            && m.value.entryType == ty
            && m.value.key == key
            && m.value.body == body
            && m.value.len == b + |body| + 2 + SkipLen(rest, IsSpace)
  {
    BodyFacts(t, b, j, body, rest);
    EntryFromParts(t, ty, key, b, j, body, rest);
    MatchEntryParts(t, ty, key, b, j);
  }

  /** MatchEntryAt put together from the head and the end of the body. */
  lemma MatchEntryParts(t: seq<char>, ty: string, key: string, b: nat, j: nat)
    requires MatchHead(t) == Some((ty, key, b))
    requires CloserFrom(t, b) == Some(j)
    requires j + 2 <= |t|
    ensures MatchEntryAt(t) == Some(EntryFrom(t, ty, key, b, j))
  {
  }

  /** The match built from where the body ends. */
  lemma EntryFromParts(t: seq<char>, ty: string, key: string, b: nat, j: nat, body: string, rest: string)
    requires j == b + |body| && j + 2 <= |t|
    requires t[b..j] == body && t[j + 2..] == rest
    ensures EntryFrom(t, ty, key, b, j) == EntryMatch(ty, key, body, b + |body| + 2 + SkipLen(rest, IsSpace))
  {
  }

  /** Where the body, the "\n}" closing it and the text after it sit. */
  lemma BodyFacts(t: seq<char>, b: nat, j: nat, body: string, rest: string)
    requires NoCloser(body)
    requires b <= |t| && t[b..] == body + "\n}" + rest && j == b + |body|
    ensures b <= j && j + 2 <= |t| && CloserFrom(t, b) == Some(j)
    ensures t[b..j] == body && t[j + 2..] == rest
  {
    BodyEnd(t, b, body, rest);
    assert t[b..j] == t[b..][..|body|];
    assert t[j + 2..] == t[b..][|body| + 2..];
  }

  /** The head scanner reads the head of an entry whole. */
  lemma HeadOf(entryType: string, w1: string, w2: string, key: string, w3: string, tail: string)
    requires IsTypeText(entryType) && IsEntryKey(key)
    requires AllSpace(w1) && AllSpace(w2) && AllSpace(w3)
    ensures var h := MatchHead(HeadText(entryType, w1, w2, key, w3) + tail);
            && h.Some?
            && h.value.0 == Lower(entryType)
            && h.value.1 == key
            && h.value.2 == |HeadText(entryType, w1, w2, key, w3)|
  {
    HeadSlices(entryType, w1, w2, key, w3, tail);
    HeadAt(HeadText(entryType, w1, w2, key, w3) + tail, entryType, w1, w2, key, w3, tail);
  }

  /** The head scanner on a text that starts with `@`, the type word and
      what follows it in a head. */
  lemma HeadAt(t: seq<char>, entryType: string, w1: string, w2: string, key: string, w3: string, tail: string)
    requires IsTypeText(entryType) && IsEntryKey(key)
    requires AllSpace(w1) && AllSpace(w2) && AllSpace(w3)
    requires |t| > 0 && t[0] == '@' && t[1..] == entryType + (w1 + "{" + w2 + key + (w3 + "," + tail))
    ensures var h := MatchHead(t);
            && h.Some?
            && h.value.0 == Lower(entryType)
            && h.value.1 == key
            && h.value.2 == 1 + |entryType| + |w1| + 1 + |w2| + |key| + |w3| + 1
  {
    var afterKey := w3 + "," + tail;
    var after := w1 + "{" + w2 + key + afterKey;
    var c := |w1| + 1 + |w2|;
    AfterSlices(w1, w2, key, afterKey, c);
    TypeWordLen(entryType, w1, after);
    OpenBraceAt(w1, w2, key, afterKey);
    KeyCommaAt(key, w3, tail);
    MatchHeadAt(t, entryType, after, c, key, |key| + |w3| + 1);
  }

  /** Where the brace and the key sit in the text after the type word. */
  lemma AfterSlices(w1: string, w2: string, key: string, afterKey: string, c: nat)
    requires c == |w1| + 1 + |w2|
    ensures var after := w1 + "{" + w2 + key + afterKey;
            && |after| > |w1| && after[..|w1|] == w1 && after[|w1|] == '{'
            && c <= |after| && after[c..] == key + afterKey
  {
    var after := w1 + "{" + w2 + key + afterKey;
    assert after == (w1 + "{" + w2) + (key + afterKey);
  }

  /** Where the parts of the head sit in its text. */
  lemma HeadSlices(entryType: string, w1: string, w2: string, key: string, w3: string, tail: string)
    ensures var t := HeadText(entryType, w1, w2, key, w3) + tail;
            && |t| > 0 && t[0] == '@'
            && t[1..] == entryType + (w1 + "{" + w2 + key + (w3 + "," + tail))
  {
    var t := HeadText(entryType, w1, w2, key, w3) + tail;
    assert t == "@" + (entryType + (w1 + "{" + w2 + key + (w3 + "," + tail)));
  }

  /** MatchHead put together from the type word and what follows it. */
  lemma MatchHeadAt(t: seq<char>, entryType: string, after: string, c: nat, key: string, d: nat)
    requires |t| > 0 && t[0] == '@' && |entryType| > 0 && t[1..] == entryType + after
    requires SkipLen(entryType + after, IsWordChar) == |entryType|
    requires OpenBraceEnd(after).Some? && OpenBraceEnd(after).value == c
    requires KeyAndComma(after[c..]).Some?
    requires KeyAndComma(after[c..]).value.0 == key && KeyAndComma(after[c..]).value.1 == d
    ensures var h := MatchHead(t);
            && h.Some?
            && h.value.0 == Lower(entryType)
            && h.value.1 == key
            && h.value.2 == 1 + |entryType| + c + d
  {
    var u := entryType + after;
    assert u[..|entryType|] == entryType;
    assert u[|entryType|..] == after;
    MatchHeadParts(t, |entryType|, c, key, d);
  }

  /** MatchHead put together from its three parts. */
  lemma MatchHeadParts(t: seq<char>, w: nat, c: nat, key: string, d: nat)
    requires |t| > 0 && t[0] == '@' && w > 0 && SkipLen(t[1..], IsWordChar) == w
    requires OpenBraceEnd(t[1..][w..]) == Some(c)
    requires KeyAndComma(t[1..][w..][c..]) == Some((key, d))
    ensures var h := MatchHead(t);
            h.Some? && h.value.0 == Lower(t[1..][..w]) && h.value.1 == key && h.value.2 == 1 + w + c + d
  {
  }

  /** The type word stops at the white space or the brace after it. */
  lemma TypeWordLen(entryType: string, w1: string, after: string)
    requires IsTypeText(entryType) && AllSpace(w1)
    requires |after| > |w1| && after[..|w1|] == w1 && after[|w1|] == '{'
    ensures SkipLen(entryType + after, IsWordChar) == |entryType|
  {
    assert !IsWordChar(after[0]) by {
      if |w1| > 0 {
        assert after[0] == w1[0];
      }
    }
    SkipLenPrefix(entryType, after, IsWordChar);
  }

  lemma OpenBraceAt(w1: string, w2: string, key: string, afterKey: string)
    requires AllSpace(w1) && AllSpace(w2) && IsEntryKey(key)
    ensures var r := OpenBraceEnd(w1 + "{" + w2 + key + afterKey);
            r.Some? && r.value == |w1| + 1 + |w2|
  {
    var v := w1 + "{" + w2 + key + afterKey;
    assert SkipLen(v, IsSpace) == |w1| by {
      assert v == w1 + ("{" + w2 + key + afterKey);
      SkipLenPrefix(w1, "{" + w2 + key + afterKey, IsSpace);
    }
    assert v[|w1|] == '{';
    assert SkipLen(v[|w1| + 1..], IsSpace) == |w2| by {
      assert v[|w1| + 1..] == w2 + (key + afterKey);
      SkipLenPrefix(w2, key + afterKey, IsSpace);
    }
  }

  lemma KeyCommaAt(key: string, w3: string, tail: string)
    requires IsEntryKey(key) && AllSpace(w3)
    ensures var r := KeyAndComma(key + (w3 + "," + tail));
            r.Some? && r.value.0 == key && r.value.1 == |key| + |w3| + 1
  {
    var afterKey := w3 + "," + tail;
    var t := key + afterKey;
    assert !IsKeyChar(afterKey[0]) by {
      if |w3| > 0 {
        assert afterKey[0] == w3[0];
      }
    }
    SkipLenPrefix(key, afterKey, IsKeyChar);
    assert t[..|key|] == key;
    assert SkipLen(t[|key|..], IsSpace) == |w3| by {
      assert t[|key|..] == w3 + ("," + tail);
      SkipLenPrefix(w3, "," + tail, IsSpace);
    }
  }

  /** The lazy body stops at the "\n}" that follows a body without one. */
  lemma BodyEnd(t: seq<char>, b: nat, body: string, rest: string)
    requires b <= |t| && t[b..] == body + "\n}" + rest && NoCloser(body)
    ensures CloserFrom(t, b) == Some(b + |body|)
  {
    var j := b + |body|;
    assert t[j] == t[b..][|body|];
    assert t[j + 1] == t[b..][|body| + 1];
    forall i | b <= i < j
      ensures !IsCloserAt(t, i)
    {
      assert t[i] == t[b..][i - b] == body[i - b];
      if i + 1 < j {
        assert t[i + 1] == t[b..][i + 1 - b] == body[i + 1 - b];
        assert !IsCloserAt(body, i - b);
      }
    }
    CloserAt(t, b, j);
  }

  // ---------------------------------------------------------------- comments

  /** A line whose first non-blank character is `%` disappears up to its line
      end. The white space before the `%` may span earlier blank lines, and
      those go too. */
  lemma PercentLineRemoved(lead: seq<char>, line: seq<char>, rest: seq<char>)
    requires AllSpace(lead)
    requires forall i :: 0 <= i < |line| ==> IsLineChar(line[i])
    ensures StripPercentLines(lead + ['%'] + line + ['\n'] + rest, true)
         == ['\n'] + StripPercentLines(rest, true)
  {
    var t := lead + ['%'] + line + ['\n'] + rest;
    var n := |lead| + 1 + |line|;
    PercentLineLenOf(lead, line, rest);
    assert t == (lead + ['%'] + line) + (['\n'] + rest);
    DropPrefix(lead + ['%'] + line, ['\n'] + rest);
    NewlineKept(rest);
  }

  /** The match of `^\s*%.*$` runs over the white space, the `%` and the line. */
  lemma PercentLineLenOf(lead: seq<char>, line: seq<char>, rest: seq<char>)
    requires AllSpace(lead)
    requires forall i :: 0 <= i < |line| ==> IsLineChar(line[i])
    ensures PercentLineLen(lead + ['%'] + line + ['\n'] + rest) == |lead| + 1 + |line|
  {
    var tail := ['%'] + line + ['\n'] + rest;
    var t := lead + ['%'] + line + ['\n'] + rest;
    assert t == lead + tail;
    SkipLenPrefix(lead, tail, IsSpace);
    assert t[|lead|] == '%';
    assert t[|lead| + 1..] == line + (['\n'] + rest);
    SkipLenPrefix(line, ['\n'] + rest, IsLineChar);
  }

  lemma NewlineKept(rest: seq<char>)
    ensures StripPercentLines(['\n'] + rest, false) == ['\n'] + StripPercentLines(rest, true)
  {
    assert (['\n'] + rest)[1..] == rest;
  }

  /** A `%` after other text on its line is not a comment: away from a line
      start, a text without line terminators is left as it is. */
  lemma {:induction false} PercentMidLineKept(t: seq<char>)
    requires forall i :: 0 <= i < |t| ==> IsLineChar(t[i])
    ensures StripPercentLines(t, false) == t
    decreases |t|
  {
    if |t| > 0 {
      PercentMidLineKept(t[1..]);
      assert [t[0]] + t[1..] == t;
    }
  }

  /** An `@comment{...}` block goes entirely, up to its first `}`, whatever
      the case of its keyword and whatever white space precedes its `{`. */
  lemma CommentBlockRemoved(head: seq<char>, w: seq<char>, s: seq<char>, rest: seq<char>)
    requires |head| == 8 && StartsWithCi(head, "@comment")
    requires AllSpace(w)
    requires '}' !in s
    ensures StripCommentBlocks(head + w + "{" + s + "}" + rest) == StripCommentBlocks(rest)
  {
    var t := head + w + "{" + s + "}" + rest;
    assert StartsWithCi(t, "@comment") by {
      assert forall i :: 0 <= i < 8 ==> t[i] == head[i];
    }
    var a := 8 + |w|;
    assert SkipLen(t[8..], IsSpace) == |w| by {
      assert t[8..] == w + ("{" + s + "}" + rest);
      SkipLenPrefix(w, "{" + s + "}" + rest, IsSpace);
    }
    assert t[a] == '{';
    assert SkipLen(t[a + 1..], IsNotCloseBrace) == |s| by {
      assert t[a + 1..] == s + ("}" + rest);
      SkipLenPrefix(s, "}" + rest, IsNotCloseBrace);
    }
    assert CommentBlockLen(t) == a + |s| + 2;
    assert t[a + |s| + 2..] == rest;
  }
}
