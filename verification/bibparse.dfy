/** The plugin's BibTeX reader (`parseBibTeX`). Comment lines and `@comment`
    blocks are removed first. The entry pattern `@type{key, ... \n}` is then
    searched for left to right, and each entry's field body is read by a
    hand-written scanner. Every scanner works on the text still to be read:
    the suffix `body[i..]` of the source's index loops. */
module BibParse {
  import opened Wrappers
  import opened Text

  /** One stored record: its key as written, its lower-cased type and its fields. */
  datatype Entry = Entry(key: string, entryType: string, fields: map<string, string>)

  // ---------------------------------------------------------------- comments

  predicate IsLineChar(c: char) {
    !IsLineTerminator(c)
  }

  /** Length of a match of `^\s*%.*$` at the start of `t`, 0 when there is none.
      The white space may run over several lines; `.*` stops at the line end. */
  function PercentLineLen(t: seq<char>): (n: nat)
    ensures n <= |t|
    ensures n > 0 ==> '%' in t
  {
    var w := SkipLen(t, IsSpace);
    if w < |t| && t[w] == '%' then w + 1 + SkipLen(t[w + 1..], IsLineChar) else 0
  }

  /** `replace(/^\s*%.*$/gm, "")`. `atLineStart` says whether `^` holds just
      before `t`: at the start of the text or after a line terminator. A match
      always ends before a line terminator or at the end, so `^` never holds
      right after one. */
  function StripPercentLines(t: seq<char>, atLineStart: bool): (r: seq<char>)
    ensures forall c :: c in r ==> c in t
    ensures '%' !in t ==> r == t
    decreases |t|
  {
    if |t| == 0 then []
    else
      var n := if atLineStart then PercentLineLen(t) else 0;
      if n > 0 then StripPercentLines(t[n..], false)
      else
        var rest := StripPercentLines(t[1..], IsLineTerminator(t[0]));
        assert '%' !in t ==> [t[0]] + t[1..] == t;
        [t[0]] + rest
  }

  predicate IsNotCloseBrace(c: char) {
    c != '}'
  }

  /** Length of a match of `@comment\s*{[^}]*}` (case-insensitive) at the start of `t`, or 0. */
  function CommentBlockLen(t: seq<char>): (n: nat)
    ensures n <= |t|
    ensures n > 0 ==> t[0] == '@'
    ensures n > 0 ==> StartsWithCi(t, "@comment") && n >= 10 && t[n - 1] == '}'
    ensures n > 0 ==> '}' !in t[8..n - 1]
  {
    if !StartsWithCi(t, "@comment") then 0
    else
      var a := 8 + SkipLen(t[8..], IsSpace);
      if a < |t| && t[a] == '{' then
        var b := a + 1 + SkipLen(t[a + 1..], IsNotCloseBrace);
        if b < |t| then
          assert '}' !in t[8..b] by {
            SkipLenAll(t[8..], IsSpace);
            SkipLenAll(t[a + 1..], IsNotCloseBrace);
            assert forall j :: 8 <= j < a ==> t[j] == t[8..][j - 8];
            assert forall j :: a < j < b ==> t[j] == t[a + 1..][j - a - 1];
          }
          b + 1
        else 0
      else 0
  }

  /** `replace(/@comment\s*{[^}]*}/gim, "")`: one left-to-right pass. */
  function StripCommentBlocks(t: seq<char>): (r: seq<char>)
    ensures forall c :: c in r ==> c in t
    ensures '@' !in t ==> r == t
    decreases |t|
  {
    if |t| == 0 then []
    else
      var n := CommentBlockLen(t);
      if n > 0 then StripCommentBlocks(t[n..])
      else
        var rest := StripCommentBlocks(t[1..]);
        assert '@' !in t ==> [t[0]] + t[1..] == t;
        [t[0]] + rest
  }

  /** Both comment removals, in the source's order. */
  function StripComments(text: string): (r: string)
    ensures forall c :: c in r ==> c in text
  {
    StripCommentBlocks(StripPercentLines(text, true))
  }

  // ---------------------------------------------------------------- entries

  /** The regular-expression class `\w`. */
  predicate IsWordChar(c: char) {
    'A' <= c <= 'Z' || 'a' <= c <= 'z' || '0' <= c <= '9' || c == '_'
  }

  predicate IsLowerWordChar(c: char) {
    'a' <= c <= 'z' || '0' <= c <= '9' || c == '_'
  }

  /** The class `[^,\s]` of key characters. */
  predicate IsKeyChar(c: char) {
    c != ',' && !IsSpace(c)
  }

  /** A stored entry type: `\w+` lower-cased. */
  predicate IsEntryType(s: string) {
    |s| > 0 && forall i :: 0 <= i < |s| ==> IsLowerWordChar(s[i])
  }

  /** A stored key: `[^,\s]+`, which trimming leaves as it is. */
  predicate IsEntryKey(s: string) {
    |s| > 0 && forall i :: 0 <= i < |s| ==> IsKeyChar(s[i])
  }

  /** One match of `@(\w+)\s*{\s*([^,\s]+)\s*,([\s\S]*?)\n}\s*`: the lower-cased
      type, the key, the body, and the number of characters matched. */
  datatype EntryMatch = EntryMatch(entryType: string, key: string, body: string, len: nat)

  predicate WellFormedMatch(m: EntryMatch) {
    IsEntryType(m.entryType) && IsEntryKey(m.key) && m.len > 0
  }

  /** A "\n}" starts at index `j` of `t`. */
  predicate IsCloserAt(t: seq<char>, j: int) {
    0 <= j && j + 1 < |t| && t[j] == '\n' && t[j + 1] == '}'
  }

  /** Index of the first "\n}" in `t` at or after `from`: where the lazy body ends. */
  function CloserFrom(t: seq<char>, from: nat): (r: Option<nat>)
    requires from <= |t|
    ensures r.Some? ==> from <= r.value && IsCloserAt(t, r.value)
    ensures forall j :: from <= j && (r.Some? ==> j < r.value) ==> !IsCloserAt(t, j)
    decreases |t| - from
  {
    if from + 1 >= |t| then None
    else if t[from] == '\n' && t[from + 1] == '}' then Some(from)
    else CloserFrom(t, from + 1)
  }

  lemma LowerCharClasses(c: char)
    ensures IsWordChar(c) ==> IsLowerWordChar(LowerChar(c))
    ensures IsNameStart(c) ==> 'a' <= LowerChar(c) <= 'z' || LowerChar(c) == '_'
    ensures c == '-' ==> LowerChar(c) == '-'
  {
  }

  function LowerWord(s: string): (r: string)
    requires |s| > 0 && forall i :: 0 <= i < |s| ==> IsWordChar(s[i])
    ensures IsEntryType(r)
  {
    var r := Lower(s);
    forall i | 0 <= i < |s| ensures IsLowerWordChar(r[i]) {
      LowerCharClasses(s[i]);
    }
    r
  }

  /** `\s*{\s*` after the type: the position of the key, or None. */
  function OpenBraceEnd(t: seq<char>): (r: Option<nat>)
    ensures r.Some? ==> r.value <= |t|
  {
    var b := SkipLen(t, IsSpace);
    if b == |t| || t[b] != '{' then None
    else Some(b + 1 + SkipLen(t[b + 1..], IsSpace))
  }

  /** `([^,\s]+)\s*,` at the start of `t`: the key and the position after the
      comma. The key is trimmed before it is stored, which leaves it as it is
      (KeyIsTrimmed): the key class holds no white space. */
  function KeyAndComma(t: seq<char>): (r: Option<(string, nat)>)
    ensures r.Some? ==> IsEntryKey(r.value.0) && 0 < r.value.1 <= |t|
  {
    var k := SkipLen(t, IsKeyChar);
    SkipLenAll(t, IsKeyChar);
    if k == 0 then None
    else
      var d := k + SkipLen(t[k..], IsSpace);
      if d == |t| || t[d] != ',' then None
      else
        Some((t[..k], d + 1))
  }

  lemma KeyIsTrimmed(t: seq<char>)
    ensures KeyAndComma(t).Some? ==> Trim(KeyAndComma(t).value.0) == KeyAndComma(t).value.0
  {
    if KeyAndComma(t).Some? {
      TrimNoSpace(KeyAndComma(t).value.0);
    }
  }

  /** The head `@(\w+)\s*{\s*([^,\s]+)\s*,` at the start of `t`: the
      lower-cased type, the key, and where the body starts. */
  function MatchHead(t: seq<char>): (r: Option<(string, string, nat)>)
    ensures r.Some? ==> IsEntryType(r.value.0) && IsEntryKey(r.value.1) && 0 < r.value.2 <= |t|
    ensures r.Some? ==> t[0] == '@'
  {
    if |t| == 0 || t[0] != '@' then None
    else
      var u := t[1..];
      var w := SkipLen(u, IsWordChar);
      if w == 0 then None
      else
        var v := u[w..];
        match OpenBraceEnd(v)
        case None => None
        case Some(c) =>
          match KeyAndComma(v[c..])
          case None => None
          case Some((key, d)) =>
            var typeText := u[..w];
            SkippedWord(u);
            assert |t| == 1 + |u| && |u| == w + |v| && |v| == c + |v[c..]|;
            Some((LowerWord(typeText), key, 1 + w + c + d))
  }

  /** The run `\w+` that SkipLen measures is a word. */
  lemma SkippedWord(u: seq<char>)
    ensures forall i :: 0 <= i < SkipLen(u, IsWordChar) ==> IsWordChar(u[..SkipLen(u, IsWordChar)][i])
  {
    SkipLenAll(u, IsWordChar);
  }

  /** The entry pattern tried at the start of `t`. Each greedy part of the
      pattern is followed by a character it cannot take, so backtracking never
      finds a second way to match and the scan is exact. The lazy body ends
      at the first "\n}"; the trailing `\s*` only moves where the next search starts. */
  function MatchEntryAt(t: seq<char>): (r: Option<EntryMatch>)
    ensures r.Some? ==> WellFormedMatch(r.value) && r.value.len <= |t|
    ensures r.Some? ==> t[0] == '@'
  {
    match MatchHead(t)
    case None => None
    case Some((entryType, key, b)) =>
      match CloserFrom(t, b)
      case None => None
      case Some(j) => Some(EntryFrom(t, entryType, key, b, j))
  }

  /** The match once its head and the "\n}" closing the body are found; the
      match runs on over the white space after the closing brace. */
  function EntryFrom(t: seq<char>, entryType: string, key: string, b: nat, j: nat): (m: EntryMatch)
    requires b <= j && j + 2 <= |t|
    ensures m.body == t[b..j] && j + 2 <= m.len <= |t|
  {
    EntryMatch(entryType, key, t[b..j], j + 2 + SkipLen(t[j + 2..], IsSpace))
  }

  /** The `while ((m = entryRegex.exec(text)) !== null)` loop: every match, in
      order, each search resuming where the previous match ended. */
  function Matches(t: seq<char>): (ms: seq<EntryMatch>)
    ensures forall i :: 0 <= i < |ms| ==> WellFormedMatch(ms[i])
    decreases |t|
  {
    if |t| == 0 then []
    else
      match MatchEntryAt(t)
      case Some(m) =>
        var rest := Matches(t[m.len..]);
        WellFormedCons(m, rest);
        [m] + rest
      case None => Matches(t[1..])
  }

  lemma WellFormedCons(m: EntryMatch, ms: seq<EntryMatch>)
    requires WellFormedMatch(m) && forall i :: 0 <= i < |ms| ==> WellFormedMatch(ms[i])
    ensures forall i :: 0 <= i < |ms| + 1 ==> WellFormedMatch(([m] + ms)[i])
  {
  }

  // ---------------------------------------------------------------- fields

  /** The class `[a-zA-Z_]` that starts a field name. */
  predicate IsNameStart(c: char) {
    'A' <= c <= 'Z' || 'a' <= c <= 'z' || c == '_'
  }

  /** The class `[a-zA-Z0-9_\-]` of the rest of a field name. */
  predicate IsNameChar(c: char) {
    IsWordChar(c) || c == '-'
  }

  predicate IsSpaceOrComma(c: char) {
    IsSpace(c) || c == ','
  }

  predicate IsSpaceOrEquals(c: char) {
    IsSpace(c) || c == '='
  }

  /** A bare value, and the skip after every value, stop at `,` or a newline. */
  predicate IsBareChar(c: char) {
    c != ',' && c != '\n'
  }

  /** A stored field name: a name lower-cased. */
  predicate IsFieldName(s: string) {
    && |s| > 0
    && ('a' <= s[0] <= 'z' || s[0] == '_')
    && forall i :: 0 <= i < |s| ==> IsLowerWordChar(s[i]) || s[i] == '-'
  }

  /** Length of the match of `^[a-zA-Z_][a-zA-Z0-9_\-]*` at the start of `t`, 0 when there is none. */
  function NameLen(t: seq<char>): (n: nat)
    ensures n <= |t|
    ensures n > 0 ==> IsNameStart(t[0]) && forall i :: 0 < i < n ==> IsNameChar(t[i])
    ensures n == 0 <==> |t| == 0 || !IsNameStart(t[0])
  {
    if |t| > 0 && IsNameStart(t[0]) then
      var n := 1 + SkipLen(t[1..], IsNameChar);
      SkipLenAll(t[1..], IsNameChar);
      assert forall i :: 0 < i < n ==> t[i] == t[1..][i - 1];
      n
    else 0
  }

  function LowerName(s: string): (r: string)
    requires |s| > 0 && IsNameStart(s[0]) && forall i :: 0 < i < |s| ==> IsNameChar(s[i])
    ensures IsFieldName(r)
  {
    var r := Lower(s);
    forall i | 0 <= i < |s| ensures IsLowerWordChar(r[i]) || r[i] == '-' {
      assert r[i] == LowerChar(s[i]);
      if i > 0 {
        assert IsNameChar(s[i]);
      }
      LowerCharClasses(s[i]);
    }
    LowerCharClasses(s[0]);
    r
  }

  /** The brace counter's step: `{` opens, `}` closes, anything else leaves the depth. */
  function NextDepth(depth: nat, c: char): nat
    requires depth > 0
  {
    if c == '{' then depth + 1 else if c == '}' then depth - 1 else depth
  }

  /** Characters consumed by `while (i < n && depth > 0) { ...; i++ }` after an opening brace. */
  function BracedLen(t: seq<char>, depth: nat): (n: nat)
    ensures n <= |t|
    ensures depth > 0 ==> n > 0 || |t| == 0
  {
    if |t| == 0 || depth == 0 then 0 else 1 + BracedLen(t[1..], NextDepth(depth, t[0]))
  }

  /** Characters consumed after an opening quote, up to the closing quote or
      the end; a backslash takes the next character with it. */
  function QuotedLen(t: seq<char>): (n: nat)
    ensures n <= |t|
    ensures n < |t| ==> t[n] == '"'
  {
    if |t| == 0 || t[0] == '"' then 0
    else if t[0] == '\\' && |t| > 1 then 2 + QuotedLen(t[2..])
    else 1 + QuotedLen(t[1..])
  }

  /** One value, read at a non-empty position: the raw text and what follows it.
      A brace value is `body.slice(start, i - 1)`, which drops the last character
      read; that is the closing brace when there is one. A quoted value keeps its
      backslashes. A bare value runs to `,` or a newline. */
  function ReadValue(t: seq<char>): (r: (seq<char>, seq<char>))
    requires |t| > 0
    ensures |r.1| < |t| || (r.1 == t && r.0 == [])
  {
    if t[0] == '{' then
      var u := t[1..];
      var c := BracedLen(u, 1);
      (if c >= 1 then u[..c - 1] else [], u[c..])
    else if t[0] == '"' then
      var u := t[1..];
      var q := QuotedLen(u);
      (u[..q], if q < |u| then u[q + 1..] else [])
    else
      var b := SkipLen(t, IsBareChar);
      (t[..b], t[b..])
  }

  /** After a value: skip to the next `,` or newline and step over a `,`. */
  function AfterValue(t: seq<char>): (r: seq<char>)
    ensures |r| <= |t| && r == t[|t| - |r|..]
    ensures var m := |t| - |r|;
      || (m > 0 && t[m - 1] == ',' && forall i :: 0 <= i < m - 1 ==> IsBareChar(t[i]))
      || ((|r| == 0 || r[0] == '\n') && forall i :: 0 <= i < m ==> IsBareChar(t[i]))
  {
    SkipLenAll(t, IsBareChar);
    var s := t[SkipLen(t, IsBareChar)..];
    if |s| > 0 && s[0] == ',' then s[1..] else s
  }

  /** What is stored for a raw value: trimmed, then every brace removed. */
  function CleanValue(raw: seq<char>): (v: string)
    ensures NoneIn(v, {'{', '}'})
    ensures Trimmed(raw) && NoneIn(raw, {'{', '}'}) ==> v == raw
  {
    RemoveBraces(Trim(raw))
  }

  /** One `fields[fieldName] = value` of the scanner. */
  datatype Assignment = Assignment(name: string, value: string)

  /** An assignment as the scanner performs it: a field name and a brace-free value. */
  predicate GoodAssignment(a: Assignment) {
    IsFieldName(a.name) && NoneIn(a.value, {'{', '}'})
  }

  /** One pass of the field-body loop: the assignment it performs and the text
      left for the next pass, or None where the loop stops: at the end of the
      body, at a position that does not start a name, or when a name is
      followed only by white space and `=`. */
  function FieldStep(t: seq<char>): (r: Option<(Assignment, seq<char>)>)
    ensures r.Some? ==> GoodAssignment(r.value.0) && |r.value.1| < |t|
  {
    var t1 := t[SkipLen(t, IsSpaceOrComma)..];
    var n := NameLen(t1);
    if n == 0 then None
    else
      var t2 := t1[n..];
      var t3 := t2[SkipLen(t2, IsSpaceOrEquals)..];
      if |t3| == 0 then None
      else
        var (raw, rest) := ReadValue(t3);
        Some((Assignment(LowerName(t1[..n]), CleanValue(raw)), AfterValue(rest)))
  }

  /** The assignments the field-body loop performs, in order. */
  function Assignments(t: seq<char>): (r: seq<Assignment>)
    ensures forall i :: 0 <= i < |r| ==> GoodAssignment(r[i])
    decreases |t|
  {
    match FieldStep(t)
    case None => []
    case Some(step) =>
      var rs := Assignments(step.1);
      AllGoodPrepend(step.0, rs);
      [step.0] + rs
  }

  lemma AllGoodPrepend(a: Assignment, rs: seq<Assignment>)
    requires GoodAssignment(a) && forall i :: 0 <= i < |rs| ==> GoodAssignment(rs[i])
    ensures forall i :: 0 <= i < |rs| + 1 ==> GoodAssignment(([a] + rs)[i])
  {
    forall i | 0 <= i < |rs| + 1 ensures GoodAssignment(([a] + rs)[i]) {
      if i > 0 { assert ([a] + rs)[i] == rs[i - 1]; }
    }
  }

  /** Performs the assignments on a plain object, first to last. */
  function StoreAll(obj: map<string, string>, asg: seq<Assignment>): (r: map<string, string>)
    ensures forall n :: n in obj ==> n in r
    ensures ProtoName in r <==> ProtoName in obj
    decreases |asg|
  {
    if |asg| == 0 then obj
    else StoreAll(SetProperty(obj, asg[0].name, asg[0].value), asg[1..])
  }

  /** A field map as the parser leaves it. */
  predicate ValidFields(f: map<string, string>) {
    forall n :: n in f ==> IsFieldName(n) && n != ProtoName && NoneIn(f[n], {'{', '}'})
  }

  /** The field map of one entry body. */
  function Fields(body: string): (f: map<string, string>)
    ensures ValidFields(f)
  {
    StoreAllValid(map[], Assignments(body));
    StoreAll(map[], Assignments(body))
  }

  lemma {:induction false} StoreAllValid(obj: map<string, string>, asg: seq<Assignment>)
    requires ValidFields(obj)
    requires forall i :: 0 <= i < |asg| ==> GoodAssignment(asg[i])
    ensures ValidFields(StoreAll(obj, asg))
    decreases |asg|
  {
    if |asg| > 0 {
      StoreAllValid(SetProperty(obj, asg[0].name, asg[0].value), asg[1..]);
    }
  }

  // ---------------------------------------------------------------- the store

  function EntryOf(m: EntryMatch): (e: Entry)
    ensures e.key == m.key && e.entryType == m.entryType && ValidFields(e.fields)
  {
    Entry(m.key, m.entryType, Fields(m.body))
  }

  /** A record store as the parser leaves it: each entry filed under its own key. */
  predicate ValidStore(store: map<string, Entry>) {
    forall k :: k in store ==>
      && store[k].key == k
      && IsEntryKey(k)
      && IsEntryType(store[k].entryType)
      && ValidFields(store[k].fields)
  }

  /** `entries.set(key, ...)` for every match, first to last. */
  function Collect(store: map<string, Entry>, ms: seq<EntryMatch>): (r: map<string, Entry>)
    requires ValidStore(store)
    requires forall i :: 0 <= i < |ms| ==> WellFormedMatch(ms[i])
    ensures ValidStore(r)
    decreases |ms|
  {
    if |ms| == 0 then store
    else
      var e := EntryOf(ms[0]);
      assert WellFormedMatch(ms[0]);
      Collect(store[ms[0].key := e], ms[1..])
  }

  /** `parseBibTeX`: the record store of a BibTeX text. */
  function ParseBibTeX(text: string): (r: map<string, Entry>)
    ensures ValidStore(r)
  {
    Collect(map[], Matches(StripComments(text)))
  }
}
