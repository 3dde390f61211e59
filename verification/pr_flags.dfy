/** The PR-body flag parser: `parsePullRequestFlags`, which runs the global multiline
    pattern `^([A-Z_]+)=(.*?)(\s*#.*)?$` over the body with `exec` and records every
    match in a map, coercing "true"/"false" to booleans and numeric text to numbers. */
module PrFlags {
  import opened Wrappers
  import opened Text

  /** A flag value. `Num` keeps the text that `parseFloat` would read: the float itself is not modelled. */
  datatype FlagValue = Bool(b: bool) | Num(text: string) | Str(text: string)

  type Flags = map<string, FlagValue>

  /** What `.` refuses and what `^`/`$` see as a line break. */
  predicate IsLineTerminator(c: char)
  {
    c == '\n' || c == '\r' || c == '\U{2028}' || c == '\U{2029}'
  }

  /** The class `\s` (also the white space `parseFloat` skips). */
  predicate IsSpace(c: char)
  {
    IsLineTerminator(c) || c == '\t' || c == '\U{000B}' || c == '\U{000C}' || c == ' '
    || c == '\U{00A0}' || c == '\U{1680}' || ('\U{2000}' <= c <= '\U{200A}')
    || c == '\U{202F}' || c == '\U{205F}' || c == '\U{3000}' || c == '\U{FEFF}'
  }

  /** The class `[A-Z_]`. */
  predicate IsNameChar(c: char)
  {
    ('A' <= c <= 'Z') || c == '_'
  }

  predicate IsDigit(c: char) { '0' <= c <= '9' }

  /** The end of the run of name characters from `i`. */
  function NameEnd(s: string, i: nat): (e: nat)
    requires i <= |s|
    ensures i <= e <= |s|
    ensures forall k :: i <= k < e ==> IsNameChar(s[k])
    ensures e < |s| ==> !IsNameChar(s[e])
    decreases |s| - i
  {
    if i < |s| && IsNameChar(s[i]) then NameEnd(s, i + 1) else i
  }

  /** The end of the run of white space from `i`. */
  function SpaceEnd(s: string, i: nat): (e: nat)
    requires i <= |s|
    ensures i <= e <= |s|
    ensures forall k :: i <= k < e ==> IsSpace(s[k])
    ensures e < |s| ==> !IsSpace(s[e])
    decreases |s| - i
  {
    if i < |s| && IsSpace(s[i]) then SpaceEnd(s, i + 1) else i
  }

  /** The end of the line holding index `i`: the first line terminator from `i`, or the end. */
  function LineEnd(s: string, i: nat): (e: nat)
    requires i <= |s|
    ensures i <= e <= |s|
    ensures forall k :: i <= k < e ==> !IsLineTerminator(s[k])
    ensures e < |s| ==> IsLineTerminator(s[e])
    decreases |s| - i
  {
    if i < |s| && !IsLineTerminator(s[i]) then LineEnd(s, i + 1) else i
  }

  /** Where the group `(\s*#.*)` followed by `$` ends when tried at `q`, if it matches there.
      The white space may run across line breaks; the comment runs to the end of its line. */
  function CommentEnd(s: string, q: nat): (r: Option<nat>)
    requires q <= |s|
    ensures r.Some? ==> q < r.value <= |s|
    ensures q < |s| && s[q] == '#' ==> r.Some?
  {
    var w := SpaceEnd(s, q);
    if w < |s| && s[w] == '#' then Some(LineEnd(s, w + 1)) else None
  }

  /** The lazy `(.*?)` from `q`: the first position up to the line end `eol` where the
      rest of the pattern matches, with the comment group tried before `$`. */
  function ValueEnd(s: string, q: nat, eol: nat): (v: nat)
    requires q <= eol <= |s|
    ensures q <= v <= eol
    ensures v < eol ==> CommentEnd(s, v).Some?
    ensures forall k :: q <= k < v ==> CommentEnd(s, k).None?
    decreases eol - q
  {
    if q == eol || CommentEnd(s, q).Some? then q else ValueEnd(s, q + 1, eol)
  }

  /** One match of the pattern: where it starts, its two captured groups, where it ends. */
  datatype Match = Match(start: nat, name: string, value: string, end: nat)

  /** The pattern tried at position `p` (`^` aside). */
  function MatchAt(s: string, p: nat): (r: Option<Match>)
    requires p <= |s|
    ensures r.Some? ==> r.value.start == p && p < r.value.end <= |s|
  {
    var n := NameEnd(s, p);
    if n == p || n == |s| || s[n] != '=' then None
    else
      var eol := LineEnd(s, n + 1);
      var q := ValueEnd(s, n + 1, eol);
      var e := match CommentEnd(s, q) case Some(c) => c case None => q;
      Some(Match(p, s[p..n], s[n + 1..q], e))
  }

  /** The group `(\s*#.*)` matches at `q` exactly when white space from `q` leads to a '#',
      and it then runs to the end of that '#''s line. */
  lemma CommentGroup(s: string, q: nat)
    requires q <= |s|
    ensures CommentEnd(s, q).Some? <==>
      exists w :: q <= w < |s| && s[w] == '#' && forall k :: q <= k < w ==> IsSpace(s[k])
    ensures forall w :: q <= w < |s| && s[w] == '#' && (forall k :: q <= k < w ==> IsSpace(s[k])) ==>
      CommentEnd(s, q) == Some(LineEnd(s, w + 1))
  {
    var e := SpaceEnd(s, q);
    forall w | q <= w < |s| && s[w] == '#' && (forall k :: q <= k < w ==> IsSpace(s[k]))
      ensures CommentEnd(s, q) == Some(LineEnd(s, w + 1))
    {
      SpaceEndIs(s, q, w);
    }
    if CommentEnd(s, q).Some? {
      assert q <= e < |s| && s[e] == '#';
    }
  }

  /** The pattern matches at `p` exactly when a non-empty `[A-Z_]` run from `p` is
      followed by '='. */
  lemma MatchAtExactly(s: string, p: nat)
    requires p <= |s|
    ensures MatchAt(s, p).Some? <==> p < NameEnd(s, p) < |s| && s[NameEnd(s, p)] == '='
  {
  }

  /** The text the lazy value takes from `a` holds no '#' and no line break. */
  lemma PlainValue(s: string, a: nat, v: string)
    requires a <= |s| && v == s[a..ValueEnd(s, a, LineEnd(s, a))]
    ensures a + |v| <= |s| && s[a..a + |v|] == v
    ensures forall i :: 0 <= i < |v| ==> v[i] != '#' && !IsLineTerminator(v[i])
  {
    var q := ValueEnd(s, a, LineEnd(s, a));
    forall i | 0 <= i < |v| ensures v[i] != '#' && !IsLineTerminator(v[i]) {
      assert v[i] == s[a + i];
      assert CommentEnd(s, a + i).None?;
    }
  }

  /** A match at `p` names the text up to `NameEnd` and takes the lazy value after '=',
      which lies on one line and holds no '#'. */
  lemma MatchAtParts(s: string, p: nat, m: Match)
    requires p <= |s| && MatchAt(s, p) == Some(m)
    ensures var n := NameEnd(s, p);
      && p < n < |s| && s[n] == '=' && m.name == s[p..n]
      && m.value == s[n + 1..ValueEnd(s, n + 1, LineEnd(s, n + 1))]
    ensures forall i :: 0 <= i < |m.value| ==> m.value[i] != '#' && !IsLineTerminator(m.value[i])
  {
    PlainValue(s, NameEnd(s, p) + 1, m.value);
  }

  /** The name of a match: a non-empty run of `[A-Z_]` from `p`, followed by '='. */
  lemma MatchName(s: string, p: nat, m: Match)
    requires p <= |s| && MatchAt(s, p) == Some(m)
    ensures var n := p + |m.name|;
      && |m.name| > 0 && (forall i :: 0 <= i < |m.name| ==> IsNameChar(m.name[i]))
      && n < |s| && s[p..n] == m.name && s[n] == '='
  {
    var n := NameEnd(s, p);
    MatchAtParts(s, p, m);
    assert |m.name| == n - p;
    assert forall i :: 0 <= i < |m.name| ==> m.name[i] == s[p + i];
  }

  /** The value of a match is the text right after its '=', within the body. */
  lemma MatchValueText(s: string, p: nat, m: Match)
    requires p <= |s| && MatchAt(s, p) == Some(m)
    ensures var n := p + |m.name|;
      n + 1 + |m.value| <= |s| && forall i :: 0 <= i < |m.value| ==> s[n + 1 + i] == m.value[i]
  {
    MatchAtParts(s, p, m);
    assert p + |m.name| == NameEnd(s, p);
  }

  /** What a match is made of: a non-empty run of `[A-Z_]`, then '=', then the value, which
      lies on the same line and holds no '#'. */
  lemma MatchShape(s: string, p: nat)
    requires p <= |s| && MatchAt(s, p).Some?
    ensures var m := MatchAt(s, p).value; var n := p + |m.name|;
      && |m.name| > 0 && (forall i :: 0 <= i < |m.name| ==> IsNameChar(m.name[i]))
      && n < |s| && s[p..n] == m.name && s[n] == '='
      && n + 1 + |m.value| <= |s| && (forall i :: 0 <= i < |m.value| ==> s[n + 1 + i] == m.value[i])
      && (forall i :: 0 <= i < |m.value| ==> m.value[i] != '#' && !IsLineTerminator(m.value[i]))
  {
    var m := MatchAt(s, p).value;
    MatchName(s, p, m);
    MatchValueText(s, p, m);
    MatchAtParts(s, p, m);
  }

  /** Where `^` holds under the multiline flag. */
  predicate AtLineStart(s: string, p: nat)
    requires p <= |s|
  {
    p == 0 || IsLineTerminator(s[p - 1])
  }

  /** A line at whose start the pattern matches. */
  predicate IsFlagLine(s: string, p: nat)
    requires p <= |s|
  {
    AtLineStart(s, p) && MatchAt(s, p).Some?
  }

  /** `exec` from `lastIndex == from`: the match at the first flag line at or after `from`. */
  function Exec(s: string, from: nat): (r: Option<Match>)
    requires from <= |s|
    ensures r.Some? ==> from <= r.value.start < r.value.end <= |s|
    ensures r.Some? ==> IsFlagLine(s, r.value.start) && MatchAt(s, r.value.start) == r
    ensures forall p :: from <= p <= |s| && (r.Some? ==> p < r.value.start) ==> !IsFlagLine(s, p)
    decreases |s| - from
  {
    if IsFlagLine(s, from) then MatchAt(s, from)
    else if from == |s| then None
    else Exec(s, from + 1)
  }

  /** The matches that successive `exec` calls return, starting from `lastIndex == from`. */
  function Matches(s: string, from: nat): (ms: seq<Match>)
    requires from <= |s|
    ensures forall i :: 0 <= i < |ms| ==> from <= ms[i].start < ms[i].end <= |s|
    decreases |s| - from
  {
    var r := Exec(s, from);
    if r.None? then []
    else
      var rest := Matches(s, r.value.end);
      assert forall i :: 0 < i <= |rest| ==> ([r.value] + rest)[i] == rest[i - 1];
      [r.value] + rest
  }

  /** Matches that do not overlap, each ending at or before the next one starts. */
  predicate InOrder(ms: seq<Match>)
  {
    forall i :: 0 <= i < |ms| - 1 ==> ms[i].end <= ms[i + 1].start
  }

  /** A match before a run of later, ordered matches keeps them ordered. */
  lemma ConsInOrder(m: Match, rest: seq<Match>)
    requires InOrder(rest) && forall i :: 0 <= i < |rest| ==> m.end <= rest[i].start
    ensures InOrder([m] + rest)
  {
    var ms := [m] + rest;
    forall i | 0 <= i < |ms| - 1 ensures ms[i].end <= ms[i + 1].start {
      assert ms[i + 1] == rest[i];
      if i > 0 { assert ms[i] == rest[i - 1]; }
    }
  }

  /** One `exec` call, then the matches from where its match ends. */
  lemma MatchesUnfold(s: string, from: nat)
    requires from <= |s| && Exec(s, from).Some?
    ensures Matches(s, from) == [Exec(s, from).value] + Matches(s, Exec(s, from).value.end)
  {
  }

  /** Successive matches do not overlap: each ends at or before the next one starts. */
  lemma {:induction false} MatchesInOrder(s: string, from: nat)
    requires from <= |s|
    ensures InOrder(Matches(s, from))
    decreases |s| - from
  {
    var r := Exec(s, from);
    if r.Some? {
      MatchesInOrder(s, r.value.end);
      MatchesUnfold(s, from);
      ConsInOrder(r.value, Matches(s, r.value.end));
    }
  }

  /** `!isNaN(parseFloat(v))`: after leading white space and an optional sign, the text
      starts with "Infinity", with a digit, or with '.' and a digit. */
  predicate HasNumericPrefix(v: string)
  {
    var u := Unsigned(v);
    StartsWith(u, "Infinity") || (|u| > 0 && IsDigit(u[0])) || (|u| > 1 && u[0] == '.' && IsDigit(u[1]))
  }

  /** The text `parseFloat` reads its number from: leading white space and one sign dropped. */
  function Unsigned(v: string): string
  {
    var t := v[SpaceEnd(v, 0)..];
    if |t| > 0 && (t[0] == '+' || t[0] == '-') then t[1..] else t
  }

  /** Some digit before the exponent of the decimal literal from `i` is not zero. */
  predicate MantissaNonzero(u: string, i: nat, seenDot: bool)
    requires i <= |u|
    decreases |u| - i
  {
    if i < |u| && IsDigit(u[i]) then u[i] != '0' || MantissaNonzero(u, i + 1, seenDot)
    else if i < |u| && u[i] == '.' && !seenDot then MantissaNonzero(u, i + 1, true)
    else false
  }

  /** JavaScript truthiness of a flag value: `true`, a non-empty string, a number other than 0. */
  predicate Truthy(v: FlagValue)
  {
    match v
    case Bool(b) => b
    case Str(t) => t != ""
    case Num(t) => StartsWith(Unsigned(t), "Infinity") || MantissaNonzero(Unsigned(t), 0, false)
  }

  /** `prFlags[name]` read as a condition: absent names are falsy. */
  predicate FlagEnabled(flags: Flags, name: string)
  {
    name in flags && Truthy(flags[name])
  }

  /** The coercion of a captured value. */
  function Coerce(value: string): (r: FlagValue)
    ensures r == Bool(true) <==> value == "true"
    ensures r == Bool(false) <==> value == "false"
    ensures r.Num? <==> value != "true" && value != "false" && HasNumericPrefix(value)
    ensures !r.Bool? ==> r.text == value
  {
    if value == "true" then Bool(true)
    else if value == "false" then Bool(false)
    else if HasNumericPrefix(value) then Num(value)
    else Str(value)
  }

  /** Records the matches in order into `acc`, each overwriting an earlier entry of its name. */
  function Record(acc: Flags, ms: seq<Match>): (r: Flags)
    ensures acc.Keys <= r.Keys
    ensures forall i :: 0 <= i < |ms| ==> ms[i].name in r
    decreases |ms|
  {
    if ms == [] then acc else Record(acc[ms[0].name := Coerce(ms[0].value)], ms[1..])
  }

  /** The flags of a body. */
  function FlagsOf(body: string): Flags
  {
    Record(map[], Matches(body, 0))
  }

  /** No later match in `ms` has the name of `ms[i]`. */
  predicate IsLastOfName(ms: seq<Match>, i: nat)
    requires i < |ms|
  {
    forall j :: i < j < |ms| ==> ms[j].name != ms[i].name
  }

  /** Recording keeps the names already present and adds exactly the matched names. */
  lemma {:induction false} RecordKeys(acc: Flags, ms: seq<Match>)
    ensures forall k :: k in Record(acc, ms) <==> k in acc || exists i :: 0 <= i < |ms| && ms[i].name == k
    decreases |ms|
  {
    if ms != [] {
      var acc' := acc[ms[0].name := Coerce(ms[0].value)];
      var rest := ms[1..];
      assert Record(acc, ms) == Record(acc', rest);
      RecordKeys(acc', rest);
      forall k | k in Record(acc, ms)
        ensures k in acc || exists i :: 0 <= i < |ms| && ms[i].name == k
      {
        if k !in acc && k != ms[0].name {
          var i :| 0 <= i < |rest| && rest[i].name == k;
          assert ms[i + 1].name == k;
        }
      }
      forall k | k in acc || exists i :: 0 <= i < |ms| && ms[i].name == k
        ensures k in Record(acc, ms)
      {
        if k !in acc && k != ms[0].name {
          var i :| 0 <= i < |ms| && ms[i].name == k;
          assert rest[i - 1].name == k;
        }
      }
    }
  }

  /** Recording leaves each matched name with the coerced value of its last occurrence. */
  lemma {:induction false} RecordLast(acc: Flags, ms: seq<Match>)
    ensures forall i :: 0 <= i < |ms| && IsLastOfName(ms, i) ==> Record(acc, ms)[ms[i].name] == Coerce(ms[i].value)
    decreases |ms|
  {
    if ms != [] {
      var acc' := acc[ms[0].name := Coerce(ms[0].value)];
      var rest := ms[1..];
      assert Record(acc, ms) == Record(acc', rest);
      RecordLast(acc', rest);
      forall i | 0 <= i < |ms| && IsLastOfName(ms, i)
        ensures Record(acc, ms)[ms[i].name] == Coerce(ms[i].value)
      {
        if i > 0 {
          assert rest[i - 1] == ms[i];
          assert IsLastOfName(rest, i - 1);
        } else {
          forall j | 0 <= j < |rest| ensures rest[j].name != ms[0].name {
            assert rest[j] == ms[j + 1];
          }
          RecordKeeps(acc', rest);
        }
      }
    }
  }

  /** Recording leaves a name no match carries as it was. */
  lemma {:induction false} RecordKeeps(acc: Flags, ms: seq<Match>)
    ensures forall k :: k in acc && (forall i :: 0 <= i < |ms| ==> ms[i].name != k) ==> Record(acc, ms)[k] == acc[k]
    decreases |ms|
  {
    if ms != [] {
      var acc' := acc[ms[0].name := Coerce(ms[0].value)];
      var rest := ms[1..];
      assert Record(acc, ms) == Record(acc', rest);
      RecordKeeps(acc', rest);
      forall k | k in acc && (forall i :: 0 <= i < |ms| ==> ms[i].name != k)
        ensures Record(acc, ms)[k] == acc[k]
      {
        assert ms[0].name != k;
        forall i | 0 <= i < |rest| ensures rest[i].name != k { assert rest[i] == ms[i + 1]; }
      }
    }
  }

  /** Recording keeps the names already present, adds exactly the matched names, and
      leaves each name with the coerced value of its last occurrence. */
  lemma RecordLastWins(acc: Flags, ms: seq<Match>)
    ensures forall k :: k in Record(acc, ms) <==> k in acc || exists i :: 0 <= i < |ms| && ms[i].name == k
    ensures forall i :: 0 <= i < |ms| && IsLastOfName(ms, i) ==> Record(acc, ms)[ms[i].name] == Coerce(ms[i].value)
    ensures forall k :: k in acc && (forall i :: 0 <= i < |ms| ==> ms[i].name != k) ==> Record(acc, ms)[k] == acc[k]
  {
    RecordKeys(acc, ms);
    RecordLast(acc, ms);
    RecordKeeps(acc, ms);
  }

  /** `parsePullRequestFlags`: resets `lastIndex`, then records every `exec` match.
      Each matched name maps to the coerced value of its last match, and nothing else is a key. */
  method ParsePullRequestFlags(body: string) returns (flags: Flags)
    ensures flags == FlagsOf(body)
    ensures forall k :: k in flags <==> exists i :: 0 <= i < |Matches(body, 0)| && Matches(body, 0)[i].name == k
    ensures forall i :: 0 <= i < |Matches(body, 0)| && IsLastOfName(Matches(body, 0), i) ==>
      flags[Matches(body, 0)[i].name] == Coerce(Matches(body, 0)[i].value)
  {
    var lastIndex := 0;
    flags := map[];
    var m := Exec(body, lastIndex);
    while m.Some?
      invariant lastIndex <= |body|
      invariant m == Exec(body, lastIndex)
      invariant Record(flags, Matches(body, lastIndex)) == FlagsOf(body)
      decreases |body| - lastIndex
    {
      var found := m.value;
      flags := flags[found.name := Coerce(found.value)];
      lastIndex := found.end;
      m := Exec(body, lastIndex);
    }
    RecordLastWins(map[], Matches(body, 0));
  }

  /** `NameEnd`, `SpaceEnd` and `LineEnd` stop exactly at the first character outside their run. */
  lemma NameEndIs(s: string, i: nat, e: nat)
    requires i <= e <= |s| && forall k :: i <= k < e ==> IsNameChar(s[k])
    requires e < |s| ==> !IsNameChar(s[e])
    ensures NameEnd(s, i) == e
  {
  }

  lemma SpaceEndIs(s: string, i: nat, e: nat)
    requires i <= e <= |s| && forall k :: i <= k < e ==> IsSpace(s[k])
    requires e < |s| ==> !IsSpace(s[e])
    ensures SpaceEnd(s, i) == e
  {
  }

  lemma LineEndIs(s: string, i: nat, e: nat)
    requires i <= e <= |s| && forall k :: i <= k < e ==> !IsLineTerminator(s[k])
    requires e < |s| ==> IsLineTerminator(s[e])
    ensures LineEnd(s, i) == e
  {
  }

  /** The lazy value ends at the first position where the rest of the pattern matches. */
  lemma ValueEndIs(s: string, q: nat, eol: nat, t: nat)
    requires q <= t <= eol <= |s|
    requires t == eol || CommentEnd(s, t).Some?
    requires forall k :: q <= k < t ==> CommentEnd(s, k).None?
    ensures ValueEnd(s, q, eol) == t
  {
  }

  /** No comment starts inside a value run that holds no '#' and ends in a non-space:
      the white space from any position in it ends at a character of the run. */
  lemma NoCommentInside(s: string, v0: nat, qs: nat)
    requires v0 < qs <= |s| && forall i :: v0 <= i < qs ==> s[i] != '#'
    requires !IsSpace(s[qs - 1])
    ensures forall k :: v0 <= k < qs ==> CommentEnd(s, k).None?
  {
    forall k | v0 <= k < qs ensures CommentEnd(s, k).None? {
      var e := SpaceEnd(s, k);
    }
  }

  /** White space in `[qs, w)` then '#' at `w`: the comment group matches at `qs`. */
  lemma CommentAfterSpace(s: string, qs: nat, w: nat)
    requires qs <= w < |s| && s[w] == '#'
    requires forall i :: qs <= i < w ==> IsSpace(s[i])
    ensures CommentEnd(s, qs) == Some(LineEnd(s, w + 1))
  {
    SpaceEndIs(s, qs, w);
  }

  /** The lazy value from `n + 1`, laid out by position: value in `[n + 1, qs)`, white
      space in `[qs, w)`, '#' at `w`. It ends at `qs`, where the comment group matches. */
  lemma CommentedValueEnd(s: string, n: nat, qs: nat, w: nat)
    requires n + 1 <= qs <= w < |s| && s[w] == '#'
    requires forall i :: n + 1 <= i < qs ==> s[i] != '#' && !IsLineTerminator(s[i])
    requires qs > n + 1 ==> !IsSpace(s[qs - 1])
    requires forall i :: qs <= i < w ==> IsSpace(s[i])
    ensures qs <= LineEnd(s, n + 1) && ValueEnd(s, n + 1, LineEnd(s, n + 1)) == qs
    ensures CommentEnd(s, qs) == Some(LineEnd(s, w + 1))
  {
    CommentAfterSpace(s, qs, w);
    var eol := LineEnd(s, n + 1);
    if qs > n + 1 { NoCommentInside(s, n + 1, qs); }
    ValueEndIs(s, n + 1, eol, qs);
  }

  /** The pattern at `p` from its parts: the name ends at `n` with '=', and the value
      search ends at `qs`, where the comment group matches up to `e`. */
  lemma CommentedValueAt(s: string, p: nat, n: nat, qs: nat, e: nat)
    requires p < n < |s| && NameEnd(s, p) == n && s[n] == '='
    requires qs <= LineEnd(s, n + 1) && ValueEnd(s, n + 1, LineEnd(s, n + 1)) == qs
    requires CommentEnd(s, qs) == Some(e)
    ensures MatchAt(s, p) == Some(Match(p, s[p..n], s[n + 1..qs], e))
  {
  }

  /** A flag line with a trailing comment: the name in `[p, n)`, '=' at `n`, the value in
      `[n + 1, qs)` (no '#', no line break, not ending in white space), white space in
      `[qs, w)` and '#' at `w`. The value stops before the white space that precedes the
      '#', and the match runs to the end of the comment's line. */
  lemma TrailingCommentDropped(s: string, p: nat, n: nat, qs: nat, w: nat)
    requires p < n && n + 1 <= qs <= w < |s|
    requires forall k :: p <= k < n ==> IsNameChar(s[k])
    requires s[n] == '='
    requires forall k :: n + 1 <= k < qs ==> s[k] != '#' && !IsLineTerminator(s[k])
    requires qs > n + 1 ==> !IsSpace(s[qs - 1])
    requires forall k :: qs <= k < w ==> IsSpace(s[k])
    requires s[w] == '#'
    ensures MatchAt(s, p) == Some(Match(p, s[p..n], s[n + 1..qs], LineEnd(s, w + 1)))
  {
    NameEndIs(s, p, n);
    CommentedValueEnd(s, n, qs, w);
    CommentedValueAt(s, p, n, qs, LineEnd(s, w + 1));
  }

  /** The pattern at `p` from its parts when no comment follows the value: the name ends
      at `n` with '=', and the value search ends at the line end `q`. */
  lemma BareValueAt(s: string, p: nat, n: nat, q: nat)
    requires p < n < |s| && NameEnd(s, p) == n && s[n] == '='
    requires LineEnd(s, n + 1) == q && ValueEnd(s, n + 1, q) == q && CommentEnd(s, q).None?
    ensures MatchAt(s, p) == Some(Match(p, s[p..n], s[n + 1..q], q))
  {
  }

  /** A flag line that runs to the end of the body without a '#' or a line break: the whole
      rest of the body, trailing white space included, is the value. */
  lemma ValueToEndOfBody(s: string, p: nat, n: nat)
    requires p < n < |s|
    requires forall k :: p <= k < n ==> IsNameChar(s[k])
    requires s[n] == '='
    requires forall k :: n + 1 <= k < |s| ==> s[k] != '#' && !IsLineTerminator(s[k])
    ensures MatchAt(s, p) == Some(Match(p, s[p..n], s[n + 1..], |s|))
  {
    NameEndIs(s, p, n);
    LineEndIs(s, n + 1, |s|);
    forall k | n + 1 <= k <= |s|
      ensures CommentEnd(s, k).None?
    {
      var e := SpaceEnd(s, k);
    }
    ValueEndIs(s, n + 1, |s|, |s|);
    BareValueAt(s, p, n, |s|);
    assert s[n + 1..|s|] == s[n + 1..];
  }

  /** A body on which the pattern matches at the start and up to the end has that one match. */
  lemma OnlyMatch(body: string, m: Match)
    requires MatchAt(body, 0) == Some(m) && m.end == |body|
    ensures Matches(body, 0) == [m]
    ensures FlagsOf(body) == map[m.name := Coerce(m.value)]
  {
    SingleMatch(body, m);
    assert FlagsOf(body) == Record(map[], [m]);
    assert Record(map[], [m]) == Record(map[m.name := Coerce(m.value)], []);
  }

  /** `exec` finds the match at 0 and, from its end (the end of the body), nothing more. */
  lemma SingleMatch(body: string, m: Match)
    requires MatchAt(body, 0) == Some(m) && m.end == |body|
    ensures Matches(body, 0) == [m]
  {
    assert Exec(body, 0) == Some(m);
    assert Exec(body, |body|) == None;
    assert Matches(body, |body|) == [];
  }

  /** Where the parts of `name + "=" + value + ws + "#" + comment` sit in it. */
  lemma CommentedBodyLayout(body: string, name: string, value: string, ws: string, comment: string)
    requires body == name + "=" + value + ws + "#" + comment
    ensures |body| == |name| + |value| + |ws| + |comment| + 2
    ensures forall k :: 0 <= k < |name| ==> body[k] == name[k]
    ensures body[|name|] == '='
    ensures forall k :: |name| + 1 <= k < |name| + 1 + |value| ==> body[k] == value[k - |name| - 1]
    ensures forall k :: |name| + 1 + |value| <= k < |name| + 1 + |value| + |ws| ==>
      body[k] == ws[k - |name| - 1 - |value|]
    ensures body[|name| + 1 + |value| + |ws|] == '#'
    ensures forall k :: |name| + |value| + |ws| + 2 <= k < |body| ==>
      body[k] == comment[k - |name| - |value| - |ws| - 2]
    ensures body[..|name|] == name && body[|name| + 1..|name| + 1 + |value|] == value
  {
  }

  /** On a body that is one flag line with a comment, the pattern matches the whole body
      at its start, with the value before the white space and the '#'. */
  lemma {:induction false} CommentedLineMatch(name: string, value: string, ws: string, comment: string)
    requires |name| > 0 && forall i :: 0 <= i < |name| ==> IsNameChar(name[i])
    requires forall i :: 0 <= i < |value| ==> value[i] != '#' && !IsLineTerminator(value[i])
    requires value == [] || !IsSpace(value[|value| - 1])
    requires forall i :: 0 <= i < |ws| ==> IsSpace(ws[i])
    requires forall i :: 0 <= i < |comment| ==> !IsLineTerminator(comment[i])
    ensures var body := name + "=" + value + ws + "#" + comment;
      MatchAt(body, 0) == Some(Match(0, name, value, |body|))
  {
    var body := name + "=" + value + ws + "#" + comment;
    var n := |name|;
    var qs := n + 1 + |value|;
    var w := qs + |ws|;
    CommentedBodyLayout(body, name, value, ws, comment);
    TrailingCommentDropped(body, 0, n, qs, w);
    LineEndIs(body, w + 1, |body|);
    assert body[0..n] == name;
  }

  /** A body that is one flag line with a comment yields exactly that flag. */
  lemma {:induction false} OneCommentedLine(name: string, value: string, ws: string, comment: string)
    requires |name| > 0 && forall i :: 0 <= i < |name| ==> IsNameChar(name[i])
    requires forall i :: 0 <= i < |value| ==> value[i] != '#' && !IsLineTerminator(value[i])
    requires value == [] || !IsSpace(value[|value| - 1])
    requires forall i :: 0 <= i < |ws| ==> IsSpace(ws[i])
    requires forall i :: 0 <= i < |comment| ==> !IsLineTerminator(comment[i])
    ensures FlagsOf(name + "=" + value + ws + "#" + comment) == map[name := Coerce(value)]
  {
    var body := name + "=" + value + ws + "#" + comment;
    CommentedLineMatch(name, value, ws, comment);
    OnlyMatch(body, Match(0, name, value, |body|));
  }

  /** Where the parts of `name + "=" + value` sit in it. */
  lemma BareBodyLayout(body: string, name: string, value: string)
    requires body == name + "=" + value
    ensures |body| == |name| + |value| + 1
    ensures forall k :: 0 <= k < |name| ==> body[k] == name[k]
    ensures body[|name|] == '='
    ensures forall k :: |name| + 1 <= k < |body| ==> body[k] == value[k - |name| - 1]
    ensures body[..|name|] == name && body[|name| + 1..] == value
  {
  }

  /** A body that is one flag line without a comment yields exactly that flag. */
  lemma {:induction false} OneBareLine(name: string, value: string)
    requires |name| > 0 && forall i :: 0 <= i < |name| ==> IsNameChar(name[i])
    requires forall i :: 0 <= i < |value| ==> value[i] != '#' && !IsLineTerminator(value[i])
    ensures FlagsOf(name + "=" + value) == map[name := Coerce(value)]
  {
    var body := name + "=" + value;
    BareBodyLayout(body, name, value);
    ValueToEndOfBody(body, 0, |name|);
    assert body[0..|name|] == name;
    OnlyMatch(body, Match(0, name, value, |body|));
  }

  /** "FOO=true # comment" gives FOO the boolean true: the comment is dropped. */
  lemma CommentedBooleanExample()
    ensures FlagsOf("FOO=true # comment") == map["FOO" := Bool(true)]
  {
    assert "FOO" + "=" + "true" + " " + "#" + " comment" == "FOO=true # comment";
    OneCommentedLine("FOO", "true", " ", " comment");
  }

  /** "BAR=3.5" gives BAR a number. */
  lemma NumberExample()
    ensures FlagsOf("BAR=3.5") == map["BAR" := Num("3.5")]
  {
    assert "BAR" + "=" + "3.5" == "BAR=3.5";
    OneBareLine("BAR", "3.5");
    NumericText();
  }

  /** "3.5" has a numeric prefix, so it becomes a number. */
  lemma NumericText()
    ensures Coerce("3.5") == Num("3.5")
  {
    assert SpaceEnd("3.5", 0) == 0;
    assert HasNumericPrefix("3.5");
  }

  /** "BAZ=hello" gives BAZ a string. */
  lemma StringExample()
    ensures FlagsOf("BAZ=hello") == map["BAZ" := Str("hello")]
  {
    assert "BAZ" + "=" + "hello" == "BAZ=hello";
    OneBareLine("BAZ", "hello");
    PlainText();
  }

  /** "hello" has no numeric prefix, so it stays a string. */
  lemma PlainText()
    ensures Coerce("hello") == Str("hello")
  {
    assert SpaceEnd("hello", 0) == 0;
    assert !HasNumericPrefix("hello");
  }

  /** No line that starts strictly inside a match is a flag line: the only line breaks a
      match can span lie in the white space before its comment, and the lines they open
      start with white space or '#'. */
  lemma NoFlagLineInsideMatch(s: string, p: nat)
    requires p <= |s| && MatchAt(s, p).Some?
    ensures forall p' :: p < p' < MatchAt(s, p).value.end ==> !IsFlagLine(s, p')
  {
    var m := MatchAt(s, p).value;
    var n := NameEnd(s, p);
    var eol := LineEnd(s, n + 1);
    var q := ValueEnd(s, n + 1, eol);
    forall p' | p < p' < m.end
      ensures !IsFlagLine(s, p')
    {
      if AtLineStart(s, p') {
        // s[p' - 1] is a line break, so it lies in the white space before the comment.
        assert !(p' - 1 < n);
        assert p' - 1 != n;
        assert !(p' - 1 < q);
        var w := SpaceEnd(s, q);
        assert CommentEnd(s, q).Some?;
        assert m.end == LineEnd(s, w + 1);
        assert p' - 1 < w;
        assert NameEnd(s, p') == p' by {
          if p' < w { assert IsSpace(s[p']); } else { assert s[p'] == '#'; }
        }
      }
    }
  }

  /** Every match from `from` is the pattern's match at a flag line at or after `from`. */
  lemma {:induction false} MatchesAreAtFlagLines(s: string, from: nat)
    requires from <= |s|
    ensures forall i :: 0 <= i < |Matches(s, from)| ==>
      from <= Matches(s, from)[i].start && IsFlagLine(s, Matches(s, from)[i].start)
      && MatchAt(s, Matches(s, from)[i].start) == Some(Matches(s, from)[i])
    decreases |s| - from
  {
    var ms := Matches(s, from);
    match Exec(s, from)
    case None =>
    case Some(m) =>
      var rest := Matches(s, m.end);
      assert ms == [m] + rest;
      MatchesAreAtFlagLines(s, m.end);
      forall i | 0 <= i < |ms|
        ensures from <= ms[i].start && IsFlagLine(s, ms[i].start) && MatchAt(s, ms[i].start) == Some(ms[i])
      {
        if i > 0 { assert ms[i] == rest[i - 1]; }
      }
  }

  /** Some match in `ms` starts at `p`. */
  predicate IsMatchStart(ms: seq<Match>, p: nat)
  {
    exists i :: 0 <= i < |ms| && ms[i].start == p
  }

  /** No flag line at or after `from` is missed: lines inside an earlier match cannot be
      flag lines, and every other one is where some later `exec` stops. */
  lemma {:induction false} FlagLinesAreMatched(s: string, from: nat)
    requires from <= |s|
    ensures forall p :: from <= p <= |s| && IsFlagLine(s, p) ==> IsMatchStart(Matches(s, from), p)
    decreases |s| - from
  {
    match Exec(s, from)
    case None =>
    case Some(m) =>
      var ms := Matches(s, from);
      var rest := Matches(s, m.end);
      assert ms == [m] + rest;
      FlagLinesAreMatched(s, m.end);
      forall p | from <= p <= |s| && IsFlagLine(s, p)
        ensures IsMatchStart(ms, p)
      {
        if p == m.start {
          assert ms[0].start == p;
        } else {
          FlagLineAfterMatch(s, from, m, p);
          StartInTail(m, rest, p);
        }
      }
  }

  /** A start among the later matches is a start of the whole sequence. */
  lemma StartInTail(m: Match, rest: seq<Match>, p: nat)
    requires IsMatchStart(rest, p)
    ensures IsMatchStart([m] + rest, p)
  {
    var i :| 0 <= i < |rest| && rest[i].start == p;
    assert ([m] + rest)[i + 1].start == p;
  }

  /** A flag line at or after `from` other than the one `exec` stops at lies after its match. */
  lemma FlagLineAfterMatch(s: string, from: nat, m: Match, p: nat)
    requires from <= |s| && Exec(s, from) == Some(m)
    requires from <= p <= |s| && IsFlagLine(s, p) && p != m.start
    ensures m.end <= p
  {
    NoFlagLineInsideMatch(s, m.start);
  }
}
