/** String operations of JavaScript that the core relies on, over `seq<char>`
    (each `char` standing for one UTF-16 code unit of the original). */
module Text {

  /** `s.startsWith(p)` */
  predicate StartsWith(s: string, p: string)
  {
    |p| <= |s| && s[..|p|] == p
  }

  /** `s.endsWith(p)` */
  predicate EndsWith(s: string, p: string)
  {
    |p| <= |s| && s[|s| - |p|..] == p
  }

  /** `s.includes(n)`, and also `/n/.test(s)` for a pattern without special characters. */
  predicate Includes(s: string, n: string)
    decreases |s|
  {
    StartsWith(s, n) || (|s| > 0 && Includes(s[1..], n))
  }

  /** An occurrence of `n` at index `i` of `s` is found by `Includes`. */
  lemma {:induction false} IncludesAt(s: string, n: string, i: nat)
    requires i + |n| <= |s| && s[i..i + |n|] == n
    ensures Includes(s, n)
    decreases i
  {
    if i > 0 {
      assert s[1..][i - 1..i - 1 + |n|] == n;
      IncludesAt(s[1..], n, i - 1);
    }
  }

  /** The middle part of a concatenation is found in it. */
  lemma {:induction false} IncludesMiddle(a: string, b: string, c: string)
    ensures Includes(a + b + c, b)
  {
    var t := a + b + c;
    forall k | 0 <= k < |b| ensures t[|a|..|a| + |b|][k] == b[k] {
      assert t[|a| + k] == b[k];
    }
    assert t[|a|..|a| + |b|] == b;
    IncludesAt(t, b, |a|);
  }

  /** `s.substr(0, n)`: the first `n` code units, or all of `s` when it is shorter. */
  function Prefix(s: string, n: nat): (r: string)
    ensures |r| == if |s| < n then |s| else n
    ensures StartsWith(s, r)
  {
    if |s| < n then s else s[..n]
  }

  /** The decimal rendering of a natural number, as `"" + n` gives it in JavaScript. */
  function DecimalString(n: nat): (r: string)
    ensures |r| >= 1
    decreases n
  {
    var d := ['0', '1', '2', '3', '4', '5', '6', '7', '8', '9'][n % 10];
    if n < 10 then [d] else DecimalString(n / 10) + [d]
  }

  /** Joins parts with commas: the inverse of `SplitComma`. */
  function JoinComma(parts: seq<string>): string
  {
    if |parts| == 0 then ""
    else if |parts| == 1 then parts[0]
    else parts[0] + "," + JoinComma(parts[1..])
  }

  /** `s.split(",")`: the comma-free pieces between the commas of `s`, at least one of them. */
  function SplitComma(s: string): (parts: seq<string>)
    ensures |parts| >= 1
    ensures forall k :: 0 <= k < |parts| ==> ',' !in parts[k]
    ensures JoinComma(parts) == s
    decreases |s|
  {
    if ',' !in s then [s]
    else
      var i := FirstComma(s);
      var rest := SplitComma(s[i + 1..]);
      assert s == s[..i] + "," + s[i + 1..];
      [s[..i]] + rest
  }

  /** The index of the first comma of `s`. */
  function FirstComma(s: string): (i: nat)
    requires ',' in s
    ensures i < |s| && s[i] == ',' && ',' !in s[..i]
  {
    if s[0] == ',' then 0
    else
      var i := FirstComma(s[1..]);
      assert s[..i + 1] == [s[0]] + s[1..][..i];
      i + 1
  }

  /** Splitting a join of comma-free pieces gives the pieces back. */
  lemma {:induction false} SplitJoin(parts: seq<string>)
    requires |parts| >= 1
    requires forall k :: 0 <= k < |parts| ==> ',' !in parts[k]
    ensures SplitComma(JoinComma(parts)) == parts
    decreases |parts|
  {
    if |parts| > 1 {
      var p, rest := parts[0], parts[1..];
      var s := JoinComma(parts);
      assert s == p + "," + JoinComma(rest);
      assert s[|p|] == ',';
      var i := FirstComma(s);
      assert s[..i] == p && s[i + 1..] == JoinComma(rest);
      SplitJoin(rest);
    }
  }
}
