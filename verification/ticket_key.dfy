/** The ticket-key extractor: `parseMessage` with the pattern `^([A-Z]+-\d+) \w`,
    written as a scanner over the characters of the message. */
module TicketKey {
  import opened Wrappers

  predicate IsUpper(c: char) { 'A' <= c <= 'Z' }

  predicate IsDigit(c: char) { '0' <= c <= '9' }

  /** The class `\w`: ASCII letters, digits and the underscore. */
  predicate IsWordChar(c: char)
  {
    IsUpper(c) || ('a' <= c <= 'z') || IsDigit(c) || c == '_'
  }

  predicate AllUpper(t: string) { forall i :: 0 <= i < |t| ==> IsUpper(t[i]) }

  predicate AllDigits(t: string) { forall i :: 0 <= i < |t| ==> IsDigit(t[i]) }

  /** `k` has the shape of a ticket key: `[A-Z]+-[0-9]+`. */
  predicate IsTicketKey(k: string)
  {
    exists n :: 0 < n < |k| - 1 && k[n] == '-' && AllUpper(k[..n]) && AllDigits(k[n + 1..])
  }

  /** The message starts with key `k`, then one space, then a word character. */
  predicate LeadingKey(message: string, k: string)
  {
    IsTicketKey(k) && |k| + 2 <= |message| && message[..|k|] == k
    && message[|k|] == ' ' && IsWordChar(message[|k| + 1])
  }

  /** The end of the run of upper-case letters that starts at `i`. */
  function UpperRun(s: string, i: nat): (e: nat)
    requires i <= |s|
    ensures i <= e <= |s|
    ensures forall k :: i <= k < e ==> IsUpper(s[k])
    ensures e < |s| ==> !IsUpper(s[e])
    decreases |s| - i
  {
    if i < |s| && IsUpper(s[i]) then UpperRun(s, i + 1) else i
  }

  /** The end of the run of digits that starts at `i`. */
  function DigitRun(s: string, i: nat): (e: nat)
    requires i <= |s|
    ensures i <= e <= |s|
    ensures forall k :: i <= k < e ==> IsDigit(s[k])
    ensures e < |s| ==> !IsDigit(s[e])
    decreases |s| - i
  {
    if i < |s| && IsDigit(s[i]) then DigitRun(s, i + 1) else i
  }

  /** A key at the head of a message, followed by a non-digit, is exactly what
      the scanner's two runs delimit. */
  lemma KeyRuns(message: string, k: string)
    requires IsTicketKey(k) && |k| < |message| && message[..|k|] == k && !IsDigit(message[|k|])
    ensures var n := UpperRun(message, 0);
      0 < n < |message| && message[n] == '-' && DigitRun(message, n + 1) == |k|
  {
    var n :| 0 < n < |k| - 1 && k[n] == '-' && AllUpper(k[..n]) && AllDigits(k[n + 1..]);
    assert forall i :: 0 <= i < n ==> message[i] == k[..n][i];
    assert message[n] == '-';
    assert UpperRun(message, 0) == n;
    assert forall i :: n + 1 <= i < |k| ==> message[i] == k[n + 1..][i - (n + 1)];
    assert DigitRun(message, n + 1) == |k|;
  }

  /** Every key the message leads with ends where the scanner's digit run ends. */
  lemma LeadingKeysAreScanned(message: string)
    ensures forall k :: LeadingKey(message, k) ==>
      var n := UpperRun(message, 0);
      0 < n < |message| && message[n] == '-' && DigitRun(message, n + 1) == |k|
  {
    forall k | LeadingKey(message, k)
      ensures var n := UpperRun(message, 0);
        0 < n < |message| && message[n] == '-' && DigitRun(message, n + 1) == |k|
    {
      KeyRuns(message, k);
    }
  }

  /** The two runs the scanner finds, joined by '-', delimit a ticket key. */
  lemma ScannedKey(message: string, n: nat, m: nat)
    requires 0 < n < |message| && message[n] == '-' && n == UpperRun(message, 0)
    requires m == DigitRun(message, n + 1) && n + 1 < m
    ensures IsTicketKey(message[..m])
  {
    var k := message[..m];
    assert k[n] == '-' && AllUpper(k[..n]) && AllDigits(k[n + 1..]);
  }

  /** `parseMessage`: the leading ticket key of a commit message or title, if any.
      The result is the one key the message leads with, and nothing when it leads with none. */
  function ParseMessage(message: string): (r: Option<string>)
    ensures r.Some? ==> LeadingKey(message, r.value)
    ensures forall k :: LeadingKey(message, k) ==> r == Some(k)
  {
    var n := UpperRun(message, 0);
    LeadingKeysAreScanned(message);
    if n == 0 || n == |message| || message[n] != '-' then None
    else
      var m := DigitRun(message, n + 1);
      if m == n + 1 || m + 1 >= |message| || message[m] != ' ' || !IsWordChar(message[m + 1]) then None
      else
        ScannedKey(message, n, m);
        Some(message[..m])
  }

  /** A colon or a tab after the key is not the single space the pattern asks for. */
  lemma {:induction false} SeparatorMustBeSpace(key: string, sep: char, rest: string)
    requires IsTicketKey(key)
    requires sep == ':' || sep == '\t'
    ensures ParseMessage(key + [sep] + rest).None?
  {
    var message := key + [sep] + rest;
    assert message[..|key|] == key;
    KeyRuns(message, key);
  }

  /** A message that leads with key, space and word character yields that key. */
  lemma KeyFollowedByWord(key: string, w: char, rest: string)
    requires IsTicketKey(key) && IsWordChar(w)
    ensures ParseMessage(key + " " + [w] + rest) == Some(key)
  {
    var message := key + " " + [w] + rest;
    assert message[..|key|] == key;
    assert LeadingKey(message, key);
  }
}
