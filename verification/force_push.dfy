/** The force-push check of `checkForcePush`: when a push diverged from the previous head,
    the files each head changes relative to the pull request's base are sorted by name
    and walked with two cursors, recording every file whose change differs, and a comment
    listing the differences is posted. GitHub's compare call is the input `compare`;
    `localeCompare` is an abstract strict total order `lt` on file names. */
module ForcePush {
  import opened Wrappers
  import opened Text
  import opened GitHub

  /** A changed file of a comparison: its name and blob sha. The empty name stands for a
      missing or empty `filename`, both of which are falsy. */
  datatype FileEntry = FileEntry(filename: string, sha: string)

  /** What a cursor reads: a file, or the empty object `{}` once it is past its list. */
  datatype Slot = File(entry: FileEntry) | Past

  /** An order on names standing for `localeCompare`. */
  type Order = (string, string) -> bool

  ghost predicate StrictTotalOrder(lt: Order)
  {
    && (forall a :: !lt(a, a))
    && (forall a, b, c :: lt(a, b) && lt(b, c) ==> lt(a, c))
    && (forall a, b :: a != b ==> lt(a, b) || lt(b, a))
  }

  /** The slot has a truthy `filename`. */
  predicate Named(s: Slot)
  {
    s.File? && s.entry.filename != ""
  }

  /** `localeCompare` under the order `lt`. */
  function LocaleCompare(lt: Order, x: string, y: string): int
  {
    if lt(x, y) then -1 else if x == y then 0 else 1
  }

  /** `compareFilename`: a slot without a name sorts after everything, even after another
      slot without a name; named slots compare by name. */
  function CompareFilename(lt: Order, a: Slot, b: Slot): (c: int)
    ensures !Named(a) ==> c == 1
    ensures Named(a) && !Named(b) ==> c == -1
  {
    if !Named(a) then 1
    else if !Named(b) then -1
    else LocaleCompare(lt, a.entry.filename, b.entry.filename)
  }

  /** `a` sorts strictly before `b` under `compareFilename`. */
  predicate Before(lt: Order, a: FileEntry, b: FileEntry)
  {
    CompareFilename(lt, File(a), File(b)) < 0
  }

  lemma BeforeIsStrictOrder(lt: Order, a: FileEntry, b: FileEntry, c: FileEntry)
    requires StrictTotalOrder(lt)
    ensures !Before(lt, a, a)
    ensures Before(lt, a, b) && Before(lt, b, c) ==> Before(lt, a, c)
  {
  }

  /** No entry of `s` sorts before an earlier one. */
  predicate SortedByName(lt: Order, s: seq<FileEntry>)
  {
    forall i, j :: 0 <= i < j < |s| ==> !Before(lt, s[j], s[i])
  }

  /** Inserts `x` before the first entry it sorts before, so after every entry it ties with. */
  function Insert(lt: Order, x: FileEntry, s: seq<FileEntry>): (r: seq<FileEntry>)
    ensures multiset(r) == multiset(s) + multiset{x}
    ensures |r| == |s| + 1
  {
    if s == [] then [x]
    else if Before(lt, x, s[0]) then [x] + s
    else
      assert s == [s[0]] + s[1..];
      [s[0]] + Insert(lt, x, s[1..])
  }

  /** `files.slice().sort(compareFilename)` as a stable insertion sort: each entry goes
      after the entries before it that it does not sort before. */
  function SortFiles(lt: Order, files: seq<FileEntry>): (r: seq<FileEntry>)
    ensures multiset(r) == multiset(files)
    ensures |r| == |files|
  {
    if files == [] then []
    else
      assert files == files[..|files| - 1] + [files[|files| - 1]];
      Insert(lt, files[|files| - 1], SortFiles(lt, files[..|files| - 1]))
  }

  /** Every entry of `Insert(lt, x, s)` is `x` or an entry of `s`. */
  lemma InsertMembers(lt: Order, x: FileEntry, s: seq<FileEntry>)
    ensures forall e :: e in Insert(lt, x, s) ==> e == x || e in s
  {
    var r := Insert(lt, x, s);
    forall e | e in r ensures e == x || e in s {
      assert e in multiset(r);
    }
  }

  /** An entry that sorts before the head of a sorted list may lead it. */
  lemma {:induction false} PrependSorted(lt: Order, x: FileEntry, s: seq<FileEntry>)
    requires StrictTotalOrder(lt) && SortedByName(lt, s)
    requires s != [] && Before(lt, x, s[0])
    ensures SortedByName(lt, [x] + s)
  {
    var r := [x] + s;
    forall i, j | 0 <= i < j < |r| ensures !Before(lt, r[j], r[i]) {
      if i == 0 {
        var e := s[j - 1];
        assert r[j] == e;
        BeforeIsStrictOrder(lt, e, x, s[0]);
      } else {
        assert r[i] == s[i - 1] && r[j] == s[j - 1];
      }
    }
  }

  /** The head of a sorted list may lead the insertion into its tail when the inserted
      entry does not sort before it. */
  lemma {:induction false} ConsSorted(lt: Order, x: FileEntry, s: seq<FileEntry>)
    requires SortedByName(lt, s)
    requires s != [] && !Before(lt, x, s[0])
    requires SortedByName(lt, Insert(lt, x, s[1..]))
    ensures SortedByName(lt, [s[0]] + Insert(lt, x, s[1..]))
  {
    var t := s[1..];
    var it := Insert(lt, x, t);
    var r := [s[0]] + it;
    InsertMembers(lt, x, t);
    forall i, j | 0 <= i < j < |r| ensures !Before(lt, r[j], r[i]) {
      if i == 0 {
        assert r[j] in it;
        if r[j] != x {
          var k :| 0 <= k < |t| && t[k] == r[j];
          assert s[k + 1] == r[j];
        }
      } else {
        assert r[i] == it[i - 1] && r[j] == it[j - 1];
      }
    }
  }

  lemma {:induction false} InsertSorted(lt: Order, x: FileEntry, s: seq<FileEntry>)
    requires StrictTotalOrder(lt) && SortedByName(lt, s)
    ensures SortedByName(lt, Insert(lt, x, s))
    decreases |s|
  {
    if s == [] {
    } else if Before(lt, x, s[0]) {
      PrependSorted(lt, x, s);
    } else {
      assert SortedByName(lt, s[1..]) by {
        forall i, j | 0 <= i < j < |s| - 1 ensures !Before(lt, s[1..][j], s[1..][i]) {
          assert s[1..][j] == s[j + 1] && s[1..][i] == s[i + 1];
        }
      }
      InsertSorted(lt, x, s[1..]);
      ConsSorted(lt, x, s);
    }
  }

  /** The sort puts the entries in order. */
  lemma {:induction false} SortFilesSorted(lt: Order, files: seq<FileEntry>)
    requires StrictTotalOrder(lt)
    ensures SortedByName(lt, SortFiles(lt, files))
    decreases |files|
  {
    if files != [] {
      SortFilesSorted(lt, files[..|files| - 1]);
      InsertSorted(lt, files[|files| - 1], SortFiles(lt, files[..|files| - 1]));
    }
  }

  /** A difference between the files the two heads change. */
  datatype Change =
    | Different(name: string)        // changed by both, to different contents
    | NoLongerChanged(name: string)  // changed only before the push
    | NowChanged(name: string)       // changed only after the push

  /** The line recorded for a difference. */
  function Message(c: Change): string
  {
    match c
    case Different(n) => n + " is different"
    case NoLongerChanged(n) => n + " is no longer changed in the branch"
    case NowChanged(n) => n + " is now changed in the branch"
  }

  function Messages(cs: seq<Change>): (ms: seq<string>)
    ensures |ms| == |cs|
  {
    seq(|cs|, k requires 0 <= k < |cs| => Message(cs[k]))
  }

  lemma MessagesSnoc(cs: seq<Change>, c: Change)
    ensures Messages(cs + [c]) == Messages(cs) + [Message(c)]
  {
    var l, r := Messages(cs + [c]), Messages(cs) + [Message(c)];
    forall k | 0 <= k < |l| ensures l[k] == r[k] {
      assert (cs + [c])[k] == if k < |cs| then cs[k] else c;
    }
  }

  /** `beforeFiles[i] || {}`. */
  function SlotAt(files: seq<FileEntry>, k: int): (s: Slot)
    ensures s.File? <==> 0 <= k < |files|
  {
    if 0 <= k < |files| then File(files[k]) else Past
  }

  /** `file.filename` as string concatenation renders it: "undefined" for `{}`. */
  function SlotName(s: Slot): string
  {
    if s.File? then s.entry.filename else "undefined"
  }

  /** `file1.filename === file2.filename` (both `undefined` for two `{}`). */
  predicate SameName(a: Slot, b: Slot)
  {
    if a.File? && b.File? then a.entry.filename == b.entry.filename else a.Past? && b.Past?
  }

  /** `file1.sha === file2.sha`. */
  predicate SameSha(a: Slot, b: Slot)
  {
    if a.File? && b.File? then a.entry.sha == b.entry.sha else a.Past? && b.Past?
  }

  /** The test that decides that `file1` is earlier, corrected so that a cursor past its
      list is never earlier than an entry: the other cursor then always advances. */
  predicate Earlier(lt: Order, file1: Slot, file2: Slot)
  {
    file2.Past? || CompareFilename(lt, file1, file2) < 0
  }

  /** The correction changes the test only when `file1` is an entry with an empty name and
      `file2` is `{}`, where the code as written advances `file2` past its list. The loop
      never reads two `{}`. */
  lemma EarlierDiffersOnlyThere(lt: Order, file1: Slot, file2: Slot)
    requires file1.File? || file2.File?
    ensures Earlier(lt, file1, file2) != (CompareFilename(lt, file1, file2) < 0)
      <==> file1.File? && file1.entry.filename == "" && file2.Past?
  {
  }

  /** The differences between the sorted lists `before` and `after`, read off the heads of
      the two lists as the loop reads them off its cursors. */
  function Changes(lt: Order, before: seq<FileEntry>, after: seq<FileEntry>): (cs: seq<Change>)
    ensures |cs| <= |before| + |after|
    decreases |before| + |after|
  {
    if before == [] && after == [] then []
    else
      var file1 := SlotAt(before, 0);
      var file2 := SlotAt(after, 0);
      if SameName(file1, file2) && SameSha(file1, file2) then Changes(lt, before[1..], after[1..])
      else if SameName(file1, file2) then [Different(before[0].filename)] + Changes(lt, before[1..], after[1..])
      else if Earlier(lt, file1, file2) then [NoLongerChanged(before[0].filename)] + Changes(lt, before[1..], after)
      else [NowChanged(after[0].filename)] + Changes(lt, before, after[1..])
  }

  /** Two identical lists differ nowhere. */
  lemma {:induction false} NoChangesBetweenEqualLists(lt: Order, files: seq<FileEntry>)
    ensures Changes(lt, files, files) == []
    decreases |files|
  {
    if files != [] {
      NoChangesBetweenEqualLists(lt, files[1..]);
    }
  }

  /** One pass of the loop with the corrected test: the difference it records, if any,
      and the cursors after `i++, j++`. */
  function Step(lt: Order, beforeFiles: seq<FileEntry>, afterFiles: seq<FileEntry>, i: int, j: int)
    : (r: (Option<Change>, int, int))
  {
    var file1 := SlotAt(beforeFiles, i);
    var file2 := SlotAt(afterFiles, j);
    if SameName(file1, file2) && SameSha(file1, file2) then (None, i + 1, j + 1)
    else if SameName(file1, file2) then (Some(Different(SlotName(file1))), i + 1, j + 1)
    else if Earlier(lt, file1, file2) then (Some(NoLongerChanged(SlotName(file1))), i + 1, j)
    else (Some(NowChanged(SlotName(file2))), i, j + 1)
  }

  function Recorded(o: Option<Change>): seq<Change>
  {
    if o.Some? then [o.value] else []
  }

  /** A pass of the corrected loop consumes the head of `Changes` of the remaining lists and
      keeps both cursors within their lists. */
  lemma StepFollowsChanges(lt: Order, beforeFiles: seq<FileEntry>, afterFiles: seq<FileEntry>, i: int, j: int)
    requires 0 <= i <= |beforeFiles| && 0 <= j <= |afterFiles|
    requires i < |beforeFiles| || j < |afterFiles|
    ensures var (c, i', j') := Step(lt, beforeFiles, afterFiles, i, j);
      && i <= i' <= |beforeFiles| && j <= j' <= |afterFiles| && i + j < i' + j'
      && Changes(lt, beforeFiles[i..], afterFiles[j..]) == Recorded(c) + Changes(lt, beforeFiles[i'..], afterFiles[j'..])
  {
    var b, a := beforeFiles[i..], afterFiles[j..];
    assert SlotAt(b, 0) == SlotAt(beforeFiles, i) && SlotAt(a, 0) == SlotAt(afterFiles, j);
    if i < |beforeFiles| {
      assert b[0] == beforeFiles[i] && b[1..] == beforeFiles[i + 1..];
    }
    if j < |afterFiles| {
      assert a[0] == afterFiles[j] && a[1..] == afterFiles[j + 1..];
    }
  }

  lemma AppendAssociates(a: seq<Change>, b: seq<Change>, c: seq<Change>)
    ensures a + b + c == a + (b + c)
  {
  }

  /** The comparison loop with the corrected test: `errors` holds the messages of `Changes`. */
  method CompareFileLists(lt: Order, beforeFiles: seq<FileEntry>, afterFiles: seq<FileEntry>)
    returns (errors: seq<string>)
    ensures errors == Messages(Changes(lt, beforeFiles, afterFiles))
  {
    errors := [];
    ghost var found: seq<Change> := [];
    var i: int, j: int := 0, 0;
    while i < |beforeFiles| || j < |afterFiles|
      invariant 0 <= i <= |beforeFiles| && 0 <= j <= |afterFiles|
      invariant errors == Messages(found)
      invariant found + Changes(lt, beforeFiles[i..], afterFiles[j..]) == Changes(lt, beforeFiles, afterFiles)
      decreases |beforeFiles| - i + |afterFiles| - j
    {
      StepFollowsChanges(lt, beforeFiles, afterFiles, i, j);
      ghost var (c, i', j') := Step(lt, beforeFiles, afterFiles, i, j);
      var file1 := SlotAt(beforeFiles, i);
      var file2 := SlotAt(afterFiles, j);
      if SameName(file1, file2) && SameSha(file1, file2) {
      } else if SameName(file1, file2) {
        errors := errors + [SlotName(file1) + " is different"];
      } else if Earlier(lt, file1, file2) {
        errors := errors + [SlotName(file1) + " is no longer changed in the branch"];
        j := j - 1;
      } else {
        errors := errors + [SlotName(file2) + " is now changed in the branch"];
        i := i - 1;
      }
      i, j := i + 1, j + 1;
      assert i == i' && j == j';
      if c.Some? {
        MessagesSnoc(found, c.value);
      }
      AppendAssociates(found, Recorded(c), Changes(lt, beforeFiles[i..], afterFiles[j..]));
      found := found + Recorded(c);
    }
    assert beforeFiles[i..] == [] && afterFiles[j..] == [];
  }

  /** One pass of the loop as written: the message it records, if any, and the cursors
      after `i++, j++`, with `compareFilename(file1, file2) < 0` as the test. */
  function StepAsWritten(lt: Order, beforeFiles: seq<FileEntry>, afterFiles: seq<FileEntry>, i: int, j: int)
    : (r: (Option<string>, int, int))
  {
    var file1 := SlotAt(beforeFiles, i);
    var file2 := SlotAt(afterFiles, j);
    if SameName(file1, file2) && SameSha(file1, file2) then (None, i + 1, j + 1)
    else if SameName(file1, file2) then (Some(SlotName(file1) + " is different"), i + 1, j + 1)
    else if CompareFilename(lt, file1, file2) < 0 then
      (Some(SlotName(file1) + " is no longer changed in the branch"), i + 1, j)
    else (Some(SlotName(file2) + " is now changed in the branch"), i, j + 1)
  }

  /** The cursors after `n` passes of the loop as written, or after the loop exits. */
  function CursorsAsWritten(lt: Order, beforeFiles: seq<FileEntry>, afterFiles: seq<FileEntry>, i: int, j: int, n: nat)
    : (int, int)
    decreases n
  {
    if n == 0 || !(i < |beforeFiles| || j < |afterFiles|) then (i, j)
    else
      var (_, i', j') := StepAsWritten(lt, beforeFiles, afterFiles, i, j);
      CursorsAsWritten(lt, beforeFiles, afterFiles, i', j', n - 1)
  }

  /** When the before list holds a file without a name and the after list is empty, the
      loop as written never ends: every pass records "undefined is now changed in the
      branch", rewinds `i` to 0 and moves `j` further past the end, so `i < 1` holds after
      any number of passes. */
  lemma {:induction false} LoopAsWrittenNeverEnds(lt: Order, sha: string, j: nat, n: nat)
    ensures StepAsWritten(lt, [FileEntry("", sha)], [], 0, j)
      == (Some("undefined is now changed in the branch"), 0, j + 1)
    ensures CursorsAsWritten(lt, [FileEntry("", sha)], [], 0, j, n) == (0, j + n)
    decreases n
  {
    assert "undefined" + " is now changed in the branch" == "undefined is now changed in the branch";
    if n > 0 {
      LoopAsWrittenNeverEnds(lt, sha, j + 1, n - 1);
    }
  }

  /** The sha each named file has, the first entry winning a repeated name. */
  function Shas(files: seq<FileEntry>): map<string, string>
  {
    if files == [] then map[] else Shas(files[1..])[files[0].filename := files[0].sha]
  }

  /** `cs` reports exactly the files changed only before the push, those changed only after
      it, and those whose shas differ. */
  ghost predicate Classifies(cs: seq<Change>, before: map<string, string>, after: map<string, string>)
  {
    && (forall n :: NoLongerChanged(n) in cs <==> n in before && n !in after)
    && (forall n :: NowChanged(n) in cs <==> n in after && n !in before)
    && (forall n :: Different(n) in cs <==> n in before && n in after && before[n] != after[n])
  }

  lemma ClassifySame(cs: seq<Change>, before: map<string, string>, after: map<string, string>,
                     n: string, shaBefore: string, shaAfter: string)
    requires n !in before && n !in after && Classifies(cs, before, after)
    ensures Classifies((if shaBefore == shaAfter then [] else [Different(n)]) + cs,
                       before[n := shaBefore], after[n := shaAfter])
  {
  }

  lemma ClassifyRemoved(cs: seq<Change>, before: map<string, string>, after: map<string, string>,
                        n: string, sha: string)
    requires n !in before && n !in after && Classifies(cs, before, after)
    ensures Classifies([NoLongerChanged(n)] + cs, before[n := sha], after)
  {
  }

  lemma ClassifyAdded(cs: seq<Change>, before: map<string, string>, after: map<string, string>,
                      n: string, sha: string)
    requires n !in before && n !in after && Classifies(cs, before, after)
    ensures Classifies([NowChanged(n)] + cs, before, after[n := sha])
  {
  }

  /** Strictly increasing non-empty names: a file list as GitHub gives it (each changed file
      once, always named), once sorted. */
  ghost predicate Ascending(lt: Order, files: seq<FileEntry>)
  {
    && (forall k :: 0 <= k < |files| ==> files[k].filename != "")
    && (forall k, l :: 0 <= k < l < |files| ==> lt(files[k].filename, files[l].filename))
  }

  lemma {:induction false} NotInShas(n: string, files: seq<FileEntry>)
    requires forall k :: 0 <= k < |files| ==> files[k].filename != n
    ensures n !in Shas(files)
    decreases |files|
  {
    if files != [] {
      assert forall k :: 0 <= k < |files| - 1 ==> files[1..][k] == files[k + 1];
      NotInShas(n, files[1..]);
    }
  }

  /** A name below the first of an ascending list is not in it. */
  lemma BelowAscending(lt: Order, n: string, files: seq<FileEntry>)
    requires StrictTotalOrder(lt) && Ascending(lt, files)
    requires files != [] && lt(n, files[0].filename)
    ensures n !in Shas(files)
  {
    forall k | 0 <= k < |files| ensures files[k].filename != n {
      if k > 0 {
        assert lt(files[0].filename, files[k].filename);
      }
    }
    NotInShas(n, files);
  }

  lemma AscendingTail(lt: Order, files: seq<FileEntry>)
    requires StrictTotalOrder(lt) && Ascending(lt, files) && files != []
    ensures Ascending(lt, files[1..]) && files[0].filename !in Shas(files[1..])
  {
    var t := files[1..];
    assert forall k :: 0 <= k < |t| ==> t[k] == files[k + 1];
    if t != [] {
      BelowAscending(lt, files[0].filename, t);
    }
  }

  /** On ascending lists, `Changes` reports exactly the names only `before` has, the names
      only `after` has, and the names both have with different shas. */
  lemma {:induction false} ChangesClassify(lt: Order, before: seq<FileEntry>, after: seq<FileEntry>)
    requires StrictTotalOrder(lt) && Ascending(lt, before) && Ascending(lt, after)
    ensures Classifies(Changes(lt, before, after), Shas(before), Shas(after))
    decreases |before| + |after|
  {
    if before == [] && after == [] {
    } else {
      var file1, file2 := SlotAt(before, 0), SlotAt(after, 0);
      if SameName(file1, file2) {
        var n := before[0].filename;
        AscendingTail(lt, before);
        AscendingTail(lt, after);
        ChangesClassify(lt, before[1..], after[1..]);
        var rest := Changes(lt, before[1..], after[1..]);
        if SameSha(file1, file2) {
          assert [] + rest == rest;
        }
        ClassifySame(rest, Shas(before[1..]), Shas(after[1..]), n, before[0].sha, after[0].sha);
      } else if Earlier(lt, file1, file2) {
        var n := before[0].filename;
        AscendingTail(lt, before);
        if after != [] {
          BelowAscending(lt, n, after);
        }
        ChangesClassify(lt, before[1..], after);
        ClassifyRemoved(Changes(lt, before[1..], after), Shas(before[1..]), Shas(after), n, before[0].sha);
      } else {
        var n := after[0].filename;
        AscendingTail(lt, after);
        if before != [] {
          assert lt(n, before[0].filename);
          BelowAscending(lt, n, before);
        }
        ChangesClassify(lt, before, after[1..]);
        ClassifyAdded(Changes(lt, before, after[1..]), Shas(before), Shas(after[1..]), n, after[0].sha);
      }
    }
  }

  /** A file list as GitHub's compare call returns it: each file named, and named once. */
  ghost predicate Listing(files: seq<FileEntry>)
  {
    && (forall k :: 0 <= k < |files| ==> files[k].filename != "")
    && (forall k, l :: 0 <= k < l < |files| ==> files[k].filename != files[l].filename)
  }

  /** A named entry whose name the rest of a listing does not hold may lead it. */
  lemma ConsListing(h: FileEntry, r: seq<FileEntry>)
    requires Listing(r) && h.filename != ""
    requires forall e :: e in r ==> e.filename != h.filename
    ensures Listing([h] + r)
  {
    var hr := [h] + r;
    forall k, l | 0 <= k < l < |hr| ensures hr[k].filename != hr[l].filename {
      assert hr[l] == r[l - 1];
      if k > 0 {
        assert hr[k] == r[k - 1];
      }
    }
  }

  lemma {:induction false} InsertListing(lt: Order, x: FileEntry, s: seq<FileEntry>)
    requires Listing(s) && x.filename != ""
    requires forall k :: 0 <= k < |s| ==> s[k].filename != x.filename
    ensures Listing(Insert(lt, x, s))
    decreases |s|
  {
    if s == [] {
    } else if Before(lt, x, s[0]) {
      assert forall e :: e in s ==> e.filename != x.filename;
      ConsListing(x, s);
    } else {
      var t := s[1..];
      assert forall k :: 0 <= k < |t| ==> t[k] == s[k + 1];
      InsertListing(lt, x, t);
      InsertMembers(lt, x, t);
      forall e | e in Insert(lt, x, t) ensures e.filename != s[0].filename {
        if e != x {
          var m :| 0 <= m < |t| && t[m] == e;
        }
      }
      ConsListing(s[0], Insert(lt, x, t));
    }
  }

  lemma {:induction false} SortKeepsListing(lt: Order, files: seq<FileEntry>)
    requires Listing(files)
    ensures Listing(SortFiles(lt, files))
    decreases |files|
  {
    if files != [] {
      var init, last := files[..|files| - 1], files[|files| - 1];
      SortKeepsListing(lt, init);
      var sorted := SortFiles(lt, init);
      forall k | 0 <= k < |sorted| ensures sorted[k].filename != last.filename {
        assert sorted[k] in multiset(init);
        var m :| 0 <= m < |init| && init[m] == sorted[k];
      }
      InsertListing(lt, last, sorted);
    }
  }

  /** Sorted without repeated or empty names is ascending. */
  lemma SortedListingAscending(lt: Order, files: seq<FileEntry>)
    requires StrictTotalOrder(lt) && SortedByName(lt, files) && Listing(files)
    ensures Ascending(lt, files)
  {
    forall k, l | 0 <= k < l < |files| ensures lt(files[k].filename, files[l].filename) {
      assert !Before(lt, files[l], files[k]);
    }
  }

  lemma {:induction false} ShasAt(files: seq<FileEntry>, k: nat)
    requires Listing(files) && k < |files|
    ensures files[k].filename in Shas(files) && Shas(files)[files[k].filename] == files[k].sha
    decreases k
  {
    if k > 0 {
      var t := files[1..];
      assert forall m :: 0 <= m < |t| ==> t[m] == files[m + 1];
      assert files[0].filename != files[k].filename;
      ShasAt(t, k - 1);
    }
  }

  lemma {:induction false} ShasNamesFiles(files: seq<FileEntry>, n: string)
    requires n in Shas(files)
    ensures exists k :: 0 <= k < |files| && files[k].filename == n
    decreases |files|
  {
    if files[0].filename != n {
      ShasNamesFiles(files[1..], n);
      var k :| 0 <= k < |files| - 1 && files[1..][k].filename == n;
      assert files[k + 1].filename == n;
    }
  }

  lemma ShasOfPermutationOneWay(r: seq<FileEntry>, s: seq<FileEntry>, n: string)
    requires Listing(r) && Listing(s) && multiset(r) == multiset(s) && n in Shas(r)
    ensures n in Shas(s) && Shas(s)[n] == Shas(r)[n]
  {
    ShasNamesFiles(r, n);
    var k :| 0 <= k < |r| && r[k].filename == n;
    assert r[k] in multiset(s);
    var l :| 0 <= l < |s| && s[l] == r[k];
    ShasAt(r, k);
    ShasAt(s, l);
  }

  /** Reordering a listing keeps the sha of every name. */
  lemma ShasOfPermutation(r: seq<FileEntry>, s: seq<FileEntry>)
    requires Listing(r) && Listing(s) && multiset(r) == multiset(s)
    ensures Shas(r) == Shas(s)
  {
    forall n | n in Shas(r) ensures n in Shas(s) && Shas(s)[n] == Shas(r)[n] {
      ShasOfPermutationOneWay(r, s, n);
    }
    forall n | n in Shas(s) ensures n in Shas(r) {
      ShasOfPermutationOneWay(s, r, n);
    }
  }

  /** What the force-push comment reports: for the two file lists of the compare call, the
      corrected comparison of their sorted copies names exactly the files changed only before
      the push, those changed only after it, and those changed by both to different shas. */
  lemma ComparisonFindsDifferences(lt: Order, beforeFiles: seq<FileEntry>, afterFiles: seq<FileEntry>)
    requires StrictTotalOrder(lt) && Listing(beforeFiles) && Listing(afterFiles)
    ensures Classifies(Changes(lt, SortFiles(lt, beforeFiles), SortFiles(lt, afterFiles)),
                       Shas(beforeFiles), Shas(afterFiles))
  {
    var b, a := SortFiles(lt, beforeFiles), SortFiles(lt, afterFiles);
    SortFilesSorted(lt, beforeFiles);
    SortFilesSorted(lt, afterFiles);
    SortKeepsListing(lt, beforeFiles);
    SortKeepsListing(lt, afterFiles);
    SortedListingAscending(lt, b);
    SortedListingAscending(lt, a);
    ShasOfPermutation(b, beforeFiles);
    ShasOfPermutation(a, afterFiles);
    ChangesClassify(lt, b, a);
  }

  /** No change is reported exactly when both heads change the same files to the same shas. */
  lemma {:induction false} NoChangesExactlyWhenSameFiles(lt: Order, beforeFiles: seq<FileEntry>, afterFiles: seq<FileEntry>)
    requires StrictTotalOrder(lt) && Listing(beforeFiles) && Listing(afterFiles)
    ensures Changes(lt, SortFiles(lt, beforeFiles), SortFiles(lt, afterFiles)) == []
      <==> Shas(beforeFiles) == Shas(afterFiles)
  {
    var cs := Changes(lt, SortFiles(lt, beforeFiles), SortFiles(lt, afterFiles));
    var b, a := Shas(beforeFiles), Shas(afterFiles);
    ComparisonFindsDifferences(lt, beforeFiles, afterFiles);
    if cs == [] {
      forall n | n in b ensures n in a && a[n] == b[n] {
        assert !(NoLongerChanged(n) in cs) && !(Different(n) in cs);
      }
      forall n | n in a ensures n in b {
        assert !(NowChanged(n) in cs);
      }
    } else if b == a {
      assert cs[0] in cs;
      match cs[0]
      case Different(n) =>
      case NoLongerChanged(n) =>
      case NowChanged(n) =>
    }
  }

  const Notice := "Notice: the branch changed across the force-push!\n\n"

  const Hooray := "Hooray! The files in the branch are the same across the force-push. \U{1F603}"

  const Signature := "\n\n~ Your Friendly Jira-GitHub PR Checker Bot"

  /** The list item of one difference. */
  function Bullet(error: string): string
  {
    "- " + error + "\n"
  }

  /** The list items of the differences, in order. */
  function Bullets(errors: seq<string>): string
  {
    if errors == [] then "" else Bullets(errors[..|errors| - 1]) + Bullet(errors[|errors| - 1])
  }

  /** The compare view between the two heads, each shortened to its first seven characters. */
  function DiffUrl(owner: string, repo: string, before: string, after: string): string
  {
    "https://github.com/" + owner + "/" + repo + "/compare/" + owner + ":" + Prefix(before, 7)
      + ".." + owner + ":" + Prefix(after, 7)
  }

  /** The comment posted after a diverged push: the notice, one item per difference and a
      link to the compare view, or the all-clear; then the signature. */
  function CommentText(owner: string, repo: string, before: string, after: string, errors: seq<string>): string
  {
    if |errors| > 0 then Notice + Bullets(errors) + DiffLink(owner, repo, before, after) + Signature
    else Hooray + Signature
  }

  /** The link line under the list of differences. */
  function DiffLink(owner: string, repo: string, before: string, after: string): string
  {
    "\n[View Diff Across Force-Push](" + DiffUrl(owner, repo, before, after) + ")"
  }

  /** Building the comment text, appending one item per difference. */
  method CommentBody(owner: string, repo: string, before: string, after: string, errors: seq<string>)
    returns (body: string)
    ensures body == CommentText(owner, repo, before, after, errors)
  {
    if |errors| > 0 {
      body := Notice;
      for k := 0 to |errors|
        invariant body == Notice + Bullets(errors[..k])
      {
        assert errors[..k + 1][..k] == errors[..k];
        body := body + "- " + errors[k] + "\n";
      }
      assert errors[..|errors|] == errors;
      var humanDiffUrl := DiffUrl(owner, repo, before, after);
      body := body + "\n[View Diff Across Force-Push](" + humanDiffUrl + ")";
      assert body == Notice + Bullets(errors) + DiffLink(owner, repo, before, after);
    } else {
      body := Hooray;
    }
    body := body + Signature;
  }

  /** Every comment ends with the signature, and it is the all-clear exactly when there is
      no difference. */
  lemma {:induction false} CommentShape(owner: string, repo: string, before: string, after: string, errors: seq<string>)
    ensures EndsWith(CommentText(owner, repo, before, after, errors), Signature)
    ensures CommentText(owner, repo, before, after, errors) == Hooray + Signature <==> errors == []
    ensures errors != [] ==> StartsWith(CommentText(owner, repo, before, after, errors), Notice)
  {
    var text := CommentText(owner, repo, before, after, errors);
    var head := if |errors| > 0 then Notice + Bullets(errors) + DiffLink(owner, repo, before, after) else Hooray;
    assert text == head + Signature;
    assert text[|text| - |Signature|..] == Signature;
    if errors != [] {
      assert text == Notice + (text[|Notice|..]);
      assert text[..|Notice|] == Notice;
      assert |Bullets(errors)| >= |Bullet(errors[|errors| - 1])| >= 3;
      assert |text| > |Hooray + Signature|;
    }
  }

  /** The item of each difference sits in the list at the offset of the items before it. */
  lemma {:induction false} BulletListed(errors: seq<string>, k: nat)
    requires k < |errors|
    ensures var i := |Bullets(errors[..k])|;
      i + |Bullet(errors[k])| <= |Bullets(errors)| && Bullets(errors)[i..i + |Bullet(errors[k])|] == Bullet(errors[k])
    decreases |errors|
  {
    var init := errors[..|errors| - 1];
    if k == |errors| - 1 {
      assert errors[..k] == init;
    } else {
      BulletListed(init, k);
      assert init[..k] == errors[..k] && init[k] == errors[k];
    }
  }

  /** The comment on differences: the notice, the list, the link and the signature. */
  lemma ListedCommentLayout(owner: string, repo: string, before: string, after: string, errors: seq<string>)
    requires errors != []
    ensures CommentText(owner, repo, before, after, errors)
      == Notice + Bullets(errors) + (DiffLink(owner, repo, before, after) + Signature)
  {
  }

  /** Every difference appears in the comment as a list item of its own. */
  lemma ErrorIsListed(owner: string, repo: string, before: string, after: string, errors: seq<string>, k: nat)
    requires k < |errors|
    ensures Includes(CommentText(owner, repo, before, after, errors), Bullet(errors[k]))
  {
    var rest := DiffLink(owner, repo, before, after) + Signature;
    ListedCommentLayout(owner, repo, before, after, errors);
    BulletListed(errors, k);
    var i := |Bullets(errors[..k])|;
    InfixIncluded(Notice, Bullets(errors), rest, Bullet(errors[k]), i);
  }

  /** An occurrence inside the middle part of a concatenation is found in the whole. */
  lemma InfixIncluded(a: string, m: string, c: string, n: string, i: nat)
    requires i + |n| <= |m| && m[i..i + |n|] == n
    ensures Includes(a + m + c, n)
  {
    var t := a + m + c;
    forall k | 0 <= k < |n| ensures t[|a| + i + k] == n[k] {
      assert t[|a| + i + k] == m[i + k];
      assert m[i..i + |n|][k] == m[i + k];
    }
    assert t[|a| + i..|a| + i + |n|] == n;
    IncludesAt(t, n, |a| + i);
  }

  /** The result of GitHub's compare call between two commits. */
  datatype Comparison = Comparison(status: string, files: seq<FileEntry>)

  /** A comment on the pull request. */
  datatype Comment = Comment(owner: string, repo: string, issueNumber: nat, body: string)

  /** `checkForcePush`: compares the heads before and after the push in the base repository;
      unless the push diverged nothing is posted. Otherwise the files each head changes
      relative to the base commit are sorted, compared, and the comment is posted on the pull
      request. `compare(owner, repo, base, head)` stands for `getCommitDiff`; a failing
      call fails the check and nothing is posted. */
  method CheckForcePush(lt: Order, before: string, after: string, pr: PullRequest,
                        compare: (string, string, string, string) -> Result<Comparison, string>)
    returns (posted: Result<Option<Comment>, string>)
    ensures var owner, repo := pr.base.repo.ownerLogin, pr.base.repo.name;
      var push := compare(owner, repo, before, after);
      && (push.Err? ==> posted == Err(push.error))
      && (push.Ok? && push.value.status != "diverged" ==> posted == Ok(None))
    ensures var owner, repo := pr.base.repo.ownerLogin, pr.base.repo.name;
      var push := compare(owner, repo, before, after);
      var beforeRes, afterRes := compare(owner, repo, pr.base.sha, before), compare(owner, repo, pr.base.sha, after);
      push.Ok? && push.value.status == "diverged" ==>
        && (beforeRes.Err? ==> posted == Err(beforeRes.error))
        && (beforeRes.Ok? && afterRes.Err? ==> posted == Err(afterRes.error))
        && (beforeRes.Ok? && afterRes.Ok? ==>
              var beforeFiles := SortFiles(lt, beforeRes.value.files);
              var afterFiles := SortFiles(lt, afterRes.value.files);
              posted == Ok(Some(Comment(owner, repo, pr.number,
                CommentText(owner, repo, before, after, Messages(Changes(lt, beforeFiles, afterFiles)))))))
  {
    var owner := pr.base.repo.ownerLogin;
    var repo := pr.base.repo.name;
    var compRes := compare(owner, repo, before, after);
    if compRes.Err? {
      return Err(compRes.error);
    }
    if compRes.value.status != "diverged" {
      return Ok(None);
    }
    var base := pr.base.sha;
    var beforeRes := compare(owner, repo, base, before);
    var afterRes := compare(owner, repo, base, after);
    if beforeRes.Err? {
      return Err(beforeRes.error);
    }
    if afterRes.Err? {
      return Err(afterRes.error);
    }
    var beforeFiles := SortFiles(lt, beforeRes.value.files);
    var afterFiles := SortFiles(lt, afterRes.value.files);
    var errors := CompareFileLists(lt, beforeFiles, afterFiles);
    var body := CommentBody(owner, repo, before, after, errors);
    return Ok(Some(Comment(owner, repo, pr.number, body)));
  }

  /** A push after which "c.txt" is changed as well as an unchanged "a.txt" reports only
      the new file: "c.txt is now changed in the branch". */
  lemma AddedFileExample(lt: Order, a: string, c: string)
    requires StrictTotalOrder(lt) && lt("a.txt", "c.txt")
    ensures Changes(lt, SortFiles(lt, [FileEntry("a.txt", a)]),
                    SortFiles(lt, [FileEntry("a.txt", a), FileEntry("c.txt", c)]))
      == [NowChanged("c.txt")]
  {
    var fa, fc := FileEntry("a.txt", a), FileEntry("c.txt", c);
    assert [fa, fc][..1] == [fa];
    assert SortFiles(lt, [fa]) == [fa];
    assert !Before(lt, fc, fa);
    assert SortFiles(lt, [fa, fc]) == Insert(lt, fc, [fa]) == [fa, fc];
    assert [fa][1..] == [] && [fa, fc][1..] == [fc];
    assert Changes(lt, [fa], [fa, fc]) == Changes(lt, [], [fc]);
    assert [fc][1..] == [];
    assert Changes(lt, [], [fc]) == [NowChanged("c.txt")];
  }
}
