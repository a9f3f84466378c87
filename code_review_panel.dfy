/**
 * The review side panel: it runs a review, posts the filtered per-file results
 * to its webview, keeps the flat list of shown comments, and steps through that
 * list circularly, opening each comment in the editor.
 */
module CodeReviewPanel {
  import opened Wrappers
  import opened Text
  import opened ReviewTypes
  import opened Progress

  /* ---------- default base branch ---------- */

  /** The preferred base branches, most preferred first. */
  const DefaultBases: seq<string> := ["origin/main", "origin/master", "origin/develop", "main", "master", "develop"]

  /** `candidates.find(c => branches.includes(c))`. */
  function FirstPresent(candidates: seq<string>, branches: seq<string>): (r: Option<string>)
    ensures r.Some? ==> r.value in candidates && r.value in branches
    ensures r.None? ==> forall c :: c in candidates ==> c !in branches
  {
    if candidates == [] then None
    else if candidates[0] in branches then Some(candidates[0])
    else FirstPresent(candidates[1..], branches)
  }

  /** The default base: the first preferred branch that exists, else the first branch, else none. */
  function DefaultBase(branches: seq<string>): (r: Option<string>)
    ensures r.None? <==> branches == []
    ensures r.Some? ==> r.value in branches
    ensures r.Some? && r.value !in DefaultBases ==> r.value == branches[0]
  {
    match FirstPresent(DefaultBases, branches)
    case Some(b) => Some(b)
    case None => if |branches| > 0 then Some(branches[0]) else None
  }

  /** The first preferred branch present wins over every later one. */
  lemma {:induction false} FirstPresentIsFirst(candidates: seq<string>, branches: seq<string>, i: nat)
    requires i < |candidates| && candidates[i] in branches
    ensures FirstPresent(candidates, branches).Some?
    ensures exists j :: 0 <= j <= i && FirstPresent(candidates, branches) == Some(candidates[j])
                        && forall k :: 0 <= k < j ==> candidates[k] !in branches
  {
    if candidates[0] in branches {
      assert FirstPresent(candidates, branches) == Some(candidates[0]);
    } else {
      var rest := candidates[1..];
      FirstPresentIsFirst(rest, branches, i - 1);
      var j :| 0 <= j <= i - 1 && FirstPresent(rest, branches) == Some(rest[j])
               && forall k :: 0 <= k < j ==> rest[k] !in branches;
      forall k | 0 <= k < j + 1
        ensures candidates[k] !in branches
      {
        if k > 0 {
          assert candidates[k] == rest[k - 1];
        }
      }
      assert FirstPresent(candidates, branches) == Some(candidates[j + 1]);
    }
  }

  /**
   * The default base exists exactly when there are branches, is always one of
   * them, is a preferred one whenever one is present, and is the first branch
   * only when none is.
   */
  lemma DefaultBaseSpec(branches: seq<string>)
    ensures DefaultBase(branches).None? <==> branches == []
    ensures DefaultBase(branches).Some? ==> DefaultBase(branches).value in branches
    ensures (exists i :: 0 <= i < |DefaultBases| && DefaultBases[i] in branches) ==>
              exists j :: 0 <= j < |DefaultBases| && DefaultBase(branches) == Some(DefaultBases[j])
                          && forall k :: 0 <= k < j ==> DefaultBases[k] !in branches
    ensures (forall c :: c in DefaultBases ==> c !in branches) && branches != [] ==>
              DefaultBase(branches) == Some(branches[0])
  {
    if i :| 0 <= i < |DefaultBases| && DefaultBases[i] in branches {
      FirstPresentIsFirst(DefaultBases, branches, i);
    }
  }

  /* ---------- filtering after a review ---------- */

  /** An entry of the navigation list. */
  datatype NavEntry = NavEntry(filePath: string, line: real, comment: string)

  /** `{ ...file, comments: file.comments.filter(...) }`: the original `maxSeverity` is kept. */
  function FilterFile(f: FileComments, minSeverity: real): (r: FileComments)
    ensures r.target == f.target && r.maxSeverity == f.maxSeverity
    ensures forall c :: c in r.comments <==> c in f.comments && Visible(c, minSeverity)
  {
    f.(comments := VisibleComments(f.comments, minSeverity))
  }

  /** The files posted as results: those with a visible comment, filtered, in order. */
  function FilteredResults(files: seq<FileComments>, minSeverity: real): (r: seq<FileComments>)
    ensures |r| <= |files|
  {
    if files == [] then []
    else
      var f := FilterFile(files[|files| - 1], minSeverity);
      FilteredResults(files[..|files| - 1], minSeverity) + (if |f.comments| > 0 then [f] else [])
  }

  /** The navigation entries of one file's comments, in order. */
  function EntriesOf(f: FileComments): (r: seq<NavEntry>)
    ensures |r| == |f.comments|
    ensures forall i :: 0 <= i < |r| ==> r[i] == NavEntry(f.target, f.comments[i].line, f.comments[i].comment)
  {
    seq(|f.comments|, i requires 0 <= i < |f.comments| => NavEntry(f.target, f.comments[i].line, f.comments[i].comment))
  }

  /** The navigation entries of the files, file after file. */
  function NavEntries(files: seq<FileComments>): seq<NavEntry> {
    if files == [] then [] else NavEntries(files[..|files| - 1]) + EntriesOf(files[|files| - 1])
  }

  /** A file is posted exactly when it has a visible comment, and then it is posted filtered. */
  lemma {:induction false} FilteredResultsMembership(files: seq<FileComments>, minSeverity: real)
    ensures forall f :: f in FilteredResults(files, minSeverity) <==>
              exists g :: g in files && HasVisible(g, minSeverity) && f == FilterFile(g, minSeverity)
  {
    if files != [] {
      var n := |files| - 1;
      FilteredResultsMembership(files[..n], minSeverity);
      HasVisibleIff(files[n], minSeverity);
      forall g | g in files ensures g in files[..n] || g == files[n] {
        var i :| 0 <= i < |files| && files[i] == g;
        if i < n { assert files[..n][i] == g; }
      }
      forall g | g in files[..n] ensures g in files {
      }
      forall g | g in files && HasVisible(g, minSeverity) ensures |FilterFile(g, minSeverity).comments| > 0 {
        HasVisibleIff(g, minSeverity);
      }
    }
  }

  /** Every posted file keeps only visible comments and none is empty. */
  lemma {:induction false} FilteredResultsShape(files: seq<FileComments>, minSeverity: real)
    ensures forall f :: f in FilteredResults(files, minSeverity) ==> |f.comments| > 0
    ensures forall f, c :: f in FilteredResults(files, minSeverity) && c in f.comments ==> Visible(c, minSeverity)
  {
    if files != [] {
      FilteredResultsShape(files[..|files| - 1], minSeverity);
    }
  }

  lemma {:induction false} NavEntriesAppend(a: seq<FileComments>, b: seq<FileComments>)
    ensures NavEntries(a + b) == NavEntries(a) + NavEntries(b)
  {
    if b == [] {
      assert a + b == a;
    } else {
      var n := |b| - 1;
      var ab := a + b;
      assert ab[..|ab| - 1] == a + b[..n];
      assert ab[|ab| - 1] == b[n];
      assert b == b[..n] + [b[n]];
      NavEntriesAppend(a, b[..n]);
    }
  }

  /** The entries of the files, membership-wise: one per comment, tagged with its file's target. */
  lemma NavEntriesMembership(files: seq<FileComments>)
    ensures forall e :: e in NavEntries(files) <==>
              exists f, c :: f in files && c in f.comments && e == NavEntry(f.target, c.line, c.comment)
  {
    forall e ensures e in NavEntries(files) <==>
               exists f, c :: f in files && c in f.comments && e == NavEntry(f.target, c.line, c.comment)
    {
      NavEntryMember(files, e);
    }
  }

  /** One entry at a time: it is listed iff some file of the review holds its comment. */
  lemma {:induction false} NavEntryMember(files: seq<FileComments>, e: NavEntry)
    ensures e in NavEntries(files) <==>
              exists f, c :: f in files && c in f.comments && e == NavEntry(f.target, c.line, c.comment)
  {
    if files != [] {
      var n := |files| - 1;
      var front := files[..n];
      var g := files[n];
      assert NavEntries(files) == NavEntries(front) + EntriesOf(g);
      NavEntryMember(front, e);
      EntryOfFile(g, e);
      if e in NavEntries(front) {
        var f, c :| f in front && c in f.comments && e == NavEntry(f.target, c.line, c.comment);
        assert f in files;
      }
      if e in EntriesOf(g) {
        assert g in files;
      }
      if f, c :| f in files && c in f.comments && e == NavEntry(f.target, c.line, c.comment) {
        var i :| 0 <= i < |files| && files[i] == f;
        if i < n {
          assert f in front;
        }
      }
    }
  }

  /** The entries of one file are its comments, tagged with its target. */
  lemma EntryOfFile(f: FileComments, e: NavEntry)
    ensures e in EntriesOf(f) <==> exists c :: c in f.comments && e == NavEntry(f.target, c.line, c.comment)
  {
    var es := EntriesOf(f);
    if e in es {
      var i :| 0 <= i < |es| && es[i] == e;
      assert f.comments[i] in f.comments;
    }
    if c :| c in f.comments && e == NavEntry(f.target, c.line, c.comment) {
      var k :| 0 <= k < |f.comments| && f.comments[k] == c;
      assert es[k] == e;
    }
  }

  /**
   * The navigation list holds exactly the visible comments of the review, each
   * tagged with its file's target.
   */
  lemma NavigationListMembership(files: seq<FileComments>, minSeverity: real)
    ensures forall e :: e in NavEntries(FilteredResults(files, minSeverity)) <==>
              exists g, c :: g in files && c in g.comments && Visible(c, minSeverity)
                             && e == NavEntry(g.target, c.line, c.comment)
  {
    var out := FilteredResults(files, minSeverity);
    NavEntriesMembership(out);
    FilteredResultsMembership(files, minSeverity);
    forall e ensures e in NavEntries(out) <==>
               exists g, c :: g in files && c in g.comments && Visible(c, minSeverity)
                              && e == NavEntry(g.target, c.line, c.comment)
    {
      if g, c :| g in files && c in g.comments && Visible(c, minSeverity) && e == NavEntry(g.target, c.line, c.comment) {
        var f := FilterFile(g, minSeverity);
        assert c in f.comments;
        assert HasVisible(g, minSeverity);
        assert f in out;
      }
    }
  }

  /* ---------- messages of a review ---------- */

  /** How a thrown value is reported: its message when it is an `Error`. */
  datatype Thrown = ErrorObject(message: string) | OtherValue

  function ErrorMessage(t: Thrown): string {
    match t
    case ErrorObject(m) => m
    case OtherValue => "Unknown error occurred"
  }

  /** Messages the panel posts to its webview. */
  datatype PanelMessage =
    | BranchesLoaded(branches: seq<string>, currentBranch: string, defaultBase: Option<string>)
    | ReviewStarted
    | ReviewProgress(message: string)
    | FileReviewCompleted(fileResult: FileComments)
    | ReviewCompleted(results: seq<FileComments>, errors: seq<string>)
    | ReviewError(message: string)

  /** `Processed ${k}/${n} files...`. */
  function ProcessedText(k: nat, n: nat): string {
    "Processed " + NatToDecimal(k) + "/" + NatToDecimal(n) + " files..."
  }

  /** In digits followed by `/`, the first `/` is the one after the digits. */
  lemma FirstSlashAfterDigits(d: string, x: string)
    requires IsDecimal(d)
    ensures FindFrom(d + "/" + x, "/", 0) == Some(|d|)
  {
    var s := d + "/" + x;
    forall k | 0 <= k < |d| ensures !OccursAt(s, "/", k) {
      assert s[k..k + 1][0] == d[k];
    }
    assert s[|d|..|d| + 1] == "/";
    FindFromFirst(s, "/", 0, |d|);
  }

  /** Two decimal renderings followed by the same `/` tail are the same number. */
  lemma DecimalBeforeSlash(a: nat, b: nat, x: string, y: string)
    requires NatToDecimal(a) + "/" + x == NatToDecimal(b) + "/" + y
    ensures a == b
  {
    var da, db := NatToDecimal(a), NatToDecimal(b);
    var s := da + "/" + x;
    FirstSlashAfterDigits(da, x);
    FirstSlashAfterDigits(db, y);
    assert da == s[..|da|] == db;
    DecimalInjective(a, b);
  }

  /** Different files get different progress lines. */
  lemma ProcessedTextInjective(k1: nat, k2: nat, n: nat)
    requires ProcessedText(k1, n) == ProcessedText(k2, n)
    ensures k1 == k2
  {
    var tail := NatToDecimal(n) + " files...";
    var p := "Processed ";
    assert ProcessedText(k1, n) == p + (NatToDecimal(k1) + "/" + tail);
    assert ProcessedText(k2, n) == p + (NatToDecimal(k2) + "/" + tail);
    assert ProcessedText(k1, n)[|p|..] == NatToDecimal(k1) + "/" + tail;
    DecimalBeforeSlash(k1, k2, tail, tail);
  }

  /** What one iteration of the loop posts for file number `index` of `total`. */
  function FileMessages(f: FileComments, index: nat, total: nat, minSeverity: real): seq<PanelMessage> {
    var filtered := FilterFile(f, minSeverity);
    (if |filtered.comments| > 0 then [FileReviewCompleted(filtered)] else []) + [ReviewProgress(ProcessedText(index + 1, total))]
  }

  /** What the first `k` iterations post. */
  function LoopMessages(files: seq<FileComments>, k: nat, minSeverity: real): seq<PanelMessage>
    requires k <= |files|
  {
    if k == 0 then [] else LoopMessages(files, k - 1, minSeverity) + FileMessages(files[k - 1], k - 1, |files|, minSeverity)
  }

  /** The file results among `ms`, in order. */
  function Completed(ms: seq<PanelMessage>): seq<FileComments> {
    if ms == [] then []
    else Completed(ms[..|ms| - 1]) + (if ms[|ms| - 1].FileReviewCompleted? then [ms[|ms| - 1].fileResult] else [])
  }

  /** The progress lines among `ms`, in order. */
  function ProgressLines(ms: seq<PanelMessage>): seq<string> {
    if ms == [] then []
    else ProgressLines(ms[..|ms| - 1]) + (if ms[|ms| - 1].ReviewProgress? then [ms[|ms| - 1].message] else [])
  }

  lemma {:induction false} CompletedAppend(a: seq<PanelMessage>, b: seq<PanelMessage>)
    ensures Completed(a + b) == Completed(a) + Completed(b)
    ensures ProgressLines(a + b) == ProgressLines(a) + ProgressLines(b)
  {
    if b == [] {
      assert a + b == a;
    } else {
      var n := |b| - 1;
      assert (a + b)[..|a + b| - 1] == a + b[..n];
      CompletedAppend(a, b[..n]);
    }
  }

  /** `${k}/${n}` lines for k = 1 … count. */
  function ProcessedLines(count: nat, total: nat): (r: seq<string>)
    ensures |r| == count
    ensures forall i :: 0 <= i < count ==> r[i] == ProcessedText(i + 1, total)
  {
    seq(count, i requires 0 <= i < count => ProcessedText(i + 1, total))
  }

  /** One iteration of the loop over the files, in terms of the specification functions. */
  lemma LoopStep(files: seq<FileComments>, index: nat, minSeverity: real)
    requires index < |files|
    ensures var f := FilterFile(files[index], minSeverity);
      && FilteredResults(files[..index + 1], minSeverity)
         == FilteredResults(files[..index], minSeverity) + (if |f.comments| > 0 then [f] else [])
      && LoopMessages(files, index + 1, minSeverity)
         == LoopMessages(files, index, minSeverity) + FileMessages(files[index], index, |files|, minSeverity)
      && NavEntries([f]) == EntriesOf(f)
  {
    FilteredResultsSnoc(files, index, minSeverity);
    NavEntriesSingle(FilterFile(files[index], minSeverity));
  }

  lemma FilteredResultsSnoc(files: seq<FileComments>, index: nat, minSeverity: real)
    requires index < |files|
    ensures var f := FilterFile(files[index], minSeverity);
      FilteredResults(files[..index + 1], minSeverity)
      == FilteredResults(files[..index], minSeverity) + (if |f.comments| > 0 then [f] else [])
  {
    var g := files[..index + 1];
    assert g[..|g| - 1] == files[..index];
    assert g[|g| - 1] == files[index];
  }

  lemma NavEntriesSingle(f: FileComments)
    ensures NavEntries([f]) == EntriesOf(f)
  {
    assert [f][..0] == [];
  }

  /** One more file adds one more numbered line. */
  lemma ProcessedLinesSnoc(k: nat, total: nat)
    requires k > 0
    ensures ProcessedLines(k, total) == ProcessedLines(k - 1, total) + [ProcessedText(k, total)]
  {
  }

  /** What one iteration posts: its file result, if any, then its progress line. */
  lemma FileMessagesContent(f: FileComments, index: nat, total: nat, minSeverity: real)
    ensures var filtered := FilterFile(f, minSeverity);
      && Completed(FileMessages(f, index, total, minSeverity)) == (if |filtered.comments| > 0 then [filtered] else [])
      && ProgressLines(FileMessages(f, index, total, minSeverity)) == [ProcessedText(index + 1, total)]
  {
    var filtered := FilterFile(f, minSeverity);
    var head: seq<PanelMessage> := if |filtered.comments| > 0 then [FileReviewCompleted(filtered)] else [];
    var last := [ReviewProgress(ProcessedText(index + 1, total))];
    CompletedAppend(head, last);
    assert last[..0] == [];
    if head != [] {
      assert head[..0] == [];
    }
  }

  /**
   * The loop posts exactly the filtered results as file results, in order, and
   * one progress line per file, numbered 1 to n.
   */
  lemma LoopMessagesContent(files: seq<FileComments>, k: nat, minSeverity: real)
    requires k <= |files|
    ensures Completed(LoopMessages(files, k, minSeverity)) == FilteredResults(files[..k], minSeverity)
    ensures ProgressLines(LoopMessages(files, k, minSeverity)) == ProcessedLines(k, |files|)
  {
    LoopCompleted(files, k, minSeverity);
    LoopProgress(files, k, minSeverity);
  }

  lemma {:induction false} LoopCompleted(files: seq<FileComments>, k: nat, minSeverity: real)
    requires k <= |files|
    ensures Completed(LoopMessages(files, k, minSeverity)) == FilteredResults(files[..k], minSeverity)
  {
    if k > 0 {
      LoopCompleted(files, k - 1, minSeverity);
      CompletedStep(LoopMessages(files, k - 1, minSeverity), files[k - 1], k - 1, |files|, minSeverity);
      FilteredResultsSnoc(files, k - 1, minSeverity);
    }
  }

  /** The file results after one more iteration. */
  lemma CompletedStep(prev: seq<PanelMessage>, f: FileComments, index: nat, total: nat, minSeverity: real)
    ensures var filtered := FilterFile(f, minSeverity);
      Completed(prev + FileMessages(f, index, total, minSeverity))
      == Completed(prev) + (if |filtered.comments| > 0 then [filtered] else [])
  {
    CompletedAppend(prev, FileMessages(f, index, total, minSeverity));
    FileMessagesContent(f, index, total, minSeverity);
  }

  /** The progress lines after one more iteration. */
  lemma ProgressStep(prev: seq<PanelMessage>, f: FileComments, index: nat, total: nat, minSeverity: real)
    ensures ProgressLines(prev + FileMessages(f, index, total, minSeverity))
            == ProgressLines(prev) + [ProcessedText(index + 1, total)]
  {
    CompletedAppend(prev, FileMessages(f, index, total, minSeverity));
    FileMessagesContent(f, index, total, minSeverity);
  }

  lemma {:induction false} LoopProgress(files: seq<FileComments>, k: nat, minSeverity: real)
    requires k <= |files|
    ensures ProgressLines(LoopMessages(files, k, minSeverity)) == ProcessedLines(k, |files|)
  {
    if k > 0 {
      LoopProgress(files, k - 1, minSeverity);
      ProgressStep(LoopMessages(files, k - 1, minSeverity), files[k - 1], k - 1, |files|, minSeverity);
      ProcessedLinesSnoc(k, |files|);
    }
  }

  /** The reporter's forwarded messages as posted progress messages. */
  function ProgressMessages(ms: seq<string>): (r: seq<PanelMessage>)
    ensures |r| == |ms|
    ensures forall i :: 0 <= i < |ms| ==> r[i] == ReviewProgress(ms[i])
  {
    seq(|ms|, i requires 0 <= i < |ms| => ReviewProgress(ms[i]))
  }

  lemma ProgressMessagesSnoc(ms: seq<string>, m: string)
    ensures ProgressMessages(ms + [m]) == ProgressMessages(ms) + [ReviewProgress(m)]
  {
    assert (ms + [m])[|ms|] == m;
  }

  /* ---------- navigation ---------- */

  /** `(index + 1) % n`; `index + 1` is never negative, so JavaScript's `%` agrees with Dafny's. */
  function NextIndex(index: int, n: nat): (r: int)
    requires -1 <= index && n > 0
    ensures 0 <= r < n
  {
    (index + 1) % n
  }

  /** `index <= 0 ? n - 1 : index - 1`. */
  function PreviousIndex(index: int, n: nat): (r: int)
    requires index < n && n > 0
    ensures 0 <= r < n
  {
    if index <= 0 then n - 1 else index - 1
  }

  /** Next and previous undo each other on a valid position. */
  lemma NextPreviousInverse(index: int, n: nat)
    requires 0 <= index < n
    ensures PreviousIndex(NextIndex(index, n), n) == index
    ensures NextIndex(PreviousIndex(index, n), n) == index
  {
    if index == n - 1 {
      ModSelf(n);
    } else {
      ModBelow(index + 1, n);
    }
    if index == 0 {
      ModSelf(n);
    } else {
      ModBelow(index, n);
    }
  }

  /** Starting from no selection, previous goes to the last comment and next to the first. */
  lemma FromNoSelection(n: nat)
    requires n > 0
    ensures NextIndex(-1, n) == 0 && PreviousIndex(-1, n) == n - 1
  {
  }

  /** The position after `k` steps forward. */
  function NextTimes(index: int, n: nat, k: nat): (r: int)
    requires -1 <= index < n && n > 0
    ensures k > 0 ==> 0 <= r < n
    ensures k == 0 ==> r == index
  {
    if k == 0 then index else NextIndex(NextTimes(index, n, k - 1), n)
  }

  /** From no selection, the k-th step forward shows comment k - 1: n steps visit every comment once. */
  lemma {:induction false} NextVisitsInOrder(n: nat, k: nat)
    requires 0 < k <= n
    ensures NextTimes(-1, n, k) == k - 1
  {
    if k > 1 {
      NextVisitsInOrder(n, k - 1);
      ModBelow(k - 1, n);
    } else {
      ModBelow(0, n);
    }
  }

  lemma ModBelow(x: int, n: int)
    requires 0 <= x < n
    ensures x % n == x
  {
  }

  lemma ModSelf(n: int)
    requires n > 0
    ensures n % n == 0
  {
  }

  /** Stepping forward from a comment wraps past the last one: n steps return to the start. */
  lemma {:induction false} NextWraps(index: int, n: nat, k: nat)
    requires 0 <= index < n && k <= n
    ensures NextTimes(index, n, k) == if index + k < n then index + k else index + k - n
  {
    if k > 0 {
      NextWraps(index, n, k - 1);
      var v := NextTimes(index, n, k - 1);
      if v + 1 < n {
        ModBelow(v + 1, n);
      } else {
        ModSelf(n);
      }
    }
  }

  /** `findIndex` on equal `filePath`, `line` and `comment`. */
  function FindIndex(entries: seq<NavEntry>, e: NavEntry): (r: int)
    ensures -1 <= r < |entries|
    ensures r >= 0 ==> entries[r] == e && forall k :: 0 <= k < r ==> entries[k] != e
    ensures r == -1 <==> e !in entries
  {
    if entries == [] then -1
    else if entries[0] == e then 0
    else
      var i := FindIndex(entries[1..], e);
      if i == -1 then -1 else i + 1
  }

  /** What the panel does in the editor. */
  datatype EditorAction =
    | InformationMessage(text: string)
      /** Opens the file of `entry` at 0-based line `position` with a thread titled `number/total`. */
    | ShowComment(entry: NavEntry, position: real, number: nat, total: nat)

  /** `Math.max(0, line - 1)`: the 0-based editor line of a 1-based comment line. */
  function EditorLine(line: real): (r: real)
    ensures r >= 0.0 && (line >= 1.0 ==> r == line - 1.0)
    ensures line < 1.0 ==> r == 0.0
  {
    if line - 1.0 > 0.0 then line - 1.0 else 0.0
  }

  /* ---------- the panel ---------- */

  class Panel {
    var allComments: seq<NavEntry>
    var currentCommentIndex: int
    /** Messages posted to the webview, oldest first. */
    var outbox: seq<PanelMessage>
    /** What was shown in the editor, oldest first. */
    var editor: seq<EditorAction>

    /** The position is a comment of the list, or -1 for none. */
    ghost predicate Valid()
      reads this
    {
      -1 <= currentCommentIndex < |allComments|
    }

    constructor()
      ensures Valid()
      ensures allComments == [] && currentCommentIndex == -1 && outbox == [] && editor == []
    {
      allComments := [];
      currentCommentIndex := -1;
      outbox := [];
      editor := [];
    }

    /** `_getBranches`, with the branch lists the git layer returns as inputs. */
    method GetBranches(branches: seq<string>, currentBranchList: seq<string>)
      modifies this
      ensures outbox == old(outbox) + [BranchesLoaded(branches, if |currentBranchList| > 0 then currentBranchList[0] else "", DefaultBase(branches))]
      ensures allComments == old(allComments) && currentCommentIndex == old(currentCommentIndex) && editor == old(editor)
    {
      var currentBranch := if |currentBranchList| > 0 then currentBranchList[0] else "";
      var defaultBase := FirstPresent(DefaultBases, branches);
      if defaultBase.None? && |branches| > 0 {
        defaultBase := Some(branches[0]);
      }
      outbox := outbox + [BranchesLoaded(branches, currentBranch, defaultBase)];
    }

    /**
     * The review calling `progress.report` with each of `reports`, in order;
     * what the reporter passes on is posted as progress.
     */
    method ForwardReports(progress: Reporter, reports: seq<string>)
      requires progress.Valid() && progress.reports == []
      modifies this, progress
      ensures progress.Valid() && progress.posted == Forwarded(reports)
      ensures outbox == old(outbox) + ProgressMessages(Forwarded(reports))
      ensures allComments == old(allComments) && currentCommentIndex == old(currentCommentIndex) && editor == old(editor)
    {
      for r := 0 to |reports|
        invariant progress.Valid() && progress.reports == reports[..r]
        invariant outbox == old(outbox) + ProgressMessages(progress.posted)
        invariant allComments == old(allComments) && currentCommentIndex == old(currentCommentIndex) && editor == old(editor)
      {
        var before := progress.posted;
        progress.Report(reports[r]);
        if |progress.posted| > |before| {
          outbox := outbox + [ReviewProgress(reports[r])];
          ProgressMessagesSnoc(before, reports[r]);
        }
        assert reports[..r + 1] == reports[..r] + [reports[r]];
      }
      assert reports[..|reports|] == reports;
    }

    /** `filteredFile.comments.forEach(comment => this._allComments.push(...))`. */
    method PushEntries(f: FileComments)
      modifies this
      ensures allComments == old(allComments) + EntriesOf(f)
      ensures currentCommentIndex == old(currentCommentIndex) && outbox == old(outbox) && editor == old(editor)
    {
      for j := 0 to |f.comments|
        invariant allComments == old(allComments) + EntriesOf(f)[..j]
        invariant currentCommentIndex == old(currentCommentIndex) && outbox == old(outbox) && editor == old(editor)
      {
        var comment := f.comments[j];
        allComments := allComments + [NavEntry(f.target, comment.line, comment.comment)];
      }
      assert EntriesOf(f)[..|f.comments|] == EntriesOf(f);
    }

    /**
     * One iteration of the loop of `_reviewChanges`: filter the file's comments
     * and, when some are left, add them to the navigation list and post the
     * file's result; then post the progress line.
     */
    method PostFile(file: FileComments, index: nat, total: nat, minSeverity: real) returns (filteredFile: FileComments)
      modifies this
      ensures filteredFile == FilterFile(file, minSeverity)
      ensures allComments == old(allComments) + (if |filteredFile.comments| > 0 then EntriesOf(filteredFile) else [])
      ensures outbox == old(outbox) + FileMessages(file, index, total, minSeverity)
      ensures currentCommentIndex == old(currentCommentIndex) && editor == old(editor)
    {
      filteredFile := file.(comments := VisibleComments(file.comments, minSeverity));
      if |filteredFile.comments| > 0 {
        PushEntries(filteredFile);
        outbox := outbox + [FileReviewCompleted(filteredFile)];
      }
      outbox := outbox + [ReviewProgress(ProcessedText(index + 1, total))];
    }

    /**
     * The loop of `_reviewChanges` over the per-file results: it rebuilds the
     * navigation list and posts each file's filtered result and a progress line.
     */
    method PostFileResults(files: seq<FileComments>, minSeverity: real) returns (filteredResults: seq<FileComments>)
      modifies this
      ensures filteredResults == FilteredResults(files, minSeverity)
      ensures allComments == NavEntries(filteredResults)
      ensures outbox == old(outbox) + LoopMessages(files, |files|, minSeverity)
      ensures currentCommentIndex == old(currentCommentIndex) && editor == old(editor)
    {
      filteredResults := [];
      allComments := [];
      for index := 0 to |files|
        invariant filteredResults == FilteredResults(files[..index], minSeverity)
        invariant allComments == NavEntries(filteredResults)
        invariant outbox == old(outbox) + LoopMessages(files, index, minSeverity)
        invariant currentCommentIndex == old(currentCommentIndex) && editor == old(editor)
      {
        LoopStep(files, index, minSeverity);
        var filteredFile := PostFile(files[index], index, |files|, minSeverity);
        AppendAssoc(old(outbox), LoopMessages(files, index, minSeverity), FileMessages(files[index], index, |files|, minSeverity));
        if |filteredFile.comments| > 0 {
          NavEntriesAppend(filteredResults, [filteredFile]);
          filteredResults := filteredResults + [filteredFile];
        }
      }
      assert files[..|files|] == files;
    }

    /**
     * `_reviewChanges`. The review itself happens outside this model: `reports`
     * are the progress messages it reports and `outcome` is its result or what it
     * threw. `minSeverity` is the configured minimum severity.
     */
    method ReviewChanges(reports: seq<string>, outcome: Result<ReviewResult, Thrown>, minSeverity: real)
      requires Valid()
      modifies this
      ensures Valid() && editor == old(editor)
      ensures outcome.Ok? ==>
        var files := outcome.value.fileComments;
        && allComments == NavEntries(FilteredResults(files, minSeverity))
        && currentCommentIndex == -1
        && outbox == old(outbox) + [ReviewStarted] + ProgressMessages(Forwarded(reports))
                     + LoopMessages(files, |files|, minSeverity)
                     + [ReviewCompleted(FilteredResults(files, minSeverity), outcome.value.errors)]
      ensures outcome.Err? ==>
        && allComments == old(allComments) && currentCommentIndex == old(currentCommentIndex)
        && outbox == old(outbox) + [ReviewStarted] + ProgressMessages(Forwarded(reports))
                     + [ReviewError(ErrorMessage(outcome.error))]
    {
      outbox := outbox + [ReviewStarted];
      var progress := new Reporter();
      ForwardReports(progress, reports);
      if outcome.Err? {
        outbox := outbox + [ReviewError(ErrorMessage(outcome.error))];
        return;
      }
      var result := outcome.value;
      var filteredResults := PostFileResults(result.fileComments, minSeverity);
      currentCommentIndex := -1;
      outbox := outbox + [ReviewCompleted(filteredResults, result.errors)];
    }

    /** `_showCommentAtIndex`: an index outside the list shows nothing. */
    method ShowCommentAtIndex(index: int)
      modifies this
      ensures 0 <= index < |allComments| ==>
        editor == old(editor) + [ShowComment(allComments[index], EditorLine(allComments[index].line), index + 1, |allComments|)]
      ensures !(0 <= index < |allComments|) ==> editor == old(editor)
      ensures allComments == old(allComments) && currentCommentIndex == old(currentCommentIndex) && outbox == old(outbox)
    {
      if index < 0 || index >= |allComments| {
        return;
      }
      var commentData := allComments[index];
      editor := editor + [ShowComment(commentData, EditorLine(commentData.line), index + 1, |allComments|)];
    }

    /** `_openFileWithComment`: select the first equal entry, or none, and show it. */
    method OpenFileWithComment(filePath: string, line: real, comment: string)
      requires Valid()
      modifies this
      ensures Valid() && allComments == old(allComments) && outbox == old(outbox)
      ensures currentCommentIndex == FindIndex(allComments, NavEntry(filePath, line, comment))
      ensures currentCommentIndex == -1 ==> editor == old(editor)
      ensures currentCommentIndex >= 0 ==>
        editor == old(editor) + [ShowComment(NavEntry(filePath, line, comment), EditorLine(line), currentCommentIndex + 1, |allComments|)]
    {
      currentCommentIndex := FindIndex(allComments, NavEntry(filePath, line, comment));
      ShowCommentAtIndex(currentCommentIndex);
    }

    /** `_navigateToComment`: circular next / previous, or a note when there is nothing to navigate. */
    method NavigateToComment(next: bool)
      requires Valid()
      modifies this
      ensures Valid() && allComments == old(allComments) && outbox == old(outbox)
      ensures |allComments| == 0 ==>
        currentCommentIndex == old(currentCommentIndex)
        && editor == old(editor) + [InformationMessage("No comments available for navigation")]
      ensures |allComments| > 0 ==>
        && currentCommentIndex == (if next then NextIndex(old(currentCommentIndex), |allComments|)
                                   else PreviousIndex(old(currentCommentIndex), |allComments|))
        && editor == old(editor) + [ShowComment(allComments[currentCommentIndex], EditorLine(allComments[currentCommentIndex].line),
                                                currentCommentIndex + 1, |allComments|)]
    {
      if |allComments| == 0 {
        editor := editor + [InformationMessage("No comments available for navigation")];
        return;
      }
      if next {
        currentCommentIndex := (currentCommentIndex + 1) % |allComments|;
      } else {
        currentCommentIndex := if currentCommentIndex <= 0 then |allComments| - 1 else currentCommentIndex - 1;
      }
      ShowCommentAtIndex(currentCommentIndex);
    }
  }
}
