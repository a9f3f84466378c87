/**
 * The script of the review panel's webview: small string helpers for the file
 * list and the branch buttons, and the state the page keeps between messages
 * (the selected branches, whether a review runs, the results received so far,
 * and whether the review-type dropdown is open).
 */
module Webview {
  import opened Wrappers
  import opened Text
  import opened ReviewTypes

  /* ---------- file list helpers ---------- */

  /** The index of the last `/` in `s`, if any. */
  function LastSlash(s: string): (r: Option<nat>)
    ensures r.Some? ==> r.value < |s| && s[r.value] == '/' && forall k :: r.value < k < |s| ==> s[k] != '/'
    ensures r.None? ==> '/' !in s
  {
    if s == [] then None
    else if s[|s| - 1] == '/' then Some(|s| - 1)
    else LastSlash(s[..|s| - 1])
  }

  /** `getFileName`: the last `/`-separated part of a path. */
  function GetFileName(filePath: string): (r: string)
    ensures '/' !in r
    ensures EndsWith(filePath, r)
    ensures r == filePath || filePath[|filePath| - |r| - 1] == '/'
  {
    match LastSlash(filePath)
    case Some(i) => filePath[i + 1..]
    case None => filePath
  }

  /**
   * The file name is the only suffix without a `/` that is the whole path or
   * follows a `/`.
   */
  lemma FileNameUnique(filePath: string, name: string)
    requires '/' !in name && EndsWith(filePath, name)
    requires name == filePath || filePath[|filePath| - |name| - 1] == '/'
    ensures name == GetFileName(filePath)
  {
    var r := GetFileName(filePath);
    NoSlashInSuffix(filePath, name);
    NoSlashInSuffix(filePath, r);
    assert |r| == |name|;
  }

  /** A suffix without `/` leaves no `/` in the positions it covers. */
  lemma NoSlashInSuffix(p: string, a: string)
    requires '/' !in a && EndsWith(p, a)
    ensures forall i :: |p| - |a| <= i < |p| ==> p[i] != '/'
  {
    forall i | |p| - |a| <= i < |p|
      ensures p[i] != '/'
    {
      assert p[i] == a[i - (|p| - |a|)];
    }
  }

  /** The name of a file in a directory is the file name itself. */
  lemma FileNameInDirectory(dir: string, name: string)
    requires '/' !in name
    ensures GetFileName(dir + "/" + name) == name
  {
    var path := dir + "/" + name;
    assert path[|path| - |name|..] == name;
    assert path[|path| - |name| - 1] == '/';
    FileNameUnique(path, name);
  }

  /** A path without `/` is its own file name. */
  lemma FileNameOfName(name: string)
    requires '/' !in name
    ensures GetFileName(name) == name
  {
    assert name[|name| - |name|..] == name;
    FileNameUnique(name, name);
  }

  /** `getStatusClass`: the CSS class of a git status letter. */
  function GetStatusClass(status: string): (r: string)
    ensures r == "" <==> status !in ["A", "M", "D", "R", "C"]
  {
    match status
    case "A" => "status-added"
    case "M" => "status-modified"
    case "D" => "status-deleted"
    case "R" => "status-renamed"
    case "C" => "status-copied"
    case _ => ""
  }

  /** Each known status has a class of its own, and every class names a status. */
  lemma StatusClassInjective(s: string, t: string)
    requires GetStatusClass(s) != ""
    ensures StartsWith(GetStatusClass(s), "status-")
    ensures GetStatusClass(s) == GetStatusClass(t) ==> s == t
  {
  }

  /* ---------- branch display ---------- */

  /** The prefixes that mark a remote-tracking branch, in the order they are tried. */
  const RemoteOriginPrefixes: seq<string> := ["remote/origin/", "remotes/origin/", "origin/"]

  /**
   * What `formatBranchDisplay` shows: an empty name as it is, otherwise the
   * name to display and whether it is shown with the remote icon.
   */
  datatype BranchDisplay = Unformatted(value: string) | Formatted(displayName: string, isRemote: bool)

  /** The index of the first of `prefixes` that `name` starts with. */
  function FirstPrefix(name: string, prefixes: seq<string>): (r: Option<nat>)
    ensures r.Some? ==> r.value < |prefixes| && StartsWith(name, prefixes[r.value])
    ensures r.Some? ==> forall k :: 0 <= k < r.value ==> !StartsWith(name, prefixes[k])
    ensures r.None? <==> forall k :: 0 <= k < |prefixes| ==> !StartsWith(name, prefixes[k])
  {
    if prefixes == [] then None
    else if StartsWith(name, prefixes[0]) then Some(0)
    else
      match FirstPrefix(name, prefixes[1..])
      case Some(k) => Some(k + 1)
      case None => None
  }

  /** The display of a branch name: the first matching remote prefix removed, or the name as it is. */
  function BranchDisplayOf(branchName: string): (r: BranchDisplay)
    ensures r.Unformatted? <==> branchName == ""
    ensures r.Unformatted? ==> r.value == branchName
    ensures r.Formatted? ==> EndsWith(branchName, r.displayName)
    ensures r.Formatted? && r.isRemote <==>
              branchName != "" && exists k :: 0 <= k < |RemoteOriginPrefixes| && StartsWith(branchName, RemoteOriginPrefixes[k])
    ensures r.Formatted? && r.isRemote ==>
              exists k :: 0 <= k < |RemoteOriginPrefixes| && branchName == RemoteOriginPrefixes[k] + r.displayName
    ensures r.Formatted? && !r.isRemote ==> r.displayName == branchName
  {
    if branchName == "" then Unformatted(branchName)
    else
      match FirstPrefix(branchName, RemoteOriginPrefixes)
      case Some(k) => Formatted(branchName[|RemoteOriginPrefixes[k]|..], true)
      case None => Formatted(branchName, false)
  }

  /** `formatBranchDisplay`, without the markup around the name. */
  method FormatBranchDisplay(branchName: string) returns (r: BranchDisplay)
    ensures r == BranchDisplayOf(branchName)
  {
    if branchName == "" {
      return Unformatted(branchName);
    }
    var isRemote := false;
    var displayName := branchName;
    for i := 0 to |RemoteOriginPrefixes|
      invariant !isRemote && displayName == branchName
      invariant forall k :: 0 <= k < i ==> !StartsWith(branchName, RemoteOriginPrefixes[k])
    {
      var prefix := RemoteOriginPrefixes[i];
      if |prefix| <= |branchName| && branchName[..|prefix|] == prefix {
        isRemote := true;
        displayName := branchName[|prefix|..];
        assert FirstPrefix(branchName, RemoteOriginPrefixes) == Some(i);
        break;
      }
    }
    return Formatted(displayName, isRemote);
  }

  /**
   * No branch name starts with two of the prefixes, so the order in which they
   * are tried does not change the result.
   */
  lemma RemotePrefixesExclusive(name: string, j: nat, k: nat)
    requires j < |RemoteOriginPrefixes| && k < |RemoteOriginPrefixes|
    requires StartsWith(name, RemoteOriginPrefixes[j]) && StartsWith(name, RemoteOriginPrefixes[k])
    ensures j == k
  {
    var p := RemoteOriginPrefixes;
    assert p[0][0] == 'r' && p[1][0] == 'r' && p[2][0] == 'o';
    assert p[0][6] == '/' && p[1][6] == 's';
    assert name[0] == p[j][0] && name[0] == p[k][0];
    if j != 2 && k != 2 {
      assert name[6] == p[j][6] && name[6] == p[k][6];
    }
  }

  /**
   * A remote branch is shown without its prefix, and prefix plus display name
   * give back the branch; a local branch is shown unchanged; only an empty name
   * is left unformatted.
   */
  lemma BranchDisplaySpec(branchName: string)
    ensures BranchDisplayOf(branchName).Unformatted? <==> branchName == ""
    ensures BranchDisplayOf(branchName).Formatted? && BranchDisplayOf(branchName).isRemote <==>
      exists k :: 0 <= k < |RemoteOriginPrefixes| && StartsWith(branchName, RemoteOriginPrefixes[k])
    ensures BranchDisplayOf(branchName).Formatted? && BranchDisplayOf(branchName).isRemote ==>
      exists k :: 0 <= k < |RemoteOriginPrefixes| && branchName == RemoteOriginPrefixes[k] + BranchDisplayOf(branchName).displayName
    ensures BranchDisplayOf(branchName).Formatted? && !BranchDisplayOf(branchName).isRemote ==>
      BranchDisplayOf(branchName).displayName == branchName
  {
    var d := BranchDisplayOf(branchName);
    if d.Formatted? && d.isRemote {
      var k := FirstPrefix(branchName, RemoteOriginPrefixes).value;
      assert branchName == RemoteOriginPrefixes[k] + d.displayName;
    }
    if k :| 0 <= k < |RemoteOriginPrefixes| && StartsWith(branchName, RemoteOriginPrefixes[k]) {
      assert branchName != "" by {
        assert |RemoteOriginPrefixes[k]| > 0;
      }
    }
  }

  /* ---------- page state ---------- */

  /** Messages the page posts to the extension. */
  datatype WebviewRequest =
    | GetFilesList(baseBranch: string, targetBranch: string)
    | ReviewChanges(baseBranch: string, targetBranch: string, reviewType: string)

  /** Both branches chosen and different: the gate of the review buttons. */
  predicate ReviewReady(baseBranch: string, targetBranch: string) {
    baseBranch != "" && targetBranch != "" && baseBranch != targetBranch
  }

  const SelectBothBranchesError := "Please select both base and target branches"

  /**
   * The page's state as a value: the module variables of the script, the
   * `hidden` classes of the review buttons and of the preview, status and
   * results sections, the `disabled` class of the main button, the error shown
   * in the status section, and the requests posted so far.
   */
  datatype PageState = PageState(
    selectedBaseBranch: string,
    selectedTargetBranch: string,
    currentBranches: seq<string>,
    isReviewing: bool,
    isDropdownOpen: bool,
    currentResults: seq<FileComments>,
    reviewButtonsHidden: bool,
    previewHidden: bool,
    statusHidden: bool,
    resultsHidden: bool,
    mainButtonDisabled: bool,
    statusError: Option<string>,
    posted: seq<WebviewRequest>)

  /** `updateReviewButtons` on the page state. */
  function ButtonsUpdated(s: PageState): PageState {
    if ReviewReady(s.selectedBaseBranch, s.selectedTargetBranch) then
      s.(reviewButtonsHidden := false, posted := s.posted + [GetFilesList(s.selectedBaseBranch, s.selectedTargetBranch)])
    else
      s.(reviewButtonsHidden := true, previewHidden := true, statusHidden := true, resultsHidden := true)
  }

  /**
   * The buttons show exactly when a review is possible; then exactly one
   * file-list request for the chosen branches is posted, otherwise nothing is
   * posted and the sections are hidden. Nothing else changes.
   */
  lemma ButtonsUpdatedSpec(s: PageState)
    ensures var r := ButtonsUpdated(s);
      var ready := ReviewReady(s.selectedBaseBranch, s.selectedTargetBranch);
      && (r.reviewButtonsHidden <==> !ready)
      && (|r.posted| == |s.posted| + 1 <==> ready)
      && (ready ==> r.posted == s.posted + [GetFilesList(s.selectedBaseBranch, s.selectedTargetBranch)])
      && (!ready ==> r.posted == s.posted && r.previewHidden && r.statusHidden && r.resultsHidden)
      && r.(reviewButtonsHidden := s.reviewButtonsHidden, previewHidden := s.previewHidden,
            statusHidden := s.statusHidden, resultsHidden := s.resultsHidden, posted := s.posted) == s
  {
  }

  /** `startReview(reviewType)` on the page state. */
  function ReviewRequested(s: PageState, reviewType: string): PageState {
    if s.selectedBaseBranch == "" || s.selectedTargetBranch == "" then
      s.(statusHidden := false, statusError := Some(SelectBothBranchesError))
    else
      s.(isReviewing := true, mainButtonDisabled := true,
         posted := s.posted + [ReviewChanges(s.selectedBaseBranch, s.selectedTargetBranch, reviewType)])
  }

  /**
   * Asking for a review either shows the missing-branch error and posts
   * nothing, or marks the review as running and posts exactly one request for
   * the chosen branches. The branches, the dropdown and the results never change.
   */
  lemma ReviewRequestedSpec(s: PageState, reviewType: string)
    ensures var r := ReviewRequested(s, reviewType);
      var missing := s.selectedBaseBranch == "" || s.selectedTargetBranch == "";
      && (missing ==> r.posted == s.posted && r.isReviewing == s.isReviewing
                      && r.statusError == Some(SelectBothBranchesError) && !r.statusHidden)
      && (!missing ==> r.isReviewing && r.mainButtonDisabled
                       && r.posted == s.posted + [ReviewChanges(s.selectedBaseBranch, s.selectedTargetBranch, reviewType)])
      && r.selectedBaseBranch == s.selectedBaseBranch && r.selectedTargetBranch == s.selectedTargetBranch
      && r.isDropdownOpen == s.isDropdownOpen && r.currentResults == s.currentResults
      && r.currentBranches == s.currentBranches
  {
  }

  /** Every request names chosen branches, and different ones for a file list. */
  predicate RequestsNameBranches(posted: seq<WebviewRequest>) {
    && (forall i :: 0 <= i < |posted| && posted[i].ReviewChanges? ==>
          posted[i].baseBranch != "" && posted[i].targetBranch != "")
    && (forall i :: 0 <= i < |posted| && posted[i].GetFilesList? ==>
          ReviewReady(posted[i].baseBranch, posted[i].targetBranch))
  }

  /**
   * The page's state. `State()` collects the fields into a `PageState`, so that
   * every handler states its whole new state as an update of the old one.
   */
  class WebviewState {
    var selectedBaseBranch: string
    var selectedTargetBranch: string
    var currentBranches: seq<string>
    var isReviewing: bool
    var isDropdownOpen: bool
    var currentResults: seq<FileComments>
    var reviewButtonsHidden: bool
    var previewHidden: bool
    var statusHidden: bool
    var resultsHidden: bool
    var mainButtonDisabled: bool
    var statusError: Option<string>
    var posted: seq<WebviewRequest>

    ghost function State(): PageState
      reads this
    {
      PageState(selectedBaseBranch, selectedTargetBranch, currentBranches, isReviewing, isDropdownOpen,
                currentResults, reviewButtonsHidden, previewHidden, statusHidden, resultsHidden,
                mainButtonDisabled, statusError, posted)
    }

    /**
     * The buttons are shown exactly when a review is possible, the main button
     * is disabled exactly while a review runs, and every request posted names
     * chosen branches (different ones, for a file list).
     */
    ghost predicate Valid()
      reads this
    {
      && reviewButtonsHidden == !ReviewReady(selectedBaseBranch, selectedTargetBranch)
      && mainButtonDisabled == isReviewing
      && RequestsNameBranches(posted)
    }

    /** The page as loaded: nothing selected, every section hidden. */
    constructor()
      ensures Valid()
      ensures State() == PageState("", "", [], false, false, [], true, true, true, true, false, None, [])
    {
      selectedBaseBranch := "";
      selectedTargetBranch := "";
      currentBranches := [];
      isReviewing := false;
      isDropdownOpen := false;
      currentResults := [];
      reviewButtonsHidden := true;
      previewHidden := true;
      statusHidden := true;
      resultsHidden := true;
      mainButtonDisabled := false;
      statusError := None;
      posted := [];
    }

    /** `updateReviewButtons`: show the buttons and ask for the file list, or hide the buttons and sections. */
    method UpdateReviewButtons()
      requires mainButtonDisabled == isReviewing && RequestsNameBranches(posted)
      modifies this
      ensures Valid()
      ensures State() == ButtonsUpdated(old(State()))
    {
      var baseBranch := selectedBaseBranch;
      var targetBranch := selectedTargetBranch;
      if baseBranch != "" && targetBranch != "" && baseBranch != targetBranch {
        reviewButtonsHidden := false;
        posted := posted + [GetFilesList(baseBranch, targetBranch)];
      } else {
        reviewButtonsHidden := true;
        previewHidden := true;
        statusHidden := true;
        resultsHidden := true;
      }
    }

    /** The `baseBranchSelected` message. */
    method BaseBranchSelected(branch: string)
      requires Valid()
      modifies this
      ensures Valid()
      ensures State() == ButtonsUpdated(old(State()).(selectedBaseBranch := branch))
    {
      selectedBaseBranch := branch;
      UpdateReviewButtons();
    }

    /** The `targetBranchSelected` message. */
    method TargetBranchSelected(branch: string)
      requires Valid()
      modifies this
      ensures Valid()
      ensures State() == ButtonsUpdated(old(State()).(selectedTargetBranch := branch))
    {
      selectedTargetBranch := branch;
      UpdateReviewButtons();
    }

    /** `populateBranches`: the current branch becomes the target and the default base the base, when given. */
    method PopulateBranches(branches: seq<string>, currentBranch: string, defaultBase: Option<string>)
      requires Valid()
      modifies this
      ensures Valid()
      ensures State() == ButtonsUpdated(old(State()).(
        currentBranches := branches,
        selectedTargetBranch := if currentBranch != "" then currentBranch else old(selectedTargetBranch),
        selectedBaseBranch := if defaultBase.Some? && defaultBase.value != "" then defaultBase.value else old(selectedBaseBranch)))
    {
      SetDefaults(branches, currentBranch, defaultBase);
      UpdateReviewButtons();
    }

    /** The "set defaults" block of `populateBranches`, before the buttons are updated. */
    method SetDefaults(branches: seq<string>, currentBranch: string, defaultBase: Option<string>)
      requires Valid()
      modifies this
      ensures mainButtonDisabled == isReviewing && RequestsNameBranches(posted)
      ensures State() == old(State()).(
        currentBranches := branches,
        selectedTargetBranch := if currentBranch != "" then currentBranch else old(selectedTargetBranch),
        selectedBaseBranch := if defaultBase.Some? && defaultBase.value != "" then defaultBase.value else old(selectedBaseBranch))
    {
      currentBranches := branches;
      if currentBranch != "" {
        selectedTargetBranch := currentBranch;
      }
      if defaultBase.Some? && defaultBase.value != "" {
        selectedBaseBranch := defaultBase.value;
      }
    }

    /** `showError`: the status section shows the message. */
    method ShowError(message: string)
      requires Valid()
      modifies this
      ensures Valid()
      ensures State() == old(State()).(statusHidden := false, statusError := Some(message))
    {
      statusHidden := false;
      statusError := Some(message);
    }

    /** `startReview`: with both branches chosen, mark the review as running and ask for it. */
    method StartReview(reviewType: string)
      requires Valid()
      modifies this
      ensures Valid()
      ensures State() == ReviewRequested(old(State()), reviewType)
    {
      var baseBranch := selectedBaseBranch;
      var targetBranch := selectedTargetBranch;
      if baseBranch == "" || targetBranch == "" {
        ShowError(SelectBothBranchesError);
        return;
      }
      isReviewing := true;
      mainButtonDisabled := true;
      posted := posted + [ReviewChanges(baseBranch, targetBranch, reviewType)];
    }

    /** The `reviewStarted` message: the review runs and earlier results are cleared. */
    method HandleReviewStarted()
      requires Valid()
      modifies this
      ensures Valid()
      ensures State() == old(State()).(isReviewing := true, mainButtonDisabled := true, previewHidden := true,
                                       statusHidden := true, resultsHidden := false, currentResults := [])
    {
      isReviewing := true;
      mainButtonDisabled := true;
      previewHidden := true;
      statusHidden := true;
      resultsHidden := false;
      currentResults := [];
    }

    /** `handleFileReviewCompleted`: a missing result is ignored, any other is appended. */
    method HandleFileReviewCompleted(fileResult: Option<FileComments>)
      requires Valid()
      modifies this
      ensures Valid()
      ensures State() == old(State()).(currentResults := old(currentResults) + (if fileResult.Some? then [fileResult.value] else []))
    {
      if fileResult.None? {
        return;
      }
      currentResults := currentResults + [fileResult.value];
    }

    /** `handleReviewCompleted`: the review has stopped and the results are the final ones. */
    method HandleReviewCompleted(results: Option<seq<FileComments>>)
      requires Valid()
      modifies this
      ensures Valid()
      ensures State() == old(State()).(isReviewing := false, mainButtonDisabled := false, resultsHidden := false,
                                       currentResults := if results.Some? then results.value else [])
    {
      isReviewing := false;
      mainButtonDisabled := false;
      resultsHidden := false;
      if results.Some? && |results.value| > 0 {
        currentResults := results.value;
      } else {
        currentResults := [];
      }
    }

    /** `handleReviewError`: the review has stopped. */
    method HandleReviewError()
      requires Valid()
      modifies this
      ensures Valid()
      ensures State() == old(State()).(isReviewing := false, mainButtonDisabled := false)
    {
      isReviewing := false;
      mainButtonDisabled := false;
    }

    /** `toggleDropdown`. */
    method ToggleDropdown()
      requires Valid()
      modifies this
      ensures Valid()
      ensures State() == old(State()).(isDropdownOpen := !old(isDropdownOpen))
    {
      isDropdownOpen := !isDropdownOpen;
    }

    /** `closeDropdown`. */
    method CloseDropdown()
      requires Valid()
      modifies this
      ensures Valid()
      ensures State() == old(State()).(isDropdownOpen := false)
    {
      isDropdownOpen := false;
    }

    /** A click on the main button: start a committed-changes review unless one runs. */
    method MainAreaClick()
      requires Valid()
      modifies this
      ensures Valid()
      ensures State() == if old(isReviewing) then old(State()) else ReviewRequested(old(State()), "committed")
    {
      if !isReviewing && !mainButtonDisabled {
        StartReview("committed");
      }
    }

    /** A click on the chevron: open or close the dropdown unless the main button is disabled. */
    method ChevronClick()
      requires Valid()
      modifies this
      ensures Valid()
      ensures State() == if old(mainButtonDisabled) then old(State()) else old(State()).(isDropdownOpen := !old(isDropdownOpen))
    {
      if !mainButtonDisabled {
        ToggleDropdown();
      }
    }

    /** A click anywhere else on the page closes an open dropdown. */
    method OutsideClick()
      requires Valid()
      modifies this
      ensures Valid()
      ensures State() == old(State()).(isDropdownOpen := false)
    {
      if isDropdownOpen {
        CloseDropdown();
      }
    }

    /** A click on a dropdown option: start that review unless one runs or it has no action, and close the dropdown. */
    method DropdownOptionClick(action: string)
      requires Valid()
      modifies this
      ensures Valid()
      ensures State() == (if action != "" && !old(isReviewing) then ReviewRequested(old(State()), action) else old(State()))
                         .(isDropdownOpen := false)
    {
      if action != "" && !isReviewing && !mainButtonDisabled {
        StartReview(action);
      }
      CloseDropdown();
    }
  }
}
