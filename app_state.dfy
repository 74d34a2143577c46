/** The application state of the SQL IDE: the SQL text, the last result or
    error, the busy flag, and the file browser's path and refresh counter. */
module DuckUi {
  import opened Paths
  import opened Sorting
  import opened Listing
  import opened Query

  const InitialQuery: string := "SELECT '¡Bienvenido!' AS Mensaje;"

  /** The name the sidebar sends to go to the parent directory. */
  const Parent: string := ".."

  /** The sidebar offers the ".." entry everywhere except at the start path. */
  predicate ShowsParentEntry(path: string) {
    path != "."
  }

  /** Entering any entry other than "." (which the listing never shows, being
      hidden) leads to a path where ".." is offered. Only going up, or the
      reset after a missing directory, can hide it again. */
  lemma EnteringShowsParent(path: string, name: string)
    requires name != "."
    ensures ShowsParentEntry(Join(path, name))
  {
    JoinIsDot(path, name);
  }

  class AppState {
    var sqlQuery: string
    var resultDf: Table
    var isLoading: bool
    var errorMessage: string
    var currentPath: string
    var refreshTrigger: int

    constructor ()
      ensures sqlQuery == InitialQuery && resultDf == EmptyTable && !isLoading
      ensures errorMessage == "" && currentPath == "." && refreshTrigger == 0
    {
      sqlQuery := InitialQuery;
      resultDf := EmptyTable;
      isLoading := false;
      errorMessage := "";
      currentPath := ".";
      refreshTrigger := 0;
    }

    /** The sidebar's listing of currentPath, given what the file system
        reports for it. A missing directory resets the path to "." and lists
        nothing; otherwise the path is kept and the result is the listing of
        the reported names. */
    method DirectoryContents(listing: DirListing) returns (items: seq<Entry>)
      modifies this`currentPath
      ensures listing.NotFound? ==> items == [] && currentPath == "."
      ensures listing.Found? ==>
                IsListingOf(items, listing.names, listing.dirs) && currentPath == old(currentPath)
    {
      match listing
      case NotFound =>
        currentPath := ".";
        items := [];
      case Found(names, dirs) =>
        NameLEIsTotalOrder();
        var sorted := Sort(NameLE, names);
        items := [];
        for i := 0 to |sorted|
          invariant items == Visible(sorted[..i], dirs)
        {
          var item := sorted[i];
          assert sorted[..i + 1][..i] == sorted[..i];
          if Hidden(item) {
            continue;
          }
          var isDir := item in dirs;
          items := items + [Entry(item, isDir)];
        }
        assert sorted[..|sorted|] == sorted;
        VisibleSorted(sorted, dirs);
        StableSort(items);
        items := Sort(KeyLE, items);
        forall e ensures multiset(items)[e] == Expected(names, dirs, e) {
          VisibleCounts(sorted, dirs, e);
        }
    }

    /** Forces the listing to be recomputed: bumps the counter by one. */
    method RefreshFileList()
      modifies this`refreshTrigger
      ensures refreshTrigger == old(refreshTrigger) + 1
    {
      refreshTrigger := refreshTrigger + 1;
    }

    /** ".." moves to the parent path, any other name into that entry. The
        new path is not checked; the next listing does that. */
    method ChangeDirectory(dirName: string)
      modifies this`currentPath
      ensures currentPath == if dirName == Parent then Dirname(old(currentPath))
                             else Join(old(currentPath), dirName)
    {
      if dirName == Parent {
        currentPath := Dirname(currentPath);
      } else {
        currentPath := Join(currentPath, dirName);
      }
    }

    /** The path handed to the clipboard: the entry joined onto the current
        path. Nothing in the state changes. */
    method CopyToClipboard(fileName: string) returns (fullPath: string)
      ensures fullPath == Join(currentPath, fileName)
      ensures (fileName == [] || fileName[0] != '/') ==> fullPath[..|currentPath|] == currentPath
    {
      fullPath := Join(currentPath, fileName);
    }

    /** Runs sqlQuery; engine gives the outcome of running a text on a fresh
        in-memory connection. The previous result is always discarded, the
        busy flag ends false, and the error is empty exactly when the engine
        succeeded. */
    method RunQuery(engine: string -> Outcome)
      modifies this`isLoading, this`errorMessage, this`resultDf
      ensures !isLoading
      ensures engine(sqlQuery).Rows? ==>
                resultDf == engine(sqlQuery).table && errorMessage == ""
      ensures engine(sqlQuery).Failed? ==>
                resultDf == EmptyTable && errorMessage == FailureMessage(engine(sqlQuery).message)
    {
      isLoading := true;
      errorMessage := "";
      resultDf := EmptyTable;
      match engine(sqlQuery) {
        case Rows(table) =>
          resultDf := table;
        case Failed(message) =>
          errorMessage := FailureMessage(message);
      }
      isLoading := false;
    }
  }

  /** Going into a slash-free entry and back up restores the path, for a path
      that does not end in '/' or consists of slashes only. */
  method EnterThenLeave(s: AppState, name: string)
    requires name != Parent && '/' !in name
    requires s.currentPath == [] || s.currentPath[|s.currentPath| - 1] != '/' || AllSlashes(s.currentPath)
    modifies s`currentPath
    ensures s.currentPath == old(s.currentPath)
  {
    var start := s.currentPath;
    DirnameOfJoin(start, name);
    s.ChangeDirectory(name);
    assert s.currentPath == Join(start, name);
    s.ChangeDirectory(Parent);
  }
}
