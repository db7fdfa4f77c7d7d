/** The comparison dashboard: which pages it offers, and how one run of the script moves the
    current page index kept in the session between runs. Buttons and the dropdown are inputs
    of a run; a run ends by stopping, by asking for a rerun, or by showing one page. */
module Compare {
  import opened Wrappers
  import opened Text
  import opened StringOrder
  import opened PageFiles
  import opened Disk

  /** The subdirectory holding the layout exporter's markdown. */
  function LayoutDir(folder: Path): Path {
    folder + "/md"
  }

  /** The subdirectory holding the OCR step's markdown. */
  function OcrDir(folder: Path): Path {
    folder + "/llm_md"
  }

  /** `{f.name for f in dir.glob("*.md")}` when `dir` exists, and the empty set otherwise. */
  function MarkdownNames(fs: FileSystem, dir: Path): set<string> {
    set name | name in Listing(fs, dir) && EndsWith(name, ".md")
  }

  /** `load_markdown_files`: the markdown names present in both subdirectories, sorted; nothing
      when either subdirectory is missing. */
  function LoadMarkdownFiles(fs: FileSystem, folder: Path): (pages: seq<string>)
    ensures StrictlyAscending(pages)
    ensures forall name :: name in pages <==>
      EndsWith(name, ".md") && name in Listing(fs, LayoutDir(folder)) && name in Listing(fs, OcrDir(folder))
    ensures LayoutDir(folder) !in fs || OcrDir(folder) !in fs ==> pages == []
  {
    Sorted(MarkdownNames(fs, LayoutDir(folder)) * MarkdownNames(fs, OcrDir(folder)))
  }

  /** A page that the layout exporter and the OCR step both produced is offered: the OCR step's
      name for the page's image is the exporter's name for the page's markdown. */
  lemma ExportedPageOffered(fs: FileSystem, folder: Path, page: nat)
    requires PageFileName(page, ".md") in Listing(fs, LayoutDir(folder))
    requires PathStem(PageFileName(page, ".png")) + ".md" in Listing(fs, OcrDir(folder))
    ensures PageFileName(page, ".md") in LoadMarkdownFiles(fs, folder)
  {
    OcrMarkdownName(page);
    var name := PageFileName(page, ".md");
    assert name[|name| - 3..] == ".md";
  }

  /** `pages.index(x)`: the first position holding `x`. */
  function IndexOf(pages: seq<string>, x: string): (r: nat)
    requires x in pages
    ensures r < |pages| && pages[r] == x
    ensures forall j :: 0 <= j < r ==> pages[j] != x
  {
    if pages[0] == x then 0 else 1 + IndexOf(pages[1..], x)
  }

  /** In a list without repeats every position is the index of what it holds. */
  lemma IndexOfAscending(pages: seq<string>, i: nat)
    requires StrictlyAscending(pages) && i < |pages|
    ensures IndexOf(pages, pages[i]) == i
  {
    var r := IndexOf(pages, pages[i]);
    if r != i {
      AscendingDistinct(pages, r, i);
    }
  }

  /** The index a run starts from: `0` when the session holds none, then moved into
      `[0, count)` by the two bound checks. */
  function StartIndex(index: Option<int>, count: nat): (r: int)
    requires count > 0
    ensures 0 <= r < count
    ensures index.None? ==> r == 0
    ensures index.Some? && 0 <= index.value < count ==> r == index.value
    ensures index.Some? && index.value >= count ==> r == count - 1
    ensures index.Some? && index.value < 0 ==> r == 0
  {
    var i := if index.None? then 0 else index.value;
    var j := if i >= count then count - 1 else i;
    if j < 0 then 0 else j
  }

  /** What the user did before the run: at most one widget changed. */
  datatype UiEvent =
    | NoClick
    | PreviousClicked
    | NextClicked
    | Picked(choice: string)   // a page chosen in the dropdown

  datatype Screen =
    | FolderNotFound           // `st.error` and `st.stop`
    | NoPages                  // `st.warning` and `st.stop`
    | Rerun                    // `st.rerun`
    | Shown(page: string, left: Path, right: Path, position: nat, count: nat)

  datatype ScriptRun = ScriptRun(screen: Screen, index: Option<int>)

  /** A dropdown choice is one of the options it offered. */
  predicate Offered(fs: FileSystem, folder: Path, event: UiEvent) {
    event.Picked? ==> event.choice in LoadMarkdownFiles(fs, folder)
  }

  /** What the navigation widgets do once the page list is known: start from the session's
      index, apply the one input, and end on a rerun or on the page to show. */
  function Navigate(folder: Path, pages: seq<string>, index: Option<int>, event: UiEvent): ScriptRun
    requires |pages| > 0 && (event.Picked? ==> event.choice in pages)
  {
    var i := StartIndex(index, |pages|);
    if event.PreviousClicked? && i > 0 then ScriptRun(Rerun, Some(i - 1))
    else
      var selected := if event.Picked? then event.choice else pages[i];
      var j := IndexOf(pages, selected);
      if j != i then ScriptRun(Rerun, Some(j))
      else if event.NextClicked? && i < |pages| - 1 then ScriptRun(Rerun, Some(i + 1))
      else ScriptRun(Shown(pages[i], PathJoin(LayoutDir(folder), pages[i]), PathJoin(OcrDir(folder), pages[i]), i + 1, |pages|), Some(i))
  }

  /** One run of the script, from the session's page index before it to the screen it ends on
      and the index after it. */
  function Script(fs: FileSystem, folder: Path, index: Option<int>, event: UiEvent): ScriptRun
    requires Offered(fs, folder, event)
  {
    if folder !in fs then ScriptRun(FolderNotFound, index)
    else
      var pages := LoadMarkdownFiles(fs, folder);
      if |pages| == 0 then ScriptRun(NoPages, index)
      else Navigate(folder, pages, index, event)
  }

  /** A run stops without touching the session exactly when the folder is missing or offers no
      page. */
  lemma ScriptStops(fs: FileSystem, folder: Path, index: Option<int>, event: UiEvent)
    requires Offered(fs, folder, event)
    ensures var r := Script(fs, folder, index, event);
      (r.screen.FolderNotFound? <==> folder !in fs) &&
      (r.screen.NoPages? <==> folder in fs && LoadMarkdownFiles(fs, folder) == []) &&
      (r.screen.FolderNotFound? || r.screen.NoPages? ==> r.index == index)
  {
    if folder in fs {
      var pages := LoadMarkdownFiles(fs, folder);
      if |pages| > 0 {
        NavigateInRange(folder, pages, index, event);
      }
    }
  }

  /** Navigation leaves a valid index in the session, and a shown page is the one at that index,
      read from both subdirectories under its own name, captioned with a position between 1 and
      the page count. */
  lemma NavigateInRange(folder: Path, pages: seq<string>, index: Option<int>, event: UiEvent)
    requires |pages| > 0 && (event.Picked? ==> event.choice in pages)
    ensures var r := Navigate(folder, pages, index, event);
      (r.screen.Rerun? || r.screen.Shown?) &&
      r.index.Some? && 0 <= r.index.value < |pages| &&
      (r.screen.Shown? ==>
        r.screen.page == pages[r.index.value] &&
        r.screen.position == r.index.value + 1 && 1 <= r.screen.position <= r.screen.count == |pages| &&
        r.screen.left == PathJoin(LayoutDir(folder), r.screen.page) &&
        r.screen.right == PathJoin(OcrDir(folder), r.screen.page))
  {
  }

  /** The page the dashboard shows is present, under that name, in both subdirectories. */
  lemma ShownPagePaired(fs: FileSystem, folder: Path, index: Option<int>, event: UiEvent)
    requires Offered(fs, folder, event)
    ensures var r := Script(fs, folder, index, event);
      r.screen.Shown? ==>
        EndsWith(r.screen.page, ".md") &&
        r.screen.page in Listing(fs, LayoutDir(folder)) && r.screen.page in Listing(fs, OcrDir(folder))
  {
    var r := Script(fs, folder, index, event);
    if r.screen.Shown? {
      var pages := LoadMarkdownFiles(fs, folder);
      NavigateInRange(folder, pages, index, event);
      assert r.screen.page in pages;
    }
  }

  /** A run without input from a valid index shows that page and keeps the index. */
  lemma IdleRun(folder: Path, pages: seq<string>, i: nat)
    requires StrictlyAscending(pages) && i < |pages|
    ensures Navigate(folder, pages, Some(i), NoClick) ==
      ScriptRun(Shown(pages[i], PathJoin(LayoutDir(folder), pages[i]), PathJoin(OcrDir(folder), pages[i]), i + 1, |pages|), Some(i))
  {
    IndexOfAscending(pages, i);
  }

  /** "Previous" moves one page back and reruns; on the first page it does nothing. */
  lemma PreviousStep(folder: Path, pages: seq<string>, i: nat)
    requires StrictlyAscending(pages) && i < |pages|
    ensures Navigate(folder, pages, Some(i), PreviousClicked) ==
      if i > 0 then ScriptRun(Rerun, Some(i - 1)) else Navigate(folder, pages, Some(i), NoClick)
  {
    IndexOfAscending(pages, i);
  }

  /** "Next" moves one page on and reruns; on the last page it does nothing. */
  lemma NextStep(folder: Path, pages: seq<string>, i: nat)
    requires StrictlyAscending(pages) && i < |pages|
    ensures Navigate(folder, pages, Some(i), NextClicked) ==
      if i + 1 < |pages| then ScriptRun(Rerun, Some(i + 1)) else Navigate(folder, pages, Some(i), NoClick)
  {
    IndexOfAscending(pages, i);
  }

  /** "Previous" then "Next" comes back to the page one started from, and so does "Next" then
      "Previous". */
  lemma PreviousNextInverse(folder: Path, pages: seq<string>, i: nat)
    requires StrictlyAscending(pages) && i < |pages|
    ensures 0 < i ==>
      Navigate(folder, pages, Navigate(folder, pages, Some(i), PreviousClicked).index, NextClicked).index == Some(i)
    ensures i + 1 < |pages| ==>
      Navigate(folder, pages, Navigate(folder, pages, Some(i), NextClicked).index, PreviousClicked).index == Some(i)
  {
    PreviousStep(folder, pages, i);
    NextStep(folder, pages, i);
    if 0 < i { NextStep(folder, pages, i - 1); }
    if i + 1 < |pages| { PreviousStep(folder, pages, i + 1); }
  }

  /** Picking a page in the dropdown shows that page, at once when it is already current and
      on the rerun otherwise. */
  lemma PickShows(folder: Path, pages: seq<string>, index: Option<int>, choice: string)
    requires StrictlyAscending(pages) && choice in pages
    ensures var r := Navigate(folder, pages, index, Picked(choice));
      r.index == Some(IndexOf(pages, choice)) &&
      (r.screen.Shown? ==> r.screen.page == choice) &&
      (r.screen.Rerun? ==> Navigate(folder, pages, r.index, NoClick).screen.page == choice)
  {
    IdleRun(folder, pages, IndexOf(pages, choice));
  }

  /** The session state the script keeps between runs. */
  class Session {
    /** `st.session_state.page_index`, absent before the first run that gets past the checks. */
    var pageIndex: Option<int>

    constructor()
      ensures pageIndex == None
    {
      pageIndex := None;
    }

    predicate Valid(count: nat)
      reads this
    {
      pageIndex.Some? && 0 <= pageIndex.value < count
    }

    /** Initialise the index when absent, then bring it into `[0, count)`. */
    method StartRun(count: nat)
      requires count > 0
      modifies this
      ensures pageIndex == Some(StartIndex(old(pageIndex), count))
      ensures Valid(count)
    {
      if pageIndex.None? {
        pageIndex := Some(0);
      }
      if pageIndex.value >= count {
        pageIndex := Some(count - 1);
      }
      if pageIndex.value < 0 {
        pageIndex := Some(0);
      }
    }

    /** The "Previous" button. */
    method Previous(clicked: bool) returns (rerun: bool)
      requires pageIndex.Some?
      modifies this
      ensures rerun <==> clicked && old(pageIndex).value > 0
      ensures pageIndex == if rerun then Some(old(pageIndex).value - 1) else old(pageIndex)
    {
      rerun := false;
      if clicked {
        if pageIndex.value > 0 {
          pageIndex := Some(pageIndex.value - 1);
          rerun := true;
        }
      }
    }

    /** The dropdown, whose value is `selected`. */
    method Select(pages: seq<string>, selected: string) returns (rerun: bool)
      requires pageIndex.Some? && selected in pages
      modifies this
      ensures rerun <==> IndexOf(pages, selected) != old(pageIndex).value
      ensures pageIndex == Some(IndexOf(pages, selected))
    {
      var newIndex := IndexOf(pages, selected);
      rerun := false;
      if newIndex != pageIndex.value {
        pageIndex := Some(newIndex);
        rerun := true;
      }
    }

    /** The "Next" button. */
    method Next(clicked: bool, count: nat) returns (rerun: bool)
      requires pageIndex.Some?
      modifies this
      ensures rerun <==> clicked && old(pageIndex).value < count - 1
      ensures pageIndex == if rerun then Some(old(pageIndex).value + 1) else old(pageIndex)
    {
      rerun := false;
      if clicked {
        if pageIndex.value < count - 1 {
          pageIndex := Some(pageIndex.value + 1);
          rerun := true;
        }
      }
    }

    /** The navigation widgets of one run, on a non-empty page list. */
    method Navigation(folder: Path, pages: seq<string>, event: UiEvent) returns (screen: Screen)
      requires |pages| > 0 && (event.Picked? ==> event.choice in pages)
      modifies this
      ensures ScriptRun(screen, pageIndex) == Navigate(folder, pages, old(pageIndex), event)
    {
      StartRun(|pages|);
      var rerun := Previous(event.PreviousClicked?);
      if rerun {
        return Rerun;
      }
      var selected := if event.Picked? then event.choice else pages[pageIndex.value];
      rerun := Select(pages, selected);
      if rerun {
        return Rerun;
      }
      rerun := Next(event.NextClicked?, |pages|);
      if rerun {
        return Rerun;
      }
      var page := pages[pageIndex.value];
      screen := Shown(page, PathJoin(LayoutDir(folder), page), PathJoin(OcrDir(folder), page), pageIndex.value + 1, |pages|);
    }

    /** One run of the script. */
    method RunScript(fs: FileSystem, folder: Path, event: UiEvent) returns (screen: Screen)
      requires Offered(fs, folder, event)
      modifies this
      ensures ScriptRun(screen, pageIndex) == Script(fs, folder, old(pageIndex), event)
    {
      if folder !in fs {
        return FolderNotFound;
      }
      var pages := LoadMarkdownFiles(fs, folder);
      if |pages| == 0 {
        return NoPages;
      }
      screen := Navigation(folder, pages, event);
    }
  }
}
