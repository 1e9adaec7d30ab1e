/**
 * How the card box keeps its table in step with the graph: the file-change
 * handler (onFileChanged), the full fill (fetchData), the rebuild
 * (rebuildData) and the fill on opening a graph.
 *
 * The host's answers are inputs: the page list, the block tree of a page,
 * `getPage`, the files of the chosen `pages` directory with their
 * `lastModified` times, and the image pattern. Each operation is a function
 * on tables stating its effect, and a method that performs it on the
 * database object, step by step as the plugin does, proved to have exactly
 * that effect.
 */
module CardBoxSync {
  import opened Wrappers
  import opened CardStore
  import NameCodec
  import PageFiles
  import Summary
  import ChangeClassifier

  /** A page as listed by `getAllPages`. */
  datatype Page = Page(originalName: string, uuid: string, journal: bool)

  /** The page entity `getPage` returns. */
  datatype PageEntity = PageEntity(uuid: string)

  /** The plugin's state and the host's answers during one operation.
      `dir` is the chosen `pages` directory (None when none was chosen), as
      the map from file name to `lastModified`; `tree` is
      `getPageBlocksTree` (None when the call is rejected); `page` is
      `getPage` (None when there is no such page). */
  datatype Host = Host(
    graph: string,
    dir: Option<map<string, int>>,
    format: PageFiles.Format,
    tree: string -> Option<seq<Summary.Block>>,
    page: string -> Option<PageEntity>,
    imageMatch: string -> Option<string>)

  /** What getSummary returns for a block list. */
  function Excerpt(blocks: seq<Summary.Block>, imageMatch: string -> Option<string>): (seq<string>, string)
  {
    var visits := Summary.PreOrder(blocks, 0);
    (Summary.TakeBudget(visits, 0), Summary.FirstImage(visits, imageMatch))
  }

  // ---------------------------------------------------------------------------
  // fetchData, rebuildData and the fill on opening a graph.

  /** The file time fetchData looks up for a page: that of its encoded file
      name, in the preferred format first. */
  function FileTime(host: Host, p: Page): int
    requires host.dir.Some?
  {
    PageFiles.LastUpdatedTime(NameCodec.Encode(p.originalName), host.dir.value, host.format)
  }

  /** A page gets a card: it is not a journal page, a directory was chosen
      and its file time is not 0. */
  predicate Eligible(host: Host, p: Page)
  {
    !p.journal && host.dir.Some? && FileTime(host, p) != 0
  }

  /** The card fetchData leaves for an eligible page: the excerpt of its
      blocks, or no excerpt when fetching the blocks is rejected. */
  function Card(host: Host, p: Page): Box
    requires host.dir.Some?
  {
    var ex := match host.tree(p.uuid)
      case Some(blocks) => Excerpt(blocks, host.imageMatch)
      case None => ([], "");
    Box(host.graph, p.originalName, p.uuid, FileTime(host, p), ex.0, ex.1)
  }

  /** What fetchData does for one page: skip it, or put its card with an
      empty excerpt and then update the excerpt once the blocks arrive. */
  function FetchPage(t: Table, host: Host, p: Page): Table
  {
    if !Eligible(host, p) then t
    else
      var key := Key(host.graph, p.originalName);
      var placed := WithPut(t, Box(host.graph, p.originalName, p.uuid, FileTime(host, p), [], ""));
      match host.tree(p.uuid)
      case Some(blocks) =>
        var ex := Excerpt(blocks, host.imageMatch);
        WithUpdate(placed, key, Patch(None, ex.0, ex.1))
      case None => placed
  }

  /** fetchData over a page list, one page after the other. */
  function FetchAll(t: Table, host: Host, pages: seq<Page>): Table
  {
    if pages == [] then t
    else FetchPage(FetchAll(t, host, pages[..|pages| - 1]), host, pages[|pages| - 1])
  }

  /** fetchData: nothing happens when the page list is null. */
  function FetchData(t: Table, host: Host, pages: Option<seq<Page>>): Table
  {
    if pages.None? then t else FetchAll(t, host, pages.value)
  }

  /** rebuildData: drop the current graph's cards, then fetch them again. */
  function Rebuild(t: Table, host: Host, pages: Option<seq<Page>>): Table
  {
    FetchData(WithoutGraph(t, host.graph), host, pages)
  }

  /** On opening a graph with a chosen directory, fetch only when the graph
      has no card yet. */
  function LoadOnOpen(t: Table, host: Host, pages: Option<seq<Page>>): Table
  {
    if host.dir.Some? && GraphCount(t, host.graph) == 0 then FetchData(t, host, pages) else t
  }

  /** An eligible page named `name`. */
  predicate Supplies(host: Host, p: Page, name: string)
  {
    p.originalName == name && Eligible(host, p)
  }

  /** The position of the last eligible page named `name` among the first
      `n` pages. */
  function LastEligibleBefore(host: Host, pages: seq<Page>, name: string, n: nat): (r: Option<nat>)
    requires n <= |pages|
    ensures r.Some? ==> r.value < n && Supplies(host, pages[r.value], name)
    ensures r.Some? ==> forall j :: r.value < j < n ==> !Supplies(host, pages[j], name)
    ensures r.None? ==> forall j :: 0 <= j < n ==> !Supplies(host, pages[j], name)
  {
    if n == 0 then None
    else if Supplies(host, pages[n - 1], name) then Some(n - 1)
    else LastEligibleBefore(host, pages, name, n - 1)
  }

  /** The position of the last eligible page named `name`. */
  function LastEligible(host: Host, pages: seq<Page>, name: string): (r: Option<nat>)
    ensures r.Some? ==> r.value < |pages| && Supplies(host, pages[r.value], name)
    ensures r.Some? ==> forall j :: r.value < j < |pages| ==> !Supplies(host, pages[j], name)
    ensures r.None? ==> forall j :: 0 <= j < |pages| ==> !Supplies(host, pages[j], name)
  {
    LastEligibleBefore(host, pages, name, |pages|)
  }

  /** Looking among the first `m` pages does not depend on the pages after
      them. */
  lemma {:induction false} LastEligibleCut(host: Host, pages: seq<Page>, name: string, n: nat, m: nat)
    requires m <= n <= |pages|
    ensures LastEligibleBefore(host, pages, name, m) == LastEligibleBefore(host, pages[..n], name, m)
  {
    if m > 0 {
      assert pages[..n][m - 1] == pages[m - 1];
      LastEligibleCut(host, pages, name, n, m - 1);
    }
  }

  /** The put and the update of one page together store its card. */
  lemma FetchPageStoresCard(t: Table, host: Host, p: Page)
    ensures Eligible(host, p) ==> FetchPage(t, host, p) == WithPut(t, Card(host, p))
    ensures !Eligible(host, p) ==> FetchPage(t, host, p) == t
  {
  }

  /** Fetching touches only the current graph's cards. */
  lemma {:induction false} FetchAllOtherGraphs(t: Table, host: Host, pages: seq<Page>)
    ensures WithoutGraph(FetchAll(t, host, pages), host.graph) == WithoutGraph(t, host.graph)
  {
    if pages != [] {
      var init := pages[..|pages| - 1];
      var p := pages[|pages| - 1];
      FetchAllOtherGraphs(t, host, init);
      var s := FetchAll(t, host, init);
      FetchPageStoresCard(s, host, p);
      if Eligible(host, p) {
        DeleteGraphAbsorbs(s, host.graph, Card(host, p), KeyOf(Card(host, p)), Patch(None, [], ""));
      }
    }
  }

  /** A page that does not supply the card of `key` leaves that card as it was. */
  lemma FetchPageOtherKey(t: Table, host: Host, p: Page, key: Key)
    requires key.graph != host.graph || !Supplies(host, p, key.name)
    ensures key in FetchPage(t, host, p) <==> key in t
    ensures key in t ==> FetchPage(t, host, p)[key] == t[key]
  {
    FetchPageStoresCard(t, host, p);
  }

  /** After fetching, the current graph holds a card named `name` exactly
      when it held one before or an eligible page has that name; the card of
      the last such page wins, and without one the old card is kept. */
  lemma {:induction false} FetchAllCard(t: Table, host: Host, pages: seq<Page>, name: string)
    ensures var key, r := Key(host.graph, name), FetchAll(t, host, pages);
      LastEligible(host, pages, name).Some? ==>
        key in r && r[key] == Card(host, pages[LastEligible(host, pages, name).value])
    ensures var key, r := Key(host.graph, name), FetchAll(t, host, pages);
      LastEligible(host, pages, name).None? ==>
        (key in r <==> key in t) && (key in t ==> r[key] == t[key])
  {
    if pages != [] {
      var n := |pages| - 1;
      var init, p := pages[..n], pages[n];
      var s := FetchAll(t, host, init);
      assert FetchAll(t, host, pages) == FetchPage(s, host, p);
      if Supplies(host, p, name) {
        assert LastEligible(host, pages, name) == Some(n);
        FetchPageStoresCard(s, host, p);
      } else {
        assert LastEligible(host, pages, name) == LastEligibleBefore(host, pages, name, n);
        LastEligibleCut(host, pages, name, n, n);
        FetchAllCard(t, host, init, name);
        FetchPageOtherKey(s, host, p, Key(host.graph, name));
      }
    }
  }

  /** Fetching keeps every card under its own key. */
  lemma {:induction false} FetchAllKeepsValid(t: Table, host: Host, pages: seq<Page>)
    requires Valid(t)
    ensures Valid(FetchAll(t, host, pages))
  {
    if pages != [] {
      var init := pages[..|pages| - 1];
      var p := pages[|pages| - 1];
      FetchAllKeepsValid(t, host, init);
      var s := FetchAll(t, host, init);
      FetchPageStoresCard(s, host, p);
      if Eligible(host, p) {
        PutKeepsValid(s, Card(host, p));
      }
    }
  }

  /** A rebuild leaves the other graphs as they were, and the current graph
      ends up with one card per name of an eligible page, the card of the
      last such page, and nothing else. */
  lemma RebuildSpec(t: Table, host: Host, pages: seq<Page>, name: string)
    ensures WithoutGraph(Rebuild(t, host, Some(pages)), host.graph) == WithoutGraph(t, host.graph)
    ensures var key, r := Key(host.graph, name), Rebuild(t, host, Some(pages));
      && (key in r <==> LastEligible(host, pages, name).Some?)
      && (key in r ==> r[key] == Card(host, pages[LastEligible(host, pages, name).value]))
  {
    var cleared := WithoutGraph(t, host.graph);
    FetchAllOtherGraphs(cleared, host, pages);
    DeleteGraphAbsorbs(t, host.graph, Box(host.graph, name, "", 0, [], ""), Key(host.graph, name), Patch(None, [], ""));
    FetchAllCard(cleared, host, pages, name);
  }

  /** Rebuilding twice from the same answers is rebuilding once. */
  lemma RebuildIdempotent(t: Table, host: Host, pages: Option<seq<Page>>)
    ensures Rebuild(Rebuild(t, host, pages), host, pages) == Rebuild(t, host, pages)
  {
    var cleared := WithoutGraph(t, host.graph);
    DeleteGraphAbsorbs(t, host.graph, Box(host.graph, "", "", 0, [], ""), Key(host.graph, ""), Patch(None, [], ""));
    if pages.Some? {
      FetchAllOtherGraphs(cleared, host, pages.value);
    }
  }

  /** Opening a graph that has no card fills it as a rebuild would; opening
      one that has cards, or without a directory, changes nothing. */
  lemma LoadOnOpenSpec(t: Table, host: Host, pages: Option<seq<Page>>)
    ensures host.dir.Some? && GraphCount(t, host.graph) == 0 ==>
      LoadOnOpen(t, host, pages) == Rebuild(t, host, pages)
    ensures host.dir.None? || GraphCount(t, host.graph) > 0 ==> LoadOnOpen(t, host, pages) == t
  {
    if GraphCount(t, host.graph) == 0 {
      GraphCountZero(t, host.graph);
      assert WithoutGraph(t, host.graph) == t;
    }
  }

  // ---------------------------------------------------------------------------
  // onFileChanged.

  /** The file name captured from the path of a change the handler acts on:
      a modification or deletion, with a directory chosen, whose path is a
      string matching `pages/(.*)\.(md|org)`. */
  function ChangedFile(host: Host, changes: ChangeClassifier.Changes): Option<string>
  {
    var c := ChangeClassifier.Classify(changes);
    if (c.op == ChangeClassifier.Modified || c.op == ChangeClassifier.Delete)
      && host.dir.Some? && c.path.Str?
    then PageFiles.PagePathMatch(c.path.s)
    else None
  }

  /** The format the handler passes to the time lookup: markdown exactly
      when the captured file name itself is `md`. */
  function CaptureFormat(fileName: string): PageFiles.Format
  {
    if fileName == "md" then PageFiles.Markdown else PageFiles.Org
  }

  /** The effect of a modification of file `fileName`: with a non-zero file
      time and the page's blocks at hand, update the card's time and excerpt,
      or, when there is no card, put a new one if `getPage` finds the page. */
  function Modify(t: Table, host: Host, fileName: string): Table
    requires host.dir.Some?
  {
    var time := PageFiles.LastUpdatedTime(fileName, host.dir.value, CaptureFormat(fileName));
    var name := NameCodec.Decode(fileName);
    var key := Key(host.graph, name);
    if time == 0 then t
    else match host.tree(name)
      case None => t
      case Some(blocks) =>
        var ex := Excerpt(blocks, host.imageMatch);
        if key in t then WithUpdate(t, key, Patch(Some(time), ex.0, ex.1))
        else match host.page(name)
          case None => t
          case Some(pg) => WithPut(t, Box(host.graph, name, pg.uuid, time, ex.0, ex.1))
  }

  /** onFileChanged's effect on the table. */
  function HandleChange(t: Table, host: Host, changes: ChangeClassifier.Changes): Table
  {
    match ChangedFile(host, changes)
    case None => t
    case Some(fileName) =>
      if ChangeClassifier.Classify(changes).op == ChangeClassifier.Modified then Modify(t, host, fileName)
      else WithDelete(t, Key(host.graph, NameCodec.Decode(fileName)))
  }

  /** Creations, batches with no operation, a missing directory, a path that
      is not a string or does not match the pattern: the table is unchanged. */
  lemma IgnoredChanges(t: Table, host: Host, changes: ChangeClassifier.Changes)
    requires var c := ChangeClassifier.Classify(changes);
      || c.op == ChangeClassifier.Create || c.op == ChangeClassifier.NoOperation
      || host.dir.None? || !c.path.Str? || PageFiles.PagePathMatch(c.path.s).None?
    ensures HandleChange(t, host, changes) == t
  {
  }

  /** A deletion removes exactly the card of the decoded file name. */
  lemma DeleteRemovesCard(t: Table, host: Host, changes: ChangeClassifier.Changes, fileName: string)
    requires ChangeClassifier.Classify(changes).op == ChangeClassifier.Delete
    requires ChangedFile(host, changes) == Some(fileName)
    ensures var r, key := HandleChange(t, host, changes), Key(host.graph, NameCodec.Decode(fileName));
      r.Keys == t.Keys - {key} && forall k :: k in r ==> r[k] == t[k]
  {
  }

  /** A modification of a file whose card exists changes only that card's
      time and excerpt: the time is the file's, looked up with the format
      the capture selects. */
  lemma ModifyExisting(t: Table, host: Host, changes: ChangeClassifier.Changes, fileName: string)
    requires ChangeClassifier.Classify(changes).op == ChangeClassifier.Modified
    requires ChangedFile(host, changes) == Some(fileName)
    requires Key(host.graph, NameCodec.Decode(fileName)) in t
    ensures var r, key := HandleChange(t, host, changes), Key(host.graph, NameCodec.Decode(fileName));
      var time := PageFiles.LastUpdatedTime(fileName, host.dir.value, CaptureFormat(fileName));
      && r.Keys == t.Keys
      && (forall k :: k in t && k != key ==> r[k] == t[k])
      && r[key].graph == t[key].graph && r[key].name == t[key].name && r[key].uuid == t[key].uuid
      && (r[key] != t[key] ==> r[key].time == time != 0 && host.tree(NameCodec.Decode(fileName)).Some?)
  {
  }

  /** A modification of a file whose card exists, with a non-zero file time
      and the page's blocks at hand, gives that card the file's time and the
      blocks' excerpt and image; nothing else changes. */
  lemma ModifyUpdatesCard(t: Table, host: Host, changes: ChangeClassifier.Changes, fileName: string)
    requires ChangeClassifier.Classify(changes).op == ChangeClassifier.Modified
    requires ChangedFile(host, changes) == Some(fileName)
    requires Key(host.graph, NameCodec.Decode(fileName)) in t
    requires PageFiles.LastUpdatedTime(fileName, host.dir.value, CaptureFormat(fileName)) != 0
    requires host.tree(NameCodec.Decode(fileName)).Some?
    ensures var key := Key(host.graph, NameCodec.Decode(fileName));
      var time := PageFiles.LastUpdatedTime(fileName, host.dir.value, CaptureFormat(fileName));
      var ex := Excerpt(host.tree(NameCodec.Decode(fileName)).value, host.imageMatch);
      && HandleChange(t, host, changes) == WithUpdate(t, key, Patch(Some(time), ex.0, ex.1))
      && HandleChange(t, host, changes)[key] == t[key].(time := time, summary := ex.0, image := ex.1)
  {
  }

  /** A modification of a file with no card, a non-zero file time, the
      page's blocks at hand and a page `getPage` finds puts a new card: the
      page's uuid, the file's time, the blocks' excerpt and image. */
  lemma ModifyInsertsCard(t: Table, host: Host, changes: ChangeClassifier.Changes, fileName: string)
    requires ChangeClassifier.Classify(changes).op == ChangeClassifier.Modified
    requires ChangedFile(host, changes) == Some(fileName)
    requires Key(host.graph, NameCodec.Decode(fileName)) !in t
    requires PageFiles.LastUpdatedTime(fileName, host.dir.value, CaptureFormat(fileName)) != 0
    requires host.tree(NameCodec.Decode(fileName)).Some?
    requires host.page(NameCodec.Decode(fileName)).Some?
    ensures var name := NameCodec.Decode(fileName);
      var time := PageFiles.LastUpdatedTime(fileName, host.dir.value, CaptureFormat(fileName));
      var ex := Excerpt(host.tree(name).value, host.imageMatch);
      var b := Box(host.graph, name, host.page(name).value.uuid, time, ex.0, ex.1);
      && HandleChange(t, host, changes) == WithPut(t, b)
      && HandleChange(t, host, changes).Keys == t.Keys + {Key(host.graph, name)}
  {
  }

  /** A modification whose file time is 0 (no `.md` or `.org` file of that
      name in the directory, or a captured name holding a `/`), or whose
      blocks cannot be fetched, leaves the table unchanged. */
  lemma ModifyWithoutFileOrBlocks(t: Table, host: Host, changes: ChangeClassifier.Changes, fileName: string)
    requires ChangeClassifier.Classify(changes).op == ChangeClassifier.Modified
    requires ChangedFile(host, changes) == Some(fileName)
    requires || PageFiles.LastUpdatedTime(fileName, host.dir.value, CaptureFormat(fileName)) == 0
             || '/' in fileName
             || host.tree(NameCodec.Decode(fileName)).None?
    ensures HandleChange(t, host, changes) == t
  {
    PageFiles.LastUpdatedTimeLookup(fileName, host.dir.value, CaptureFormat(fileName));
  }

  /** A card is created by a modification only, only when `getPage` finds
      the page, and then with that page's uuid and the file's time. */
  lemma InsertNeedsPage(t: Table, host: Host, changes: ChangeClassifier.Changes, key: Key)
    requires key !in t && key in HandleChange(t, host, changes)
    ensures ChangeClassifier.Classify(changes).op == ChangeClassifier.Modified
    ensures ChangedFile(host, changes).Some?
    ensures var fileName := ChangedFile(host, changes).value;
      var name := NameCodec.Decode(fileName);
      && key == Key(host.graph, name)
      && host.page(name).Some?
      && HandleChange(t, host, changes)[key].uuid == host.page(name).value.uuid
      && HandleChange(t, host, changes)[key].time ==
         PageFiles.LastUpdatedTime(fileName, host.dir.value, CaptureFormat(fileName))
  {
  }

  /** At most one card changes, and only in the current graph: the one
      named by the decoded file name. */
  lemma HandleChangeFrame(t: Table, host: Host, changes: ChangeClassifier.Changes, k: Key)
    requires k in t || k in HandleChange(t, host, changes)
    requires ChangedFile(host, changes).None? || k != Key(host.graph, NameCodec.Decode(ChangedFile(host, changes).value))
    ensures k in t && k in HandleChange(t, host, changes) && HandleChange(t, host, changes)[k] == t[k]
  {
  }

  /** A modification keeps every card under its own key. */
  lemma ModifyKeepsValid(t: Table, host: Host, fileName: string)
    requires Valid(t) && host.dir.Some?
    ensures Valid(Modify(t, host, fileName))
  {
    var time := PageFiles.LastUpdatedTime(fileName, host.dir.value, CaptureFormat(fileName));
    var name := NameCodec.Decode(fileName);
    var key := Key(host.graph, name);
    if time != 0 && host.tree(name).Some? {
      var ex := Excerpt(host.tree(name).value, host.imageMatch);
      if key in t {
        UpdateKeepsValid(t, key, Patch(Some(time), ex.0, ex.1));
      } else if host.page(name).Some? {
        PutKeepsValid(t, Box(host.graph, name, host.page(name).value.uuid, time, ex.0, ex.1));
      }
    }
  }

  /** The handler keeps every card under its own key. */
  lemma HandleChangeKeepsValid(t: Table, host: Host, changes: ChangeClassifier.Changes)
    requires Valid(t)
    ensures Valid(HandleChange(t, host, changes))
  {
    match ChangedFile(host, changes)
    case None =>
    case Some(fileName) =>
      if ChangeClassifier.Classify(changes).op == ChangeClassifier.Modified {
        ModifyKeepsValid(t, host, fileName);
      } else {
        DeleteKeepsValid(t, Key(host.graph, NameCodec.Decode(fileName)), host.graph);
      }
  }

  /** The format chosen from the capture matters only when both the `.md`
      and the `.org` file of the page exist: otherwise the time is that of
      the one file that exists. */
  lemma ModifyTimeIgnoresFormat(host: Host, fileName: string)
    requires host.dir.Some?
    requires fileName + ".md" !in host.dir.value || fileName + ".org" !in host.dir.value
    ensures PageFiles.LastUpdatedTime(fileName, host.dir.value, CaptureFormat(fileName))
         == PageFiles.LastUpdatedTime(fileName, host.dir.value, host.format)
  {
    PageFiles.FormatMattersOnlyForBoth(fileName, host.dir.value);
  }

  // ---------------------------------------------------------------------------
  // The operations on the database object.

  /** The task fetchData starts for one page: skip a journal page or one
      whose file time is 0; otherwise put its card with an empty excerpt, then
      fetch its blocks and update the excerpt. */
  method FetchPageInto(db: CardBoxDb, host: Host, p: Page)
    modifies db
    ensures db.box == FetchPage(old(db.box), host, p)
  {
    if p.journal || host.dir.None? {
      return;
    }
    var updatedTime := PageFiles.LastUpdatedTime(NameCodec.Encode(p.originalName), host.dir.value, host.format);
    if updatedTime == 0 {
      return;
    }
    db.Put(Box(host.graph, p.originalName, p.uuid, updatedTime, [], ""));
    var blocks := host.tree(p.uuid);
    if blocks.Some? {
      var summary, image := Summary.GetSummary(blocks.value, host.imageMatch);
      db.Update(Key(host.graph, p.originalName), Patch(None, summary, image));
    }
  }

  /** fetchData: the pages' tasks, one after the other. */
  method FetchDataInto(db: CardBoxDb, host: Host, pages: Option<seq<Page>>)
    modifies db
    ensures db.box == FetchData(old(db.box), host, pages)
  {
    if pages.None? {
      return;
    }
    var all := pages.value;
    var i := 0;
    while i < |all|
      invariant 0 <= i <= |all|
      invariant db.box == FetchAll(old(db.box), host, all[..i])
    {
      assert all[..i + 1][..i] == all[..i];
      FetchPageInto(db, host, all[i]);
      i := i + 1;
    }
    assert all[..|all|] == all;
  }

  /** rebuildData. */
  method RebuildInto(db: CardBoxDb, host: Host, pages: Option<seq<Page>>)
    modifies db
    ensures db.box == Rebuild(old(db.box), host, pages)
  {
    db.DeleteGraph(host.graph);
    FetchDataInto(db, host, pages);
  }

  /** The fill on opening a graph: count the graph's cards, fetch if none. */
  method LoadOnOpenInto(db: CardBoxDb, host: Host, pages: Option<seq<Page>>)
    modifies db
    ensures db.box == LoadOnOpen(old(db.box), host, pages)
  {
    if host.dir.Some? {
      var count := db.Count(host.graph);
      if count == 0 {
        FetchDataInto(db, host, pages);
      }
    }
  }

  /** onFileChanged. */
  method OnFileChanged(db: CardBoxDb, host: Host, changes: ChangeClassifier.Changes)
    modifies db
    ensures db.box == HandleChange(old(db.box), host, changes)
  {
    var operation, path := ChangeClassifier.ParseOperation(changes);
    if (operation == ChangeClassifier.Modified || operation == ChangeClassifier.Delete) && host.dir.Some? {
      if !path.Str? {
        return;
      }
      var ma := PageFiles.PagePathMatch(path.s);
      if ma.Some? {
        var fileName := ma.value;
        var format := if fileName == "md" then PageFiles.Markdown else PageFiles.Org;
        var originalName := NameCodec.Decode(fileName);
        var key := Key(host.graph, originalName);
        if operation == ChangeClassifier.Modified {
          var updatedTime := PageFiles.LastUpdatedTime(fileName, host.dir.value, format);
          if updatedTime == 0 {
            return;
          }
          var blocks := host.tree(originalName);
          if blocks.None? {
            return;
          }
          var summary, image := Summary.GetSummary(blocks.value, host.imageMatch);
          var box := db.Get(key);
          if box.Some? {
            db.Update(key, Patch(Some(updatedTime), summary, image));
          } else {
            var page := host.page(originalName);
            if page.Some? {
              db.Put(Box(host.graph, originalName, page.value.uuid, updatedTime, summary, image));
            }
          }
        } else {
          db.Delete(key);
        }
      }
    }
  }
}
