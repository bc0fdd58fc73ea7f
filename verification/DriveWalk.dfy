/** The paged, resumable walk over a folder tree. */
module DriveWalk {
  import opened Selections
  import opened Text

  const MIME_TYPE_FOLDER := "application/vnd.google-apps.folder"
  const MIME_TYPE_GOOGLE_DOC := "application/vnd.google-apps.document"
  const GOOGLE_APPS_PREFIX := "application/vnd.google-apps."

  datatype Child = Child(id: string, mimeType: string, name: string, modifiedTime: string)

  datatype Artifact = Artifact(externalId: string, title: string, mimeType: string, versionMarker: string)

  datatype MimeClass = Folder | GoogleDoc | GoogleNativeUnsupported | Downloadable

  function ClassifyMimeType(mimeType: string): MimeClass {
    if mimeType == MIME_TYPE_FOLDER then Folder
    else if mimeType == MIME_TYPE_GOOGLE_DOC then GoogleDoc
    else if GOOGLE_APPS_PREFIX <= mimeType then GoogleNativeUnsupported
    else Downloadable
  }

  function ToArtifact(c: Child): Artifact {
    Artifact(c.id, if c.name == "" then c.id else c.name, c.mimeType, c.modifiedTime)
  }

  /** The supported files among the first `n` children, in order. */
  function ArtifactsUpTo(children: seq<Child>, n: nat): seq<Artifact>
    requires n <= |children|
  {
    if n == 0 then []
    else if ClassifyMimeType(children[n - 1].mimeType) in {GoogleDoc, Downloadable} then
      ArtifactsUpTo(children, n - 1) + [ToArtifact(children[n - 1])]
    else ArtifactsUpTo(children, n - 1)
  }

  function SubfoldersUpTo(children: seq<Child>, n: nat): seq<string>
    requires n <= |children|
  {
    if n == 0 then []
    else if ClassifyMimeType(children[n - 1].mimeType) == Folder then SubfoldersUpTo(children, n - 1) + [children[n - 1].id]
    else SubfoldersUpTo(children, n - 1)
  }

  function Artifacts(children: seq<Child>): seq<Artifact> {
    ArtifactsUpTo(children, |children|)
  }

  function Subfolders(children: seq<Child>): seq<string> {
    SubfoldersUpTo(children, |children|)
  }

  method PartitionChildren(children: seq<Child>) returns (artifacts: seq<Artifact>, subfolders: seq<string>)
    ensures artifacts == Artifacts(children) && subfolders == Subfolders(children)
  {
    artifacts, subfolders := [], [];
    for i := 0 to |children|
      invariant artifacts == ArtifactsUpTo(children, i) && subfolders == SubfoldersUpTo(children, i)
    {
      var kind := ClassifyMimeType(children[i].mimeType);
      if kind == Folder {
        subfolders := subfolders + [children[i].id];
      } else if kind != GoogleNativeUnsupported {
        artifacts := artifacts + [ToArtifact(children[i])];
      }
    }
  }

  // ----- what is found on a page, told from the raw children ---------------

  /** A Google Doc, or a file whose type is not one of Google's own. */
  predicate IsFile(mimeType: string) {
    mimeType == "application/vnd.google-apps.document" || !("application/vnd.google-apps." <= mimeType)
  }

  /** The artifact carries the child's id, its name or else its id, its type and its modification time. */
  predicate Carries(a: Artifact, c: Child) {
    && a.externalId == c.id && a.mimeType == c.mimeType && a.versionMarker == c.modifiedTime
    && (if c.name != "" then a.title == c.name else a.title == c.id)
  }

  function FileTest(): Child -> bool {
    (c: Child) => IsFile(c.mimeType)
  }

  function FolderTest(): Child -> bool {
    (c: Child) => c.mimeType == "application/vnd.google-apps.folder"
  }

  function Files(children: seq<Child>, n: nat): seq<Child>
    requires n <= |children|
  {
    Filtered(children, n, FileTest())
  }

  /** The artifacts found are the files among the children, one each and in order. */
  lemma {:induction false} ArtifactsAreFiles(children: seq<Child>, n: nat)
    requires n <= |children|
    ensures |ArtifactsUpTo(children, n)| == |Files(children, n)|
    ensures forall i :: 0 <= i < |Files(children, n)| ==> Carries(ArtifactsUpTo(children, n)[i], Files(children, n)[i])
  {
    if n > 0 {
      ArtifactsAreFiles(children, n - 1);
      FileExactlyWhen(children[n - 1].mimeType);
    }
  }

  lemma {:induction false} FileExactlyWhen(mimeType: string)
    ensures ClassifyMimeType(mimeType) in {GoogleDoc, Downloadable} <==> IsFile(mimeType)
    ensures ClassifyMimeType(mimeType) == Folder <==> mimeType == "application/vnd.google-apps.folder"
  {
    assert GOOGLE_APPS_PREFIX <= MIME_TYPE_FOLDER && |MIME_TYPE_FOLDER| != |MIME_TYPE_GOOGLE_DOC|;
  }

  /** An artifact is found on a page if and only if it carries some file among the page's children. */
  lemma {:induction false} FoundExactlyWhen(children: seq<Child>, a: Artifact)
    ensures a in Artifacts(children) <==> exists c :: c in children && IsFile(c.mimeType) && Carries(a, c)
  {
    var files, found := Files(children, |children|), Artifacts(children);
    ArtifactsAreFiles(children, |children|);
    if a in found {
      var i :| 0 <= i < |found| && found[i] == a;
      FilteredMembers(children, FileTest(), files[i]);
      assert files[i] in files;
    }
    if c :| c in children && IsFile(c.mimeType) && Carries(a, c) {
      FilteredMembers(children, FileTest(), c);
      var i :| 0 <= i < |files| && files[i] == c;
      assert found[i] == a;
    }
  }

  /** The subfolders queued are the ids of the children whose type is the folder type, in order. */
  lemma {:induction false} SubfoldersAreFolders(children: seq<Child>, n: nat)
    requires n <= |children|
    ensures var folders := Filtered(children, n, FolderTest());
            && |SubfoldersUpTo(children, n)| == |folders|
            && forall i :: 0 <= i < |folders| ==> SubfoldersUpTo(children, n)[i] == folders[i].id
  {
    if n > 0 {
      SubfoldersAreFolders(children, n - 1);
      FileExactlyWhen(children[n - 1].mimeType);
    }
  }

  lemma {:induction false} QueuedExactlyWhen(children: seq<Child>, id: string)
    ensures id in Subfolders(children)
            <==> exists c :: c in children && c.mimeType == "application/vnd.google-apps.folder" && c.id == id
  {
    var folders := Filtered(children, |children|, FolderTest());
    SubfoldersAreFolders(children, |children|);
    if c :| c in children && c.mimeType == "application/vnd.google-apps.folder" && c.id == id {
      FilteredMembers(children, FolderTest(), c);
    }
    if id in Subfolders(children) {
      var i :| 0 <= i < |folders| && folders[i].id == id;
      FilteredMembers(children, FolderTest(), folders[i]);
    }
  }

  // ----- the remote side ---------------------------------------------------

  /**
   * The folders of one account while a walk runs: the pages of each folder, the one parent each subfolder has,
   * and a height (at most `depth`) that shows the tree is finite. The walk sees neither parents nor heights.
   */
  datatype Remote = Remote(
    pages: map<string, seq<seq<Child>>>, parent: map<string, string>, height: map<string, nat>, depth: nat)

  /** Every folder has at least one page; an unknown folder lists as one empty page. */
  function PagesOf(r: Remote, folder: string): (pages: seq<seq<Child>>)
    ensures pages != []
  {
    if folder in r.pages && r.pages[folder] != [] then r.pages[folder] else [[]]
  }

  function Height(r: Remote, folder: string): (height: nat)
    ensures height <= r.depth
  {
    if folder in r.height && r.height[folder] <= r.depth then r.height[folder] else 0
  }

  function SubsAt(r: Remote, folder: string, i: nat): seq<string>
    requires i < |PagesOf(r, folder)|
  {
    Subfolders(PagesOf(r, folder)[i])
  }

  predicate AllBelow(r: Remote, folders: seq<string>, h: nat) {
    forall k :: 0 <= k < |folders| ==> Height(r, folders[k]) < h
  }

  /** What lies in a folder is lower than it. */
  ghost predicate IsFiniteTree(r: Remote) {
    forall f, i :: 0 <= i < |PagesOf(r, f)| ==> AllBelow(r, SubsAt(r, f, i), Height(r, f))
  }

  /** The tokens are page numbers; the first page needs none. */
  function ListChildren(r: Remote, folder: string, token: Option<nat>): (seq<Child>, Option<nat>) {
    var i := if token.Some? then token.value else 0;
    var pages := PagesOf(r, folder);
    if i < |pages| then (pages[i], if i + 1 < |pages| then Some(i + 1) else None) else ([], None)
  }

  // ----- one step of the walk ----------------------------------------------

  datatype Checkpoint = Checkpoint(queue: seq<string>, token: Option<nat>)

  datatype DiscoveryPage = DiscoveryPage(artifacts: seq<Artifact>, next: Option<Checkpoint>)

  function Discover(r: Remote, root: string, checkpoint: Option<Checkpoint>): DiscoveryPage {
    var queue := if checkpoint.None? then [root] else checkpoint.value.queue;
    var token := if checkpoint.None? then None else checkpoint.value.token;
    if queue == [] then DiscoveryPage([], None)
    else
      var (children, nextToken) := ListChildren(r, queue[0], token);
      var grown := queue + Subfolders(children);
      var next :=
        if nextToken.Some? then Some(Checkpoint(grown, nextToken))
        else if grown[1..] != [] then Some(Checkpoint(grown[1..], None))
        else None;
      DiscoveryPage(Artifacts(children), next)
  }

  /** First in, first out: no folder that waits is dropped or overtaken, and the walk ends only when none waits. */
  lemma {:induction false} FoldersWaitTheirTurn(r: Remote, root: string, at: Checkpoint)
    requires at.queue != []
    ensures var next := Discover(r, root, Some(at)).next;
            && (next.Some? && next.value.token.Some? ==> at.queue <= next.value.queue)
            && (next.Some? && next.value.token.None? ==> at.queue[1..] <= next.value.queue)
            && (next.None? ==> |at.queue| == 1)
  {
  }

  // ----- how many pages are left -------------------------------------------

  /** One listed page: a folder and a page number. */
  datatype Listing = Listing(folder: string, page: nat)

  /** Counts a listing when it is the wanted one; every listing is wanted when none is named. */
  function Tally(l: Listing, wanted: Option<Listing>): nat {
    if wanted.None? || wanted.value == l then 1 else 0
  }

  /** How often `wanted` is listed by listing `f` from page `i` on together with everything found there. */
  ghost function PagesFrom(r: Remote, f: string, i: nat, wanted: Option<Listing>): nat
    decreases Height(r, f), 1, |PagesOf(r, f)| - i
  {
    if i >= |PagesOf(r, f)| then 0
    else
      Tally(Listing(f, i), wanted)
      + FoldersFrom(r, SubsAt(r, f, i), 0, Height(r, f), wanted)
      + PagesFrom(r, f, i + 1, wanted)
  }

  /** The same for the folders `fs[k..]` that are lower than `h`; in a finite tree all folders counted here are. */
  ghost function FoldersFrom(r: Remote, fs: seq<string>, k: nat, h: nat, wanted: Option<Listing>): nat
    decreases h, 0, |fs| - k
  {
    if k >= |fs| then 0
    else (if Height(r, fs[k]) < h then PagesFrom(r, fs[k], 0, wanted) else 0) + FoldersFrom(r, fs, k + 1, h, wanted)
  }

  /** How often `wanted` will still be listed from a position of the walk. */
  ghost function Remaining(r: Remote, queue: seq<string>, i: nat, wanted: Option<Listing>): nat {
    if queue == [] then 0
    else PagesFrom(r, queue[0], i, wanted) + FoldersFrom(r, queue, 1, r.depth + 1, wanted)
  }

  lemma {:induction false} FoldersAppend(r: Remote, xs: seq<string>, ys: seq<string>, k: nat, h: nat, wanted: Option<Listing>)
    requires k <= |xs|
    ensures FoldersFrom(r, xs + ys, k, h, wanted) == FoldersFrom(r, xs, k, h, wanted) + FoldersFrom(r, ys, 0, h, wanted)
    decreases |xs| - k
  {
    if k == |xs| {
      FoldersShift(r, xs, ys, 0, h, wanted);
    } else {
      FoldersAppend(r, xs, ys, k + 1, h, wanted);
    }
  }

  lemma {:induction false} FoldersShift(r: Remote, xs: seq<string>, ys: seq<string>, k: nat, h: nat, wanted: Option<Listing>)
    requires k <= |ys|
    ensures FoldersFrom(r, xs + ys, |xs| + k, h, wanted) == FoldersFrom(r, ys, k, h, wanted)
    decreases |ys| - k
  {
    if k < |ys| {
      FoldersShift(r, xs, ys, k + 1, h, wanted);
    }
  }

  lemma {:induction false} FoldersBound(r: Remote, fs: seq<string>, k: nat, g: nat, h: nat, wanted: Option<Listing>)
    requires AllBelow(r, fs, g) && AllBelow(r, fs, h)
    ensures FoldersFrom(r, fs, k, g, wanted) == FoldersFrom(r, fs, k, h, wanted)
    decreases |fs| - k
  {
    if k < |fs| {
      FoldersBound(r, fs, k + 1, g, h, wanted);
    }
  }

  /** A folder queue without its first folder. */
  lemma {:induction false} FoldersPopped(r: Remote, fs: seq<string>, h: nat, wanted: Option<Listing>)
    requires fs != []
    ensures FoldersFrom(r, fs, 1, h, wanted) == FoldersFrom(r, fs[1..], 0, h, wanted)
  {
    assert [fs[0]] + fs[1..] == fs;
    FoldersShift(r, [fs[0]], fs[1..], 0, h, wanted);
  }

  predicate IsPosition(r: Remote, queue: seq<string>, i: nat) {
    queue != [] ==> i < |PagesOf(r, queue[0])|
  }

  /** The position after listing one page: the queue, and the page of its first folder. */
  function NextPosition(r: Remote, queue: seq<string>, i: nat): ((seq<string>, nat))
    requires queue != [] && i < |PagesOf(r, queue[0])|
  {
    var grown := queue + SubsAt(r, queue[0], i);
    if i + 1 < |PagesOf(r, queue[0])| then (grown, i + 1) else (grown[1..], 0)
  }

  /** Each listing takes exactly one page off what remains. */
  lemma {:induction false} OnePageLess(r: Remote, queue: seq<string>, i: nat, wanted: Option<Listing>)
    requires IsFiniteTree(r) && queue != [] && i < |PagesOf(r, queue[0])|
    ensures var (q, j) := NextPosition(r, queue, i);
            && IsPosition(r, q, j)
            && Remaining(r, queue, i, wanted) == Tally(Listing(queue[0], i), wanted) + Remaining(r, q, j, wanted)
  {
    var f, subs, h := queue[0], SubsAt(r, queue[0], i), r.depth + 1;
    FoldersBound(r, subs, 0, Height(r, f), h, wanted);
    FoldersAppend(r, queue, subs, 1, h, wanted);
    if i + 1 == |PagesOf(r, f)| {
      var rest := (queue + subs)[1..];
      FoldersPopped(r, queue + subs, h, wanted);
      assert PagesFrom(r, f, i + 1, wanted) == 0;
      assert FoldersFrom(r, rest, 0, h, wanted) == Remaining(r, rest, 0, wanted);
    }
  }

  /** The pages a walk lists from a position on, in order. */
  ghost function Trace(r: Remote, queue: seq<string>, i: nat): seq<Listing>
    requires IsFiniteTree(r) && IsPosition(r, queue, i)
    decreases Remaining(r, queue, i, None)
  {
    if queue == [] then []
    else
      OnePageLess(r, queue, i, None);
      var (q, j) := NextPosition(r, queue, i);
      [Listing(queue[0], i)] + Trace(r, q, j)
  }

  /** The walk lists each page as often as it is counted, and no others. */
  lemma {:induction false} TraceCounts(r: Remote, queue: seq<string>, i: nat, l: Listing)
    requires IsFiniteTree(r) && IsPosition(r, queue, i)
    ensures multiset(Trace(r, queue, i))[l] == Remaining(r, queue, i, Some(l))
    ensures |Trace(r, queue, i)| == Remaining(r, queue, i, None)
    decreases Remaining(r, queue, i, None)
  {
    if queue != [] {
      OnePageLess(r, queue, i, None);
      OnePageLess(r, queue, i, Some(l));
      var (q, j) := NextPosition(r, queue, i);
      TraceCounts(r, q, j, l);
    }
  }

  // ----- whole walks -------------------------------------------------------

  function ChildrenAt(r: Remote, l: Listing): seq<Child> {
    if l.page < |PagesOf(r, l.folder)| then PagesOf(r, l.folder)[l.page] else []
  }

  /** The files of the first `n` listed pages, in order. */
  function FilesUpTo(r: Remote, trace: seq<Listing>, n: nat): seq<Artifact>
    requires n <= |trace|
  {
    if n == 0 then [] else FilesUpTo(r, trace, n - 1) + Artifacts(ChildrenAt(r, trace[n - 1]))
  }

  function PageNumber(token: Option<nat>): nat {
    if token.Some? then token.value else 0
  }

  /** A checkpoint that a walk can be resumed from; `None` marks its end. */
  predicate IsResumable(r: Remote, c: Option<Checkpoint>) {
    c.Some? ==> c.value.queue != [] && PageNumber(c.value.token) < |PagesOf(r, c.value.queue[0])|
  }

  ghost function TraceFrom(r: Remote, c: Option<Checkpoint>): seq<Listing>
    requires IsFiniteTree(r) && IsResumable(r, c)
  {
    if c.None? then [] else Trace(r, c.value.queue, PageNumber(c.value.token))
  }

  /** One call lists the next page of the trace and hands over exactly the rest of it. */
  lemma {:induction false} DiscoverTakesOnePage(r: Remote, root: string, c: Option<Checkpoint>)
    requires IsFiniteTree(r) && IsResumable(r, c) && c.Some?
    ensures IsResumable(r, Discover(r, root, c).next)
    ensures TraceFrom(r, c) != []
    ensures TraceFrom(r, Discover(r, root, c).next) == TraceFrom(r, c)[1..]
    ensures Discover(r, root, c).artifacts == Artifacts(ChildrenAt(r, TraceFrom(r, c)[0]))
  {
    var queue, i := c.value.queue, PageNumber(c.value.token);
    OnePageLess(r, queue, i, None);
    var (q, j) := NextPosition(r, queue, i);
    assert TraceFrom(r, c)[1..] == Trace(r, q, j);
  }

  /** The artifacts of `n` calls, each given the checkpoint the one before returned, and the last checkpoint. */
  function DiscoverTimes(r: Remote, root: string, c: Option<Checkpoint>, n: nat): (seq<Artifact>, Option<Checkpoint>)
    decreases n
  {
    if n == 0 then ([], c)
    else
      var (files, at) := DiscoverTimes(r, root, c, n - 1);
      if at.None? then (files, at)
      else
        var page := Discover(r, root, at);
        (files + page.artifacts, page.next)
  }

  /**
   * Stopping after any number of calls and resuming from the stored checkpoint continues the same enumeration,
   * and the walk is over after exactly as many calls as there are pages to list.
   */
  lemma {:induction false} WalkResumes(r: Remote, root: string, c: Option<Checkpoint>, n: nat)
    requires IsFiniteTree(r) && IsResumable(r, c) && n <= |TraceFrom(r, c)|
    ensures IsResumable(r, DiscoverTimes(r, root, c, n).1)
    ensures DiscoverTimes(r, root, c, n).0 == FilesUpTo(r, TraceFrom(r, c), n)
    ensures TraceFrom(r, DiscoverTimes(r, root, c, n).1) == TraceFrom(r, c)[n..]
    ensures DiscoverTimes(r, root, c, n).1.None? <==> n == |TraceFrom(r, c)|
    decreases n
  {
    if n == 0 {
      EndsWithNothingLeft(r, root, c);
    } else {
      WalkResumes(r, root, c, n - 1);
      var at := DiscoverTimes(r, root, c, n - 1).1;
      DiscoverTakesOnePage(r, root, at);
      EndsWithNothingLeft(r, root, Discover(r, root, at).next);
      assert TraceFrom(r, c)[n - 1..][1..] == TraceFrom(r, c)[n..];
    }
  }

  lemma {:induction false} EndsWithNothingLeft(r: Remote, root: string, c: Option<Checkpoint>)
    requires IsFiniteTree(r) && IsResumable(r, c)
    ensures c.None? <==> TraceFrom(r, c) == []
  {
    if c.Some? {
      DiscoverTakesOnePage(r, root, c);
    }
  }

  /** The checkpoint that means the same as none at all. */
  function Start(root: string): Option<Checkpoint> {
    Some(Checkpoint([root], None))
  }

  lemma {:induction false} WalkStartsAtRoot(r: Remote, root: string)
    ensures IsResumable(r, Start(root)) && Discover(r, root, None) == Discover(r, root, Start(root))
  {
  }

  /** All pages the walk over a folder lists. */
  ghost function FullTrace(r: Remote, root: string): seq<Listing>
    requires IsFiniteTree(r)
  {
    TraceFrom(r, Start(root))
  }

  lemma {:induction false} FilesGrow(r: Remote, trace: seq<Listing>, n: nat, m: nat)
    requires n <= m <= |trace|
    ensures FilesUpTo(r, trace, n) <= FilesUpTo(r, trace, m)
  {
    if n < m {
      FilesGrow(r, trace, n, m - 1);
    }
  }

  /** The dry run returns the first `limit` files of the enumeration. */
  method Preview(r: Remote, folder: string, limit: int) returns (artifacts: seq<Artifact>)
    requires IsFiniteTree(r)
    ensures var all := FilesUpTo(r, FullTrace(r, folder), |FullTrace(r, folder)|);
            artifacts == if limit <= 0 then [] else if limit < |all| then all[..limit] else all
  {
    var results, queue, token := [], [folder], None;
    ghost var trace, n: nat := FullTrace(r, folder), 0;
    while queue != [] && |results| < limit
      invariant IsPosition(r, queue, PageNumber(token))
      invariant n <= |trace| && results == FilesUpTo(r, trace, n)
      invariant trace[n..] == Trace(r, queue, PageNumber(token))
      invariant limit <= 0 ==> results == []
      decreases |trace| - n
    {
      ghost var next := NextPosition(r, queue, PageNumber(token));
      StepsToNext(r, queue, PageNumber(token), trace, n);
      var (children, nextToken) := ListChildren(r, queue[0], token);
      assert children == ChildrenAt(r, trace[n]);
      var found, subfolders := PartitionChildren(children);
      queue := queue + subfolders;
      results := results + found;
      n := n + 1;
      if nextToken.Some? {
        token := nextToken;
      } else {
        queue := queue[1..];
        token := None;
      }
      assert (queue, PageNumber(token)) == next;
    }
    artifacts := if limit <= 0 then [] else if limit < |results| then results[..limit] else results;
    assert n == |trace| || limit <= |results| by {
      if queue == [] {
        EmptyQueueEnds(r, PageNumber(token), trace, n);
      }
    }
    FirstFiles(r, trace, n, limit);
  }

  lemma {:induction false} EmptyQueueEnds(r: Remote, i: nat, trace: seq<Listing>, n: nat)
    requires IsFiniteTree(r) && n <= |trace| && trace[n..] == Trace(r, [], i)
    ensures n == |trace|
  {
  }

  /** `limit` files of the pages listed so far are the first ones of all pages. */
  lemma {:induction false} FirstFiles(r: Remote, trace: seq<Listing>, n: nat, limit: int)
    requires n <= |trace| && (n == |trace| || limit <= |FilesUpTo(r, trace, n)|)
    ensures var all, some := FilesUpTo(r, trace, |trace|), FilesUpTo(r, trace, n);
            0 < limit ==> (if limit < |some| then some[..limit] else some) == if limit < |all| then all[..limit] else all
  {
    FilesGrow(r, trace, n, |trace|);
  }

  lemma {:induction false} StepsToNext(r: Remote, queue: seq<string>, i: nat, trace: seq<Listing>, n: nat)
    requires IsFiniteTree(r) && IsPosition(r, queue, i) && queue != [] && n <= |trace| && trace[n..] == Trace(r, queue, i)
    ensures n < |trace| && trace[n] == Listing(queue[0], i)
    ensures IsPosition(r, NextPosition(r, queue, i).0, NextPosition(r, queue, i).1)
    ensures trace[n + 1..] == Trace(r, NextPosition(r, queue, i).0, NextPosition(r, queue, i).1)
  {
    OnePageLess(r, queue, i, None);
    assert trace[n..][0] == Listing(queue[0], i);
    assert trace[n + 1..] == trace[n..][1..];
  }

  // ----- every reachable page exactly once ---------------------------------

  predicate IsSubfolder(r: Remote, f: string, g: string) {
    exists i :: 0 <= i < |PagesOf(r, f)| && g in SubsAt(r, f, i)
  }

  /** Told from the raw children: some page of `f` has a child of the folder type with that id. */
  lemma {:induction false} SubfolderExactlyWhen(r: Remote, f: string, g: string)
    ensures IsSubfolder(r, f, g)
            <==> exists i, c :: 0 <= i < |PagesOf(r, f)| && c in PagesOf(r, f)[i]
                                && c.mimeType == "application/vnd.google-apps.folder" && c.id == g
  {
    forall i | 0 <= i < |PagesOf(r, f)|
      ensures g in SubsAt(r, f, i)
              <==> exists c :: c in PagesOf(r, f)[i] && c.mimeType == "application/vnd.google-apps.folder" && c.id == g
    {
      QueuedExactlyWhen(PagesOf(r, f)[i], g);
    }
  }

  /** A chain of folders, each a subfolder of the one before it. */
  datatype Path = Here(folder: string) | Below(parent: Path, folder: string)

  predicate IsPath(r: Remote, root: string, path: Path) {
    match path
    case Here(f) => f == root
    case Below(parent, f) => IsPath(r, root, parent) && IsSubfolder(r, parent.folder, f)
  }

  ghost predicate Reachable(r: Remote, root: string, f: string) {
    exists path :: IsPath(r, root, path) && path.folder == f
  }

  /** What is listed below a folder is reachable from it. */
  lemma {:induction false} ListedIsReachable(r: Remote, root: string, above: Path, i: nat, l: Listing) returns (path: Path)
    requires IsFiniteTree(r) && IsPath(r, root, above) && PagesFrom(r, above.folder, i, Some(l)) > 0
    ensures IsPath(r, root, path) && path.folder == l.folder
    ensures l.page < |PagesOf(r, l.folder)|
    ensures l.folder == above.folder || Height(r, l.folder) < Height(r, above.folder)
    decreases Height(r, above.folder), 1, |PagesOf(r, above.folder)| - i
  {
    var f := above.folder;
    if l == Listing(f, i) {
      path := above;
    } else if PagesFrom(r, f, i + 1, Some(l)) > 0 {
      path := ListedIsReachable(r, root, above, i + 1, l);
    } else {
      path := ListedInFolders(r, root, above, i, 0, l);
    }
  }

  lemma {:induction false} ListedInFolders(r: Remote, root: string, above: Path, i: nat, k: nat, l: Listing) returns (path: Path)
    requires IsFiniteTree(r) && IsPath(r, root, above) && i < |PagesOf(r, above.folder)|
    requires FoldersFrom(r, SubsAt(r, above.folder, i), k, Height(r, above.folder), Some(l)) > 0
    ensures IsPath(r, root, path) && path.folder == l.folder
    ensures l.page < |PagesOf(r, l.folder)| && Height(r, l.folder) < Height(r, above.folder)
    decreases Height(r, above.folder), 0, |SubsAt(r, above.folder, i)| - k
  {
    var subs := SubsAt(r, above.folder, i);
    if PagesFrom(r, subs[k], 0, Some(l)) > 0 {
      assert subs[k] in subs;
      path := ListedIsReachable(r, root, Below(above, subs[k]), 0, l);
    } else {
      path := ListedInFolders(r, root, above, i, k + 1, l);
    }
  }

  /** A folder's own page `j`, and everything below a folder found there, is among its pages. */
  lemma {:induction false} OwnPagesListed(r: Remote, f: string, i: nat, j: nat, wanted: Option<Listing>)
    requires i <= j < |PagesOf(r, f)|
    ensures PagesFrom(r, f, i, wanted)
            >= Tally(Listing(f, j), wanted) + FoldersFrom(r, SubsAt(r, f, j), 0, Height(r, f), wanted)
    decreases j - i
  {
    if i < j {
      OwnPagesListed(r, f, i + 1, j, wanted);
    }
  }

  lemma {:induction false} FolderListed(r: Remote, fs: seq<string>, k: nat, h: nat, at: nat, wanted: Option<Listing>)
    requires k <= at < |fs| && Height(r, fs[at]) < h
    ensures PagesFrom(r, fs[at], 0, wanted) <= FoldersFrom(r, fs, k, h, wanted)
    decreases at - k
  {
    if k < at {
      FolderListed(r, fs, k + 1, h, at, wanted);
    }
  }

  /** Everything below a reachable folder is listed from the root. */
  lemma {:induction false} ReachableIsListed(r: Remote, root: string, path: Path, wanted: Option<Listing>)
    requires IsFiniteTree(r) && IsPath(r, root, path)
    ensures PagesFrom(r, path.folder, 0, wanted) <= PagesFrom(r, root, 0, wanted)
  {
    if path.Below? {
      var f := path.parent.folder;
      var i :| 0 <= i < |PagesOf(r, f)| && path.folder in SubsAt(r, f, i);
      var at :| 0 <= at < |SubsAt(r, f, i)| && SubsAt(r, f, i)[at] == path.folder;
      FolderListed(r, SubsAt(r, f, i), 0, Height(r, f), at, wanted);
      OwnPagesListed(r, f, 0, i, wanted);
      ReachableIsListed(r, root, path.parent, wanted);
    }
  }

  /** A page is counted from the root exactly when its folder is reachable. */
  lemma {:induction false} ListsExactlyReachable(r: Remote, root: string, l: Listing)
    requires IsFiniteTree(r)
    ensures PagesFrom(r, root, 0, Some(l)) > 0 <==> Reachable(r, root, l.folder) && l.page < |PagesOf(r, l.folder)|
  {
    if PagesFrom(r, root, 0, Some(l)) > 0 {
      var path := ListedIsReachable(r, root, Here(root), 0, l);
    } else if Reachable(r, root, l.folder) && l.page < |PagesOf(r, l.folder)| {
      var path :| IsPath(r, root, path) && path.folder == l.folder;
      OwnPagesListed(r, l.folder, 0, l.page, Some(l));
      ReachableIsListed(r, root, path, Some(l));
    }
  }

  /** The subfolders found on page `i` and later ones. */
  function SubsFrom(r: Remote, f: string, i: nat): seq<string>
    decreases |PagesOf(r, f)| - i
  {
    if i >= |PagesOf(r, f)| then [] else SubsAt(r, f, i) + SubsFrom(r, f, i + 1)
  }

  predicate Distinct(xs: seq<string>) {
    forall i, j :: 0 <= i < j < |xs| ==> xs[i] != xs[j]
  }

  predicate AllChildrenOf(r: Remote, xs: seq<string>, f: string) {
    forall k :: 0 <= k < |xs| ==> IsChildOf(r, xs[k], f)
  }

  predicate IsChildOf(r: Remote, g: string, f: string) {
    g in r.parent && r.parent[g] == f
  }

  /** Every subfolder has one parent, and is listed there once. */
  ghost predicate HasSingleParents(r: Remote) {
    forall f :: Distinct(SubsFrom(r, f, 0)) && AllChildrenOf(r, SubsFrom(r, f, 0), f)
  }

  ghost function OwnPages(r: Remote, f: string, i: nat, wanted: Option<Listing>): nat
    decreases |PagesOf(r, f)| - i
  {
    if i >= |PagesOf(r, f)| then 0 else Tally(Listing(f, i), wanted) + OwnPages(r, f, i + 1, wanted)
  }

  /** What a folder lists is its own pages and everything below its subfolders. */
  lemma {:induction false} PagesFromParts(r: Remote, f: string, i: nat, wanted: Option<Listing>)
    ensures PagesFrom(r, f, i, wanted)
            == OwnPages(r, f, i, wanted) + FoldersFrom(r, SubsFrom(r, f, i), 0, Height(r, f), wanted)
    decreases |PagesOf(r, f)| - i
  {
    if i < |PagesOf(r, f)| {
      PagesFromParts(r, f, i + 1, wanted);
      FoldersAppend(r, SubsAt(r, f, i), SubsFrom(r, f, i + 1), 0, Height(r, f), wanted);
    }
  }

  lemma {:induction false} OwnPagesOnce(r: Remote, f: string, i: nat, l: Listing)
    ensures OwnPages(r, f, i, Some(l)) <= if l.folder == f && l.page >= i then 1 else 0
    decreases |PagesOf(r, f)| - i
  {
    if i < |PagesOf(r, f)| {
      OwnPagesOnce(r, f, i + 1, l);
    }
  }

  /** Something listed in a list of folders is listed by one of them. */
  lemma {:induction false} ListedBySome(r: Remote, fs: seq<string>, k: nat, h: nat, l: Listing) returns (at: nat)
    requires IsFiniteTree(r) && FoldersFrom(r, fs, k, h, Some(l)) > 0
    ensures k <= at < |fs| && Height(r, fs[at]) < h && PagesFrom(r, fs[at], 0, Some(l)) > 0 && Height(r, l.folder) < h
    decreases |fs| - k
  {
    if Height(r, fs[k]) < h && PagesFrom(r, fs[k], 0, Some(l)) > 0 {
      at := k;
      var _ := ListedIsReachable(r, fs[k], Here(fs[k]), 0, l);
    } else {
      at := ListedBySome(r, fs, k + 1, h, l);
    }
  }

  /** A folder listed below another one has its parent listed there too. */
  lemma {:induction false} ParentIsListed(r: Remote, f: string, l: Listing)
    requires IsFiniteTree(r) && HasSingleParents(r) && PagesFrom(r, f, 0, Some(l)) > 0 && l.folder != f
    ensures l.folder in r.parent && Height(r, l.folder) < Height(r, r.parent[l.folder])
    ensures PagesFrom(r, f, 0, Some(Listing(r.parent[l.folder], 0))) > 0
    decreases Height(r, f)
  {
    var subs := SubsFrom(r, f, 0);
    PagesFromParts(r, f, 0, Some(l));
    OwnPagesOnce(r, f, 0, l);
    var at := ListedBySome(r, subs, 0, Height(r, f), l);
    assert IsChildOf(r, subs[at], f);
    if l.folder == subs[at] {
      OwnPagesListed(r, f, 0, 0, Some(Listing(f, 0)));
    } else {
      ParentIsListed(r, subs[at], l);
      var up := Some(Listing(r.parent[l.folder], 0));
      PagesFromParts(r, f, 0, up);
      FolderListed(r, subs, 0, Height(r, f), at, up);
    }
  }

  /** The parent of a folder listed below `b` lies at or below `b`. */
  lemma {:induction false} ParentNotBelow(r: Remote, f: string, b: string, l: Listing)
    requires IsFiniteTree(r) && HasSingleParents(r) && Height(r, b) < Height(r, f)
    requires l.folder != b && IsChildOf(r, l.folder, f)
    ensures PagesFrom(r, b, 0, Some(l)) == 0
  {
    if PagesFrom(r, b, 0, Some(l)) > 0 {
      ParentIsListed(r, b, l);
      var _ := ListedIsReachable(r, b, Here(b), 0, Listing(f, 0));
    }
  }

  /** Below two different subfolders of one folder nothing is shared. */
  lemma {:induction false} SiblingsDisjoint(r: Remote, f: string, a: string, b: string, l: Listing)
    requires IsFiniteTree(r) && HasSingleParents(r) && a != b && IsChildOf(r, a, f) && IsChildOf(r, b, f)
    requires Height(r, a) < Height(r, f) && Height(r, b) < Height(r, f)
    ensures PagesFrom(r, a, 0, Some(l)) == 0 || PagesFrom(r, b, 0, Some(l)) == 0
    decreases r.depth - Height(r, l.folder)
  {
    if l.folder == a {
      ParentNotBelow(r, f, b, l);
    } else if l.folder == b {
      ParentNotBelow(r, f, a, l);
    } else if PagesFrom(r, a, 0, Some(l)) > 0 && PagesFrom(r, b, 0, Some(l)) > 0 {
      ParentIsListed(r, a, l);
      ParentIsListed(r, b, l);
      SiblingsDisjoint(r, f, a, b, Listing(r.parent[l.folder], 0));
    }
  }

  /** Nothing is listed twice below a folder. */
  lemma {:induction false} ListedOnce(r: Remote, f: string, l: Listing)
    requires IsFiniteTree(r) && HasSingleParents(r)
    ensures PagesFrom(r, f, 0, Some(l)) <= 1
    decreases Height(r, f), 1, 0
  {
    var subs := SubsFrom(r, f, 0);
    PagesFromParts(r, f, 0, Some(l));
    OwnPagesOnce(r, f, 0, l);
    SiblingsListedOnce(r, f, subs, 0, l);
    if FoldersFrom(r, subs, 0, Height(r, f), Some(l)) > 0 {
      var _ := ListedBySome(r, subs, 0, Height(r, f), l);
    }
  }

  lemma {:induction false} SiblingsListedOnce(r: Remote, f: string, fs: seq<string>, k: nat, l: Listing)
    requires IsFiniteTree(r) && HasSingleParents(r)
    requires Distinct(fs) && AllChildrenOf(r, fs, f)
    ensures FoldersFrom(r, fs, k, Height(r, f), Some(l)) <= 1
    decreases Height(r, f), 0, |fs| - k
  {
    if k < |fs| {
      SiblingsListedOnce(r, f, fs, k + 1, l);
      if Height(r, fs[k]) < Height(r, f) {
        ListedOnce(r, fs[k], l);
        if FoldersFrom(r, fs, k + 1, Height(r, f), Some(l)) > 0 {
          var at := ListedBySome(r, fs, k + 1, Height(r, f), l);
          SiblingsDisjoint(r, f, fs[k], fs[at], l);
        }
      }
    }
  }

  /** A walk lists every page of every reachable folder exactly once, and no other page. */
  lemma {:induction false} WalkListsOnce(r: Remote, root: string, l: Listing)
    requires IsFiniteTree(r) && HasSingleParents(r)
    ensures multiset(FullTrace(r, root))[l]
            == if Reachable(r, root, l.folder) && l.page < |PagesOf(r, l.folder)| then 1 else 0
  {
    TraceCounts(r, [root], 0, l);
    ListsExactlyReachable(r, root, l);
    ListedOnce(r, root, l);
  }

  /** The first call has no checkpoint; every later one gets what the call before it returned. */
  function WalkTimes(r: Remote, root: string, n: nat): (seq<Artifact>, Option<Checkpoint>)
    requires n > 0
  {
    var first := Discover(r, root, None);
    var (files, at) := DiscoverTimes(r, root, first.next, n - 1);
    (first.artifacts + files, at)
  }

  lemma {:induction false} WalkIsFromStart(r: Remote, root: string, n: nat)
    requires n > 0
    ensures WalkTimes(r, root, n) == DiscoverTimes(r, root, Start(root), n)
    decreases n
  {
    WalkStartsAtRoot(r, root);
    var first := Discover(r, root, None);
    if n == 1 {
      assert DiscoverTimes(r, root, Start(root), 0) == ([], Start(root));
      assert [] + first.artifacts == first.artifacts + [];
    } else {
      WalkIsFromStart(r, root, n - 1);
      var (files, at) := DiscoverTimes(r, root, first.next, n - 2);
      if at.Some? {
        var page := Discover(r, root, at);
        Regroup(first.artifacts, files, page.artifacts);
      }
    }
  }

  /** Iterating from no checkpoint is over after exactly as many calls as pages are listed, with all their files. */
  lemma {:induction false} WalkEnds(r: Remote, root: string, n: nat)
    requires IsFiniteTree(r) && n > 0
    ensures var trace := FullTrace(r, root);
            && trace != []
            && WalkTimes(r, root, |trace|) == (FilesUpTo(r, trace, |trace|), None)
            && (n < |trace| ==> WalkTimes(r, root, n).1.Some?)
  {
    EndsWithNothingLeft(r, root, Start(root));
    WalkResumes(r, root, Start(root), |FullTrace(r, root)|);
    WalkIsFromStart(r, root, |FullTrace(r, root)|);
    if n < |FullTrace(r, root)| {
      WalkResumes(r, root, Start(root), n);
      WalkIsFromStart(r, root, n);
    }
  }

  /** How often `x` is among the first `n` elements. */
  function Occurrences<T(==)>(xs: seq<T>, n: nat, x: T): nat
    requires n <= |xs|
  {
    if n == 0 then 0 else Occurrences(xs, n - 1, x) + if xs[n - 1] == x then 1 else 0
  }

  lemma {:induction false} OccurrencesConcat<T>(xs: seq<T>, ys: seq<T>, n: nat, x: T)
    requires n <= |ys|
    ensures Occurrences(xs + ys, |xs| + n, x) == Occurrences(xs, |xs|, x) + Occurrences(ys, n, x)
  {
    if n > 0 {
      OccurrencesConcat(xs, ys, n - 1, x);
    } else {
      OccurrencesPrefix(xs, ys, |xs|, x);
    }
  }

  lemma {:induction false} OccurrencesPrefix<T>(xs: seq<T>, ys: seq<T>, n: nat, x: T)
    requires n <= |xs|
    ensures Occurrences(xs + ys, n, x) == Occurrences(xs, n, x)
  {
    if n > 0 {
      OccurrencesPrefix(xs, ys, n - 1, x);
    }
  }

  lemma {:induction false} OccurrencesCounted<T>(xs: seq<T>, n: nat, x: T)
    requires n <= |xs|
    ensures multiset(xs[..n])[x] == Occurrences(xs, n, x)
  {
    if n > 0 {
      OccurrencesCounted(xs, n - 1, x);
      assert xs[..n] == xs[..n - 1] + [xs[n - 1]];
    }
  }

  /** The files each page lists. */
  function PageFiles(r: Remote): Listing -> seq<Artifact> {
    l => Artifacts(ChildrenAt(r, l))
  }

  /** The files of the first `n` pages of a trace, when `f` tells the files of a page. */
  function Gathered(f: Listing -> seq<Artifact>, trace: seq<Listing>, n: nat): seq<Artifact>
    requires n <= |trace|
  {
    if n == 0 then [] else Gathered(f, trace, n - 1) + f(trace[n - 1])
  }

  lemma {:induction false} FilesAreGathered(r: Remote, trace: seq<Listing>, n: nat)
    requires n <= |trace|
    ensures FilesUpTo(r, trace, n) == Gathered(PageFiles(r), trace, n)
  {
    if n > 0 {
      FilesAreGathered(r, trace, n - 1);
    }
  }

  /** The listing has the file once, and no other listing has it. */
  ghost predicate IsListedOnlyAt(f: Listing -> seq<Artifact>, a: Artifact, l: Listing) {
    forall m: Listing :: Occurrences(f(m), |f(m)|, a) == if m == l then 1 else 0
  }

  /** Each visit of its page lists the file once more. */
  lemma {:induction false} FilesCounted(f: Listing -> seq<Artifact>, trace: seq<Listing>, n: nat, a: Artifact, l: Listing)
    requires n <= |trace| && IsListedOnlyAt(f, a, l)
    ensures Occurrences(Gathered(f, trace, n), |Gathered(f, trace, n)|, a) == Occurrences(trace, n, l)
  {
    if n > 0 {
      FilesCounted(f, trace, n - 1, a, l);
      OccurrencesConcat(Gathered(f, trace, n - 1), f(trace[n - 1]), |f(trace[n - 1])|, a);
    }
  }

  /** The child in place `k` of a listing is the only one with its id. */
  ghost predicate SitsOnlyAt(r: Remote, l: Listing, k: nat) {
    && k < |ChildrenAt(r, l)|
    && forall m: Listing, j: nat :: j < |ChildrenAt(r, m)| && ChildrenAt(r, m)[j].id == ChildrenAt(r, l)[k].id ==> m == l && j == k
  }

  lemma {:induction false} OtherChildren(children: seq<Child>, n: nat, a: Artifact)
    requires n <= |children| && forall j :: 0 <= j < n ==> children[j].id != a.externalId
    ensures Occurrences(ArtifactsUpTo(children, n), |ArtifactsUpTo(children, n)|, a) == 0
  {
    if n > 0 {
      OtherChildren(children, n - 1, a);
      OccurrencesSnoc(ArtifactsUpTo(children, n - 1), ToArtifact(children[n - 1]), a);
    }
  }

  lemma {:induction false} OccurrencesSnoc<T>(xs: seq<T>, y: T, x: T)
    ensures Occurrences(xs + [y], |xs| + 1, x) == Occurrences(xs, |xs|, x) + if y == x then 1 else 0
  {
    OccurrencesPrefix(xs, [y], |xs|, x);
  }

  lemma {:induction false} OneChild(children: seq<Child>, n: nat, k: nat, a: Artifact)
    requires k < n <= |children| && IsFile(children[k].mimeType) && Carries(a, children[k])
    requires forall j :: 0 <= j < n && j != k ==> children[j].id != a.externalId
    ensures Occurrences(ArtifactsUpTo(children, n), |ArtifactsUpTo(children, n)|, a) == 1
  {
    FileExactlyWhen(children[n - 1].mimeType);
    OccurrencesSnoc(ArtifactsUpTo(children, n - 1), ToArtifact(children[n - 1]), a);
    if n - 1 == k {
      OtherChildren(children, n - 1, a);
    } else {
      OneChild(children, n - 1, k, a);
    }
  }

  lemma {:induction false} FileIsListedOnlyAt(r: Remote, l: Listing, k: nat, a: Artifact)
    requires SitsOnlyAt(r, l, k) && IsFile(ChildrenAt(r, l)[k].mimeType) && Carries(a, ChildrenAt(r, l)[k])
    ensures IsListedOnlyAt(PageFiles(r), a, l)
  {
    forall m: Listing ensures Occurrences(PageFiles(r)(m), |PageFiles(r)(m)|, a) == if m == l then 1 else 0 {
      var children := ChildrenAt(r, m);
      if m == l {
        OneChild(children, |children|, k, a);
      } else {
        OtherChildren(children, |children|, a);
      }
    }
  }

  /**
   * A whole walk yields every file of every reachable folder exactly once, as the artifact that carries it: a child
   * that is a Google Doc or not of one of Google's own types, on a page of a folder that the folder children reach.
   */
  lemma {:induction false} WalkYieldsEachFileOnce(r: Remote, root: string, l: Listing, k: nat, a: Artifact)
    requires IsFiniteTree(r) && HasSingleParents(r)
    requires SitsOnlyAt(r, l, k) && IsFile(ChildrenAt(r, l)[k].mimeType) && Carries(a, ChildrenAt(r, l)[k])
    ensures FullTrace(r, root) != []
    ensures multiset(WalkTimes(r, root, |FullTrace(r, root)|).0)[a] == if Reachable(r, root, l.folder) then 1 else 0
  {
    FileIsListedOnlyAt(r, l, k, a);
    WalkCountsListing(r, root, a, l);
  }

  lemma {:induction false} WalkCountsListing(r: Remote, root: string, a: Artifact, l: Listing)
    requires IsFiniteTree(r) && HasSingleParents(r) && IsListedOnlyAt(PageFiles(r), a, l) && l.page < |PagesOf(r, l.folder)|
    ensures FullTrace(r, root) != []
    ensures multiset(WalkTimes(r, root, |FullTrace(r, root)|).0)[a] == if Reachable(r, root, l.folder) then 1 else 0
  {
    var trace := FullTrace(r, root);
    WalkEnds(r, root, 1);
    var files := FilesUpTo(r, trace, |trace|);
    FilesAreGathered(r, trace, |trace|);
    FilesCounted(PageFiles(r), trace, |trace|, a, l);
    OccurrencesCounted(files, |files|, a);
    OccurrencesCounted(trace, |trace|, l);
    assert files[..|files|] == files && trace[..|trace|] == trace;
    WalkListsOnce(r, root, l);
  }

  /** And it yields nothing else: every artifact carries a file on a page of a reachable folder. */
  lemma {:induction false} WalkYieldsOnlyFiles(r: Remote, root: string, a: Artifact) returns (l: Listing, c: Child)
    requires IsFiniteTree(r) && FullTrace(r, root) != [] && a in WalkTimes(r, root, |FullTrace(r, root)|).0
    ensures Reachable(r, root, l.folder) && c in ChildrenAt(r, l) && IsFile(c.mimeType) && Carries(a, c)
  {
    var trace := FullTrace(r, root);
    WalkEnds(r, root, 1);
    var i := FileFrom(r, trace, |trace|, a);
    l := trace[i];
    FoundExactlyWhen(ChildrenAt(r, l), a);
    c :| c in ChildrenAt(r, l) && IsFile(c.mimeType) && Carries(a, c);
    assert l in multiset(trace);
    TraceCounts(r, [root], 0, l);
    ListsExactlyReachable(r, root, l);
  }

  lemma {:induction false} FileFrom(r: Remote, trace: seq<Listing>, n: nat, a: Artifact) returns (i: nat)
    requires n <= |trace| && a in FilesUpTo(r, trace, n)
    ensures i < n && a in Artifacts(ChildrenAt(r, trace[i]))
  {
    if a in FilesUpTo(r, trace, n - 1) {
      i := FileFrom(r, trace, n - 1, a);
    } else {
      i := n - 1;
    }
  }
}
