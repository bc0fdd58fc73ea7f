/** Deleting one project: its rows in every table, and the objects only it references. */
module ProjectPurge {
  import opened Text
  import opened ContentStore

  /** The tables with a project column. */
  datatype Table =
    | BriefClaims | GeneratedBriefs | Corrections | Reviews | ProposedMutations | EvidenceLinks | LedgerVersions | LedgerItems
    | Observations | ProjectPeople | SourceChunks | SourceContents | SourceArtifacts | Sources | AuditEntries | SyncRuns

  /** Contents and artifacts are kept as such; of the other rows only the owner matters here. */
  datatype OwnedRow = OwnedRow(project: string, payload: string)

  datatype SyncItem = SyncItem(run: string, payload: string)

  type Rows = map<string, OwnedRow>

  datatype Database = Database(store: Store, tables: map<Table, Rows>, syncItems: map<string, SyncItem>, projects: map<string, string>)

  const DELETE_ORDER: seq<Table> := [
    BriefClaims, GeneratedBriefs, Corrections, Reviews, ProposedMutations, EvidenceLinks, LedgerVersions, LedgerItems,
    Observations, ProjectPeople, SourceChunks, SourceContents, SourceArtifacts, Sources, AuditEntries
  ]

  function RowsOf(db: Database, t: Table): Rows {
    if t in db.tables then db.tables[t] else map[]
  }

  // ----- one table ---------------------------------------------------------

  function OtherRows(rows: Rows, project: string): Rows {
    map id | id in rows && rows[id].project != project :: rows[id]
  }

  function OtherContents(contents: map<nat, Content>, project: string): map<nat, Content> {
    map id | id in contents && contents[id].project != project :: contents[id]
  }

  function OtherArtifacts(artifacts: map<string, Artifact>, project: string): map<string, Artifact> {
    map id | id in artifacts && artifacts[id].project != project :: artifacts[id]
  }

  /** Sync items have no project of their own: they go with their run. */
  predicate OfProject(runs: Rows, item: SyncItem, project: string) {
    item.run in runs && runs[item.run].project == project
  }

  function OtherItems(items: map<string, SyncItem>, runs: Rows, project: string): map<string, SyncItem> {
    map id | id in items && !OfProject(runs, items[id], project) :: items[id]
  }

  function OwnRows(rows: Rows, project: string): set<string> {
    set id | id in rows && rows[id].project == project
  }

  function OwnContents(contents: map<nat, Content>, project: string): set<nat> {
    set id | id in contents && contents[id].project == project
  }

  function OwnArtifacts(artifacts: map<string, Artifact>, project: string): set<string> {
    set id | id in artifacts && artifacts[id].project == project
  }

  function OwnItems(items: map<string, SyncItem>, runs: Rows, project: string): set<string> {
    set id | id in items && OfProject(runs, items[id], project)
  }

  function DeletedFrom(db: Database, t: Table, project: string): Database {
    if t.SourceContents? then db.(store := db.store.(contents := OtherContents(db.store.contents, project)))
    else if t.SourceArtifacts? then db.(store := db.store.(artifacts := OtherArtifacts(db.store.artifacts, project)))
    else db.(tables := db.tables[t := OtherRows(RowsOf(db, t), project)])
  }

  /** How many rows a table has. */
  function Size(db: Database, t: Table): nat {
    if t.SourceContents? then |db.store.contents.Keys|
    else if t.SourceArtifacts? then |db.store.artifacts.Keys|
    else |RowsOf(db, t).Keys|
  }

  /** How many of them belong to a project. */
  function Count(db: Database, t: Table, project: string): nat {
    if t.SourceContents? then |OwnContents(db.store.contents, project)|
    else if t.SourceArtifacts? then |OwnArtifacts(db.store.artifacts, project)|
    else |OwnRows(RowsOf(db, t), project)|
  }

  /** A table without a project's rows, and with every other row as it was. */
  ghost predicate LacksOnly(after: Database, before: Database, t: Table, project: string) {
    if t.SourceContents? then after.store.contents == OtherContents(before.store.contents, project)
    else if t.SourceArtifacts? then after.store.artifacts == OtherArtifacts(before.store.artifacts, project)
    else RowsOf(after, t) == OtherRows(RowsOf(before, t), project)
  }

  predicate SameRows(after: Database, before: Database, t: Table) {
    if t.SourceContents? then after.store.contents == before.store.contents
    else if t.SourceArtifacts? then after.store.artifacts == before.store.artifacts
    else RowsOf(after, t) == RowsOf(before, t)
  }

  // ----- all tables --------------------------------------------------------

  function ItemsAndRunsDeleted(db: Database, project: string): Database {
    var items := db.(syncItems := OtherItems(db.syncItems, RowsOf(db, SyncRuns), project));
    DeletedFrom(items, SyncRuns, project)
  }

  /** The database after deleting from the first `n` tables of an order. */
  function DeletedUpTo(db: Database, order: seq<Table>, n: nat, project: string): Database
    requires n <= |order|
  {
    if n == 0 then db else DeletedFrom(DeletedUpTo(db, order, n - 1, project), order[n - 1], project)
  }

  /** The database after one purge, before its objects are deleted. */
  function RowsPurged(db: Database, project: string): Database {
    var rows := DeletedUpTo(ItemsAndRunsDeleted(db, project), DELETE_ORDER, |DELETE_ORDER|, project);
    rows.(projects := rows.projects - {project})
  }

  function ItemsOf(db: Database, project: string): nat {
    |OwnItems(db.syncItems, RowsOf(db, SyncRuns), project)|
  }

  /** The number the preview shows. */
  function TotalRows(db: Database, project: string): nat {
    Count(db, Sources, project) + Count(db, SourceArtifacts, project) + Count(db, SourceContents, project)
    + Count(db, SourceChunks, project) + Count(db, SyncRuns, project) + ItemsOf(db, project)
    + Count(db, Observations, project) + Count(db, LedgerItems, project) + Count(db, LedgerVersions, project)
    + Count(db, EvidenceLinks, project) + Count(db, ProposedMutations, project) + Count(db, Reviews, project)
    + Count(db, Corrections, project) + Count(db, ProjectPeople, project) + Count(db, GeneratedBriefs, project)
    + Count(db, BriefClaims, project) + Count(db, AuditEntries, project)
  }

  /** Every row of the database that belongs to some project, and the project rows. */
  function AllRows(db: Database): nat {
    Size(db, BriefClaims) + Size(db, GeneratedBriefs) + Size(db, Corrections) + Size(db, Reviews)
    + Size(db, ProposedMutations) + Size(db, EvidenceLinks) + Size(db, LedgerVersions) + Size(db, LedgerItems)
    + Size(db, Observations) + Size(db, ProjectPeople) + Size(db, SourceChunks) + Size(db, SourceContents)
    + Size(db, SourceArtifacts) + Size(db, Sources) + Size(db, AuditEntries) + Size(db, SyncRuns)
    + |db.syncItems.Keys| + |db.projects.Keys|
  }

  /** The digests of a project's contents that no other project's contents have. */
  function OnlyReferencedBy(contents: map<nat, Content>, project: string): set<Digest> {
    (set id | id in contents && contents[id].project == project :: contents[id].digest)
    - (set id | id in contents && contents[id].project != project :: contents[id].digest)
  }

  datatype PurgeResult = Purged(rows: nat, objects: nat) | NotFound | WrongConfirmation

  class ProjectDb {
    const evidence: EvidenceDb
    var tables: map<Table, Rows>
    var syncItems: map<string, SyncItem>
    var projects: map<string, string>

    constructor (evidence: EvidenceDb)
      ensures this.evidence == evidence && View() == Database(evidence.View(), map[], map[], map[])
    {
      this.evidence := evidence;
      tables, syncItems, projects := map[], map[], map[];
    }

    ghost function View(): Database
      reads this, evidence
    {
      Database(evidence.View(), tables, syncItems, projects)
    }

    method DeleteFrom(t: Table, project: string)
      modifies this`tables, evidence
      ensures View() == DeletedFrom(old(View()), t, project)
    {
      if t.SourceContents? {
        evidence.contents := OtherContents(evidence.contents, project);
      } else if t.SourceArtifacts? {
        evidence.artifacts := OtherArtifacts(evidence.artifacts, project);
      } else {
        tables := tables[t := OtherRows(if t in tables then tables[t] else map[], project)];
      }
    }

    method DeleteProjectRows(project: string)
      modifies this, evidence
      ensures View() == RowsPurged(old(View()), project)
    {
      syncItems := OtherItems(syncItems, if SyncRuns in tables then tables[SyncRuns] else map[], project);
      DeleteFrom(SyncRuns, project);
      DeleteInOrder(DELETE_ORDER, project);
      projects := projects - {project};
    }

    method DeleteInOrder(order: seq<Table>, project: string)
      modifies this`tables, evidence
      ensures View() == DeletedUpTo(old(View()), order, |order|, project)
    {
      for i := 0 to |order|
        invariant View() == DeletedUpTo(old(View()), order, i, project)
      {
        DeleteFrom(order[i], project);
      }
    }

    method DeleteObjects(digests: set<Digest>)
      modifies evidence`objects
      ensures View() == ObjectsDeleted(old(View()), digests)
    {
      var rest := digests;
      while rest != {}
        invariant rest <= digests && evidence.objects == old(evidence.objects) - (digests - rest)
      {
        var digest :| digest in rest;
        evidence.objects := evidence.objects - {digest};
        rest := rest - {digest};
      }
    }

    method CountProjectRows(project: string) returns (total: nat, orphaned: set<Digest>)
      ensures total == TotalRows(View(), project) && orphaned == OnlyReferencedBy(evidence.contents, project)
    {
      var store := Store(evidence.contents, evidence.artifacts, evidence.objects, evidence.next);
      total := TotalRows(Database(store, tables, syncItems, projects), project);
      orphaned := OnlyReferencedBy(evidence.contents, project);
    }

    /** The rows go in one transaction; the objects only that project referenced go after it. */
    method PurgeProject(project: string) returns (total: nat, deleted: nat)
      modifies this, evidence
      ensures View() == AfterPurge(old(View()), project)
      ensures total == TotalRows(old(View()), project)
      ensures deleted == |OnlyReferencedBy(old(View()).store.contents, project)|
    {
      var orphaned;
      total, orphaned := CountProjectRows(project);
      deleted := |orphaned|;
      DeleteProjectRows(project);
      DeleteObjects(orphaned);
    }

    method DeleteProject(project: string, confirmation: string) returns (r: PurgeResult)
      modifies this, evidence
      ensures project !in old(projects) ==> r == NotFound && View() == old(View())
      ensures project in old(projects) && old(projects)[project] != confirmation ==>
        r == WrongConfirmation && View() == old(View())
      ensures project in old(projects) && old(projects)[project] == confirmation ==>
        View() == AfterPurge(old(View()), project)
        && r == Purged(TotalRows(old(View()), project), |OnlyReferencedBy(old(View()).store.contents, project)|)
    {
      if project !in projects {
        return NotFound;
      }
      if projects[project] != confirmation {
        return WrongConfirmation;
      }
      var total, deleted := PurgeProject(project);
      r := Purged(total, deleted);
    }
  }

  function AfterPurge(db: Database, project: string): Database {
    ObjectsDeleted(RowsPurged(db, project), OnlyReferencedBy(db.store.contents, project))
  }

  function ObjectsDeleted(db: Database, digests: set<Digest>): Database {
    db.(store := db.store.(objects := db.store.objects - digests))
  }

  // ----- a purge removes exactly what it counts ----------------------------

  /** The order names every table but that of the runs. */
  lemma {:induction false} OrderIsComplete(t: Table)
    ensures t in DELETE_ORDER <==> t != SyncRuns
  {
  }

  lemma {:induction false} DeleteTouchesOne(db: Database, d: Table, t: Table, project: string)
    ensures if t == d then LacksOnly(DeletedFrom(db, d, project), db, t, project) else SameRows(DeletedFrom(db, d, project), db, t)
    ensures DeletedFrom(db, d, project).syncItems == db.syncItems && DeletedFrom(db, d, project).projects == db.projects
    ensures DeletedFrom(db, d, project).store.objects == db.store.objects
  {
  }

  /** After `n` deletions a table lacks the project's rows exactly when its turn has come. */
  lemma {:induction false} DeletedSoFar(db: Database, order: seq<Table>, n: nat, t: Table, project: string)
    requires n <= |order|
    ensures var after := DeletedUpTo(db, order, n, project);
            && (if t in order[..n] then LacksOnly(after, db, t, project) else SameRows(after, db, t))
            && after.syncItems == db.syncItems && after.projects == db.projects
            && after.store.objects == db.store.objects && after.store.next == db.store.next
  {
    if n > 0 {
      DeletedSoFar(db, order, n - 1, t, project);
      assert order[..n] == order[..n - 1] + [order[n - 1]];
      DeleteTouchesOne(DeletedUpTo(db, order, n - 1, project), order[n - 1], t, project);
      DeleteAgain(DeletedUpTo(db, order, n, project), DeletedUpTo(db, order, n - 1, project), db, t, project);
    }
  }

  /** Deleting from a table once more changes nothing. */
  lemma {:induction false} DeleteAgain(after: Database, between: Database, before: Database, t: Table, project: string)
    ensures LacksOnly(after, between, t, project) && LacksOnly(between, before, t, project) ==> LacksOnly(after, before, t, project)
    ensures LacksOnly(after, between, t, project) && SameRows(between, before, t) ==> LacksOnly(after, before, t, project)
  {
  }

  /** A purge leaves every row of every other project as it was, in every table, and none of its own. */
  lemma {:induction false} PurgeLeavesOthers(db: Database, project: string, t: Table)
    ensures LacksOnly(RowsPurged(db, project), db, t, project)
    ensures RowsPurged(db, project).syncItems == OtherItems(db.syncItems, RowsOf(db, SyncRuns), project)
    ensures RowsPurged(db, project).projects == db.projects - {project}
    ensures RowsPurged(db, project).store.objects == db.store.objects
    ensures RowsPurged(db, project).store.next == db.store.next
  {
    OrderIsComplete(t);
    assert DELETE_ORDER[..|DELETE_ORDER|] == DELETE_ORDER;
    DeletedSoFar(ItemsAndRunsDeleted(db, project), DELETE_ORDER, |DELETE_ORDER|, t, project);
    DeleteTouchesOne(db.(syncItems := OtherItems(db.syncItems, RowsOf(db, SyncRuns), project)), SyncRuns, t, project);
  }

  lemma {:induction false} KeysSplit<K>(all: set<K>, kept: set<K>, own: set<K>)
    requires all == kept + own && kept !! own
    ensures |all| == |kept| + |own|
  {
  }

  lemma {:induction false} SizeSplits(after: Database, db: Database, t: Table, project: string)
    requires LacksOnly(after, db, t, project)
    ensures Size(db, t) == Size(after, t) + Count(db, t, project)
  {
    if t.SourceContents? {
      ContentsSplit(db.store.contents, project);
    } else if t.SourceArtifacts? {
      ArtifactsSplit(db.store.artifacts, project);
    } else {
      RowsSplit(RowsOf(db, t), project);
    }
  }

  lemma {:induction false} ContentsSplit(contents: map<nat, Content>, project: string)
    ensures |contents.Keys| == |OtherContents(contents, project).Keys| + |OwnContents(contents, project)|
  {
    KeysSplit(contents.Keys, OtherContents(contents, project).Keys, OwnContents(contents, project));
  }

  lemma {:induction false} ArtifactsSplit(artifacts: map<string, Artifact>, project: string)
    ensures |artifacts.Keys| == |OtherArtifacts(artifacts, project).Keys| + |OwnArtifacts(artifacts, project)|
  {
    KeysSplit(artifacts.Keys, OtherArtifacts(artifacts, project).Keys, OwnArtifacts(artifacts, project));
  }

  lemma {:induction false} RowsSplit(rows: Rows, project: string)
    ensures |rows.Keys| == |OtherRows(rows, project).Keys| + |OwnRows(rows, project)|
  {
    KeysSplit(rows.Keys, OtherRows(rows, project).Keys, OwnRows(rows, project));
  }

  lemma {:induction false} ItemsSplit(items: map<string, SyncItem>, runs: Rows, project: string)
    ensures |items.Keys| == |OtherItems(items, runs, project).Keys| + |OwnItems(items, runs, project)|
  {
    KeysSplit(items.Keys, OtherItems(items, runs, project).Keys, OwnItems(items, runs, project));
  }

  lemma {:induction false} TableShrinks(db: Database, project: string, t: Table)
    ensures Size(db, t) == Size(RowsPurged(db, project), t) + Count(db, t, project)
  {
    PurgeLeavesOthers(db, project, t);
    SizeSplits(RowsPurged(db, project), db, t, project);
  }

  lemma {:induction false} ItemsShrink(db: Database, project: string)
    ensures |db.syncItems.Keys| == |RowsPurged(db, project).syncItems.Keys| + ItemsOf(db, project)
  {
    PurgeLeavesOthers(db, project, SyncRuns);
    ItemsSplit(db.syncItems, RowsOf(db, SyncRuns), project);
  }

  /** A purge removes exactly the rows the preview counts, and the project row. */
  lemma {:induction false} PurgeRemovesWhatItCounts(db: Database, project: string)
    requires project in db.projects
    ensures AllRows(db) == AllRows(RowsPurged(db, project)) + TotalRows(db, project) + 1
  {
    TableShrinks(db, project, BriefClaims);
    TableShrinks(db, project, GeneratedBriefs);
    TableShrinks(db, project, Corrections);
    TableShrinks(db, project, Reviews);
    TableShrinks(db, project, ProposedMutations);
    TableShrinks(db, project, EvidenceLinks);
    TableShrinks(db, project, LedgerVersions);
    TableShrinks(db, project, LedgerItems);
    TableShrinks(db, project, Observations);
    TableShrinks(db, project, ProjectPeople);
    TableShrinks(db, project, SourceChunks);
    TableShrinks(db, project, SourceContents);
    TableShrinks(db, project, SourceArtifacts);
    TableShrinks(db, project, Sources);
    TableShrinks(db, project, AuditEntries);
    TableShrinks(db, project, SyncRuns);
    ItemsShrink(db, project);
    PurgeLeavesOthers(db, project, SyncRuns);
    KeysSplit(db.projects.Keys, RowsPurged(db, project).projects.Keys, {project});
  }

  // ----- objects -----------------------------------------------------------

  /** What a purge does to the content store. */
  function StorePurged(s: Store, project: string): Store {
    s.(contents := OtherContents(s.contents, project),
       artifacts := OtherArtifacts(s.artifacts, project),
       objects := s.objects - OnlyReferencedBy(s.contents, project))
  }

  /** The content store once the rows are gone, and once the objects are gone too. */
  lemma {:induction false} PurgeOfStore(db: Database, project: string)
    ensures RowsPurged(db, project).store == StorePurged(db.store, project).(objects := db.store.objects)
    ensures AfterPurge(db, project).store == StorePurged(db.store, project)
  {
    PurgeLeavesOthers(db, project, SourceContents);
    PurgeLeavesOthers(db, project, SourceArtifacts);
  }

  lemma {:induction false} ReferencedAfterPurge(contents: map<nat, Content>, project: string)
    ensures Referenced(OtherContents(contents, project)) == Referenced(contents) - OnlyReferencedBy(contents, project)
  {
    var others := OtherContents(contents, project);
    forall d | d in Referenced(contents) - OnlyReferencedBy(contents, project) ensures d in Referenced(others) {
      var id :| id in contents && contents[id].digest == d;
      if contents[id].project == project {
        var other :| other in contents && contents[other].project != project && contents[other].digest == d;
        assert others[other].digest == d;
      } else {
        assert others[id].digest == d;
      }
    }
  }

  lemma {:induction false} StorePurgeKeepsObjects(s: Store, project: string)
    requires IsSound(s)
    ensures IsSound(StorePurged(s, project))
    ensures Unreferenced(StorePurged(s, project)) == Unreferenced(s)
  {
    var after := StorePurged(s, project);
    ReferencedAfterPurge(s.contents, project);
    forall a | a in after.artifacts ensures PointsToOwn(after.contents, a, after.artifacts[a]) {
      assert PointsToOwn(s.contents, a, s.artifacts[a]);
    }
  }

  /** The objects no row needs. */
  function Unreferenced(s: Store): set<Digest> {
    s.objects - Referenced(s.contents)
  }

  /** A purge deletes exactly the objects that lose their last row: it neither strands an object nor loses one. */
  lemma {:induction false} PurgeKeepsObjects(db: Database, project: string)
    requires IsSound(db.store)
    ensures IsSound(AfterPurge(db, project).store)
    ensures Unreferenced(AfterPurge(db, project).store) == Unreferenced(db.store)
  {
    PurgeOfStore(db, project);
    StorePurgeKeepsObjects(db.store, project);
  }

  lemma {:induction false} StorePurgeKeepsPointers(s: Store, project: string, artifact: string)
    requires IsSound(s)
    ensures CurrentDigest(StorePurged(s, project), artifact)
            == if artifact in s.artifacts && s.artifacts[artifact].project == project then None else CurrentDigest(s, artifact)
  {
    if artifact in s.artifacts {
      assert PointsToOwn(s.contents, artifact, s.artifacts[artifact]);
    }
  }

  /** The pointers of other projects keep naming the same bytes; the purged project's are gone. */
  lemma {:induction false} PurgeKeepsPointers(db: Database, project: string, artifact: string)
    requires IsSound(db.store)
    ensures CurrentDigest(AfterPurge(db, project).store, artifact)
            == if artifact in db.store.artifacts && db.store.artifacts[artifact].project == project then None
               else CurrentDigest(db.store, artifact)
  {
    PurgeOfStore(db, project);
    StorePurgeKeepsPointers(db.store, project, artifact);
  }

  // ----- a store between a purge's commit and its deletions ----------------

  /** The objects are deleted only after the rows' transaction has committed, so another store can come in between. */
  ghost function Interleaved(
    db: Database, project: string, artifact: string, record: Artifact, data: seq<bv8>, marker: Option<string>): Store
  {
    var stored := AfterStore(RowsPurged(db, project).store, artifact, record, data, marker).0;
    stored.(objects := stored.objects - OnlyReferencedBy(db.store.contents, project))
  }

  /**
   * The store in between loses its object exactly when it brought bytes that the purge had found only in the purged
   * project, under a version key that was free.
   */
  lemma {:induction false} StoreBetweenCommitAndDeletion(
    db: Database, project: string, artifact: string, record: Artifact, data: seq<bv8>, marker: Option<string>)
    requires IsSound(db.store) && IsFreshRecord(db.store, artifact, record) && record.project != project
    ensures var after, committed := Interleaved(db, project, artifact, record, data, marker), RowsPurged(db, project).store.contents;
            Referenced(after.contents) <= after.objects
            <==> Sha256(data) !in OnlyReferencedBy(db.store.contents, project)
                 || VersionTaken(committed, artifact, VersionKey(committed, artifact, marker))
  {
    PurgeOfStore(db, project);
    StoreInBetween(db.store, project, artifact, record, data, marker);
  }

  lemma {:induction false} StoreInBetween(
    s: Store, project: string, artifact: string, record: Artifact, data: seq<bv8>, marker: Option<string>)
    requires IsSound(s) && IsFreshRecord(s, artifact, record) && record.project != project
    ensures var committed := StorePurged(s, project).(objects := s.objects);
            var stored := AfterStore(committed, artifact, record, data, marker).0;
            Referenced(stored.contents) <= stored.objects - OnlyReferencedBy(s.contents, project)
            <==> Sha256(data) !in OnlyReferencedBy(s.contents, project)
                 || VersionTaken(committed.contents, artifact, VersionKey(committed.contents, artifact, marker))
  {
    var committed := StorePurged(s, project).(objects := s.objects);
    StorePurgeKeepsObjects(s, project);
    ReferencedAfterPurge(s.contents, project);
    StoreKeepsReferences(committed, artifact, record, data, marker);
    ClashExactlyWhen(committed, artifact, record, data, marker);
    HeldIsReferenced(committed.contents, artifact, Sha256(data));
  }

  /** Project `p` holds a file with these bytes as artifact `x`; project `q` has not stored its artifact `y` yet. */
  predicate OneHolder(s: Store, p: string, x: string, q: string, y: string, key: string, a: seq<bv8>) {
    && p != q && x != y
    && s == Store(map[0 := Content(p, x, key, Sha256(a))], map[x := Artifact(p, Some(0)), y := Artifact(q, None)], {Sha256(a)}, 1)
  }

  lemma {:induction false} OneHolderIsSound(s: Store, p: string, x: string, q: string, y: string, key: string, a: seq<bv8>)
    requires OneHolder(s, p, x, q, y, key, a)
    ensures IsSound(s) && OnlyReferencedBy(s.contents, p) == {Sha256(a)} && OtherContents(s.contents, p) == map[]
  {
    assert s.contents[0].digest == Sha256(a) && s.contents[0].project == p;
  }

  /** When `p` is purged while `q` stores its copy of the file, the object is lost. */
  lemma {:induction false} PurgeLosesObject(
    db: Database, p: string, x: string, q: string, y: string, key: string, a: seq<bv8>)
    requires OneHolder(db.store, p, x, q, y, key, a)
    ensures IsSound(db.store)
    ensures var after := Interleaved(db, p, y, Artifact(q, None), a, Some(key));
            CurrentDigest(after, y) == Some(Sha256(a)) && Sha256(a) !in after.objects
  {
    OneHolderIsSound(db.store, p, x, q, y, key, a);
    PurgeOfStore(db, p);
    var committed := RowsPurged(db, p).store;
    assert committed.contents == map[] && y in committed.artifacts && committed.artifacts[y] == Artifact(q, None);
    assert FindDigest(committed.contents, y, Sha256(a)).None?;
  }

  // ----- runs of stores and purges -----------------------------------------

  datatype Event =
    | Register(artifact: string, project: string)
    | StoreBytes(artifact: string, data: seq<bv8>, marker: Option<string>)
    | Purge(project: string)

  const EMPTY := Store(map[], map[], {}, 0)

  /** Every store reads the artifact's row first; without a row there is nothing to store for. */
  ghost function Happen(s: Store, e: Event): Store {
    match e
    case Register(artifact, project) =>
      if artifact in s.artifacts then s else s.(artifacts := s.artifacts[artifact := Artifact(project, None)])
    case StoreBytes(artifact, data, marker) =>
      if artifact !in s.artifacts then s else AfterStore(s, artifact, s.artifacts[artifact], data, marker).0
    case Purge(project) => StorePurged(s, project)
  }

  ghost function RunOf(events: seq<Event>, n: nat): Store
    requires n <= |events|
  {
    if n == 0 then EMPTY else Happen(RunOf(events, n - 1), events[n - 1])
  }

  /** Event `k` stores bytes its artifact does not have under a version key that is taken. */
  ghost predicate Clashes(events: seq<Event>, k: nat)
    requires k < |events|
  {
    && events[k].StoreBytes? && events[k].artifact in RunOf(events, k).artifacts
    && MeetsTakenKey(RunOf(events, k), events[k].artifact, events[k].data, events[k].marker)
  }

  /** The bytes of the last store that went through, unless the artifact was purged since. */
  ghost function LastStored(events: seq<Event>, n: nat, artifact: string): Option<Digest>
    requires n <= |events|
  {
    if n == 0 then None
    else
      var before := LastStored(events, n - 1, artifact);
      var s := RunOf(events, n - 1);
      if artifact !in s.artifacts then None
      else
        match events[n - 1]
        case Register(_, _) => before
        case StoreBytes(a, data, _) => if a == artifact && !Clashes(events, n - 1) then Some(Sha256(data)) else before
        case Purge(project) => if s.artifacts[artifact].project == project then None else before
  }

  /** What the clashes of a run have stranded: bytes unknown everywhere, until some store takes them up. */
  ghost function Stranded(events: seq<Event>, n: nat): set<Digest>
    requires n <= |events|
  {
    if n == 0 then {}
    else
      var before, s := Stranded(events, n - 1), RunOf(events, n - 1);
      if !events[n - 1].StoreBytes? || events[n - 1].artifact !in s.artifacts then before
      else
        var digest := Sha256(events[n - 1].data);
        if !Clashes(events, n - 1) then before - {digest}
        else if digest in Referenced(s.contents) then before
        else before + {digest}
  }

  /** A store strands its bytes when it clashes and nothing references them, and takes them up when it goes through. */
  lemma {:induction false} StoreStrands(s: Store, artifact: string, record: Artifact, data: seq<bv8>, marker: Option<string>)
    requires IsSound(s) && IsFreshRecord(s, artifact, record)
    ensures IsSound(AfterStore(s, artifact, record, data, marker).0)
    ensures Unreferenced(AfterStore(s, artifact, record, data, marker).0)
            == if !MeetsTakenKey(s, artifact, data, marker) then Unreferenced(s) - {Sha256(data)}
               else if Sha256(data) in Referenced(s.contents) then Unreferenced(s)
               else Unreferenced(s) + {Sha256(data)}
  {
    StoreKeepsSound(s, artifact, record, data, marker);
    StoreKeepsReferences(s, artifact, record, data, marker);
    ClashExactlyWhen(s, artifact, record, data, marker);
    HeldIsReferenced(s.contents, artifact, Sha256(data));
  }

  lemma {:induction false} RegisterKeepsSound(s: Store, artifact: string, project: string)
    requires IsSound(s) && artifact !in s.artifacts
    ensures IsSound(s.(artifacts := s.artifacts[artifact := Artifact(project, None)]))
  {
  }

  /**
   * After any run: distinct digests and version keys per artifact, pointers within their artifact, every referenced
   * object on disk, and no other object there but what clashes have stranded.
   */
  lemma {:induction false} RunsAreSound(events: seq<Event>, n: nat)
    requires n <= |events|
    ensures IsSound(RunOf(events, n))
    ensures Unreferenced(RunOf(events, n)) == Stranded(events, n)
  {
    if n > 0 {
      RunsAreSound(events, n - 1);
      var s := RunOf(events, n - 1);
      match events[n - 1] {
        case Register(artifact, project) =>
          if artifact !in s.artifacts {
            RegisterKeepsSound(s, artifact, project);
          }
        case StoreBytes(artifact, data, marker) =>
          if artifact in s.artifacts {
            StoreStrands(s, artifact, s.artifacts[artifact], data, marker);
          }
        case Purge(project) =>
          StorePurgeKeepsObjects(s, project);
      }
    }
  }

  /** The objects on disk are exactly the referenced ones if and only if no clash has left anything stranded. */
  lemma {:induction false} ObjectsAreReferenced(events: seq<Event>, n: nat)
    requires n <= |events|
    ensures RunOf(events, n).objects == Referenced(RunOf(events, n).contents) <==> Stranded(events, n) == {}
    ensures (forall k :: 0 <= k < n ==> !Clashes(events, k)) ==> Stranded(events, n) == {}
  {
    var s := RunOf(events, n);
    RunsAreSound(events, n);
    if Unreferenced(s) == {} {
      forall d | d in s.objects ensures d in Referenced(s.contents) {
        assert d !in Unreferenced(s);
      }
    }
    if forall k :: 0 <= k < n ==> !Clashes(events, k) {
      NothingStranded(events, n);
    }
  }

  lemma {:induction false} NothingStranded(events: seq<Event>, n: nat)
    requires n <= |events| && forall k :: 0 <= k < n ==> !Clashes(events, k)
    ensures Stranded(events, n) == {}
  {
    if n > 0 {
      NothingStranded(events, n - 1);
    }
  }

  /** Two versions of a file that come with the same marker: the second one's object stays without a row. */
  lemma {:induction false} RepeatedMarkerStrandsObject(events: seq<Event>, a: seq<bv8>, b: seq<bv8>)
    requires a != b
    requires events == [Register("x", "p"), StoreBytes("x", a, Some("1")), StoreBytes("x", b, Some("1"))]
    ensures RunOf(events, 3).objects == {Sha256(a), Sha256(b)} && Referenced(RunOf(events, 3).contents) == {Sha256(a)}
  {
    var s1 := RunOf(events, 1);
    assert s1 == EMPTY.(artifacts := map["x" := Artifact("p", None)]) by {
      assert RunOf(events, 0) == EMPTY;
    }
    assert FindDigest(s1.contents, "x", Sha256(a)).None?;
    var s2 := RunOf(events, 2);
    assert s2 == AfterStore(s1, "x", s1.artifacts["x"], a, Some("1")).0;
    assert s2.contents == map[0 := Content("p", "x", "1", Sha256(a))];
    assert FindDigest(s2.contents, "x", Sha256(b)).None?;
    assert s2.contents[0].artifact == "x" && s2.contents[0].versionKey == "1";
    assert VersionTaken(s2.contents, "x", "1");
    assert RunOf(events, 3) == AfterStore(s2, "x", s2.artifacts["x"], b, Some("1")).0;
  }

  /** After any run an artifact's pointer names the bytes last stored for it. */
  lemma {:induction false} PointerNamesLastStored(events: seq<Event>, n: nat, artifact: string)
    requires n <= |events|
    ensures CurrentDigest(RunOf(events, n), artifact) == LastStored(events, n, artifact)
  {
    if n > 0 {
      var s := RunOf(events, n - 1);
      PointerNamesLastStored(events, n - 1, artifact);
      RunsAreSound(events, n - 1);
      match events[n - 1] {
        case Register(_, _) =>
        case StoreBytes(a, data, marker) =>
          if a in s.artifacts {
            StoreMovesPointer(s, a, s.artifacts[a], data, marker, artifact);
            ClashExactlyWhen(s, a, s.artifacts[a], data, marker);
          }
        case Purge(project) =>
          StorePurgeKeepsPointers(s, project, artifact);
      }
    }
  }
}
