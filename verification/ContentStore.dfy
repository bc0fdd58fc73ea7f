/** Content versions of artifacts over a content-addressed object store. */
module ContentStore {
  import opened Text

  /** SHA-256 as an injective function of the bytes. */
  datatype Digest = Sha256(data: seq<bv8>)

  datatype Content = Content(project: string, artifact: string, versionKey: string, digest: Digest)

  datatype Artifact = Artifact(project: string, current: Option<nat>)

  /** Rows by primary key; `next` stands for ids never used before; `objects` are the files on disk. */
  datatype Store = Store(contents: map<nat, Content>, artifacts: map<string, Artifact>, objects: set<Digest>, next: nat)

  datatype StoreResult = Created(id: nat) | Reused(id: nat) | VersionClash

  // ----- the queries -------------------------------------------------------

  predicate HoldsDigest(contents: map<nat, Content>, id: nat, artifact: string, digest: Digest) {
    id in contents && contents[id].artifact == artifact && contents[id].digest == digest
  }

  ghost function FindDigest(contents: map<nat, Content>, artifact: string, digest: Digest): (found: Option<nat>)
    ensures found.Some? ==> HoldsDigest(contents, found.value, artifact, digest)
    ensures found.None? ==> forall id :: !HoldsDigest(contents, id, artifact, digest)
  {
    if id :| HoldsDigest(contents, id, artifact, digest) then Some(id) else None
  }

  function VersionsOf(contents: map<nat, Content>, artifact: string): set<nat> {
    set id | id in contents && contents[id].artifact == artifact
  }

  predicate VersionTaken(contents: map<nat, Content>, artifact: string, key: string) {
    exists id :: id in contents && contents[id].artifact == artifact && contents[id].versionKey == key
  }

  /** The connector's own marker, or the next of the sequence "v1", "v2" and so on. */
  function VersionKey(contents: map<nat, Content>, artifact: string, marker: Option<string>): string {
    if marker.Some? then marker.value else "v" + Numeral(|VersionsOf(contents, artifact)| + 1)
  }

  /** The update names the artifact by id and project. */
  function Pointed(artifacts: map<string, Artifact>, artifact: string, project: string, id: nat): map<string, Artifact> {
    if artifact in artifacts && artifacts[artifact].project == project then
      artifacts[artifact := artifacts[artifact].(current := Some(id))]
    else artifacts
  }

  // ----- storing -----------------------------------------------------------

  /**
   * One call with the caller's own copy `record` of the artifact row. The object is written first; a version key that
   * is taken violates the unique index and stores no row.
   */
  ghost function AfterStore(s: Store, artifact: string, record: Artifact, data: seq<bv8>, marker: Option<string>): (r: (Store, StoreResult)) {
    var digest := Sha256(data);
    var written := s.(objects := s.objects + {digest});
    var found := FindDigest(s.contents, artifact, digest);
    var key := VersionKey(s.contents, artifact, marker);
    if found.Some? then
      (if record.current == found then written
       else written.(artifacts := Pointed(s.artifacts, artifact, record.project, found.value)), Reused(found.value))
    else if VersionTaken(s.contents, artifact, key) then (written, VersionClash)
    else
      (written.(contents := s.contents[s.next := Content(record.project, artifact, key, digest)],
                artifacts := Pointed(s.artifacts, artifact, record.project, s.next),
                next := s.next + 1), Created(s.next))
  }

  predicate SameDigest(a: Content, b: Content) {
    a.artifact == b.artifact && a.digest == b.digest
  }

  predicate SameVersion(a: Content, b: Content) {
    a.artifact == b.artifact && a.versionKey == b.versionKey
  }

  ghost predicate UniqueDigests(contents: map<nat, Content>) {
    forall i, j :: i in contents && j in contents && SameDigest(contents[i], contents[j]) ==> i == j
  }

  ghost predicate UniqueVersions(contents: map<nat, Content>) {
    forall i, j :: i in contents && j in contents && SameVersion(contents[i], contents[j]) ==> i == j
  }

  /** Content rows belong to the project of their artifact. */
  ghost predicate AllOwned(s: Store) {
    forall id :: id in s.contents ==>
      s.contents[id].artifact in s.artifacts && s.artifacts[s.contents[id].artifact].project == s.contents[id].project
  }

  predicate PointsToOwn(contents: map<nat, Content>, artifact: string, row: Artifact) {
    row.current.Some? ==>
      && row.current.value in contents && contents[row.current.value].artifact == artifact
      && contents[row.current.value].project == row.project
  }

  ghost predicate PointersHold(s: Store) {
    forall a :: a in s.artifacts ==> PointsToOwn(s.contents, a, s.artifacts[a])
  }

  function Referenced(contents: map<nat, Content>): set<Digest> {
    set id | id in contents :: contents[id].digest
  }

  predicate IdsUsed(s: Store) {
    forall id :: id in s.contents ==> id < s.next
  }

  /** What every store and purge keeps. */
  ghost predicate IsSound(s: Store) {
    && UniqueDigests(s.contents) && UniqueVersions(s.contents) && AllOwned(s) && PointersHold(s) && IdsUsed(s)
    && Referenced(s.contents) <= s.objects
  }

  class EvidenceDb {
    var contents: map<nat, Content>
    var artifacts: map<string, Artifact>
    var objects: set<Digest>
    var next: nat

    constructor ()
      ensures View() == Store(map[], map[], {}, 0)
    {
      contents, artifacts, objects, next := map[], map[], {}, 0;
    }

    ghost function View(): Store
      reads this
    {
      Store(contents, artifacts, objects, next)
    }

    method StoreBytes(data: seq<bv8>) returns (digest: Digest)
      modifies this`objects
      ensures digest == Sha256(data) && objects == old(objects) + {digest}
    {
      digest := Sha256(data);
      if digest !in objects {
        objects := objects + {digest};
      }
    }

    method SetCurrentContent(artifact: string, project: string, id: nat)
      modifies this`artifacts
      ensures artifacts == Pointed(old(artifacts), artifact, project, id)
    {
      if artifact in artifacts && artifacts[artifact].project == project {
        artifacts := artifacts[artifact := artifacts[artifact].(current := Some(id))];
      }
    }

    method StoreRawArtifact(artifact: string, record: Artifact, data: seq<bv8>, marker: Option<string>) returns (r: StoreResult)
      requires UniqueDigests(contents)
      modifies this
      ensures (View(), r) == AfterStore(old(View()), artifact, record, data, marker)
    {
      var digest := StoreBytes(data);
      ghost var found := FindDigest(contents, artifact, digest);
      var same := set id | id in contents && contents[id].artifact == artifact && contents[id].digest == digest;
      assert forall id :: HoldsDigest(contents, id, artifact, digest) <==> id in same;
      if same != {} {
        var id :| id in same;
        assert HoldsDigest(contents, id, artifact, digest);
        assert found.Some? && SameDigest(contents[found.value], contents[id]);
        if record.current != Some(id) {
          SetCurrentContent(artifact, record.project, id);
        }
        return Reused(id);
      }
      var key := VersionKey(contents, artifact, marker);
      var clashing := set id | id in contents && contents[id].artifact == artifact && contents[id].versionKey == key;
      assert VersionTaken(contents, artifact, key) <==> clashing != {} by {
        if id :| id in contents && contents[id].artifact == artifact && contents[id].versionKey == key {
          assert id in clashing;
        }
      }
      if clashing != {} {
        return VersionClash;
      }
      r := Created(next);
      contents := contents[next := Content(record.project, artifact, key, digest)];
      SetCurrentContent(artifact, record.project, next);
      next := next + 1;
    }

    /** Whether the current version was stored under this marker, decided without fetching. */
    method IsUnchanged(record: Artifact, marker: Option<string>) returns (same: bool)
      ensures same <==> CurrentHasMarker(contents, record, marker)
    {
      same := false;
      if record.current.Some? && record.current.value in contents && contents[record.current.value].project == record.project {
        same := Some(contents[record.current.value].versionKey) == marker;
      }
    }
  }

  predicate CurrentHasMarker(contents: map<nat, Content>, record: Artifact, marker: Option<string>) {
    && record.current.Some? && record.current.value in contents
    && contents[record.current.value].project == record.project
    && Some(contents[record.current.value].versionKey) == marker
  }

  // ----- what one store does -----------------------------------------------

  /** The bytes an artifact's pointer names. */
  function CurrentDigest(s: Store, artifact: string): Option<Digest> {
    if artifact in s.artifacts && s.artifacts[artifact].current.Some? && s.artifacts[artifact].current.value in s.contents then
      Some(s.contents[s.artifacts[artifact].current.value].digest)
    else None
  }

  /** The caller's copy is what the table holds. */
  predicate IsFreshRecord(s: Store, artifact: string, record: Artifact) {
    artifact in s.artifacts && s.artifacts[artifact] == record
  }

  /** With a fresh record every store that succeeds leaves the pointer on the bytes just stored, and moves no other. */
  lemma {:induction false} StoreMovesPointer(
    s: Store, artifact: string, record: Artifact, data: seq<bv8>, marker: Option<string>, other: string)
    requires IsSound(s) && IsFreshRecord(s, artifact, record)
    ensures var (after, r) := AfterStore(s, artifact, record, data, marker);
            && (r != VersionClash ==> CurrentDigest(after, artifact) == Some(Sha256(data)))
            && (r == VersionClash || other != artifact ==> CurrentDigest(after, other) == CurrentDigest(s, other))
  {
    if other in s.artifacts {
      assert PointsToOwn(s.contents, other, s.artifacts[other]);
    }
  }

  /**
   * With any copy of the row, a store of bytes the artifact already has leaves the pointer on them exactly when it was
   * there already or the copy does not claim it is.
   */
  lemma {:induction false} StaleRecordExactlyWhen(
    s: Store, artifact: string, record: Artifact, data: seq<bv8>, marker: Option<string>, id: nat)
    requires IsSound(s) && artifact in s.artifacts && record.project == s.artifacts[artifact].project
    requires HoldsDigest(s.contents, id, artifact, Sha256(data))
    ensures CurrentDigest(AfterStore(s, artifact, record, data, marker).0, artifact) == Some(Sha256(data))
            <==> s.artifacts[artifact].current == Some(id) || record.current != Some(id)
  {
    assert FindDigest(s.contents, artifact, Sha256(data)) == Some(id);
    assert PointsToOwn(s.contents, artifact, s.artifacts[artifact]);
  }

  /**
   * Storing A, then B, then A again with the record read after the first store: the pointer stays on B. The condition
   * above is met by reading the record anew.
   */
  lemma {:induction false} StaleRecordKeepsOldVersion(s: Store, artifact: string, a: seq<bv8>, b: seq<bv8>)
    requires s == Store(map[], map[artifact := Artifact("p", None)], {}, 0) && a != b
    ensures var (s1, _) := AfterStore(s, artifact, s.artifacts[artifact], a, Some("1"));
            artifact in s1.artifacts &&
            var stale := s1.artifacts[artifact];
            var (s2, _) := AfterStore(s1, artifact, stale, b, Some("2"));
            CurrentDigest(AfterStore(s2, artifact, stale, a, Some("3")).0, artifact) == Some(Sha256(b))
  {
    var first := s.artifacts[artifact];
    assert FindDigest(s.contents, artifact, Sha256(a)).None?;
    var s1 := AfterStore(s, artifact, first, a, Some("1")).0;
    assert s1.contents == map[0 := Content("p", artifact, "1", Sha256(a))];
    var stale := s1.artifacts[artifact];
    assert FindDigest(s1.contents, artifact, Sha256(b)).None?;
    var s2 := AfterStore(s1, artifact, stale, b, Some("2")).0;
    assert s2.contents == s1.contents[1 := Content("p", artifact, "2", Sha256(b))];
    assert HoldsDigest(s2.contents, 0, artifact, Sha256(a));
    assert FindDigest(s2.contents, artifact, Sha256(a)) == Some(0);
  }

  lemma {:induction false} StoreKeepsUnique(s: Store, artifact: string, record: Artifact, data: seq<bv8>, marker: Option<string>)
    requires IsSound(s)
    ensures UniqueDigests(AfterStore(s, artifact, record, data, marker).0.contents)
    ensures UniqueVersions(AfterStore(s, artifact, record, data, marker).0.contents)
  {
    var (after, r) := AfterStore(s, artifact, record, data, marker);
    if r.Created? {
      InsertKeepsUnique(s.contents, s.next, after.contents[s.next]);
    }
  }

  lemma {:induction false} InsertKeepsUnique(contents: map<nat, Content>, id: nat, row: Content)
    requires UniqueDigests(contents) && UniqueVersions(contents)
    requires FindDigest(contents, row.artifact, row.digest).None? && !VersionTaken(contents, row.artifact, row.versionKey)
    ensures UniqueDigests(contents[id := row]) && UniqueVersions(contents[id := row])
  {
    forall i | i in contents ensures !SameDigest(contents[i], row) && !SameVersion(contents[i], row) {
      assert !HoldsDigest(contents, i, row.artifact, row.digest);
    }
  }

  lemma {:induction false} StoreKeepsReferences(s: Store, artifact: string, record: Artifact, data: seq<bv8>, marker: Option<string>)
    requires IsSound(s)
    ensures var (after, r) := AfterStore(s, artifact, record, data, marker);
            Referenced(after.contents) == Referenced(s.contents) + if r.Created? then {Sha256(data)} else {}
  {
    var (after, r) := AfterStore(s, artifact, record, data, marker);
    if r.Created? {
      assert after.contents[s.next].digest == Sha256(data);
      forall d | d in Referenced(s.contents) ensures d in Referenced(after.contents) {
        var id :| id in s.contents && s.contents[id].digest == d;
        assert after.contents[id].digest == d;
      }
    }
  }

  /** Any store keeps the indexes, the pointers and the referenced objects, whatever copy of the row it is given. */
  lemma {:induction false} StoreKeepsSound(s: Store, artifact: string, record: Artifact, data: seq<bv8>, marker: Option<string>)
    requires IsSound(s) && artifact in s.artifacts && record.project == s.artifacts[artifact].project
    ensures IsSound(AfterStore(s, artifact, record, data, marker).0)
    ensures AfterStore(s, artifact, record, data, marker).0.objects == s.objects + {Sha256(data)}
  {
    StoreKeepsUnique(s, artifact, record, data, marker);
    StoreKeepsReferences(s, artifact, record, data, marker);
    StoreKeepsPointers(s, artifact, record, data, marker);
  }

  lemma {:induction false} StoreKeepsPointers(s: Store, artifact: string, record: Artifact, data: seq<bv8>, marker: Option<string>)
    requires IsSound(s) && artifact in s.artifacts && record.project == s.artifacts[artifact].project
    ensures AllOwned(AfterStore(s, artifact, record, data, marker).0)
    ensures PointersHold(AfterStore(s, artifact, record, data, marker).0)
  {
  }

  /** What the insert of a new row runs into: bytes the artifact does not have, under a version key that is taken. */
  ghost predicate MeetsTakenKey(s: Store, artifact: string, data: seq<bv8>, marker: Option<string>) {
    && VersionTaken(s.contents, artifact, VersionKey(s.contents, artifact, marker))
    && forall id :: !HoldsDigest(s.contents, id, artifact, Sha256(data))
  }

  lemma {:induction false} ClashExactlyWhen(s: Store, artifact: string, record: Artifact, data: seq<bv8>, marker: Option<string>)
    ensures AfterStore(s, artifact, record, data, marker).1 == VersionClash <==> MeetsTakenKey(s, artifact, data, marker)
  {
    var found := FindDigest(s.contents, artifact, Sha256(data));
    assert found.None? <==> forall id :: !HoldsDigest(s.contents, id, artifact, Sha256(data));
  }

  /** An object without a row appears exactly when unknown bytes come under a version key that is taken. */
  lemma {:induction false} OrphanExactlyWhen(s: Store, artifact: string, record: Artifact, data: seq<bv8>, marker: Option<string>)
    requires IsSound(s) && s.objects == Referenced(s.contents)
    ensures var after := AfterStore(s, artifact, record, data, marker).0;
            after.objects == Referenced(after.contents)
            <==> Sha256(data) in s.objects || !VersionTaken(s.contents, artifact, VersionKey(s.contents, artifact, marker))
  {
    StoreKeepsReferences(s, artifact, record, data, marker);
    ClashExactlyWhen(s, artifact, record, data, marker);
    HeldIsReferenced(s.contents, artifact, Sha256(data));
  }

  lemma {:induction false} HeldIsReferenced(contents: map<nat, Content>, artifact: string, digest: Digest)
    ensures FindDigest(contents, artifact, digest).Some? ==> digest in Referenced(contents)
  {
    var found := FindDigest(contents, artifact, digest);
    if found.Some? {
      assert contents[found.value].digest == digest;
    }
  }

  // ----- syncing again and again -------------------------------------------

  /** New bytes under a free version key: right after the store the artifact counts as unchanged under it. */
  lemma {:induction false} NewBytesCountAsUnchanged(s: Store, artifact: string, record: Artifact, data: seq<bv8>, marker: string)
    requires IsSound(s) && IsFreshRecord(s, artifact, record)
    requires !VersionTaken(s.contents, artifact, marker) && forall id :: !HoldsDigest(s.contents, id, artifact, Sha256(data))
    ensures var after := AfterStore(s, artifact, record, data, Some(marker)).0;
            artifact in after.artifacts && CurrentHasMarker(after.contents, after.artifacts[artifact], Some(marker))
  {
    assert FindDigest(s.contents, artifact, Sha256(data)).None?;
  }

  /**
   * Bytes the artifact has: right after the store it counts as unchanged exactly when their row carries the marker.
   * Either way the store has reached a fixed point: storing them again under the same marker changes nothing.
   */
  lemma {:induction false} KnownBytesUnchangedExactlyWhen(
    s: Store, artifact: string, record: Artifact, data: seq<bv8>, marker: string, id: nat)
    requires IsSound(s) && IsFreshRecord(s, artifact, record) && HoldsDigest(s.contents, id, artifact, Sha256(data))
    ensures var after := AfterStore(s, artifact, record, data, Some(marker)).0;
            && artifact in after.artifacts
            && (CurrentHasMarker(after.contents, after.artifacts[artifact], Some(marker)) <==> s.contents[id].versionKey == marker)
            && AfterStore(after, artifact, after.artifacts[artifact], data, Some(marker)) == (after, Reused(id))
  {
    assert SameDigest(s.contents[FindDigest(s.contents, artifact, Sha256(data)).value], s.contents[id]);
  }

  /** One sync of an artifact whose bytes and marker stay what they are, and whether it fetched the bytes. */
  ghost function Synced(s: Store, artifact: string, data: seq<bv8>, marker: string): (Store, bool) {
    if artifact !in s.artifacts || CurrentHasMarker(s.contents, s.artifacts[artifact], Some(marker)) then (s, false)
    else (AfterStore(s, artifact, s.artifacts[artifact], data, Some(marker)).0, true)
  }

  ghost function SyncedTimes(s: Store, artifact: string, data: seq<bv8>, marker: string, n: nat): Store {
    if n == 0 then s else Synced(SyncedTimes(s, artifact, data, marker, n - 1), artifact, data, marker).0
  }

  /** Bytes first stored under another marker are fetched again on every sync, though nothing changes after the first. */
  lemma {:induction false} FetchedOnEverySync(s: Store, artifact: string, data: seq<bv8>, marker: string, id: nat, n: nat)
    requires IsSound(s) && artifact in s.artifacts && HoldsDigest(s.contents, id, artifact, Sha256(data))
    requires s.contents[id].versionKey != marker
    requires !CurrentHasMarker(s.contents, s.artifacts[artifact], Some(marker))
    ensures Synced(SyncedTimes(s, artifact, data, marker, n), artifact, data, marker).1
    ensures n > 0 ==> SyncedTimes(s, artifact, data, marker, n) == AfterStore(s, artifact, s.artifacts[artifact], data, Some(marker)).0
  {
    KnownBytesUnchangedExactlyWhen(s, artifact, s.artifacts[artifact], data, marker, id);
    if n > 0 {
      FetchedOnEverySync(s, artifact, data, marker, id, n - 1);
    }
  }

  /** A file whose modification time changed once, and whose bytes did not, is such a case. */
  lemma {:induction false} TouchedFileIsRefetched(s: Store, artifact: string, data: seq<bv8>, n: nat)
    requires s == Store(map[0 := Content("p", artifact, "1", Sha256(data))], map[artifact := Artifact("p", Some(0))], {Sha256(data)}, 1)
    ensures IsSound(s) && Synced(SyncedTimes(s, artifact, data, "2", n), artifact, data, "2").1
  {
    assert s.contents[0].digest == Sha256(data);
    assert HoldsDigest(s.contents, 0, artifact, Sha256(data));
    FetchedOnEverySync(s, artifact, data, "2", 0, n);
  }

  /** All versions of the artifact are numbered "v1", "v2" and so on, as they are when no store gave a marker. */
  ghost predicate IsNumbered(contents: map<nat, Content>, artifact: string) {
    forall id <- VersionsOf(contents, artifact) ::
      exists i :: 1 <= i <= |VersionsOf(contents, artifact)| && contents[id].versionKey == "v" + Numeral(i)
  }

  lemma {:induction false} NumeralIdentifies(m: nat, n: nat)
    ensures "v" + Numeral(m) == "v" + Numeral(n) <==> m == n
  {
    NumeralParses(m);
    NumeralParses(n);
    if "v" + Numeral(m) == "v" + Numeral(n) {
      assert ("v" + Numeral(m))[1..] == Numeral(m) && ("v" + Numeral(n))[1..] == Numeral(n);
    }
  }

  /** So without markers a version key is never taken: unknown bytes are stored under the next number. */
  lemma {:induction false} UnmarkedStoresNumber(s: Store, artifact: string, record: Artifact, data: seq<bv8>)
    requires IsSound(s) && IsNumbered(s.contents, artifact) && forall id :: !HoldsDigest(s.contents, id, artifact, Sha256(data))
    ensures var (after, r) := AfterStore(s, artifact, record, data, None);
            && r == Created(s.next)
            && after.contents[s.next].versionKey == "v" + Numeral(|VersionsOf(s.contents, artifact)| + 1)
            && IsNumbered(after.contents, artifact)
  {
    var n := |VersionsOf(s.contents, artifact)|;
    var key := "v" + Numeral(n + 1);
    if VersionTaken(s.contents, artifact, key) {
      var id :| id in s.contents && s.contents[id].artifact == artifact && s.contents[id].versionKey == key;
      assert id in VersionsOf(s.contents, artifact);
      var i :| 1 <= i <= n && s.contents[id].versionKey == "v" + Numeral(i);
      NumeralIdentifies(i, n + 1);
    }
    NumberedGrows(s.contents, s.next, Content(record.project, artifact, key, Sha256(data)), artifact);
  }

  lemma {:induction false} NumberedGrows(contents: map<nat, Content>, next: nat, c: Content, artifact: string)
    requires next !in contents && IsNumbered(contents, artifact) && c.artifact == artifact
    requires c.versionKey == "v" + Numeral(|VersionsOf(contents, artifact)| + 1)
    ensures IsNumbered(contents[next := c], artifact)
  {
    var before, after := VersionsOf(contents, artifact), VersionsOf(contents[next := c], artifact);
    assert after == before + {next};
    assert |after| == |before| + 1;
    forall id | id in after ensures exists i :: 1 <= i <= |after| && contents[next := c][id].versionKey == "v" + Numeral(i) {
      if id == next {
        assert 1 <= |after| <= |after|;
      } else {
        var i :| 1 <= i <= |before| && contents[id].versionKey == "v" + Numeral(i);
      }
    }
  }
}
