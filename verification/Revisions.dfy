/** Rows, save options and clock arithmetic of the revision store
    (revision.go, store.go). */
module Revisions {
  import opened Common
  import opened Delta

  type Uuid = nat
  const NIL: Uuid := 0

  /** Nanoseconds since Go's zero time; 0 is the zero time itself. */
  type Time = int

  const SECOND: int := 1_000_000_000
  const MIN_INT64: int := -0x8000_0000_0000_0000
  const MAX_INT64: int := 0x7FFF_FFFF_FFFF_FFFF

  const MAX_CHAIN_DEPTH: nat := 1024
  const DEFAULT_SNAPSHOT_EVERY_N: nat := 20
  const DEFAULT_MAX_SNAPSHOT_AGE_SEC: int := 24 * 60 * 60

  /** time.Time.Sub: the difference, saturated to a 64-bit Duration. */
  function Sub(a: Time, b: Time): int {
    if a - b < MIN_INT64 then MIN_INT64 else if a - b > MAX_INT64 then MAX_INT64 else a - b
  }

  /** time.Duration(sec) * time.Second, wrapped to 64 bits. */
  function Seconds(sec: int): int {
    (sec * SECOND - MIN_INT64) % 0x1_0000_0000_0000_0000 + MIN_INT64
  }

  datatype Kind = Autosave | Manual | Publish | Unknown(name: string)

  /** ContentBlocks: absent, bytes that are not JSON, or a document. */
  datatype Content = Empty | Malformed | Document(doc: Json)

  datatype Revision = Revision(
    id: Uuid, postID: Uuid, authorID: Uuid, kind: Kind, createdAt: Time,
    content: Content, deltaFrom: Uuid, delta: Option<Patch>, snapshot: Option<Json>,
    isPermanent: bool)

  datatype SaveOptions = SaveOptions(everyN: int, maxAgeSec: int, force: bool)
  {
    function EveryN(): nat { if everyN <= 0 then DEFAULT_SNAPSHOT_EVERY_N else everyN }
    function MaxAgeSec(): int { if maxAgeSec == 0 then DEFAULT_MAX_SNAPSHOT_AGE_SEC else maxAgeSec }
  }

  datatype Error = InvalidRevision | CorruptChain | InvalidDelta | NotFound

  predicate ValidForSave(r: Revision) {
    r.postID != NIL && !r.kind.Unknown? && r.content.Document?
  }

  /** Callers leave the persisted slots empty on input. */
  predicate Draft(r: Revision) {
    r.snapshot.None? && r.delta.None? && r.deltaFrom == NIL
  }

  /** Save's defaults for the identifier and the creation time. */
  function Stamped(r: Revision, newID: Uuid, now: Time): Revision {
    r.(id := if r.id == NIL then newID else r.id,
       createdAt := if r.createdAt == 0 then now else r.createdAt)
  }

  function AsSnapshot(r: Revision): Revision
    requires r.content.Document?
  {
    r.(snapshot := Some(r.content.doc), delta := None, deltaFrom := NIL, content := Empty)
  }

  function AsDelta(r: Revision, patch: Patch, parent: Uuid): Revision {
    r.(snapshot := None, delta := Some(patch), deltaFrom := parent, content := Empty)
  }
}
