/** Values shared by the crash-recovery store and its models. */
module RecoveryTypes {
  import opened Wrappers

  /** An owner token. A token that is not a UUID names no marker file. */
  datatype SessionId = Uuid(value: nat) | Unparsed(text: string)

  /** `id` is the value of the record's UUID; UUID text sorts as that number. */
  datatype Record = Record(
    id: nat,
    sourceText: string,
    details: string,
    createdMs: nat,
    updatedMs: nat,
    session: SessionId)

  datatype Retention = Retention(
    maxRecords: nat,
    maxTotalBytes: nat,
    maxItemBytes: nat,
    maxAgeDays: Option<nat>)

  const HARD_MAX_ITEM_BYTES: nat := 64 * 1024 * 1024
  const MAX_SCAN_ENTRIES: nat := 2048
  const MAX_SCAN_BYTES: nat := 128 * 1024 * 1024
  const MAX_ISSUES: nat := 64
  const DAY_MS: nat := 86_400_000

  predicate ValidRetention(policy: Retention) {
    && policy.maxRecords <= MAX_SCAN_ENTRIES
    && 0 < policy.maxItemBytes <= HARD_MAX_ITEM_BYTES
    && 0 < policy.maxTotalBytes <= MAX_SCAN_BYTES
  }

  /** A name in the record directory: a record's own file name, any other
      `.json` name, or a name that record listing skips (temporaries). */
  datatype Name = Item(id: nat) | Json(text: string) | Other(text: string)

  /** Why a file could not be read back as a record. */
  datatype ReadFault =
    Unreadable | UnsafePath | Oversized | Corrupt | ChecksumMismatch | UnsupportedVersion

  datatype Body = Decoded(record: Record) | Undecodable(fault: ReadFault)

  /** `Hidden` is an entry whose metadata cannot be read; `Irregular` a
      directory or a symbolic link. */
  datatype Entry = File(size: nat, body: Body) | Irregular | Hidden

  type Items = map<Name, Entry>

  /** A session marker file: locked by a running process, left behind by a dead
      one, or impossible to probe. */
  datatype Marker = Held | Released | Faulty

  type Markers = map<nat, Marker>

  datatype CapacityReason = Uninspected | LiveRecords | CannotHold | TooManyMarkers

  datatype Error =
    | Busy
    | OwnedByLiveSession
    | ItemTooLarge(actual: nat, limit: nat)
    | Capacity(reason: CapacityReason)
    | Io
    | IdentityMismatch
    | InvalidRetention

  /** The length of a record's encoded file. */
  type Encoder = Record -> nat

  function ReadRecord(entry: Entry): Result<Record, ReadFault> {
    match entry
    case Hidden => Err(Unreadable)
    case Irregular => Err(UnsafePath)
    case File(size, body) =>
      if size > HARD_MAX_ITEM_BYTES then Err(Oversized)
      else match body
        case Decoded(record) => Ok(record)
        case Undecodable(fault) => Err(fault)
  }

  /** The record a directory holds for `id`, with the errors a caller meets.
      An entry whose metadata cannot be read counts as missing. */
  function ReadExisting(items: Items, id: nat): Result<Option<Record>, Error> {
    if Item(id) !in items || items[Item(id)].Hidden? then Ok(None)
    else match ReadRecord(items[Item(id)])
      case Ok(record) => Ok(Some(record))
      case Err(_) => Err(Io)
  }

  /** What `is_session_live` answers for session `self` over the markers it
      observes: unparsable owners and unprobeable markers count as live. */
  predicate IsLive(view: Markers, self: nat, owner: SessionId) {
    || owner.Unparsed?
    || owner.value == self
    || (owner.value in view && !view[owner.value].Released?)
  }

  /** The session whose record occupies a name, however large the file is. */
  function OwnerOf(items: Items, name: Name): Option<SessionId> {
    if name in items && items[name].File? && items[name].body.Decoded?
    then Some(items[name].body.record.session)
    else None
  }
}
