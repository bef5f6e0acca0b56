/** A personal collection kept in one file by several handles: each writes only
    under the file's lock and only over the content it last saw. */
module Collection {
  import opened Wrappers

  const MAX_STORE_BYTES: nat := 16 * 1024 * 1024
  const MAX_ITEMS: nat := 10_000

  datatype Item = Item(id: string, body: string)

  /** Comparing digests is modelled as comparing contents. */
  datatype Content =
    | Absent
    | Saved(items: seq<Item>)
    | Garbled
    | OtherVersion
    | NotAFile
    | Oversized
    | Unreadable

  datatype StoreError =
    | Io
    | Malformed
    | UnsupportedVersion
    | NotRegular
    | TooLarge
    | BadItem
    | DuplicateId(id: string)
    | ConcurrentChange
    | DurabilityUncertain

  /** What is taken as given: which items are well formed, and encoded sizes. */
  datatype Rules = Rules(valid: Item -> bool, size: seq<Item> -> nat)

  datatype Commit = Added(item: Item) | Removed(id: string)

  function Without(items: seq<Item>, id: string): (r: seq<Item>)
    ensures forall x :: x in r <==> x in items && x.id != id
  {
    if items == [] then []
    else (if items[0].id == id then [] else [items[0]]) + Without(items[1..], id)
  }

  function Apply(items: seq<Item>, c: Commit): seq<Item> {
    match c
    case Added(item) => items + [item]
    case Removed(id) => Without(items, id)
  }

  ghost predicate Unique(items: seq<Item>) {
    forall i, j :: 0 <= i < j < |items| ==> items[i].id != items[j].id
  }

  ghost predicate Acceptable(items: seq<Item>, rules: Rules) {
    |items| <= MAX_ITEMS && Unique(items) && forall x :: x in items ==> rules.valid(x)
  }

  lemma {:induction false} WithoutNone(items: seq<Item>, id: string)
    requires forall i :: 0 <= i < |items| ==> items[i].id != id
    ensures Without(items, id) == items
  {
    if items != [] {
      WithoutNone(items[1..], id);
      assert items == [items[0]] + items[1..];
    }
  }

  /** Removing an identity from an acceptable list takes its one item out of its place
      and leaves the others in theirs. */
  lemma {:induction false} RemovedInPlace(items: seq<Item>, k: nat)
    requires Unique(items) && k < |items|
    ensures Apply(items, Removed(items[k].id)) == items[..k] + items[k + 1..]
  {
    var id, rest := items[k].id, items[1..];
    if k == 0 {
      WithoutNone(rest, id);
    } else {
      assert rest[k - 1] == items[k] && items[0].id != id;
      RemovedInPlace(rest, k - 1);
      assert items[..k] == [items[0]] + rest[..k - 1] && items[k + 1..] == rest[k..];
    }
  }

  predicate HasId(items: seq<Item>, id: string) {
    exists i :: 0 <= i < |items| && items[i].id == id
  }

  /** Accepts exactly the lists within the limit, of well-formed items, in which no
      identity occurs twice. */
  method ValidateItems(items: seq<Item>, rules: Rules) returns (problem: Option<StoreError>)
    ensures problem.None? <==> Acceptable(items, rules)
    ensures problem == Some(TooLarge) <==> |items| > MAX_ITEMS
    ensures problem.Some? ==> problem.value.TooLarge? || problem.value.BadItem? || problem.value.DuplicateId?
    ensures problem.Some? && problem.value.DuplicateId? ==>
              exists i, j :: 0 <= i < j < |items| && items[i].id == items[j].id == problem.value.id
  {
    if |items| > MAX_ITEMS {
      return Some(TooLarge);
    }
    var identities: set<string> := {};
    for i := 0 to |items|
      invariant identities == set k | 0 <= k < i :: items[k].id
      invariant forall k :: 0 <= k < i ==> rules.valid(items[k])
      invariant forall j, k :: 0 <= j < k < i ==> items[j].id != items[k].id
    {
      assert items[i] in items;
      if !rules.valid(items[i]) {
        return Some(BadItem);
      }
      if items[i].id in identities {
        return Some(DuplicateId(items[i].id));
      }
      identities := identities + {items[i].id};
    }
    return None;
  }

  // ----- one handle -----

  /** Where an operation on the file system fails, if it does. */
  datatype Fault = NoFault | BeforeLock | LockHeld | BeforeReplace | AfterReplace

  class StoreFile {
    var content: Content

    constructor (content: Content)
      ensures this.content == content
    {
      this.content := content;
    }
  }

  /** Why the bytes of the file cannot be had at all. */
  function Unread(content: Content): (e: Option<StoreError>)
    ensures e.Some? ==> !content.Saved? && !content.Absent? && !e.value.DurabilityUncertain?
  {
    match content
    case NotAFile => Some(NotRegular)
    case Oversized => Some(TooLarge)
    case Unreadable => Some(Io)
    case _ => None
  }

  /** What an outcome says about the file: `Ok` and uncertain durability both mean
      that the new content is in place. */
  predicate Committed(r: Result<(), StoreError>) {
    r.Ok? || r.error.DurabilityUncertain?
  }

  class CollectionStore {
    const file: StoreFile
    const rules: Rules
    var items: seq<Item>
    var seen: Content

    ghost predicate Valid()
      reads this
    {
      && Acceptable(items, rules)
      && ((seen == Absent && items == []) || seen == Saved(items))
    }

    constructor (file: StoreFile, rules: Rules, items: seq<Item>, seen: Content)
      requires Acceptable(items, rules)
      requires (seen == Absent && items == []) || seen == Saved(items)
      ensures Valid() && this.file == file && this.rules == rules && this.items == items && this.seen == seen
    {
      this.file := file;
      this.rules := rules;
      this.items := items;
      this.seen := seen;
    }

    /** Adds a new item. Unless the outcome is a commit, neither the file nor the
        handle changes; a commit puts exactly the items of the handle and the new
        one in a file that still had the content the handle last saw. */
    method Collect(item: Item, fault: Fault) returns (r: Result<(), StoreError>)
      requires Valid()
      modifies this, file
      ensures Valid()
      ensures !Committed(r) ==> items == old(items) && seen == old(seen) && file.content == old(file.content)
      ensures Committed(r) ==>
                && items == Apply(old(items), Added(item)) && seen == file.content == Saved(items)
                && old(file.content) == old(seen)
                && !HasId(old(items), item.id)
      ensures r.Ok? <==>
              && rules.valid(item) && !HasId(old(items), item.id) && |old(items)| < MAX_ITEMS
              && rules.size(old(items) + [item]) <= MAX_STORE_BYTES
              && fault == NoFault && old(file.content) == old(seen)
    {
      if !rules.valid(item) {
        return Err(BadItem);
      }
      if HasId(items, item.id) {
        return Err(DuplicateId(item.id));
      }
      r := Persist(items + [item], fault);
    }

    /** Removes the item of the given identity, if the handle has one. */
    method Remove(id: string, fault: Fault) returns (r: Result<bool, StoreError>)
      requires Valid()
      modifies this, file
      ensures Valid()
      ensures r == Ok(false) <==> !HasId(old(items), id)
      ensures r == Ok(true) <==>
                && HasId(old(items), id) && rules.size(Without(old(items), id)) <= MAX_STORE_BYTES
                && fault == NoFault && old(file.content) == old(seen)
      ensures r == Ok(true) || (r.Err? && r.error.DurabilityUncertain?) ==>
                && items == Apply(old(items), Removed(id)) && seen == file.content == Saved(items)
                && old(file.content) == old(seen)
      ensures r == Ok(false) || (r.Err? && !r.error.DurabilityUncertain?) ==>
                items == old(items) && seen == old(seen) && file.content == old(file.content)
    {
      if !HasId(items, id) {
        return Ok(false);
      }
      WithoutAcceptable(items, id, rules);
      var saved := Persist(Without(items, id), fault);
      r := if saved.Ok? then Ok(true) else Err(saved.error);
    }

    method Persist(candidate: seq<Item>, fault: Fault) returns (r: Result<(), StoreError>)
      requires Valid()
      modifies this, file
      ensures Valid()
      ensures Committed(r) ==> items == candidate && seen == file.content == Saved(candidate) && old(file.content) == old(seen)
      ensures !Committed(r) ==> items == old(items) && seen == old(seen) && file.content == old(file.content)
      ensures r.Ok? <==>
              && Acceptable(candidate, rules) && rules.size(candidate) <= MAX_STORE_BYTES
              && fault == NoFault && old(file.content) == old(seen)
    {
      var problem := ValidateItems(candidate, rules);
      if problem.Some? {
        return Err(problem.value);
      }
      if rules.size(candidate) > MAX_STORE_BYTES {
        return Err(TooLarge);
      }
      if fault == BeforeLock {
        return Err(Io);
      }
      if fault == LockHeld {
        return Err(ConcurrentChange);
      }
      if Unread(file.content).Some? {
        return Err(Unread(file.content).value);
      }
      if file.content != seen {
        return Err(ConcurrentChange);
      }
      if fault == BeforeReplace {
        return Err(Io);
      }
      file.content := Saved(candidate);
      items := candidate;
      seen := Saved(candidate);
      if fault == AfterReplace {
        return Err(DurabilityUncertain);
      }
      return Ok(());
    }
  }

  /** Opens a handle on what the file holds, and never changes the file. */
  method Open(file: StoreFile, rules: Rules) returns (r: Result<CollectionStore, StoreError>)
    ensures r.Ok? ==> fresh(r.value) && r.value.Valid() && r.value.file == file && r.value.rules == rules
    ensures r.Ok? ==> r.value.seen == file.content
    ensures r.Ok? <==> file.content == Absent || (file.content.Saved? && Acceptable(file.content.items, rules))
  {
    match file.content {
      case Garbled => return Err(Malformed);
      case OtherVersion => return Err(UnsupportedVersion);
      case NotAFile => return Err(NotRegular);
      case Oversized => return Err(TooLarge);
      case Unreadable => return Err(Io);
      case Absent =>
        var store := new CollectionStore(file, rules, [], Absent);
        return Ok(store);
      case Saved(items) =>
        var problem := ValidateItems(items, rules);
        if problem.Some? {
          return Err(problem.value);
        }
        var store := new CollectionStore(file, rules, items, Saved(items));
        return Ok(store);
    }
  }

  lemma {:induction false} WithoutShorter(items: seq<Item>, id: string)
    ensures |Without(items, id)| <= |items|
  {
    if items != [] {
      WithoutShorter(items[1..], id);
    }
  }

  lemma {:induction false} WithoutUnique(items: seq<Item>, id: string)
    requires Unique(items)
    ensures Unique(Without(items, id))
  {
    if items != [] {
      var rest, kept := items[1..], Without(items[1..], id);
      assert forall i :: 0 <= i < |rest| ==> rest[i] == items[i + 1];
      WithoutUnique(rest, id);
      forall i | 0 <= i < |kept| ensures kept[i].id != items[0].id {
        assert kept[i] in rest;
      }
    }
  }

  lemma WithoutAcceptable(items: seq<Item>, id: string, rules: Rules)
    requires Acceptable(items, rules)
    ensures Acceptable(Without(items, id), rules)
  {
    WithoutShorter(items, id);
    WithoutUnique(items, id);
  }
}
