/** The bounded directory listing, and what a clean listing guarantees. */
module RecoveryScan {
  import opened Wrappers
  import opened RecoveryTypes

  datatype IssueKind = Storage(fault: ReadFault) | RetentionIssue

  datatype Issue = Issue(kind: IssueKind, at: Option<Name>)

  datatype Listing = Listing(records: seq<Record>, issues: seq<Issue>, complete: bool)

  /** One answer of the directory iterator. */
  datatype Seen = Found(name: Name) | Fault

  predicate HasStorageIssue(listing: Listing) {
    exists i :: 0 <= i < |listing.issues| && listing.issues[i].kind.Storage?
  }

  predicate Clean(listing: Listing) {
    listing.complete && !HasStorageIssue(listing)
  }

  /** At most MAX_ISSUES issues are kept; an overflow marks the listing
      incomplete and lets an oversize report displace the last issue. */
  function AddIssue(listing: Listing, issue: Issue): Listing {
    if |listing.issues| < MAX_ISSUES then
      listing.(issues := listing.issues + [issue])
    else if issue.kind == Storage(Oversized) && |listing.issues| == MAX_ISSUES then
      listing.(complete := false, issues := listing.issues[MAX_ISSUES - 1 := issue])
    else
      listing.(complete := false)
  }

  /** The names the iterator reported are distinct entries of the directory;
      an iterator that reported no fault reported every entry. */
  ghost predicate Iterates(items: Items, scan: seq<Seen>) {
    && (forall i :: 0 <= i < |scan| && scan[i].Found? ==> scan[i].name in items)
    && (forall i, j :: 0 <= i < j < |scan| && scan[i].Found? && scan[j].Found? ==> scan[i].name != scan[j].name)
    && (Fault !in scan ==> forall n :: n in items ==> Found(n) in scan)
  }

  /** The directory iterator, absent when the directory cannot be opened. */
  ghost predicate Enumerates(items: Items, scan: Option<seq<Seen>>) {
    scan.Some? ==> Iterates(items, scan.value)
  }

  /** One pass of the listing loop over what is left of the iterator. */
  function ScanFrom(items: Items, scan: seq<Seen>, entries: nat, bytes: nat, listing: Listing): Listing
    requires forall i :: 0 <= i < |scan| && scan[i].Found? ==> scan[i].name in items
    decreases |scan|
  {
    if scan == [] then listing
    else if entries + 1 > MAX_SCAN_ENTRIES then
      AddIssue(listing.(complete := false), Issue(Storage(Oversized), None))
    else
      var rest := scan[1..];
      match scan[0]
      case Fault => ScanFrom(items, rest, entries + 1, bytes, AddIssue(listing, Issue(Storage(Unreadable), None)))
      case Found(name) =>
        if name.Other? then ScanFrom(items, rest, entries + 1, bytes, listing)
        else match items[name]
          case Hidden =>
            ScanFrom(items, rest, entries + 1, bytes, AddIssue(listing, Issue(Storage(Unreadable), Some(name))))
          case Irregular =>
            ScanFrom(items, rest, entries + 1, bytes, AddIssue(listing, Issue(Storage(UnsafePath), Some(name))))
          case File(size, _) =>
            if bytes + size > MAX_SCAN_BYTES then
              AddIssue(listing.(complete := false), Issue(Storage(Oversized), Some(name)))
            else
              ScanFrom(items, rest, entries + 1, bytes + size, Inspect(items[name], name, listing))
  }

  /** The outcome of decoding one regular `.json` file. */
  function Inspect(entry: Entry, name: Name, listing: Listing): Listing {
    match ReadRecord(entry)
    case Err(fault) => AddIssue(listing, Issue(Storage(fault), Some(name)))
    case Ok(record) =>
      if Item(record.id) != name then AddIssue(listing, Issue(Storage(Corrupt), Some(name)))
      else listing.(records := listing.records + [record])
  }

  function Blank(startup: Option<Issue>): Listing {
    if startup.Some? then AddIssue(Listing([], [], true), startup.value) else Listing([], [], true)
  }

  // ----- ordering -----

  predicate ByAge(a: Record, b: Record) {
    a.updatedMs < b.updatedMs || (a.updatedMs == b.updatedMs && a.id <= b.id)
  }

  predicate ByUpdated(a: Record, b: Record) {
    a.updatedMs <= b.updatedMs
  }

  function Insert(leq: (Record, Record) -> bool, r: Record, s: seq<Record>): seq<Record> {
    if s == [] then [r]
    else if leq(r, s[0]) then [r] + s
    else [s[0]] + Insert(leq, r, s[1..])
  }

  /** A stable sort. */
  function Sort(leq: (Record, Record) -> bool, s: seq<Record>): seq<Record> {
    if s == [] then [] else Insert(leq, s[0], Sort(leq, s[1..]))
  }

  ghost predicate Ordered(leq: (Record, Record) -> bool, s: seq<Record>) {
    forall i, j :: 0 <= i < j < |s| ==> leq(s[i], s[j])
  }

  lemma {:induction false} InsertKeeps(leq: (Record, Record) -> bool, r: Record, s: seq<Record>)
    ensures multiset(Insert(leq, r, s)) == multiset{r} + multiset(s)
  {
    if s != [] && !leq(r, s[0]) {
      InsertKeeps(leq, r, s[1..]);
      assert s == [s[0]] + s[1..];
    } else if s != [] {
      assert multiset([r] + s) == multiset{r} + multiset(s);
    }
  }

  lemma {:induction false} SortPermutes(leq: (Record, Record) -> bool, s: seq<Record>)
    ensures multiset(Sort(leq, s)) == multiset(s)
    ensures forall r :: r in Sort(leq, s) <==> r in s
  {
    if s != [] {
      SortPermutes(leq, s[1..]);
      InsertKeeps(leq, s[0], Sort(leq, s[1..]));
      assert s == [s[0]] + s[1..];
    }
    assert forall r :: r in Sort(leq, s) <==> r in multiset(Sort(leq, s));
    assert forall r :: r in s <==> r in multiset(s);
  }

  lemma {:induction false} InsertByAgeOrders(r: Record, s: seq<Record>)
    requires Ordered(ByAge, s)
    ensures Ordered(ByAge, Insert(ByAge, r, s))
  {
    if s != [] && !ByAge(r, s[0]) {
      InsertByAgeOrders(r, s[1..]);
      InsertKeeps(ByAge, r, s[1..]);
      var t := Insert(ByAge, r, s[1..]);
      forall i | 0 <= i < |t| ensures ByAge(s[0], t[i]) {
        assert t[i] in multiset(t);
        assert t[i] == r || t[i] in s[1..];
      }
    }
  }

  lemma {:induction false} SortByAgeOrders(s: seq<Record>)
    ensures Ordered(ByAge, Sort(ByAge, s))
  {
    if s != [] {
      SortByAgeOrders(s[1..]);
      InsertByAgeOrders(s[0], Sort(ByAge, s[1..]));
    }
  }

  /** A stable sort leaves an ordered sequence as it is. */
  lemma {:induction false} SortOrdered(leq: (Record, Record) -> bool, s: seq<Record>)
    requires Ordered(leq, s)
    ensures Sort(leq, s) == s
  {
    if s != [] {
      SortOrdered(leq, s[1..]);
    }
  }

  // ----- the whole listing -----

  function Listed(items: Items, startup: Option<Issue>, scan: Option<seq<Seen>>): Listing
    requires scan.Some? ==> forall i :: 0 <= i < |scan.value| && scan.value[i].Found? ==> scan.value[i].name in items
  {
    match scan
    case None => AddIssue(Blank(startup), Issue(Storage(Unreadable), None)).(complete := false)
    case Some(seen) =>
      var raw := ScanFrom(items, seen, 0, 0, Blank(startup));
      raw.(records := Sort(ByAge, raw.records))
  }

  /** The entry is a file of at most 64 MiB that holds the record its name promises. */
  predicate Readable(items: Items, name: Name) {
    && name in items
    && items[name].File? && items[name].size <= HARD_MAX_ITEM_BYTES
    && items[name].body.Decoded? && Item(items[name].body.record.id) == name
  }

  /** Every `.json` entry of the directory is a readable record. */
  ghost predicate Sound(items: Items) {
    forall n :: n in items && !n.Other? ==> Readable(items, n)
  }

  /** `records` names every `.json` entry of the directory exactly once. */
  ghost predicate Inventory(items: Items, records: seq<Record>) {
    && Sound(items)
    && (forall i :: 0 <= i < |records| ==>
          Item(records[i].id) in items && ReadRecord(items[Item(records[i].id)]) == Ok(records[i]))
    && (forall i, j :: 0 <= i < j < |records| ==> records[i].id != records[j].id)
    && (forall n :: n in items && !n.Other? ==> exists i :: 0 <= i < |records| && Item(records[i].id) == n)
  }

  /** The records met so far along a prefix of the iterator. */
  function Met(items: Items, scan: seq<Seen>): seq<Record>
    requires forall i :: 0 <= i < |scan| && scan[i].Found? ==> scan[i].name in items
  {
    if scan == [] then []
    else if scan[0].Found? && !scan[0].name.Other? && Readable(items, scan[0].name)
    then [ReadRecord(items[scan[0].name]).value] + Met(items, scan[1..])
    else Met(items, scan[1..])
  }

  lemma DirtyStays(listing: Listing, issue: Issue)
    ensures issue.kind.Storage? ==> !Clean(AddIssue(listing, issue))
    ensures !Clean(listing) ==> !Clean(AddIssue(listing, issue))
  {
    var after := AddIssue(listing, issue);
    if |listing.issues| < MAX_ISSUES {
      assert after.issues[|listing.issues|] == issue;
      if HasStorageIssue(listing) {
        var i :| 0 <= i < |listing.issues| && listing.issues[i].kind.Storage?;
        assert after.issues[i].kind.Storage?;
      }
    }
  }

  /** Up to 64 reports are kept, the oldest 63 for good; beyond that a report marks the
      listing incomplete, and only an oversize report still finds room, at the end. */
  lemma ReportsKept(listing: Listing, issue: Issue)
    requires |listing.issues| <= MAX_ISSUES
    ensures
      var after := AddIssue(listing, issue);
      && |after.issues| <= MAX_ISSUES && after.records == listing.records
      && (|listing.issues| < MAX_ISSUES ==> after.complete == listing.complete && issue in after.issues)
      && (|listing.issues| == MAX_ISSUES ==> !after.complete)
      && (issue.kind == Storage(Oversized) ==> after.issues != [] && after.issues[|after.issues| - 1] == issue)
      && (issue.kind != Storage(Oversized) || |listing.issues| < MAX_ISSUES ==> listing.issues <= after.issues)
      && (|listing.issues| == MAX_ISSUES ==> listing.issues[..MAX_ISSUES - 1] <= after.issues)
  {
  }

  /** A pass that ends clean skipped nothing: no cap was hit and every `.json`
      entry it was shown decoded under its own name. */
  lemma {:induction false} CleanScan(items: Items, scan: seq<Seen>, entries: nat, bytes: nat, listing: Listing)
    requires forall i :: 0 <= i < |scan| && scan[i].Found? ==> scan[i].name in items
    ensures
      var after := ScanFrom(items, scan, entries, bytes, listing);
      Clean(after) ==>
        && Clean(listing)
        && after.records == listing.records + Met(items, scan)
        && Fault !in scan
        && forall i :: 0 <= i < |scan| && !scan[i].name.Other? ==> Readable(items, scan[i].name)
    decreases |scan|
  {
    if scan == [] {
    } else if entries + 1 > MAX_SCAN_ENTRIES {
      DirtyStays(listing.(complete := false), Issue(Storage(Oversized), None));
    } else {
      var rest := scan[1..];
      match scan[0] {
        case Fault =>
          DirtyStays(listing, Issue(Storage(Unreadable), None));
          CleanScan(items, rest, entries + 1, bytes, AddIssue(listing, Issue(Storage(Unreadable), None)));
        case Found(name) =>
          if name.Other? {
            CleanScan(items, rest, entries + 1, bytes, listing);
          } else {
            CleanStep(items, scan, entries, bytes, listing);
          }
      }
    }
  }

  lemma {:induction false} CleanStep(items: Items, scan: seq<Seen>, entries: nat, bytes: nat, listing: Listing)
    requires forall i :: 0 <= i < |scan| && scan[i].Found? ==> scan[i].name in items
    requires scan != [] && scan[0].Found? && !scan[0].name.Other?
    requires entries + 1 <= MAX_SCAN_ENTRIES
    ensures
      var after := ScanFrom(items, scan, entries, bytes, listing);
      Clean(after) ==>
        && Clean(listing)
        && after.records == listing.records + Met(items, scan)
        && Fault !in scan
        && forall i :: 0 <= i < |scan| && !scan[i].name.Other? ==> Readable(items, scan[i].name)
    decreases |scan|, 0
  {
    var name := scan[0].name;
    match items[name] {
      case Hidden =>
        DirtyStays(listing, Issue(Storage(Unreadable), Some(name)));
        CleanScan(items, scan[1..], entries + 1, bytes, AddIssue(listing, Issue(Storage(Unreadable), Some(name))));
      case Irregular =>
        DirtyStays(listing, Issue(Storage(UnsafePath), Some(name)));
        CleanScan(items, scan[1..], entries + 1, bytes, AddIssue(listing, Issue(Storage(UnsafePath), Some(name))));
      case File(size, body) =>
        if bytes + size > MAX_SCAN_BYTES {
          DirtyStays(listing.(complete := false), Issue(Storage(Oversized), Some(name)));
        } else {
          match ReadRecord(items[name]) {
            case Err(fault) => DirtyStays(listing, Issue(Storage(fault), Some(name)));
            case Ok(record) => DirtyStays(listing, Issue(Storage(Corrupt), Some(name)));
          }
          CleanScan(items, scan[1..], entries + 1, bytes + size, Inspect(items[name], name, listing));
        }
    }
  }

  lemma {:induction false} MetIsComplete(items: Items, scan: seq<Seen>)
    requires forall i :: 0 <= i < |scan| && scan[i].Found? ==> scan[i].name in items
    requires forall i, j :: 0 <= i < j < |scan| && scan[i].Found? && scan[j].Found? ==> scan[i].name != scan[j].name
    ensures forall r :: r in Met(items, scan) ==>
              && Found(Item(r.id)) in scan && Item(r.id) in items && ReadRecord(items[Item(r.id)]) == Ok(r)
    ensures forall i, j :: 0 <= i < j < |Met(items, scan)| ==> Met(items, scan)[i].id != Met(items, scan)[j].id
    ensures forall n :: Found(n) in scan && !n.Other? && Readable(items, n) ==> ReadRecord(items[n]).value in Met(items, scan)
  {
    if scan != [] {
      var rest := scan[1..];
      MetIsComplete(items, rest);
      assert scan == [scan[0]] + rest;
      forall n | Found(n) in rest ensures Found(n) != scan[0] {
        var i :| 0 <= i < |rest| && rest[i] == Found(n);
        assert scan[i + 1] == Found(n);
      }
    }
  }

  /** A complete listing without storage issues has decoded every `.json` entry
      of the directory, in spite of the entry, byte and issue caps. */
  lemma CleanListingIsWholeDirectory(items: Items, startup: Option<Issue>, scan: Option<seq<Seen>>)
    requires Enumerates(items, scan)
    requires Clean(Listed(items, startup, scan))
    ensures Inventory(items, Listed(items, startup, scan).records)
    ensures Ordered(ByAge, Listed(items, startup, scan).records)
  {
    var listing := Listed(items, startup, scan);
    var raw := ScanFrom(items, scan.value, 0, 0, Blank(startup));
    assert listing.issues == raw.issues && listing.complete == raw.complete;
    CleanScan(items, scan.value, 0, 0, Blank(startup));
    MetIsComplete(items, scan.value);
    assert raw.records == Met(items, scan.value);
    SortPermutes(ByAge, raw.records);
    SortByAgeOrders(raw.records);
    forall n | n in items && !n.Other?
      ensures Readable(items, n) && exists i :: 0 <= i < |listing.records| && Item(listing.records[i].id) == n
    {
      assert Found(n) in scan.value;
      var k :| 0 <= k < |scan.value| && scan.value[k] == Found(n);
      assert !scan.value[k].name.Other?;
      var r := ReadRecord(items[n]).value;
      assert r in listing.records;
    }
    DistinctIdsPermute(raw.records, listing.records);
  }

  lemma DistinctIdsPermute(s: seq<Record>, t: seq<Record>)
    requires multiset(s) == multiset(t)
    requires forall i, j :: 0 <= i < j < |s| ==> s[i].id != s[j].id
    ensures forall i, j :: 0 <= i < j < |t| ==> t[i].id != t[j].id
  {
    forall i, j | 0 <= i < j < |t| ensures t[i].id != t[j].id {
      if t[i].id == t[j].id {
        assert t[i] in multiset(t) && t[j] in multiset(t);
        var a :| 0 <= a < |s| && s[a] == t[i];
        var b :| 0 <= b < |s| && s[b] == t[j];
        assert a == b;
        RepeatCounts(t, i, j);
        OnceCounts(s, a);
        assert false;
      }
    }
  }

  lemma RepeatCounts(t: seq<Record>, i: nat, j: nat)
    requires i < j < |t| && t[i] == t[j]
    ensures multiset(t)[t[i]] >= 2
  {
    assert t == t[..j] + [t[j]] + t[j + 1..];
    assert t[..j][i] == t[i];
    assert t[i] in multiset(t[..j]);
  }

  lemma OnceCounts(s: seq<Record>, a: nat)
    requires a < |s|
    requires forall i, j :: 0 <= i < j < |s| ==> s[i].id != s[j].id
    ensures multiset(s)[s[a]] == 1
  {
    assert s == s[..a] + [s[a]] + s[a + 1..];
    assert s[a] !in s[..a] && s[a] !in s[a + 1..];
  }

  /** The bytes the listing would have to read along the iterator. */
  function ReadBytes(items: Items, scan: seq<Seen>): nat
    requires forall i :: 0 <= i < |scan| && scan[i].Found? ==> scan[i].name in items
  {
    if scan == [] then 0
    else
      (if scan[0].Found? && !scan[0].name.Other? && items[scan[0].name].File? then items[scan[0].name].size else 0)
      + ReadBytes(items, scan[1..])
  }

  lemma {:induction false} CleanScanExactly(items: Items, scan: seq<Seen>, entries: nat, bytes: nat, listing: Listing)
    requires forall i :: 0 <= i < |scan| && scan[i].Found? ==> scan[i].name in items
    requires entries <= MAX_SCAN_ENTRIES && bytes <= MAX_SCAN_BYTES
    ensures Clean(ScanFrom(items, scan, entries, bytes, listing)) <==>
            && Clean(listing)
            && entries + |scan| <= MAX_SCAN_ENTRIES
            && bytes + ReadBytes(items, scan) <= MAX_SCAN_BYTES
            && Fault !in scan
            && forall i :: 0 <= i < |scan| && !scan[i].name.Other? ==> Readable(items, scan[i].name)
    decreases |scan|
  {
    CleanScan(items, scan, entries, bytes, listing);
    if scan != [] {
      var rest := scan[1..];
      assert scan == [scan[0]] + rest;
      assert Fault in scan <==> scan[0] == Fault || Fault in rest;
      if entries + 1 > MAX_SCAN_ENTRIES {
        DirtyStays(listing.(complete := false), Issue(Storage(Oversized), None));
      } else if scan[0].Found? {
        var name := scan[0].name;
        if name.Other? {
          CleanScanExactly(items, rest, entries + 1, bytes, listing);
          if Fault !in scan { RestReadable(items, scan); }
        } else if items[name].File? && bytes + items[name].size <= MAX_SCAN_BYTES {
          CleanScanExactly(items, rest, entries + 1, bytes + items[name].size, Inspect(items[name], name, listing));
          if Fault !in scan { RestReadable(items, scan); }
          if Readable(items, name) {
            assert Clean(Inspect(items[name], name, listing)) == Clean(listing);
          }
        }
      }
    }
  }

  lemma RestReadable(items: Items, scan: seq<Seen>)
    requires scan != [] && Fault !in scan
    ensures
      (forall i :: 0 <= i < |scan| && !scan[i].name.Other? ==> Readable(items, scan[i].name)) <==>
      (!scan[0].name.Other? ==> Readable(items, scan[0].name)) &&
      (forall i :: 0 <= i < |scan[1..]| && !scan[1..][i].name.Other? ==> Readable(items, scan[1..][i].name))
  {
    forall i | 0 < i < |scan| ensures scan[i] == scan[1..][i - 1] {}
  }

  /** Exactly when listing inspects everything: the iterator never failed, the
      directory is within the entry and byte budgets (names that are not records
      count toward the first), and every `.json` entry is a readable record. */
  lemma CleanListingExactly(items: Items, startup: Option<Issue>, scan: seq<Seen>)
    requires Iterates(items, scan)
    requires startup.Some? ==> startup.value.kind == RetentionIssue
    ensures Clean(Listed(items, startup, Some(scan))) <==>
            && Fault !in scan
            && |scan| <= 2048
            && ReadBytes(items, scan) <= 128 * 1024 * 1024
            && Sound(items)
  {
    CleanScanExactly(items, scan, 0, 0, Blank(startup));
    var raw := ScanFrom(items, scan, 0, 0, Blank(startup));
    assert Clean(Blank(startup));
    assert Clean(Listed(items, startup, Some(scan))) == Clean(raw);
    if Fault !in scan {
      forall i | 0 <= i < |scan| ensures scan[i].name in items {}
      forall n | n in items && !n.Other?
        ensures exists i :: 0 <= i < |scan| && scan[i].name == n
      {
        assert Found(n) in scan;
      }
    }
  }
}
