/** Retention: which records give way when the store must shrink. */
module RecoveryPolicy {
  import opened Wrappers
  import opened RecoveryTypes

  function Size(len: Encoder, records: seq<Record>): nat {
    if records == [] then 0 else len(records[0]) + Size(len, records[1..])
  }

  function Ids(records: seq<Record>): seq<nat> {
    if records == [] then [] else [records[0].id] + Ids(records[1..])
  }

  /** The earliest update time that age-based expiry tolerates. */
  function Cutoff(policy: Retention, nowMs: nat): Option<nat> {
    match policy.maxAgeDays
    case None => None
    case Some(days) => Some(if nowMs < days * DAY_MS then 0 else nowMs - days * DAY_MS)
  }

  predicate Expired(cutoff: Option<nat>, view: Markers, self: nat, r: Record) {
    cutoff.Some? && r.updatedMs < cutoff.value && !IsLive(view, self, r.session)
  }

  function Unexpired(cutoff: Option<nat>, view: Markers, self: nat, records: seq<Record>): seq<Record> {
    if records == [] then []
    else if Expired(cutoff, view, self, records[0]) then Unexpired(cutoff, view, self, records[1..])
    else [records[0]] + Unexpired(cutoff, view, self, records[1..])
  }

  function Lapsed(cutoff: Option<nat>, view: Markers, self: nat, records: seq<Record>): seq<Record> {
    if records == [] then []
    else if Expired(cutoff, view, self, records[0]) then [records[0]] + Lapsed(cutoff, view, self, records[1..])
    else Lapsed(cutoff, view, self, records[1..])
  }

  /** The records of dead sessions, in order. */
  function Dead(view: Markers, self: nat, records: seq<Record>): seq<Record> {
    if records == [] then []
    else if IsLive(view, self, records[0].session) then Dead(view, self, records[1..])
    else [records[0]] + Dead(view, self, records[1..])
  }

  /** What is left once the first `k` dead-session records are gone. */
  function DropDead(view: Markers, self: nat, records: seq<Record>, k: nat): seq<Record> {
    if records == [] || k == 0 then records
    else if IsLive(view, self, records[0].session) then [records[0]] + DropDead(view, self, records[1..], k)
    else DropDead(view, self, records[1..], k - 1)
  }

  /** Both limits hold once `extra` records of `need` bytes have been added. */
  predicate Fits(len: Encoder, policy: Retention, extra: nat, need: nat, records: seq<Record>) {
    |records| + extra <= policy.maxRecords && Size(len, records) + need <= policy.maxTotalBytes
  }

  /** The position of the first dead-session record, or the length if none. */
  function FirstDead(view: Markers, self: nat, records: seq<Record>): (i: nat)
    ensures i <= |records|
    ensures i < |records| ==> !IsLive(view, self, records[i].session)
    ensures forall j :: 0 <= j < i ==> IsLive(view, self, records[j].session)
  {
    if records == [] then 0
    else if !IsLive(view, self, records[0].session) then 0
    else 1 + FirstDead(view, self, records[1..])
  }

  /** The number of oldest dead-session records to evict: `k` is the shortest
      run after which both limits hold. */
  ghost predicate ShortestRun(
    len: Encoder, policy: Retention, extra: nat, need: nat, view: Markers, self: nat, records: seq<Record>, k: nat)
  {
    && k <= |Dead(view, self, records)|
    && Fits(len, policy, extra, need, DropDead(view, self, records, k))
    && forall j :: 0 <= j < k ==> !Fits(len, policy, extra, need, DropDead(view, self, records, j))
  }

  /** Evicting every dead-session record would not be enough. */
  predicate Hopeless(
    len: Encoder, policy: Retention, extra: nat, need: nat, view: Markers, self: nat, records: seq<Record>)
  {
    !Fits(len, policy, extra, need, DropDead(view, self, records, |Dead(view, self, records)|))
  }

  /** The length of the shortest sufficient run at or after `k`. */
  function RunLength(
    len: Encoder, policy: Retention, extra: nat, need: nat, view: Markers, self: nat, records: seq<Record>, k: nat)
    : (run: Option<nat>)
    requires k <= |Dead(view, self, records)|
    ensures run.Some? ==> k <= run.value <= |Dead(view, self, records)|
    decreases |Dead(view, self, records)| - k
  {
    if Fits(len, policy, extra, need, DropDead(view, self, records, k)) then Some(k)
    else if k == |Dead(view, self, records)| then None
    else RunLength(len, policy, extra, need, view, self, records, k + 1)
  }

  lemma {:induction false} DropDeadSize(len: Encoder, view: Markers, self: nat, records: seq<Record>, k: nat)
    requires k <= |Dead(view, self, records)|
    ensures |DropDead(view, self, records, k)| == |records| - k
    ensures Size(len, DropDead(view, self, records, k)) + Size(len, Dead(view, self, records)[..k]) == Size(len, records)
  {
    if records != [] && k != 0 {
      var rest := records[1..];
      if IsLive(view, self, records[0].session) {
        DropDeadSize(len, view, self, rest, k);
        assert ([records[0]] + DropDead(view, self, rest, k))[1..] == DropDead(view, self, rest, k);
        assert Dead(view, self, records) == Dead(view, self, rest);
      } else {
        DropDeadSize(len, view, self, rest, k - 1);
        assert Dead(view, self, records)[..k] == [records[0]] + Dead(view, self, rest)[..k - 1];
      }
    } else {
      assert Dead(view, self, records)[..k] == [];
    }
  }

  lemma {:induction false} SizePrefix(len: Encoder, s: seq<Record>, i: nat, j: nat)
    requires i <= j <= |s|
    ensures Size(len, s[..i]) <= Size(len, s[..j])
  {
    if i != 0 {
      SizePrefix(len, s[1..], i - 1, j - 1);
      assert s[..i] == [s[0]] + s[1..][..i - 1];
      assert s[..j] == [s[0]] + s[1..][..j - 1];
    }
  }

  /** Once a run is long enough, so is every longer one. */
  lemma FitsGrows(
    len: Encoder, policy: Retention, extra: nat, need: nat, view: Markers, self: nat, records: seq<Record>, i: nat, j: nat)
    requires i <= j <= |Dead(view, self, records)|
    requires Fits(len, policy, extra, need, DropDead(view, self, records, i))
    ensures Fits(len, policy, extra, need, DropDead(view, self, records, j))
  {
    DropDeadSize(len, view, self, records, i);
    DropDeadSize(len, view, self, records, j);
    SizePrefix(len, Dead(view, self, records), i, j);
  }

  /** Eviction takes the shortest oldest-first run, and gives up exactly when
      even losing every dead-session record would not be enough. */
  lemma {:induction false} RunLengthExact(
    len: Encoder, policy: Retention, extra: nat, need: nat, view: Markers, self: nat, records: seq<Record>, k: nat)
    requires k <= |Dead(view, self, records)|
    requires forall j :: 0 <= j < k ==> !Fits(len, policy, extra, need, DropDead(view, self, records, j))
    ensures
      var run := RunLength(len, policy, extra, need, view, self, records, k);
      && (run.None? <==> Hopeless(len, policy, extra, need, view, self, records))
      && (run.Some? ==> ShortestRun(len, policy, extra, need, view, self, records, run.value))
    decreases |Dead(view, self, records)| - k
  {
    if Fits(len, policy, extra, need, DropDead(view, self, records, k)) {
      FitsGrows(len, policy, extra, need, view, self, records, k, |Dead(view, self, records)|);
    } else if k < |Dead(view, self, records)| {
      RunLengthExact(len, policy, extra, need, view, self, records, k + 1);
    }
  }

  /** Removing the first dead record of what is left lengthens the run by one. */
  lemma {:induction false} NextVictim(view: Markers, self: nat, records: seq<Record>, k: nat)
    requires k <= |Dead(view, self, records)|
    ensures
      var left := DropDead(view, self, records, k);
      var i := FirstDead(view, self, left);
      && (i == |left| <==> k == |Dead(view, self, records)|)
      && (i < |left| ==>
            && left[i] == Dead(view, self, records)[k]
            && left[..i] + left[i + 1..] == DropDead(view, self, records, k + 1))
  {
    hide IsLive;
    if records != [] {
      var rest := records[1..];
      if IsLive(view, self, records[0].session) {
        NextVictim(view, self, rest, k);
        BehindLive(view, self, records, k);
        var tail := DropDead(view, self, rest, k);
        PopBehind(records[0], tail, FirstDead(view, self, tail));
        assert Dead(view, self, records) == Dead(view, self, rest);
      } else if k == 0 {
        assert DropDead(view, self, rest, 0) == rest;
        assert records[..0] + records[1..] == rest;
      } else {
        NextVictim(view, self, rest, k - 1);
      }
    }
  }

  lemma BehindLive(view: Markers, self: nat, records: seq<Record>, k: nat)
    requires records != [] && IsLive(view, self, records[0].session)
    ensures DropDead(view, self, records, k) == [records[0]] + DropDead(view, self, records[1..], k)
    ensures FirstDead(view, self, DropDead(view, self, records, k)) ==
            1 + FirstDead(view, self, DropDead(view, self, records[1..], k))
  {
    var tail := DropDead(view, self, records[1..], k);
    if k == 0 {
      assert records == [records[0]] + records[1..];
    }
    assert ([records[0]] + tail)[1..] == tail;
  }

  lemma PopBehind(r: Record, tail: seq<Record>, i: nat)
    requires i <= |tail|
    ensures i < |tail| ==>
              ([r] + tail)[..i + 1] + ([r] + tail)[i + 2..] == [r] + (tail[..i] + tail[i + 1..])
  {
  }

  /** Where the eviction loop stands after `|chosen|` victims. */
  ghost predicate Evicting(
    len: Encoder, policy: Retention, extra: nat, need: nat, view: Markers, self: nat, records: seq<Record>,
    retained: seq<Record>, chosen: seq<nat>, size: nat)
  {
    && |chosen| <= |Dead(view, self, records)|
    && retained == DropDead(view, self, records, |chosen|)
    && size == Size(len, retained)
    && chosen == Ids(Dead(view, self, records)[..|chosen|])
    && RunLength(len, policy, extra, need, view, self, records, 0) ==
       RunLength(len, policy, extra, need, view, self, records, |chosen|)
  }

  /** One turn of the eviction loop, with the first dead record at `i`. */
  lemma EvictionStep(
    len: Encoder, policy: Retention, extra: nat, need: nat, view: Markers, self: nat, records: seq<Record>,
    retained: seq<Record>, chosen: seq<nat>, size: nat, i: nat)
    requires Evicting(len, policy, extra, need, view, self, records, retained, chosen, size)
    requires !Fits(len, policy, extra, need, retained)
    requires i == FirstDead(view, self, retained)
    ensures i == |retained| ==> RunLength(len, policy, extra, need, view, self, records, 0) == None
    ensures i < |retained| ==>
              && size >= len(retained[i])
              && Evicting(len, policy, extra, need, view, self, records,
                          retained[..i] + retained[i + 1..], chosen + [retained[i].id], size - len(retained[i]))
  {
    var k := |chosen|;
    var dead := Dead(view, self, records);
    NextVictim(view, self, records, k);
    if i < |retained| {
      SizeSplit(len, retained, i);
      assert dead[..k + 1] == dead[..k] + [dead[k]];
      IdsAppend(dead[..k], dead[k]);
    }
  }

  /** The loop shared by saving and pruning: while a limit is exceeded, evict
      the oldest record of a dead session, or refuse when none is left. */
  method EvictOldestDead(
    len: Encoder, policy: Retention, extra: nat, need: nat, view: Markers, self: nat, records: seq<Record>)
    returns (victims: Option<seq<nat>>)
    ensures victims ==
            match RunLength(len, policy, extra, need, view, self, records, 0)
            case None => None
            case Some(k) => Some(Ids(Dead(view, self, records)[..k]))
  {
    var retained := records;
    var chosen: seq<nat> := [];
    var size: nat := TotalSize(len, retained);
    assert DropDead(view, self, records, 0) == records;
    assert Dead(view, self, records)[..0] == [];
    while |retained| + extra > policy.maxRecords || size + need > policy.maxTotalBytes
      invariant Evicting(len, policy, extra, need, view, self, records, retained, chosen, size)
      decreases |retained|
    {
      var index := FirstDead(view, self, retained);
      EvictionStep(len, policy, extra, need, view, self, records, retained, chosen, size, index);
      if index == |retained| {
        return None;
      }
      var oldest := retained[index];
      retained := retained[..index] + retained[index + 1..];
      size := size - len(oldest);
      chosen := chosen + [oldest.id];
    }
    victims := Some(chosen);
  }

  method TotalSize(len: Encoder, records: seq<Record>) returns (size: nat)
    ensures size == Size(len, records)
  {
    size := 0;
    for i := 0 to |records|
      invariant size + Size(len, records[i..]) == Size(len, records)
    {
      assert records[i..][1..] == records[i + 1..];
      size := size + len(records[i]);
    }
  }

  lemma {:induction false} SizeSplit(len: Encoder, s: seq<Record>, i: nat)
    requires i < |s|
    ensures Size(len, s[..i] + s[i + 1..]) + len(s[i]) == Size(len, s)
  {
    if i == 0 {
      assert s[..0] + s[1..] == s[1..];
    } else {
      SizeSplit(len, s[1..], i - 1);
      assert (s[..i] + s[i + 1..])[1..] == s[1..][..i - 1] + s[1..][i..];
    }
  }

  lemma {:induction false} IdsAppend(s: seq<Record>, r: Record)
    ensures Ids(s + [r]) == Ids(s) + [r.id]
  {
    if s == [] {
      assert [r][1..] == [];
    } else {
      IdsAppend(s[1..], r);
      assert (s + [r])[1..] == s[1..] + [r];
    }
  }

  /** The age-based pass: expired records of dead sessions leave, in order. */
  method RetainUnexpired(cutoff: Option<nat>, view: Markers, self: nat, records: seq<Record>)
    returns (kept: seq<Record>, victims: seq<nat>)
    ensures kept == Unexpired(cutoff, view, self, records)
    ensures victims == Ids(Lapsed(cutoff, view, self, records))
  {
    hide Expired;
    kept, victims := [], [];
    ghost var lapsed: seq<Record> := [];
    for i := 0 to |records|
      invariant kept + Unexpired(cutoff, view, self, records[i..]) == Unexpired(cutoff, view, self, records)
      invariant lapsed + Lapsed(cutoff, view, self, records[i..]) == Lapsed(cutoff, view, self, records)
      invariant victims == Ids(lapsed)
    {
      assert records[i..][1..] == records[i + 1..];
      if Expired(cutoff, view, self, records[i]) {
        IdsAppend(lapsed, records[i]);
        victims := victims + [records[i].id];
        lapsed := lapsed + [records[i]];
      } else {
        kept := kept + [records[i]];
      }
    }
    assert records[|records|..] == [];
    assert lapsed == Lapsed(cutoff, view, self, records);
  }
}
