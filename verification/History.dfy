/** The plain append-only history of recordings that the snapshot table stands for. */
module History {
  import opened Text
  import opened Json
  import opened Instants
  import opened Snapshots
  import opened Baseline

  datatype Recording = Recording(report: Report, at: Instant)

  function TargetOf(r: Recording): string {
    View(r.report).target
  }

  function KeyOf(r: Recording): Key {
    Key(TargetOf(r), Iso(r.at))
  }

  /** Per target, later recordings carry later stamps. */
  ghost predicate Increasing(h: seq<Recording>) {
    forall i, j | 0 <= i < j < |h| && TargetOf(h[i]) == TargetOf(h[j]) :: Before(h[i].at, h[j].at)
  }

  function Keys(h: seq<Recording>): seq<Key> {
    seq(|h|, i requires 0 <= i < |h| => KeyOf(h[i]))
  }

  /** The table holds one row for each recording and nothing else. */
  ghost predicate Represents(rows: Table, h: seq<Recording>) {
    && Increasing(h)
    && (forall k :: k in rows <==> k in Keys(h))
    && (forall i | 0 <= i < |h| :: KeyOf(h[i]) in rows && rows[KeyOf(h[i])].payload == Canonicalize(h[i].report))
  }

  /** The index of the last recording of a target. */
  function LastIndex(log: seq<Key>, target: string): (i: Option<nat>)
    ensures i.Some? ==> i.value < |log| && log[i.value].target == target
    ensures forall j | 0 <= j < |log| && log[j].target == target :: i.Some? && j <= i.value
  {
    if log == [] then None
    else if log[|log| - 1].target == target then Some(|log| - 1)
    else LastIndex(log[..|log| - 1], target)
  }

  /** The last recorded report of a target. */
  function Last(h: seq<Recording>, target: string): Option<Snapshot> {
    match LastIndex(Keys(h), target)
    case None => None
    case Some(i) => Some(View(h[i].report))
  }

  /** The one before the last. */
  function SecondLast(h: seq<Recording>, target: string): Option<Snapshot> {
    match LastIndex(Keys(h), target)
    case None => None
    case Some(i) => Last(h[..i], target)
  }

  lemma RepresentedIsValid(rows: Table, h: seq<Recording>)
    requires Represents(rows, h)
    ensures ValidTable(rows)
  {
    forall k | k in rows ensures IsPayload(rows[k].payload) {
      var i :| 0 <= i < |h| && Keys(h)[i] == k;
      PayloadReadsBack(h[i].report);
    }
  }

  /* ---------- the query on sorted stamps ---------- */

  lemma ListingAddGreatest(s: set<string>, x: string)
    requires forall y | y in s :: Less(y, x)
    ensures Listing(s + {x}) == Listing(s) + [x]
  {
    LessIsTotal(x, x);
    ListingListsSet(s);
    ListingListsSet(s + {x});
    var list := Listing(s) + [x];
    forall i | 0 <= i < |Listing(s)| ensures Less(list[i], x) {
      assert list[i] in Listing(s);
    }
    StrictlySortedIsUnique(Listing(s + {x}), list);
  }

  lemma SecondStampIs(s: set<string>, second: string, top: string)
    requires second in s && top in s && Less(second, top)
    requires forall x | x in s :: x == top || x == second || Less(x, second)
    ensures SecondStamp(s) == Some(second)
  {
    LessIsTotal(second, top);
    var rest := s - {second, top};
    assert rest + {second} + {top} == s;
    ListingAddGreatest(rest, second);
    forall x | x in rest + {second} ensures Less(x, top) {
      if x != second { LessIsTransitive(x, second, top); }
    }
    ListingAddGreatest(rest + {second}, top);
  }

  lemma LastOfListing(s: set<string>)
    requires s != {}
    ensures Listing(s) != []
    ensures
      var newest := Listing(s)[|Listing(s)| - 1];
      newest in s && forall x | x in s :: x == newest || Less(x, newest)
  {
    ListingListsSet(s);
    var list := Listing(s);
    assert list[|list| - 1] in list;
    forall x | x in s ensures x == list[|list| - 1] || Less(x, list[|list| - 1]) {
      var i :| 0 <= i < |list| && list[i] == x;
    }
  }

  lemma SecondIsNotNewest(s: set<string>, newest: string)
    requires newest in s && forall x | x in s :: x == newest || Less(x, newest)
    ensures SecondStamp(s) != Some(newest)
  {
    ListingListsSet(s);
    LastOfListing(s);
    LessIsTotal(newest, newest);
    var last := Listing(s)[|Listing(s)| - 1];
    LessIsTotal(newest, last);
  }

  /** Recording at `stamp` leaves the newest earlier stamp in second place exactly when `stamp` is
      later than it: an equal stamp overwrites, an earlier one hides behind it. */
  lemma SecondIsNewestEarlierIff(earlier: set<string>, stamp: string)
    requires earlier != {}
    ensures
      var list := Listing(earlier);
      && list != []
      && (SecondStamp(earlier + {stamp}) == Some(list[|list| - 1]) <==> Less(list[|list| - 1], stamp))
  {
    LastOfListing(earlier);
    var list := Listing(earlier);
    var newest := list[|list| - 1];
    LessIsTotal(newest, stamp);
    if Less(newest, stamp) {
      SecondStampIs(earlier + {stamp}, newest, stamp);
    } else {
      SecondIsNotNewest(earlier + {stamp}, newest);
    }
  }

  /* ---------- the query on a log of keys ---------- */

  ghost predicate Ascending(log: seq<Key>) {
    forall i, j | 0 <= i < j < |log| && log[i].target == log[j].target :: Less(log[i].recordedAt, log[j].recordedAt)
  }

  lemma IncreasingAscends(h: seq<Recording>)
    requires Increasing(h)
    ensures Ascending(Keys(h))
  {
    var log := Keys(h);
    forall i, j | 0 <= i < j < |log| && log[i].target == log[j].target
      ensures Less(log[i].recordedAt, log[j].recordedAt)
    {
      IsoOrder(h[i].at, h[j].at);
    }
  }

  ghost function KeySet(log: seq<Key>): set<Key> {
    set k | k in log
  }

  lemma StampsOfLog(log: seq<Key>, target: string, stamp: string)
    ensures stamp in Stamps(KeySet(log), target)
       <==> exists i :: 0 <= i < |log| && log[i] == Key(target, stamp)
  {
    StampHasKey(KeySet(log), target, stamp);
  }

  lemma NoKey(log: seq<Key>, target: string)
    requires LastIndex(log, target) == None
    ensures SecondStamp(Stamps(KeySet(log), target)) == None
  {
    forall x ensures x !in Stamps(KeySet(log), target) { StampsOfLog(log, target, x); }
    assert Stamps(KeySet(log), target) == {};
  }

  lemma OneKey(log: seq<Key>, target: string, i: nat)
    requires LastIndex(log, target) == Some(i) && LastIndex(log[..i], target) == None
    ensures SecondStamp(Stamps(KeySet(log), target)) == None
  {
    assert forall k | 0 <= k < |log[..i]| :: log[..i][k] == log[k];
    forall x ensures x in Stamps(KeySet(log), target) <==> x == log[i].recordedAt {
      StampsOfLog(log, target, x);
    }
    assert Stamps(KeySet(log), target) == {log[i].recordedAt};
    ListingListsSet(Stamps(KeySet(log), target));
  }

  lemma TwoKeys(log: seq<Key>, target: string, i: nat, j: nat)
    requires Ascending(log) && LastIndex(log, target) == Some(i) && LastIndex(log[..i], target) == Some(j)
    ensures SecondStamp(Stamps(KeySet(log), target)) == Some(log[j].recordedAt)
  {
    var second, top := log[j].recordedAt, log[i].recordedAt;
    StampsOfLog(log, target, second);
    StampsOfLog(log, target, top);
    forall x | x in Stamps(KeySet(log), target) ensures x == top || x == second || Less(x, second) {
      StampsOfLog(log, target, x);
      var k :| 0 <= k < |log| && log[k] == Key(target, x);
      assert k < i ==> log[..i][k] == log[k];
    }
    SecondStampIs(Stamps(KeySet(log), target), second, top);
  }

  /* ---------- the query on a represented table ---------- */

  lemma RowOfRecording(rows: Table, h: seq<Recording>, j: nat)
    requires Represents(rows, h) && j < |h|
    ensures ValidTable(rows)
    ensures SecondStamp(Stamps(rows.Keys, TargetOf(h[j]))) == Some(Iso(h[j].at)) ==>
              PreviousIn(rows, TargetOf(h[j])) == Some(View(h[j].report))
  {
    RepresentedIsValid(rows, h);
    PayloadReadsBack(h[j].report);
  }

  lemma SecondLastByKeys(h: seq<Recording>, target: string)
    ensures
      var log := Keys(h);
      var last := LastIndex(log, target);
      var second := if last.Some? then LastIndex(log[..last.value], target) else None;
      SecondLast(h, target) == if second.Some? then Some(View(h[second.value].report)) else None
  {
    match LastIndex(Keys(h), target)
    case None =>
    case Some(i) => assert Keys(h[..i]) == Keys(h)[..i];
  }

  lemma SecondStampByKeys(log: seq<Key>, target: string)
    requires Ascending(log)
    ensures
      var last := LastIndex(log, target);
      var second := if last.Some? then LastIndex(log[..last.value], target) else None;
      SecondStamp(Stamps(KeySet(log), target)) == if second.Some? then Some(log[second.value].recordedAt) else None
  {
    match LastIndex(log, target)
    case None => NoKey(log, target);
    case Some(i) =>
      match LastIndex(log[..i], target)
      case None => OneKey(log, target, i);
      case Some(j) => TwoKeys(log, target, i, j);
  }

  /** What `previous` returns: the second newest recording, so asked before `record` it passes over
      the newest one. */
  lemma PreviousIsSecondLast(rows: Table, h: seq<Recording>, target: string)
    requires Represents(rows, h)
    ensures ValidTable(rows) && PreviousIn(rows, target) == SecondLast(h, target)
  {
    RepresentedIsValid(rows, h);
    IncreasingAscends(h);
    var log := Keys(h);
    assert rows.Keys == KeySet(log);
    SecondStampByKeys(log, target);
    SecondLastByKeys(h, target);
    var last := LastIndex(log, target);
    var second := if last.Some? then LastIndex(log[..last.value], target) else None;
    if second.Some? {
      RowOfRecording(rows, h, second.value);
    }
  }

  lemma NewKeyIsFresh(h: seq<Recording>, r: Recording)
    requires Increasing(h + [r])
    ensures KeyOf(r) !in Keys(h)
    ensures Increasing(h)
  {
    var h' := h + [r];
    forall i | 0 <= i < |h| ensures Keys(h)[i] != KeyOf(r) {
      assert h'[i] == h[i] && h'[|h|] == r;
      if TargetOf(h[i]) == TargetOf(r) {
        IsoOrder(h[i].at, r.at);
        LessIsTotal(Iso(h[i].at), Iso(r.at));
      }
    }
    assert forall i | 0 <= i < |h| :: h'[i] == h[i];
  }

  /** Recording extends the history: at a later stamp than the target's earlier ones no row is lost. */
  lemma RecordAppends(rows: Table, h: seq<Recording>, r: Recording, sha256: string -> string)
    requires Represents(rows, h) && Increasing(h + [r])
    ensures Represents(Stored(rows, r.report, r.at, sha256), h + [r])
  {
    hide View, Canonicalize, Increasing;
    NewKeyIsFresh(h, r);
    var h' := h + [r];
    var rows' := Stored(rows, r.report, r.at, sha256);
    assert Keys(h') == Keys(h) + [KeyOf(r)];
    assert rows'.Keys == rows.Keys + {KeyOf(r)};
    forall i | 0 <= i < |h'|
      ensures KeyOf(h'[i]) in rows' && rows'[KeyOf(h'[i])].payload == Canonicalize(h'[i].report)
    {
      if i < |h| {
        assert h'[i] == h[i] && Keys(h)[i] == KeyOf(h[i]);
      }
    }
  }

  /** After `record` the store compares with the last report recorded earlier, in history order. */
  lemma DiffAfterRecord(rows: Table, h: seq<Recording>, r: Recording, sha256: string -> string)
    requires Represents(rows, h) && Increasing(h + [r])
    ensures ValidTable(Stored(rows, r.report, r.at, sha256))
    ensures PreviousIn(Stored(rows, r.report, r.at, sha256), TargetOf(r)) == Last(h, TargetOf(r))
  {
    RecordAppends(rows, h, r, sha256);
    PreviousIsSecondLast(Stored(rows, r.report, r.at, sha256), h + [r], TargetOf(r));
    assert Keys(h + [r])[|h|] == KeyOf(r);
    assert (h + [r])[..|h|] == h;
  }

  /** The stamp of the last recording of a target. */
  function LastStamp(h: seq<Recording>, target: string): Option<string> {
    match LastIndex(Keys(h), target)
    case None => None
    case Some(i) => Some(Iso(h[i].at))
  }

  lemma SecondIsLastOnLog(log: seq<Key>, target: string)
    requires Ascending(log)
    ensures
      var last := LastIndex(log, target);
      var newest := if last.Some? then Some(log[last.value].recordedAt) else None;
      SecondStamp(Stamps(KeySet(log), target)) == newest <==> last.None?
  {
    hide SecondStamp, Stamps;
    SecondStampByKeys(log, target);
    match LastIndex(log, target)
    case None =>
    case Some(i) =>
      LessIsTotal(log[i].recordedAt, log[i].recordedAt);
      assert forall j | 0 <= j < i :: log[..i][j] == log[j];
  }

  /** Before a recording, the row in second place is the target's last one exactly when it has none. */
  lemma SecondIsLastIff(rows: Table, h: seq<Recording>, target: string)
    requires Represents(rows, h)
    ensures SecondStamp(Stamps(rows.Keys, target)) == LastStamp(h, target) <==> Last(h, target) == None
  {
    KeysOfTable(rows, h);
    hide View, SecondStamp, Stamps, Represents, Increasing, Iso, Ascending;
    IncreasingAscends(h);
    SecondIsLastOnLog(Keys(h), target);
  }

  lemma KeysOfTable(rows: Table, h: seq<Recording>)
    requires Represents(rows, h)
    ensures rows.Keys == KeySet(Keys(h)) && Increasing(h)
  {
    hide View, Canonicalize, Iso;
  }

  /** The order of the README example, diff first and record after, against that of `watch_once`: on
      every history the diff is against the second last recording where it should be against the last,
      and it is against the right row only when there is none. */
  lemma DiffBeforeRecordSkipsBaseline(rows: Table, h: seq<Recording>, r: Recording, sha256: string -> string)
    requires Represents(rows, h) && Increasing(h + [r])
    ensures ValidTable(rows) && PreviousIn(rows, TargetOf(r)) == SecondLast(h, TargetOf(r))
    ensures ValidTable(Stored(rows, r.report, r.at, sha256))
    ensures PreviousIn(Stored(rows, r.report, r.at, sha256), TargetOf(r)) == Last(h, TargetOf(r))
    ensures SecondStamp(Stamps(rows.Keys, TargetOf(r))) == LastStamp(h, TargetOf(r)) <==> Last(h, TargetOf(r)) == None
  {
    PreviousIsSecondLast(rows, h, TargetOf(r));
    DiffAfterRecord(rows, h, r, sha256);
    SecondIsLastIff(rows, h, TargetOf(r));
  }

  lemma SameKeysReplaced(h: seq<Recording>, i: nat, r: Recording)
    requires Increasing(h) && i < |h|
    ensures KeyOf(h[i]) == KeyOf(r) && h[i].at == r.at ==> Keys(h[i := r]) == Keys(h) && Increasing(h[i := r])
  {
    hide View, Iso, Before;
    if KeyOf(h[i]) == KeyOf(r) && h[i].at == r.at {
      var h' := h[i := r];
      assert forall k | 0 <= k < |h| :: KeyOf(h'[k]) == KeyOf(h[k]);
      assert forall k | 0 <= k < |h| :: TargetOf(h'[k]) == TargetOf(h[k]) && h'[k].at == h[k].at;
    }
  }

  lemma ReplacedInPlace(rows: Table, h: seq<Recording>, i: nat, r: Recording, sha256: string -> string)
    requires Represents(rows, h) && i < |h|
    ensures KeyOf(h[i]) == KeyOf(r) && h[i].at == r.at ==>
              Keys(h[i := r]) == Keys(h) && Represents(Stored(rows, r.report, r.at, sha256), h[i := r])
  {
    hide View, Canonicalize, Iso, Increasing;
    if KeyOf(h[i]) == KeyOf(r) && h[i].at == r.at {
      var h' := h[i := r];
      var rows' := Stored(rows, r.report, r.at, sha256);
      SameKeysReplaced(h, i, r);
      forall k | 0 <= k < |h|
        ensures KeyOf(h'[k]) in rows' && rows'[KeyOf(h'[k])].payload == Canonicalize(h'[k].report)
      {
        if k != i { KeysAreUnique(h, i, k); }
      }
      assert Keys(h)[i] == KeyOf(r);
    }
  }

  lemma KeysAreUnique(h: seq<Recording>, i: nat, k: nat)
    requires Increasing(h) && i < |h| && k < |h| && i != k
    ensures KeyOf(h[i]) != KeyOf(h[k])
  {
    IncreasingAscends(h);
    var log := Keys(h);
    LessIsTotal(log[i].recordedAt, log[k].recordedAt);
    assert log[i] == KeyOf(h[i]) && log[k] == KeyOf(h[k]);
  }

  /** A report recorded at the same instant as the target's last replaces it, and is compared with the
      one before. */
  lemma EqualStampsLoseBaseline(rows: Table, h: seq<Recording>, r: Recording, sha256: string -> string)
    requires Represents(rows, h)
    ensures
      var rows' := Stored(rows, r.report, r.at, sha256);
      var i := LastIndex(Keys(h), TargetOf(r));
      i.Some? && h[i.value].at == r.at ==>
        && Represents(rows', h[i.value := r])
        && ValidTable(rows') && PreviousIn(rows', TargetOf(r)) == SecondLast(h, TargetOf(r))
  {
    hide View, Canonicalize, Iso, Stored, Represents;
    var last := LastIndex(Keys(h), TargetOf(r));
    if last.Some? && h[last.value].at == r.at {
      var i := last.value;
      assert Keys(h)[i] == KeyOf(h[i]);
      ReplacedInPlace(rows, h, i, r, sha256);
      PreviousIsSecondLast(Stored(rows, r.report, r.at, sha256), h[i := r], TargetOf(r));
      assert h[i := r][..i] == h[..i];
    }
  }

  lemma StampsAfter(rows: Table, r: Recording, sha256: string -> string)
    ensures Stamps(Stored(rows, r.report, r.at, sha256).Keys, TargetOf(r))
         == Stamps(rows.Keys, TargetOf(r)) + {Iso(r.at)}
  {
    hide View, Iso, Canonicalize;
    var rows' := Stored(rows, r.report, r.at, sha256);
    forall x ensures x in Stamps(rows'.Keys, TargetOf(r)) <==> x in Stamps(rows.Keys, TargetOf(r)) + {Iso(r.at)} {
      StampHasKey(rows.Keys, TargetOf(r), x);
      StampHasKey(rows'.Keys, TargetOf(r), x);
    }
  }

  lemma LastIsGreatestOnLog(log: seq<Key>, target: string, i: nat)
    requires Ascending(log) && LastIndex(log, target) == Some(i)
    ensures
      var list := Listing(Stamps(KeySet(log), target));
      Stamps(KeySet(log), target) != {} && list != [] && list[|list| - 1] == log[i].recordedAt
  {
    hide Stamps, Listing;
    var stamps, top := Stamps(KeySet(log), target), log[i].recordedAt;
    StampsOfLog(log, target, top);
    LastOfListing(stamps);
    var newest := Listing(stamps)[|Listing(stamps)| - 1];
    StampsOfLog(log, target, newest);
    var k :| 0 <= k < |log| && log[k] == Key(target, newest);
    LessIsTotal(newest, top);
  }

  lemma LastIsGreatest(rows: Table, h: seq<Recording>, target: string)
    requires Represents(rows, h)
    ensures
      var list := Listing(Stamps(rows.Keys, target));
      LastStamp(h, target).Some? ==>
        Stamps(rows.Keys, target) != {} && list != [] && list[|list| - 1] == LastStamp(h, target).value
  {
    hide View, Iso, Represents, Increasing, Ascending, Stamps, Listing, LastIndex, KeySet;
    KeysOfTable(rows, h);
    IncreasingAscends(h);
    var i := LastIndex(Keys(h), target);
    if i.Some? {
      LastIsGreatestOnLog(Keys(h), target, i.value);
    }
  }

  /** Whatever was recorded before, a recording is compared with the target's last one exactly when it
      is later: an equal stamp overwrites that one and an earlier stamp hides behind it. */
  lemma ComparesWithLastIff(rows: Table, h: seq<Recording>, r: Recording, sha256: string -> string)
    requires Represents(rows, h)
    ensures
      var i := LastIndex(Keys(h), TargetOf(r));
      i.Some? ==>
        var compared := SecondStamp(Stamps(Stored(rows, r.report, r.at, sha256).Keys, TargetOf(r)));
        (compared == Some(Iso(h[i.value].at)) <==> Before(h[i.value].at, r.at))
  {
    hide Represents, SecondStamp, Stamps, Stored, Iso, Before, Listing, View, LastIndex;
    var i := LastIndex(Keys(h), TargetOf(r));
    if i.Some? {
      StampsAfter(rows, r, sha256);
      LastIsGreatest(rows, h, TargetOf(r));
      SecondIsNewestEarlierIff(Stamps(rows.Keys, TargetOf(r)), Iso(r.at));
      IsoOrder(h[i.value].at, r.at);
    }
  }

  /* ---------- config_hash ---------- */

  /** The last recording of a target under a configuration. */
  function LastAlike(h: seq<Recording>, target: string, configHash: string): (i: Option<nat>)
    ensures i.Some? ==> i.value < |h|
  {
    if h == [] then None
    else
      var s := View(h[|h| - 1].report);
      if s.target == target && s.configHash == configHash then Some(|h| - 1)
      else LastAlike(h[..|h| - 1], target, configHash)
  }

  lemma {:induction false} LastAlikeIs(h: seq<Recording>, target: string, configHash: string)
    ensures
      var i := LastAlike(h, target, configHash);
      && (i.Some? ==> TargetOf(h[i.value]) == target && View(h[i.value].report).configHash == configHash)
      && (forall k | 0 <= k < |h| && TargetOf(h[k]) == target && View(h[k].report).configHash == configHash ::
            i.Some? && k <= i.value)
  {
    hide View, Iso;
    if h != [] { LastAlikeIs(h[..|h| - 1], target, configHash); }
  }

  lemma {:induction false} AlikeIff(h: seq<Recording>, target: string, configHash: string)
    ensures LastIndex(Keys(h), target) == LastAlike(h, target, configHash)
       <==> Last(h, target).None? || Last(h, target).value.configHash == configHash
  {
    hide View, Iso;
    if h != [] {
      var front, last := h[..|h| - 1], h[|h| - 1];
      assert h == front + [last] && Keys(h)[..|h| - 1] == Keys(front) && Keys(h)[|h| - 1] == KeyOf(last);
      AlikeIff(front, target, configHash);
      LastAppend(front, last, target);
    }
  }

  /** `config_hash` is not looked at: a recording is compared with the target's last one under any
      configuration, and that is the last one under its own exactly when the target has none or its
      last was made under it. */
  lemma ComparesAlikeIff(rows: Table, h: seq<Recording>, r: Recording, sha256: string -> string)
    requires Represents(rows, h) && Increasing(h + [r])
    ensures ValidTable(Stored(rows, r.report, r.at, sha256))
    ensures PreviousIn(Stored(rows, r.report, r.at, sha256), TargetOf(r)) == Last(h, TargetOf(r))
    ensures LastIndex(Keys(h), TargetOf(r)) == LastAlike(h, TargetOf(r), View(r.report).configHash)
       <==> Last(h, TargetOf(r)).None? || Last(h, TargetOf(r)).value.configHash == View(r.report).configHash
  {
    hide *;
    DiffAfterRecord(rows, h, r, sha256);
    AlikeIff(h, TargetOf(r), View(r.report).configHash);
  }

  lemma LastAppend(h: seq<Recording>, r: Recording, target: string)
    ensures Last(h + [r], target) == if TargetOf(r) == target then Some(View(r.report)) else Last(h, target)
  {
    assert Keys(h + [r]) == Keys(h) + [KeyOf(r)];
    assert (Keys(h) + [KeyOf(r)])[..|h|] == Keys(h);
  }
}
