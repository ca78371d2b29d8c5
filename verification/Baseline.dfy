/** The snapshot table: rows keyed by target and time text, queried newest first. */
module Baseline {
  import opened Text
  import opened Json
  import opened JsonCanonical
  import opened Instants
  import opened Snapshots

  /** The primary key of `snapshots`. */
  datatype Key = Key(target: string, recordedAt: string)

  datatype Row = Row(configHash: string, digest: string, payload: string)

  type Table = map<Key, Row>

  predicate IsPayload(text: string) {
    Loads(text).Some? && IsReport(Meaning(Loads(text).value))
  }

  /** Every payload loads and validates. */
  ghost predicate ValidTable(rows: Table) {
    forall k | k in rows :: IsPayload(rows[k].payload)
  }

  /** INSERT OR REPLACE of a report recorded at `now`. */
  function Stored(rows: Table, report: Report, now: Instant, sha256: string -> string): Table {
    var payload := Canonicalize(report);
    rows[Key(View(report).target, Iso(now)) := Row(View(report).configHash, sha256(payload), payload)]
  }

  function Stamps(keys: set<Key>, target: string): set<string> {
    set k | k in keys && k.target == target :: k.recordedAt
  }

  lemma StampHasKey(keys: set<Key>, target: string, stamp: string)
    ensures stamp in Stamps(keys, target) <==> Key(target, stamp) in keys
  {
    if Key(target, stamp) in keys {
      assert Key(target, stamp).recordedAt in Stamps(keys, target);
    }
  }

  /** The second of the stamps in descending order. */
  ghost function SecondStamp(stamps: set<string>): Option<string> {
    var list := Listing(stamps);
    if |list| < 2 then None else Some(list[|list| - 2])
  }

  lemma SecondStampIsStamp(rows: Table, target: string)
    ensures
      var stamp := SecondStamp(Stamps(rows.Keys, target));
      stamp.Some? ==> Key(target, stamp.value) in rows
  {
    var stamps := Stamps(rows.Keys, target);
    ListingListsSet(stamps);
    if SecondStamp(stamps).Some? {
      StampHasKey(rows.Keys, target, SecondStamp(stamps).value);
    }
  }

  /** SELECT payload_json ... ORDER BY recorded_at DESC LIMIT 1 OFFSET 1 */
  ghost function SecondNewest(rows: Table, target: string): Option<string> {
    SecondStampIsStamp(rows, target);
    match SecondStamp(Stamps(rows.Keys, target))
    case None => None
    case Some(stamp) => Some(rows[Key(target, stamp)].payload)
  }

  lemma SecondNewestIsPayload(rows: Table, target: string)
    requires ValidTable(rows)
    ensures SecondNewest(rows, target).Some? ==> IsPayload(SecondNewest(rows, target).value)
  {
    SecondStampIsStamp(rows, target);
  }

  ghost function PreviousIn(rows: Table, target: string): Option<Snapshot>
    requires ValidTable(rows)
  {
    SecondNewestIsPayload(rows, target);
    match SecondNewest(rows, target)
    case None => None
    case Some(payload) => Some(Read(Meaning(Loads(payload).value)))
  }

  ghost function DiffIn(rows: Table, current: Snapshot): Option<Diff>
    requires ValidTable(rows)
  {
    match PreviousIn(rows, current.target)
    case None => None
    case Some(prev) => Some(PureDiff(prev, current))
  }

  /** A payload reads back as the report that was recorded. */
  lemma PayloadReadsBack(report: Report)
    ensures IsPayload(Canonicalize(report))
    ensures Read(Meaning(Loads(Canonicalize(report)).value)) == View(report)
  {
    CanonicalRoundTrip(report);
  }

  lemma StoredIsValid(rows: Table, report: Report, now: Instant, sha256: string -> string)
    requires ValidTable(rows)
    ensures ValidTable(Stored(rows, report, now, sha256))
  {
    PayloadReadsBack(report);
  }

  class BaselineStore {
    var rows: Table
    const sha256: string -> string

    constructor (sha256: string -> string)
      ensures rows == map[] && this.sha256 == sha256
    {
      rows := map[];
      this.sha256 := sha256;
    }

    method Record(report: Report, now: Instant) returns (digest: string)
      requires ValidTable(rows)
      modifies this
      ensures rows == Stored(old(rows), report, now, sha256) && ValidTable(rows)
      ensures digest == sha256(Canonicalize(report))
    {
      var payload := Canonicalize(report);
      digest := sha256(payload);
      StoredIsValid(rows, report, now, sha256);
      rows := rows[Key(View(report).target, Iso(now)) := Row(View(report).configHash, digest, payload)];
    }

    /** The stamps of a target in order, read off the rows in any order. */
    method OrderedStamps(target: string) returns (stamps: seq<string>)
      ensures stamps == Listing(Stamps(rows.Keys, target))
    {
      stamps := [];
      var todo := rows.Keys;
      ghost var done: set<string> := {};
      while todo != {}
        invariant todo <= rows.Keys
        invariant stamps == Listing(done)
        invariant forall x :: x in done <==> Key(target, x) in rows && Key(target, x) !in todo
        decreases |todo|
      {
        var k :| k in todo;
        todo := todo - {k};
        if k.target == target {
          SortedTextsAdd(done, k.recordedAt, (x: string) => x);
          stamps := Insert(k.recordedAt, stamps);
          done := done + {k.recordedAt};
          assert k == Key(target, k.recordedAt);
        }
      }
      assert done == Stamps(rows.Keys, target) by {
        forall x ensures x in done <==> x in Stamps(rows.Keys, target) { StampHasKey(rows.Keys, target, x); }
      }
    }

    method Previous(target: string) returns (prev: Option<Snapshot>)
      requires ValidTable(rows)
      ensures prev == PreviousIn(rows, target)
    {
      var stamps := OrderedStamps(target);
      SecondNewestIsPayload(rows, target);
      if |stamps| < 2 {
        prev := None;
      } else {
        var stamp := stamps[|stamps| - 2];
        SecondStampIsStamp(rows, target);
        var data := Loads(rows[Key(target, stamp)].payload);
        prev := Some(Read(Meaning(data.value)));
      }
    }

    method DiffAgainstPrevious(current: Snapshot) returns (diff: Option<Diff>)
      requires ValidTable(rows)
      ensures diff == DiffIn(rows, current)
    {
      var found := Previous(current.target);
      if found.None? {
        return None;
      }
      var prev := found.value;
      var prevFindings, curFindings := FindingKeys(prev), FindingKeys(current);
      var added := RenderKeys(curFindings - prevFindings);
      var removed := RenderKeys(prevFindings - curFindings);
      var changed := RenderChanges(prev, current);
      diff := Some(Diff(current.target, prev.startedAt, current.startedAt, Sort(added), Sort(removed), Sort(changed)));
    }
  }

  /** The `for entry in ...: append(...)` loops: sets come out in any order. */
  method RenderKeys(keys: set<FindingKey>) returns (texts: seq<string>)
    ensures Sort(texts) == SortedTexts(keys, KeyText)
  {
    texts := [];
    var todo := keys;
    while todo != {}
      invariant todo <= keys
      invariant Sort(texts) == SortedTexts(keys - todo, KeyText)
      decreases |todo|
    {
      var k :| k in todo;
      SortedTextsAdd(keys - todo, k, KeyText);
      SortAppend(texts, KeyText(k));
      assert keys - (todo - {k}) == keys - todo + {k};
      texts := texts + [KeyText(k)];
      todo := todo - {k};
    }
    assert keys - {} == keys;
  }

  /** The loop over the current analyzers, in whatever order the dict holds them. */
  method RenderChanges(prev: Snapshot, cur: Snapshot) returns (texts: seq<string>)
    ensures Sort(texts) == SortedTexts(Regraded(prev, cur), (name: string) => ChangeText(prev, cur, name))
  {
    texts := [];
    ghost var text := (name: string) => ChangeText(prev, cur, name);
    ghost var done: set<string> := {};
    var todo := cur.sections.Keys;
    while todo != {}
      invariant todo <= cur.sections.Keys
      invariant Sort(texts) == SortedTexts(done, text)
      invariant forall n :: n in done <==> n in Regraded(prev, cur) && n !in todo
      decreases |todo|
    {
      var name :| name in todo;
      todo := todo - {name};
      if HasGrade(prev, name) && HasGrade(cur, name) && GradeOf(cur, name) != GradeOf(prev, name) {
        SortedTextsAdd(done, name, text);
        SortAppend(texts, ChangeText(prev, cur, name));
        texts := texts + [ChangeText(prev, cur, name)];
        done := done + {name};
      }
    }
    assert done == Regraded(prev, cur);
  }
}
