/**
 * The primary-key index of a lake (shared-data) tablet: the key/value merger used by major
 * compaction, lookups through the memtable and the sstables, conditional replacement, the
 * choice of sstables to merge, the sstable list kept in `max_rss_rowid` order, and the
 * rebuild-point arithmetic on `rssid << 32 | rowid`.
 *
 * Sstable files, the memtable and protobuf (de)serialisation are not modelled: an sstable
 * is its metadata and the map from key to the newest index value it holds, the memtable is
 * a map from key to index value, and the outcome of each file operation is a parameter.
 */
module LakeIndex {
  import opened Wrappers
  import opened BeStatus

  type u32 = x: int | 0 <= x < 0x1_0000_0000
  type u64 = x: int | 0 <= x < 0x1_0000_0000_0000_0000

  /** The index value that marks a deleted key: every bit set. */
  const NullIndexValue: u64 := 0xFFFF_FFFF_FFFF_FFFF

  /** The high 32 bits of an index value: the segment (rssid) holding the row. */
  function Rssid(v: u64): u32 {
    v / 0x1_0000_0000
  }

  /** The low 32 bits of an index value: the row id inside the segment. */
  function Rowid(v: u64): u32 {
    v % 0x1_0000_0000
  }

  /** `rssid << 32 | rowid`. */
  function Pack(rssid: u32, rowid: u32): (v: u64)
    ensures Rssid(v) == rssid && Rowid(v) == rowid
  {
    rssid * 0x1_0000_0000 + rowid
  }

  /** Splitting an index value and packing the halves again gives it back. */
  lemma PackUnpack(v: u64)
    ensures Pack(Rssid(v), Rowid(v)) == v
  {
    assert v == Rssid(v) * 0x1_0000_0000 + Rowid(v);
  }

  // ---------------------------------------------------------------------------------------
  // KeyValueMerger

  /** One (version, rssid, rowid) entry of an `IndexValuesWithVerPB`. */
  datatype ValueVer = ValueVer(version: int, rssid: u32, rowid: u32)

  /** The outcome of evaluating the sstable's predicate on a key. */
  datatype Selection = NoPredicate | Selected | NotSelected | EvalFailed(failure: Failure)

  /**
   * What the merging iterator yields for one entry: the key, its serialized values (None when
   * they do not parse), the `max_rss_rowid` of the sstable it comes from, and the predicate.
   */
  datatype SstEntry = SstEntry(key: string, values: Option<seq<ValueVer>>, maxRssRowid: u64, selection: Selection)

  /**
   * The merger: the key being merged, the `max_rss_rowid` of its held value, the held
   * (version, index value) list, and what has been handed to the table builder.
   */
  datatype MergerState = MergerState(key: string, maxRssRowid: u64, versions: seq<(int, u64)>,
                                     emitted: seq<(string, seq<ValueVer>)>)

  /**
   * A value for the held key replaces the held one when it has a newer version; at the same
   * version, when its sstable has a larger `max_rss_rowid`; and when both are equal, when it
   * is a delete marker.
   */
  predicate Replaces(heldVersion: int, heldMaxRssRowid: u64, version: int, maxRssRowid: u64, value: u64) {
    version > heldVersion
    || (version == heldVersion && maxRssRowid > heldMaxRssRowid)
    || (version == heldVersion && maxRssRowid == heldMaxRssRowid && value == NullIndexValue)
  }

  /** The values a flush writes: delete markers are dropped when the base level is merged. */
  function Emitted(versions: seq<(int, u64)>, mergeBaseLevel: bool): (r: seq<ValueVer>)
    ensures |r| <= |versions|
    ensures !mergeBaseLevel ==> |r| == |versions|
    ensures mergeBaseLevel ==> forall i :: 0 <= i < |r| ==> Pack(r[i].rssid, r[i].rowid) != NullIndexValue
    ensures forall i :: 0 <= i < |r| ==> exists j :: 0 <= j < |versions| && r[i].version == versions[j].0
  {
    if versions == [] then []
    else
      var (version, value) := versions[0];
      var rest := Emitted(versions[1..], mergeBaseLevel);
      if mergeBaseLevel && value == NullIndexValue then rest
      else
        PackUnpack(value);
        [ValueVer(version, Rssid(value), Rowid(value))] + rest
  }

  /**
   * flush: nothing without a held value; otherwise the surviving values are written under the
   * key (nothing when none survives) and the held list is emptied.
   */
  function Flushed(s: MergerState, mergeBaseLevel: bool): (r: MergerState)
    ensures r.versions == [] && r.key == s.key && r.maxRssRowid == s.maxRssRowid
    ensures s.versions == [] ==> r == s
    ensures |s.emitted| <= |r.emitted| <= |s.emitted| + 1 && r.emitted[..|s.emitted|] == s.emitted
    ensures |r.emitted| == |s.emitted| + 1 ==>
              r.emitted[|s.emitted|] == (s.key, Emitted(s.versions, mergeBaseLevel))
              && r.emitted[|s.emitted|].1 != []
  {
    if s.versions == [] then s
    else
      var values := Emitted(s.versions, mergeBaseLevel);
      s.(versions := [], emitted := if values == [] then s.emitted else s.emitted + [(s.key, values)])
  }

  /** merge: the merger after one entry of the merging iterator. */
  function Merged(s: MergerState, mergeBaseLevel: bool, e: SstEntry): (r: (Status, MergerState))
    ensures r.0.Error? <==> e.values.None? || (e.values.value != [] && e.selection.EvalFailed?)
    ensures r.0.Error? || e.values.value == [] || e.selection == NotSelected ==> r.1 == s
    ensures e.key == s.key ==> r.1.emitted == s.emitted && r.1.key == s.key
    ensures |s.versions| <= 1 ==> |r.1.versions| <= 1
  {
    match e.values
    case None => (Error(InternalError, "Failed to parse index value ver"), s)
    case Some(values) =>
      if values == [] then (OK, s)
      else if e.selection.EvalFailed? then (e.selection.failure, s)
      else if e.selection == NotSelected then (OK, s)
      else
        var version := values[0].version;
        var value := Pack(values[0].rssid, values[0].rowid);
        if e.key == s.key then
          if s.versions == [] || Replaces(s.versions[0].0, s.maxRssRowid, version, e.maxRssRowid, value) then
            (OK, s.(maxRssRowid := e.maxRssRowid, versions := [(version, value)]))
          else (OK, s)
        else
          var f := Flushed(s, mergeBaseLevel);
          (OK, f.(key := e.key, maxRssRowid := e.maxRssRowid, versions := [(version, value)]))
  }

  /** Merging the iterator's entries in order, stopping at the first error. */
  function MergeRun(s: MergerState, mergeBaseLevel: bool, es: seq<SstEntry>): (Status, MergerState)
    decreases |es|
  {
    if es == [] then (OK, s)
    else
      var (st, s1) := Merged(s, mergeBaseLevel, es[0]);
      if st.Error? then (st, s1) else MergeRun(s1, mergeBaseLevel, es[1..])
  }

  /** An entry that takes part in the merge: it parses, has a value, and is selected. */
  predicate Effective(e: SstEntry) {
    e.values.Some? && e.values.value != [] && !e.selection.EvalFailed? && e.selection != NotSelected
  }

  /** (version, max_rss_rowid) ordered lexicographically. */
  predicate NotOlder(v1: int, m1: u64, v2: int, m2: u64) {
    v1 > v2 || (v1 == v2 && m1 >= m2)
  }

  /**
   * Last writer wins: after merging entries of the held key, the held value is at least as
   * new, by version and then by `max_rss_rowid`, as every entry that took part and as the
   * value held before.
   */
  lemma {:induction false} MergeRunKeepsNewest(s: MergerState, mergeBaseLevel: bool, es: seq<SstEntry>)
    requires |s.versions| == 1
    requires forall i :: 0 <= i < |es| ==> es[i].key == s.key
    ensures var r := MergeRun(s, mergeBaseLevel, es).1;
            |r.versions| == 1 && r.key == s.key && r.emitted == s.emitted
            && NotOlder(r.versions[0].0, r.maxRssRowid, s.versions[0].0, s.maxRssRowid)
            && forall i :: 0 <= i < |es| && Effective(es[i]) && MergeRun(s, mergeBaseLevel, es[..i]).0.OK? ==>
                 NotOlder(r.versions[0].0, r.maxRssRowid, es[i].values.value[0].version, es[i].maxRssRowid)
    decreases |es|
  {
    if es != [] {
      var (st, s1) := Merged(s, mergeBaseLevel, es[0]);
      assert NotOlder(s1.versions[0].0, s1.maxRssRowid, s.versions[0].0, s.maxRssRowid);
      assert Effective(es[0]) ==>
               NotOlder(s1.versions[0].0, s1.maxRssRowid, es[0].values.value[0].version, es[0].maxRssRowid);
      if st.OK? {
        var tail := es[1..];
        MergeRunKeepsNewest(s1, mergeBaseLevel, tail);
        var r := MergeRun(s1, mergeBaseLevel, tail).1;
        forall i | 0 <= i < |es| && Effective(es[i]) && MergeRun(s, mergeBaseLevel, es[..i]).0.OK?
          ensures NotOlder(r.versions[0].0, r.maxRssRowid, es[i].values.value[0].version, es[i].maxRssRowid)
        {
          if i > 0 {
            assert es[..i][0] == es[0] && es[..i][1..] == tail[..i - 1];
            assert tail[i - 1] == es[i];
          }
        }
      }
    }
  }

  /** KeyValueMerger: merges the entries of one key and writes them when the key changes. */
  class KeyValueMerger {
    var key: string
    var maxRssRowid: u64
    var versions: seq<(int, u64)>
    const mergeBaseLevel: bool
    /** The (key, values) pairs handed to the table builder so far. */
    var emitted: seq<(string, seq<ValueVer>)>

    function State(): MergerState
      reads this
    {
      MergerState(key, maxRssRowid, versions, emitted)
    }

    constructor (key: string, maxRssRowid: u64, mergeBaseLevel: bool)
      ensures State() == MergerState(key, maxRssRowid, [], []) && this.mergeBaseLevel == mergeBaseLevel
    {
      this.key := key;
      this.maxRssRowid := maxRssRowid;
      this.mergeBaseLevel := mergeBaseLevel;
      versions := [];
      emitted := [];
    }

    method Merge(e: SstEntry) returns (st: Status)
      modifies this
      ensures (st, State()) == Merged(old(State()), mergeBaseLevel, e)
    {
      match e.values {
        case None =>
          return Error(InternalError, "Failed to parse index value ver");
        case Some(values) =>
          if values == [] {
            return OK;
          }
          if e.selection.EvalFailed? {
            return e.selection.failure;
          }
          if e.selection == NotSelected {
            return OK;
          }
          var version := values[0].version;
          var value := Pack(values[0].rssid, values[0].rowid);
          if key == e.key {
            if versions == [] {
              maxRssRowid := e.maxRssRowid;
              versions := [(version, value)];
            } else if Replaces(versions[0].0, maxRssRowid, version, e.maxRssRowid, value) {
              maxRssRowid := e.maxRssRowid;
              versions := [(version, value)];
            }
          } else {
            Flush();
            key := e.key;
            maxRssRowid := e.maxRssRowid;
            versions := [(version, value)] + versions;
          }
          assert State() == Merged(old(State()), mergeBaseLevel, e).1;
          return OK;
      }
    }

    method Flush()
      modifies this
      ensures State() == Flushed(old(State()), mergeBaseLevel)
    {
      if versions == [] {
        return;
      }
      var vs := versions;
      var values: seq<ValueVer> := [];
      var i := 0;
      while i < |vs|
        invariant 0 <= i <= |vs|
        invariant values == Emitted(vs[..i], mergeBaseLevel)
        invariant State() == old(State())
      {
        EmittedSnoc(vs[..i], vs[i], mergeBaseLevel);
        assert vs[..i + 1] == vs[..i] + [vs[i]];
        if !(mergeBaseLevel && vs[i].1 == NullIndexValue) {
          values := values + [ValueVer(vs[i].0, Rssid(vs[i].1), Rowid(vs[i].1))];
        }
        i := i + 1;
      }
      assert vs[..i] == vs;
      assert values == Emitted(vs, mergeBaseLevel);
      if values != [] {
        emitted := emitted + [(key, values)];
      }
      versions := [];
    }
  }

  lemma {:induction false} EmittedSnoc(vs: seq<(int, u64)>, last: (int, u64), mergeBaseLevel: bool)
    ensures Emitted(vs + [last], mergeBaseLevel) ==
              Emitted(vs, mergeBaseLevel)
              + (if mergeBaseLevel && last.1 == NullIndexValue then [] else [ValueVer(last.0, Rssid(last.1), Rowid(last.1))])
    decreases |vs|
  {
    if vs != [] {
      assert (vs + [last])[1..] == vs[1..] + [last];
      EmittedSnoc(vs[1..], last, mergeBaseLevel);
    }
  }

  /**
   * merge_sstables: a merger starting at the first entry's key takes every entry in order and
   * flushes the last key at the end; the first error stops the merge.
   */
  method MergeSstables(es: seq<SstEntry>, mergeBaseLevel: bool) returns (st: Status, written: seq<(string, seq<ValueVer>)>)
    requires |es| > 0
    ensures var start := MergerState(es[0].key, es[0].maxRssRowid, [], []);
            var (st', s') := MergeRun(start, mergeBaseLevel, es);
            st == st' && written == (if st'.OK? then Flushed(s', mergeBaseLevel).emitted else s'.emitted)
  {
    var merger := new KeyValueMerger(es[0].key, es[0].maxRssRowid, mergeBaseLevel);
    ghost var start := merger.State();
    var i := 0;
    while i < |es|
      invariant 0 <= i <= |es|
      invariant merger.mergeBaseLevel == mergeBaseLevel
      invariant MergeRun(start, mergeBaseLevel, es) == MergeRun(merger.State(), mergeBaseLevel, es[i..])
      modifies merger
    {
      assert es[i..][0] == es[i] && es[i..][1..] == es[i + 1..];
      st := merger.Merge(es[i]);
      if st.Error? {
        return st, merger.emitted;
      }
      i := i + 1;
    }
    merger.Flush();
    return OK, merger.emitted;
  }

  // ---------------------------------------------------------------------------------------
  // Sstable metadata, merge selection and rebuild points

  datatype SstableMeta = SstableMeta(filename: string, filesize: int, maxRssRowid: u64)

  /** A loaded sstable: its metadata and the newest index value it holds per key. */
  datatype Sstable = Sstable(meta: SstableMeta, entries: map<string, u64>)

  function TotalSize(ssts: seq<SstableMeta>): int {
    if ssts == [] then 0 else TotalSize(ssts[..|ssts| - 1]) + ssts[|ssts| - 1].filesize
  }

  /** base size * ratio > cumulative size, for the ratio `ratioNum / ratioDen`. */
  predicate BaseOutweighs(baseBytes: int, cumulativeBytes: int, ratioNum: nat, ratioDen: nat) {
    baseBytes * ratioNum > cumulativeBytes * ratioDen
  }

  /**
   * pick_sstables_for_merge: a cumulative merge (every sstable but the base one) while the base
   * size times the ratio `ratioNum / ratioDen` exceeds the cumulative size, otherwise a base
   * merge of all of them; at most `maxLimit` sstables are kept. A negative limit compares as a
   * huge unsigned number and keeps everything.
   */
  function PickedForMerge(ssts: seq<SstableMeta>, ratioNum: nat, ratioDen: nat, maxLimit: int)
    : (r: (seq<SstableMeta>, bool))
    requires |ssts| > 0 && ratioDen > 0
    ensures r.1 <==> !BaseOutweighs(ssts[0].filesize, TotalSize(ssts[1..]), ratioNum, ratioDen)
    ensures var offset := if r.1 then 0 else 1;
            |r.0| == (if 0 <= maxLimit < |ssts| - offset then maxLimit else |ssts| - offset)
            && forall i :: 0 <= i < |r.0| ==> r.0[i] == ssts[i + offset]
  {
    var mergeBaseLevel := !BaseOutweighs(ssts[0].filesize, TotalSize(ssts[1..]), ratioNum, ratioDen);
    var picked := if mergeBaseLevel then ssts else ssts[1..];
    (if 0 <= maxLimit < |picked| then picked[..maxLimit] else picked, mergeBaseLevel)
  }

  /** The cumulative part `ssts[1..i]` grows by `ssts[i]`. */
  lemma CumulativeStep(ssts: seq<SstableMeta>, i: nat)
    requires 1 <= i < |ssts|
    ensures ssts[1..i + 1] == ssts[1..i] + [ssts[i]]
    ensures TotalSize(ssts[1..i + 1]) == TotalSize(ssts[1..i]) + ssts[i].filesize
  {
    var grown := ssts[1..i + 1];
    assert grown[..|grown| - 1] == ssts[1..i];
  }

  method PickSstablesForMerge(ssts: seq<SstableMeta>, ratioNum: nat, ratioDen: nat, maxLimit: int)
    returns (picked: seq<SstableMeta>, mergeBaseLevel: bool)
    requires |ssts| > 0 && ratioDen > 0
    ensures (picked, mergeBaseLevel) == PickedForMerge(ssts, ratioNum, ratioDen, maxLimit)
  {
    var baseBytes := 0;
    var cumulativeBytes := 0;
    var cumulative: seq<SstableMeta> := [];
    var i := 0;
    while i < |ssts|
      invariant 0 <= i <= |ssts|
      invariant i > 0 ==> baseBytes == ssts[0].filesize && cumulative == ssts[1..i]
      invariant i > 0 ==> cumulativeBytes == TotalSize(ssts[1..i])
      invariant i == 0 ==> cumulative == [] && cumulativeBytes == 0
    {
      if i == 0 {
        baseBytes := ssts[0].filesize;
      } else {
        CumulativeStep(ssts, i);
        cumulativeBytes := cumulativeBytes + ssts[i].filesize;
        cumulative := cumulative + [ssts[i]];
      }
      i := i + 1;
    }
    assert ssts[1..i] == ssts[1..];
    var outweighs := BaseOutweighs(baseBytes, cumulativeBytes, ratioNum, ratioDen);
    assert outweighs == BaseOutweighs(ssts[0].filesize, TotalSize(ssts[1..]), ratioNum, ratioDen);
    if outweighs {
      picked := cumulative;
      mergeBaseLevel := false;
    } else {
      picked := [ssts[0]] + cumulative;
      assert picked == ssts;
      mergeBaseLevel := true;
    }
    if 0 <= maxLimit < |picked| {
      picked := picked[..maxLimit];
    }
  }

  /** The files of one rowset: its first segment id, its segment count and its delete files. */
  datatype RowsetMeta = RowsetMeta(id: u32, segments: u32, delFiles: nat)

  /**
   * needs_rowset_rebuild: a rowset is already covered by the sstables when all of its segments
   * (ids `id` to `id + segments - 1`) are below the rebuild point, or, without segments, when
   * its own id is below it.
   */
  function NeedsRowsetRebuild(r: RowsetMeta, rebuildRssid: u32): (b: bool)
    ensures !b <==> (r.segments > 0 && r.id + r.segments <= rebuildRssid)
                    || (r.segments == 0 && r.id < rebuildRssid)
    ensures b ==> r.id + r.segments >= rebuildRssid
  {
    if r.segments > 0 && r.id + r.segments <= rebuildRssid then false
    else if r.segments == 0 && r.id < rebuildRssid then false
    else true
  }

  /** The worked examples of the rebuild rule, with a rebuild point of 12. */
  lemma RebuildExamples()
    ensures !NeedsRowsetRebuild(RowsetMeta(10, 2, 0), 12)
    ensures NeedsRowsetRebuild(RowsetMeta(10, 3, 0), 12)
    ensures !NeedsRowsetRebuild(RowsetMeta(11, 0, 1), 12)
    ensures NeedsRowsetRebuild(RowsetMeta(12, 0, 1), 12)
  {
  }

  /** The rebuild point: the rssid of the newest sstable's `max_rss_rowid`, 0 without sstables. */
  function RebuildRssid(ssts: seq<SstableMeta>): u32 {
    if ssts == [] then 0 else Rssid(ssts[|ssts| - 1].maxRssRowid)
  }

  /**
   * The files one rowset adds to the rebuild count: its delete files, and
   * `min(id + segments - rebuild + 1, segments)` segments in 32-bit unsigned arithmetic.
   */
  function RowsetRebuildFiles(r: RowsetMeta, rebuildRssid: u32): nat {
    if !NeedsRowsetRebuild(r, rebuildRssid) then 0
    else
      var span := (r.id + r.segments - rebuildRssid + 1) % 0x1_0000_0000;
      r.delFiles + (if span < r.segments then span else r.segments)
  }

  function RebuildFileCount(rowsets: seq<RowsetMeta>, rebuildRssid: u32): nat {
    if rowsets == [] then 0
    else RebuildFileCount(rowsets[..|rowsets| - 1], rebuildRssid) + RowsetRebuildFiles(rowsets[|rowsets| - 1], rebuildRssid)
  }

  /** need_rebuild_file_cnt. */
  method NeedRebuildFileCnt(rowsets: seq<RowsetMeta>, ssts: seq<SstableMeta>) returns (cnt: nat)
    ensures cnt == RebuildFileCount(rowsets, RebuildRssid(ssts))
  {
    cnt := 0;
    var rebuildRssid: u32 := if ssts == [] then 0 else Rssid(ssts[|ssts| - 1].maxRssRowid);
    var i := 0;
    while i < |rowsets|
      invariant 0 <= i <= |rowsets|
      invariant cnt == RebuildFileCount(rowsets[..i], rebuildRssid)
    {
      assert rowsets[..i + 1][..i] == rowsets[..i];
      var r := rowsets[i];
      if NeedsRowsetRebuild(r, rebuildRssid) {
        cnt := cnt + r.delFiles;
        var span := (r.id + r.segments - rebuildRssid + 1) % 0x1_0000_0000;
        cnt := cnt + if span < r.segments then span else r.segments;
      }
      i := i + 1;
    }
    assert rowsets[..i] == rowsets;
  }

  /** How many of the segments `id`, ..., `id + segments - 1` are at or past the rebuild point. */
  function SegmentsToRebuild(id: int, segments: nat, rebuildRssid: int): nat {
    if segments == 0 then 0
    else SegmentsToRebuild(id, segments - 1, rebuildRssid) + (if id + segments - 1 >= rebuildRssid then 1 else 0)
  }

  lemma {:induction false} SegmentsToRebuildCount(id: int, segments: nat, rebuildRssid: int)
    ensures SegmentsToRebuild(id, segments, rebuildRssid) ==
              if rebuildRssid <= id then segments
              else if id + segments <= rebuildRssid then 0
              else id + segments - rebuildRssid
    decreases segments
  {
    if segments > 0 {
      SegmentsToRebuildCount(id, segments - 1, rebuildRssid);
    }
  }

  /**
   * The count a rowset contributes is its delete files plus the segments a rebuild reads
   * (those whose rssid is at or past the rebuild point), plus one when the rowset straddles the
   * rebuild point: the count errs on the side of rebuilding.
   */
  lemma RowsetRebuildFilesBound(r: RowsetMeta, rebuildRssid: u32)
    requires r.id + r.segments < 0xFFFF_FFFF
    requires NeedsRowsetRebuild(r, rebuildRssid)
    ensures RowsetRebuildFiles(r, rebuildRssid) ==
              r.delFiles + SegmentsToRebuild(r.id, r.segments, rebuildRssid)
              + (if r.id < rebuildRssid < r.id + r.segments then 1 else 0)
  {
    SegmentsToRebuildCount(r.id, r.segments, rebuildRssid);
    var sum := r.id + r.segments - rebuildRssid + 1;
    assert 0 < sum < 0x1_0000_0000;
    assert (r.id + r.segments - rebuildRssid + 1) % 0x1_0000_0000 == sum;
    if rebuildRssid <= r.id {
      assert sum > r.segments;
    } else if r.segments > 0 {
      assert sum <= r.segments;
    }
  }

  /** load_dels: the rssid of a rowset's delete files is that of its last segment. */
  function DelRebuildRssid(rowsetId: u32, numSegments: nat): u32 {
    (rowsetId + (if numSegments >= 1 then numSegments else 1) - 1) % 0x1_0000_0000
  }

  /** A delete file: the rowset it was written with and its operation offset there. */
  datatype DelFile = DelFile(originRowsetId: u32, opOffset: u32)

  /**
   * A delete read back from a delete file is skipped when the key's current row lives in a
   * segment newer than the delete (`origin_rowset_id + op_offset`), unless the delete file
   * belongs to the rowset being rebuilt.
   */
  predicate DeleteTooOld(rowsetId: u32, del: DelFile, found: u64) {
    rowsetId != del.originRowsetId && found != NullIndexValue
    && Rssid(found) > (del.originRowsetId + del.opOffset) % 0x1_0000_0000
  }

  /** load_dels' filter over the values found for the deleted keys. */
  method DelFilter(rowsetId: u32, del: DelFile, found: seq<u64>) returns (filter: seq<bool>)
    ensures |filter| == |found|
    ensures forall i :: 0 <= i < |found| ==> (filter[i] <==> DeleteTooOld(rowsetId, del, found[i]))
  {
    filter := seq(|found|, _ => false);
    if rowsetId != del.originRowsetId {
      var i := 0;
      while i < |found|
        invariant 0 <= i <= |found| && |filter| == |found|
        invariant forall j :: 0 <= j < i ==> (filter[j] <==> DeleteTooOld(rowsetId, del, found[j]))
        invariant forall j :: i <= j < |found| ==> !filter[j]
      {
        if found[i] != NullIndexValue && Rssid(found[i]) > (del.originRowsetId + del.opOffset) % 0x1_0000_0000 {
          filter := filter[i := true];
        }
        i := i + 1;
      }
    }
  }

  // ---------------------------------------------------------------------------------------
  // Lookups and conditional replacement

  /** set_difference: the key indexes still to look up once `found` were found. */
  function SetDifference(keyIndexes: set<nat>, found: set<nat>): (r: set<nat>)
    ensures forall k :: k in r <==> k in keyIndexes && k !in found
  {
    if found == {} then keyIndexes else keyIndexes - found
  }

  /** The value of `k` in the newest sstable that holds it. */
  function Newest(ssts: seq<Sstable>, k: string): (r: Option<u64>)
    ensures r.None? <==> forall i :: 0 <= i < |ssts| ==> k !in ssts[i].entries
  {
    if ssts == [] then None
    else if k in ssts[|ssts| - 1].entries then Some(ssts[|ssts| - 1].entries[k])
    else Newest(ssts[..|ssts| - 1], k)
  }

  /** The index's answer for a key: the memtable first, then the sstables newest first. */
  function Lookup(memtable: map<string, u64>, ssts: seq<Sstable>, k: string): u64 {
    if k in memtable then memtable[k] else Newest(ssts, k).GetOr(NullIndexValue)
  }

  /** Moving the memtable into a new newest sstable changes no lookup. */
  lemma FlushKeepsLookups(memtable: map<string, u64>, ssts: seq<Sstable>, meta: SstableMeta, k: string)
    ensures Lookup(map[], ssts + [Sstable(meta, memtable)], k) == Lookup(memtable, ssts, k)
  {
    assert (ssts + [Sstable(meta, memtable)])[..|ssts|] == ssts;
  }

  /** try_replace's split: the positions it replaces (found, not deleted, from a source segment). */
  predicate Replaceable(found: u64, maxSrcRssid: u32) {
    found != NullIndexValue && Rssid(found) <= maxSrcRssid
  }

  function ReplaceIdxes(found: seq<u64>, maxSrcRssid: u32): (r: seq<nat>)
    ensures forall j :: 0 <= j < |r| ==> r[j] < |found|
  {
    if found == [] then []
    else
      var n := |found| - 1;
      ReplaceIdxes(found[..n], maxSrcRssid) + (if Replaceable(found[n], maxSrcRssid) then [n] else [])
  }

  /** The replaced positions are exactly the replaceable ones, in increasing order. */
  lemma {:induction false} ReplaceIdxesMeans(found: seq<u64>, maxSrcRssid: u32)
    ensures var r := ReplaceIdxes(found, maxSrcRssid);
            (forall j :: 0 <= j < |r| ==> Replaceable(found[r[j]], maxSrcRssid))
            && (forall i :: 0 <= i < |found| ==> (i in r <==> Replaceable(found[i], maxSrcRssid)))
            && (forall j, k :: 0 <= j < k < |r| ==> r[j] < r[k])
  {
    if found != [] {
      var n := |found| - 1;
      ReplaceIdxesMeans(found[..n], maxSrcRssid);
      var r0 := ReplaceIdxes(found[..n], maxSrcRssid);
      assert forall j :: 0 <= j < |r0| ==> found[..n][r0[j]] == found[r0[j]];
    }
  }

  /** The row ids (low 32 bits of the new values) of the positions try_replace does not replace. */
  function FailedRowids(found: seq<u64>, values: seq<u64>, maxSrcRssid: u32): (r: seq<u32>)
    requires |found| == |values|
    ensures |r| + |ReplaceIdxes(found, maxSrcRssid)| == |found|
  {
    if found == [] then []
    else
      var n := |found| - 1;
      FailedRowids(found[..n], values[..n], maxSrcRssid) + (if Replaceable(found[n], maxSrcRssid) then [] else [Rowid(values[n])])
  }

  /** The memtable after writing `values` at the given positions, in order. */
  function Replaced(memtable: map<string, u64>, keys: seq<string>, values: seq<u64>, idxes: seq<nat>): (m: map<string, u64>)
    requires |keys| == |values| && forall j :: 0 <= j < |idxes| ==> idxes[j] < |keys|
    ensures m.Keys == memtable.Keys + set j | 0 <= j < |idxes| :: keys[idxes[j]]
  {
    if idxes == [] then memtable
    else
      var n := |idxes| - 1;
      Replaced(memtable, keys, values, idxes[..n])[keys[idxes[n]] := values[idxes[n]]]
  }

  /** The index's answer for each of `keys`. */
  function Lookups(memtable: map<string, u64>, ssts: seq<Sstable>, keys: seq<string>): (r: seq<u64>)
    ensures |r| == |keys| && forall j :: 0 <= j < |keys| ==> r[j] == Lookup(memtable, ssts, keys[j])
  {
    seq(|keys|, j requires 0 <= j < |keys| => Lookup(memtable, ssts, keys[j]))
  }

  lemma SplitStep(found: seq<u64>, values: seq<u64>, maxSrcRssid: u32, i: nat)
    requires |found| == |values| && i < |found|
    ensures ReplaceIdxes(found[..i + 1], maxSrcRssid) ==
              ReplaceIdxes(found[..i], maxSrcRssid) + (if Replaceable(found[i], maxSrcRssid) then [i] else [])
    ensures FailedRowids(found[..i + 1], values[..i + 1], maxSrcRssid) ==
              FailedRowids(found[..i], values[..i], maxSrcRssid) + (if Replaceable(found[i], maxSrcRssid) then [] else [Rowid(values[i])])
  {
    assert found[..i + 1][..i] == found[..i] && values[..i + 1][..i] == values[..i];
  }

  /** try_replace's loop: the positions to replace, and the row ids of the others appended to `failed0`. */
  method SplitReplaceable(found: seq<u64>, values: seq<u64>, maxSrcRssid: u32, failed0: seq<u32>)
    returns (replaceIdxes: seq<nat>, failed: seq<u32>)
    requires |found| == |values|
    ensures replaceIdxes == ReplaceIdxes(found, maxSrcRssid)
    ensures failed == failed0 + FailedRowids(found, values, maxSrcRssid)
  {
    replaceIdxes := [];
    failed := failed0;
    var i := 0;
    while i < |found|
      invariant 0 <= i <= |found|
      invariant replaceIdxes == ReplaceIdxes(found[..i], maxSrcRssid)
      invariant failed == failed0 + FailedRowids(found[..i], values[..i], maxSrcRssid)
    {
      SplitStep(found, values, maxSrcRssid, i);
      if found[i] != NullIndexValue && Rssid(found[i]) <= maxSrcRssid {
        replaceIdxes := replaceIdxes + [i];
      } else {
        failed := failed + [Rowid(values[i])];
      }
      i := i + 1;
    }
    assert found[..i] == found && values[..i] == values;
  }

  /** The memtable's replace: each chosen position's key takes its new value. */
  method ReplaceAt(memtable: map<string, u64>, keys: seq<string>, values: seq<u64>, idxes: seq<nat>)
    returns (m: map<string, u64>)
    requires |keys| == |values| && forall j :: 0 <= j < |idxes| ==> idxes[j] < |keys|
    ensures m == Replaced(memtable, keys, values, idxes)
  {
    m := memtable;
    var k := 0;
    while k < |idxes|
      invariant 0 <= k <= |idxes|
      invariant m == Replaced(memtable, keys, values, idxes[..k])
    {
      assert idxes[..k + 1][..k] == idxes[..k];
      m := m[keys[idxes[k]] := values[idxes[k]]];
      k := k + 1;
    }
    assert idxes[..k] == idxes;
  }

  /**
   * The lookup's state with the sstables from `i` on searched: the indexes still pending are
   * those no searched sstable holds, and the others carry the newest searched value.
   */
  ghost predicate SearchState(ssts: seq<Sstable>, i: nat, keys: seq<string>, keyIndexes0: set<nat>, values0: seq<u64>,
                              keyIndexes: set<nat>, values: seq<u64>) {
    i <= |ssts| && |values| == |keys| == |values0|
    && (forall j :: j in keyIndexes <==> j in keyIndexes0 && (j >= |keys| || Newest(ssts[i..], keys[j]).None?))
    && (forall j :: 0 <= j < |keys| ==>
          values[j] == if j in keyIndexes0 && Newest(ssts[i..], keys[j]).Some? then Newest(ssts[i..], keys[j]).value
                       else values0[j])
  }

  lemma SearchStep(ssts: seq<Sstable>, i: nat, keys: seq<string>, keyIndexes0: set<nat>, values0: seq<u64>,
                   keyIndexes: set<nat>, values: seq<u64>, found: set<nat>, values': seq<u64>)
    requires 0 < i && SearchState(ssts, i, keys, keyIndexes0, values0, keyIndexes, values)
    requires forall j :: j in found <==> j in keyIndexes && j < |keys| && keys[j] in ssts[i - 1].entries
    requires |values'| == |values|
    requires forall j :: 0 <= j < |values| ==> values'[j] == if j in found then ssts[i - 1].entries[keys[j]] else values[j]
    ensures SearchState(ssts, i - 1, keys, keyIndexes0, values0, SetDifference(keyIndexes, found), values')
  {
    NewestStep(ssts, i);
  }

  /**
   * get_from_sstables: the keys at `keyIndexes0` are looked up newest sstable first; a key found
   * takes that sstable's value and is not looked up further.
   */
  method GetFromSstables(ssts: seq<Sstable>, keys: seq<string>, values0: seq<u64>, keyIndexes0: set<nat>)
    returns (values: seq<u64>)
    requires |values0| == |keys|
    ensures |values| == |keys|
    ensures forall j :: 0 <= j < |keys| ==>
              values[j] == if j in keyIndexes0 && Newest(ssts, keys[j]).Some? then Newest(ssts, keys[j]).value
                           else values0[j]
  {
    values := values0;
    var keyIndexes: set<nat> := keyIndexes0;
    if keyIndexes == {} || ssts == [] {
      return;
    }
    var i: nat := |ssts|;
    while i > 0 && keyIndexes != {}
      invariant SearchState(ssts, i, keys, keyIndexes0, values0, keyIndexes, values)
    {
      var sst := ssts[i - 1];
      var found := set j | j in keyIndexes && j < |keys| && keys[j] in sst.entries;
      var next := seq(|values|, j requires 0 <= j < |values| => if j in found then sst.entries[keys[j]] else values[j]);
      SearchStep(ssts, i, keys, keyIndexes0, values0, keyIndexes, values, found, next);
      values := next;
      keyIndexes := SetDifference(keyIndexes, found);
      i := i - 1;
    }
    SearchDone(ssts, i, keys, keyIndexes0, values0, keyIndexes, values);
  }

  lemma SearchDone(ssts: seq<Sstable>, i: nat, keys: seq<string>, keyIndexes0: set<nat>, values0: seq<u64>,
                   keyIndexes: set<nat>, values: seq<u64>)
    requires SearchState(ssts, i, keys, keyIndexes0, values0, keyIndexes, values)
    requires i == 0 || keyIndexes == {}
    ensures forall j :: 0 <= j < |keys| ==>
              values[j] == if j in keyIndexes0 && Newest(ssts, keys[j]).Some? then Newest(ssts, keys[j]).value
                           else values0[j]
  {
    if i == 0 {
      assert ssts[0..] == ssts;
    } else {
      NewestDone(ssts, i, keys, keyIndexes0, keyIndexes);
    }
  }

  // ---------------------------------------------------------------------------------------
  // The sstable list

  /** The list is ordered by `max_rss_rowid`, oldest first. */
  predicate SortedByMaxRss(ssts: seq<Sstable>) {
    forall i, j :: 0 <= i < j < |ssts| ==> ssts[i].meta.maxRssRowid <= ssts[j].meta.maxRssRowid
  }

  /** remove_if: the sstables whose file is not named in `names`, in their order. */
  function WithoutFiles(ssts: seq<Sstable>, names: set<string>): (r: seq<Sstable>)
    ensures forall x :: x in r <==> x in ssts && x.meta.filename !in names
    ensures SortedByMaxRss(ssts) ==> SortedByMaxRss(r)
  {
    if ssts == [] then []
    else
      var n := |ssts| - 1;
      var rest := WithoutFiles(ssts[..n], names);
      assert forall x :: x in rest ==> x in ssts[..n];
      if ssts[n].meta.filename in names then rest else rest + [ssts[n]]
  }

  /** lower_bound by `max_rss_rowid`: the first position whose sstable is not older than `m`. */
  function LowerBound(ssts: seq<Sstable>, m: u64): (i: nat)
    ensures i <= |ssts|
    ensures forall j :: 0 <= j < i ==> ssts[j].meta.maxRssRowid < m
    ensures i < |ssts| ==> ssts[i].meta.maxRssRowid >= m
  {
    if ssts == [] || ssts[0].meta.maxRssRowid >= m then 0 else 1 + LowerBound(ssts[1..], m)
  }

  /** Inserting at the lower bound keeps an ordered list ordered. */
  lemma InsertAtLowerBound(ssts: seq<Sstable>, x: Sstable)
    requires SortedByMaxRss(ssts)
    ensures var p := LowerBound(ssts, x.meta.maxRssRowid);
            SortedByMaxRss(ssts[..p] + [x] + ssts[p..])
  {
    var p := LowerBound(ssts, x.meta.maxRssRowid);
    var r := ssts[..p] + [x] + ssts[p..];
    forall i, j | 0 <= i < j < |r|
      ensures r[i].meta.maxRssRowid <= r[j].meta.maxRssRowid
    {
      if j < p {
        assert r[i] == ssts[i] && r[j] == ssts[j];
      } else if j == p {
        assert r[i] == ssts[i];
      } else if i == p {
        assert r[j] == ssts[j - 1] && ssts[p].meta.maxRssRowid >= x.meta.maxRssRowid;
      } else if i < p {
        assert r[i] == ssts[i] && r[j] == ssts[j - 1];
      } else {
        assert r[i] == ssts[i - 1] && r[j] == ssts[j - 1];
      }
    }
  }

  /** An op-compaction record: the input sstables and the merged output, if any. */
  datatype OpCompaction = OpCompaction(inputs: seq<SstableMeta>, output: Option<SstableMeta>)

  /**
   * apply_opcompaction: the output takes the `max_rss_rowid` of the last input; the inputs leave
   * the list, and the output is inserted at its lower bound.
   */
  function Compacted(ssts: seq<Sstable>, op: OpCompaction, outputEntries: map<string, u64>): (r: seq<Sstable>)
    requires op.inputs != [] && op.output.Some?
    ensures SortedByMaxRss(ssts) ==> SortedByMaxRss(r)
    ensures var names := set x | x in op.inputs :: x.filename;
            forall x :: x in r ==> (x in ssts && x.meta.filename !in names) || x.entries == outputEntries
    ensures var names := set x | x in op.inputs :: x.filename;
            forall x :: x in ssts && x.meta.filename !in names ==> x in r
    ensures Sstable(op.output.value.(maxRssRowid := op.inputs[|op.inputs| - 1].maxRssRowid), outputEntries) in r
    ensures var names := set x | x in op.inputs :: x.filename;
            multiset(r) == multiset(WithoutFiles(ssts, names)) + multiset{
              Sstable(op.output.value.(maxRssRowid := op.inputs[|op.inputs| - 1].maxRssRowid), outputEntries)}
  {
    var meta := op.output.value.(maxRssRowid := op.inputs[|op.inputs| - 1].maxRssRowid);
    var sst := Sstable(meta, outputEntries);
    var kept := WithoutFiles(ssts, set x | x in op.inputs :: x.filename);
    var p := LowerBound(kept, meta.maxRssRowid);
    assert SortedByMaxRss(ssts) ==> SortedByMaxRss(kept[..p] + [sst] + kept[p..]) by {
      if SortedByMaxRss(ssts) {
        InsertAtLowerBound(kept, sst);
      }
    }
    InsertedAt(kept, sst, p);
    kept[..p] + [sst] + kept[p..]
  }

  /** Inserting one sstable anywhere adds it once and keeps everything else. */
  lemma InsertedAt(ssts: seq<Sstable>, x: Sstable, p: nat)
    requires p <= |ssts|
    ensures multiset(ssts[..p] + [x] + ssts[p..]) == multiset(ssts) + multiset{x}
    ensures forall y :: y in ssts[..p] + [x] + ssts[p..] <==> y in ssts || y == x
  {
    assert ssts == ssts[..p] + ssts[p..];
  }

  /** commit's order check: OK exactly when the list is ordered by `max_rss_rowid`. */
  method CheckOrder(ssts: seq<Sstable>) returns (st: Status)
    ensures st.OK? <==> SortedByMaxRss(ssts)
    ensures st.Error? ==> st.code == InternalError
  {
    var last := 0;
    var i := 0;
    while i < |ssts|
      invariant 0 <= i <= |ssts|
      invariant SortedByMaxRss(ssts[..i])
      invariant if i == 0 then last == 0 else last == ssts[i - 1].meta.maxRssRowid
    {
      var m := ssts[i].meta.maxRssRowid;
      if last > m {
        assert ssts[i - 1].meta.maxRssRowid > ssts[i].meta.maxRssRowid;
        return Error(InternalError, "sstables are not ordered");
      }
      assert ssts[..i + 1] == ssts[..i] + [ssts[i]];
      last := m;
      i := i + 1;
    }
    assert ssts[..i] == ssts;
    return OK;
  }

  class LakePersistentIndex {
    var memtable: map<string, u64>
    /** The memtable's `max_rss_rowid`, carried over to the next memtable on a flush. */
    var memtableMaxRssRowid: u64
    var sstables: seq<Sstable>
    var needRebuildFileCnt: nat

    function Metas(): seq<SstableMeta>
      reads this
    {
      seq(|sstables|, i reads this requires 0 <= i < |sstables| => sstables[i].meta)
    }

    /** init: the sstables of the metadata, and an empty memtable at their largest `max_rss_rowid`. */
    constructor (ssts: seq<Sstable>)
      ensures sstables == ssts && memtable == map[] && needRebuildFileCnt == 0
    {
      sstables := ssts;
      memtable := map[];
      needRebuildFileCnt := 0;
      var m: u64 := 0;
      var i := 0;
      while i < |ssts|
        invariant 0 <= i <= |ssts|
        invariant forall j :: 0 <= j < i ==> ssts[j].meta.maxRssRowid <= m
      {
        if ssts[i].meta.maxRssRowid > m {
          m := ssts[i].meta.maxRssRowid;
        }
        i := i + 1;
      }
      memtableMaxRssRowid := m;
    }

    /** get: every key's value, from the memtable or else the sstables; absent keys are null. */
    method Get(keys: seq<string>) returns (values: seq<u64>)
      ensures values == Lookups(memtable, sstables, keys)
    {
      var mem := memtable;
      var inMemtable := seq(|keys|, j requires 0 <= j < |keys| => if keys[j] in mem then mem[keys[j]] else NullIndexValue);
      var notFound := set j | 0 <= j < |keys| && keys[j] !in mem;
      values := GetFromSstables(sstables, keys, inMemtable, notFound);
    }

    /**
     * try_replace: each key whose current value is live and lies in a segment no newer than
     * `max_src_rssid` takes its new value in the memtable; the row id of every other new value
     * is appended to `failed`.
     */
    method TryReplace(keys: seq<string>, values: seq<u64>, maxSrcRssid: u32, failed0: seq<u32>)
      returns (failed: seq<u32>)
      requires |keys| == |values|
      modifies this`memtable
      ensures var found := Lookups(old(memtable), sstables, keys);
              failed == failed0 + FailedRowids(found, values, maxSrcRssid)
              && memtable == Replaced(old(memtable), keys, values, ReplaceIdxes(found, maxSrcRssid))
    {
      var found := Get(keys);
      var replaceIdxes;
      replaceIdxes, failed := SplitReplaceable(found, values, maxSrcRssid, failed0);
      memtable := ReplaceAt(memtable, keys, values, replaceIdxes);
    }

    /**
     * flush_memtable: the memtable becomes the newest sstable (with the memtable's
     * `max_rss_rowid`), a new empty memtable keeps that `max_rss_rowid`, and the rebuild count
     * is reset.
     */
    method FlushMemtable(filename: string, filesize: int)
      modifies this
      ensures sstables == old(sstables) + [Sstable(SstableMeta(filename, filesize, old(memtableMaxRssRowid)), old(memtable))]
      ensures memtable == map[] && memtableMaxRssRowid == old(memtableMaxRssRowid) && needRebuildFileCnt == 0
      ensures forall k :: Lookup(memtable, sstables, k) == Lookup(old(memtable), old(sstables), k)
    {
      var meta := SstableMeta(filename, filesize, memtableMaxRssRowid);
      forall k
        ensures Lookup(map[], sstables + [Sstable(meta, memtable)], k) == Lookup(memtable, sstables, k)
      {
        FlushKeepsLookups(memtable, sstables, meta, k);
      }
      sstables := sstables + [Sstable(meta, memtable)];
      memtable := map[];
      needRebuildFileCnt := 0;
    }

    /**
     * apply_opcompaction: nothing without inputs or without an output; an output file that
     * cannot be opened fails with the sstable list unchanged; otherwise the inputs are replaced
     * by the output at its place in `max_rss_rowid` order.
     */
    method ApplyOpCompaction(op: OpCompaction, outputFile: Result<map<string, u64>, Failure>) returns (st: Status)
      modifies this`sstables
      ensures op.inputs == [] || op.output.None? ==> st == OK && sstables == old(sstables)
      ensures op.inputs != [] && op.output.Some? ==>
                if outputFile.Err? then st == outputFile.error && sstables == old(sstables)
                else st == OK && sstables == Compacted(old(sstables), op, outputFile.value)
    {
      if op.inputs == [] || op.output.None? {
        return OK;
      }
      var meta := op.output.value.(maxRssRowid := op.inputs[|op.inputs| - 1].maxRssRowid);
      if outputFile.Err? {
        return outputFile.error;
      }
      var sst := Sstable(meta, outputFile.value);
      var names := set x | x in op.inputs :: x.filename;
      var kept := WithoutFiles(sstables, names);
      var p := LowerBound(kept, meta.maxRssRowid);
      sstables := kept[..p] + [sst] + kept[p..];
      return OK;
    }

    /**
     * commit: with too many files to rebuild and a non-empty memtable, the memtable is flushed
     * first; the list must be ordered by `max_rss_rowid`, and the rebuild count is then
     * recomputed from the tablet's rowsets.
     */
    method Commit(rowsets: seq<RowsetMeta>, rebuildFilesThreshold: int, flushFilename: string, flushFilesize: int)
      returns (st: Status)
      modifies this
      ensures var flushed := old(needRebuildFileCnt) >= rebuildFilesThreshold && old(memtable) != map[];
              sstables == old(sstables) + (if flushed then [Sstable(SstableMeta(flushFilename, flushFilesize, old(memtableMaxRssRowid)), old(memtable))] else [])
              && memtable == (if flushed then map[] else old(memtable))
      ensures st.OK? <==> SortedByMaxRss(sstables)
      ensures st.OK? ==> needRebuildFileCnt == RebuildFileCount(rowsets, RebuildRssid(Metas()))
    {
      if needRebuildFileCnt >= rebuildFilesThreshold && memtable != map[] {
        FlushMemtable(flushFilename, flushFilesize);
      }
      st := CheckOrder(sstables);
      if st.Error? {
        return;
      }
      needRebuildFileCnt := NeedRebuildFileCnt(rowsets, Metas());
    }
  }

  lemma NewestStep(ssts: seq<Sstable>, i: nat)
    requires 0 < i <= |ssts|
    ensures forall k :: Newest(ssts[i - 1..], k) ==
              if k in ssts[i - 1].entries && Newest(ssts[i..], k).None? then Some(ssts[i - 1].entries[k])
              else Newest(ssts[i..], k)
  {
    forall k
      ensures Newest(ssts[i - 1..], k) ==
                if k in ssts[i - 1].entries && Newest(ssts[i..], k).None? then Some(ssts[i - 1].entries[k])
                else Newest(ssts[i..], k)
    {
      NewestPrepend(ssts[i - 1], ssts[i..], k);
      assert ssts[i - 1..] == [ssts[i - 1]] + ssts[i..];
    }
  }

  lemma {:induction false} NewestPrepend(first: Sstable, rest: seq<Sstable>, k: string)
    ensures Newest([first] + rest, k) ==
              if k in first.entries && Newest(rest, k).None? then Some(first.entries[k]) else Newest(rest, k)
    decreases |rest|
  {
    if rest != [] {
      var n := |rest| - 1;
      assert ([first] + rest)[..|rest|] == [first] + rest[..n];
      NewestPrepend(first, rest[..n], k);
    }
  }

  lemma NewestDone(ssts: seq<Sstable>, i: nat, keys: seq<string>, keyIndexes0: set<nat>, keyIndexes: set<nat>)
    requires i <= |ssts|
    requires forall j :: j in keyIndexes <==> j in keyIndexes0 && (j >= |keys| || Newest(ssts[i..], keys[j]).None?)
    requires keyIndexes == {}
    ensures forall j :: 0 <= j < |keys| && j in keyIndexes0 ==> Newest(ssts, keys[j]) == Newest(ssts[i..], keys[j])
  {
    forall j | 0 <= j < |keys| && j in keyIndexes0
      ensures Newest(ssts, keys[j]) == Newest(ssts[i..], keys[j])
    {
      assert j !in keyIndexes;
      NewestSuffix(ssts, i, keys[j]);
    }
  }

  /** A key held by a suffix of the sstables is found there by the newest-first search. */
  lemma {:induction false} NewestSuffix(ssts: seq<Sstable>, i: nat, k: string)
    requires i <= |ssts| && Newest(ssts[i..], k).Some?
    ensures Newest(ssts, k) == Newest(ssts[i..], k)
    decreases |ssts|
  {
    if i < |ssts| {
      var n := |ssts| - 1;
      assert ssts[i..][..|ssts[i..]| - 1] == ssts[..n][i..];
      if k !in ssts[n].entries {
        NewestSuffix(ssts[..n], i, k);
      }
    }
  }
}
