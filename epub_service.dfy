/**
 * The EPUB service: one upload record per group (the chosen book, the
 * upload flags and the per-segment status list), the upload of the file
 * description followed by each segment, the bounded poll for the uploaded
 * book, and the two local tables of highlights and reading progress.
 *
 * Posting to the node, waiting for its transactions and parsing its books
 * are not modelled; their outcomes are parameters. The browser database is
 * a pair of record sequences in insertion order.
 */
module EpubService {
  import opened Wrappers

  datatype Status = Pending | Uploading | Done

  datatype SegmentStatus = SegmentStatus(name: string, status: Status)

  /** A segment of a verified EPUB file; its bytes are not modelled. */
  datatype EpubSegment = EpubSegment(id: string, sha256: string)

  /** What `verifyEpub` yields. */
  datatype VerifiedEpub = VerifiedEpub(fileName: string, segments: seq<EpubSegment>)

  /** A book parsed from the group's transactions. */
  datatype EpubBook = EpubBook(trxId: string, fileName: string)

  /** The name of the entry for the file description, uploaded first. */
  const FileInfoName: string := "fileinfo"

  /** How many times the upload looks for the book it has just posted. */
  const MaxBookPolls: nat := 30

  // ---------------------------------------------------------------------
  // segment status lists

  /** The entries of `segs` carry the names `names`, in order. */
  predicate NamedAfter(segs: seq<SegmentStatus>, names: seq<string>) {
    |segs| == |names| && forall i :: 0 <= i < |segs| ==> segs[i].name == names[i]
  }

  /** The two lists have the same names at the same places. */
  predicate SameNames(a: seq<SegmentStatus>, b: seq<SegmentStatus>) {
    |a| == |b| && forall i :: 0 <= i < |a| ==> a[i].name == b[i].name
  }

  predicate DistinctNames(segs: seq<SegmentStatus>) {
    forall i, j :: 0 <= i < j < |segs| ==> segs[i].name != segs[j].name
  }

  predicate HasEntry(segs: seq<SegmentStatus>, name: string) {
    exists i :: 0 <= i < |segs| && segs[i].name == name
  }

  /** The entry names of an upload: `fileinfo`, then the segment ids in order. */
  function UploadNames(epub: VerifiedEpub): (ns: seq<string>)
    ensures |ns| == 1 + |epub.segments|
    ensures ns[0] == FileInfoName
    ensures forall i :: 0 <= i < |epub.segments| ==> ns[i + 1] == epub.segments[i].id
  {
    [FileInfoName] + seq(|epub.segments|, i requires 0 <= i < |epub.segments| => epub.segments[i].id)
  }

  /** The status list `selectFile` installs: one pending entry per upload name. */
  function InitialSegments(epub: VerifiedEpub): (segs: seq<SegmentStatus>)
    ensures NamedAfter(segs, UploadNames(epub))
    ensures forall i :: 0 <= i < |segs| ==> segs[i].status == Pending
  {
    var ns := UploadNames(epub);
    seq(|ns|, i requires 0 <= i < |ns| => SegmentStatus(ns[i], Pending))
  }

  /** The position of the first entry named `name`, or -1. */
  function FirstNamed(segs: seq<SegmentStatus>, name: string): (k: int)
    ensures -1 <= k < |segs|
    decreases |segs|
  {
    if segs == [] then -1
    else if segs[0].name == name then 0
    else
      var k := FirstNamed(segs[1..], name);
      if k == -1 then -1 else k + 1
  }

  /** `FirstNamed` is -1 exactly when no entry has the name, and otherwise the first entry that has it. */
  lemma {:induction false} FirstNamedSpec(segs: seq<SegmentStatus>, name: string)
    ensures var k := FirstNamed(segs, name);
            && (k == -1 <==> !HasEntry(segs, name))
            && (k >= 0 ==> segs[k].name == name && forall j :: 0 <= j < k ==> segs[j].name != name)
    decreases |segs|
  {
    if segs != [] && segs[0].name != name {
      FirstNamedSpec(segs[1..], name);
      assert forall i :: 1 <= i < |segs| ==> segs[i] == segs[1..][i - 1];
    }
  }

  /** `changeStatus(name, status)` on the list. */
  function SetStatus(segs: seq<SegmentStatus>, name: string, status: Status): (r: seq<SegmentStatus>)
    ensures |r| == |segs|
  {
    var k := FirstNamed(segs, name);
    if k < 0 then segs else segs[k := SegmentStatus(name, status)]
  }

  /** `changeStatus` keeps every name, sets only the first entry with the name, and leaves the rest alone. */
  lemma SetStatusEffect(segs: seq<SegmentStatus>, name: string, status: Status)
    ensures SameNames(SetStatus(segs, name, status), segs)
    ensures forall i :: 0 <= i < |segs| && i != FirstNamed(segs, name) ==> SetStatus(segs, name, status)[i] == segs[i]
    ensures HasEntry(segs, name) ==> 0 <= FirstNamed(segs, name) && SetStatus(segs, name, status)[FirstNamed(segs, name)] == SegmentStatus(name, status)
  {
    FirstNamedSpec(segs, name);
  }

  lemma SameNamesNamedAfter(a: seq<SegmentStatus>, b: seq<SegmentStatus>, names: seq<string>)
    requires SameNames(a, b) && NamedAfter(b, names)
    ensures NamedAfter(a, names)
  {
  }

  /** The list after the first `k` upload names have each gone uploading, then done. */
  function Posted(segs: seq<SegmentStatus>, names: seq<string>, k: nat): (r: seq<SegmentStatus>)
    requires k <= |names|
    ensures |r| == |segs|
    decreases k
  {
    if k == 0 then segs
    else
      var n := names[k - 1];
      SetStatus(SetStatus(Posted(segs, names, k - 1), n, Uploading), n, Done)
  }

  /** Posting name `k` after the first `k`: the step the upload loop takes. */
  lemma PostedStep(segs: seq<SegmentStatus>, names: seq<string>, k: nat, s0: seq<SegmentStatus>, s1: seq<SegmentStatus>, s2: seq<SegmentStatus>)
    requires k < |names| && s0 == Posted(segs, names, k)
    requires s1 == SetStatus(s0, names[k], Uploading) && s2 == SetStatus(s1, names[k], Done)
    ensures s2 == Posted(segs, names, k + 1)
  {
  }

  /** Posting never renames an entry. */
  lemma {:induction false} PostedSameNames(segs: seq<SegmentStatus>, names: seq<string>, k: nat)
    requires k <= |names|
    ensures SameNames(Posted(segs, names, k), segs)
    decreases k
  {
    if k > 0 {
      PostedSameNames(segs, names, k - 1);
      var prev := Posted(segs, names, k - 1);
      var n := names[k - 1];
      SetStatusEffect(prev, n, Uploading);
      SetStatusEffect(SetStatus(prev, n, Uploading), n, Done);
    }
  }

  /** The list after an upload whose post number `failAt` (0 is the file description) throws. */
  function UploadOutcome(segs: seq<SegmentStatus>, names: seq<string>, failAt: Option<nat>): (r: seq<SegmentStatus>)
    ensures |r| == |segs|
  {
    if failAt.Some? && failAt.value < |names| then
      SetStatus(Posted(segs, names, failAt.value), names[failAt.value], Uploading)
    else Posted(segs, names, |names|)
  }

  lemma UploadOutcomeSameNames(segs: seq<SegmentStatus>, names: seq<string>, failAt: Option<nat>)
    ensures SameNames(UploadOutcome(segs, names, failAt), segs)
  {
    if failAt.Some? && failAt.value < |names| {
      PostedSameNames(segs, names, failAt.value);
      SetStatusEffect(Posted(segs, names, failAt.value), names[failAt.value], Uploading);
    } else {
      PostedSameNames(segs, names, |names|);
    }
  }

  /** The first entry named `name` is at `k` when `k` has it and no earlier entry does. */
  lemma {:induction false} FirstNamedAt(segs: seq<SegmentStatus>, name: string, k: nat)
    requires k < |segs| && segs[k].name == name
    requires forall j :: 0 <= j < k ==> segs[j].name != name
    ensures FirstNamed(segs, name) == k
    decreases k
  {
    if k > 0 {
      var t := segs[1..];
      assert forall j :: 0 <= j < k - 1 ==> t[j] == segs[j + 1];
      FirstNamedAt(t, name, k - 1);
    }
  }

  /** Posting the name at `k`, the first entry with it, sets that entry done and leaves every other one alone. */
  lemma PostAt(prev: seq<SegmentStatus>, n: string, k: nat)
    requires k < |prev| && prev[k].name == n
    requires forall j :: 0 <= j < k ==> prev[j].name != n
    ensures SetStatus(SetStatus(prev, n, Uploading), n, Done) == prev[k := SegmentStatus(n, Done)]
  {
    FirstNamedAt(prev, n, k);
    var up := SetStatus(prev, n, Uploading);
    assert up == prev[k := SegmentStatus(n, Uploading)];
    FirstNamedAt(up, n, k);
  }

  /** On a list carrying distinct names in upload order, the upload of the first `k` names makes exactly those entries done. */
  lemma {:induction false} PostedMarksPrefixDone(segs: seq<SegmentStatus>, names: seq<string>, k: nat)
    requires k <= |names| && NamedAfter(segs, names) && DistinctNames(segs)
    ensures var r := Posted(segs, names, k);
            && (forall i :: 0 <= i < k ==> r[i].status == Done)
            && (forall i :: k <= i < |segs| ==> r[i] == segs[i])
    decreases k
  {
    if k > 0 {
      PostedMarksPrefixDone(segs, names, k - 1);
      PostedSameNames(segs, names, k - 1);
      var prev := Posted(segs, names, k - 1);
      var n := names[k - 1];
      assert prev[k - 1] == segs[k - 1];
      assert forall j :: 0 <= j < k - 1 ==> prev[j].name == segs[j].name != segs[k - 1].name;
      PostAt(prev, n, k - 1);
    }
  }

  /**
   * On a list carrying distinct names in upload order, a complete upload
   * leaves every entry done; one whose post `f` throws leaves the entries
   * before `f` done, entry `f` uploading and those after it as they were.
   */
  lemma UploadOutcomeStatuses(segs: seq<SegmentStatus>, names: seq<string>, failAt: Option<nat>)
    requires NamedAfter(segs, names) && DistinctNames(segs)
    ensures var r := UploadOutcome(segs, names, failAt);
            if failAt.Some? && failAt.value < |names| then
              && (forall i :: 0 <= i < failAt.value ==> r[i].status == Done)
              && r[failAt.value].status == Uploading
              && (forall i :: failAt.value < i < |segs| ==> r[i] == segs[i])
            else
              forall i :: 0 <= i < |segs| ==> r[i].status == Done
  {
    if failAt.Some? && failAt.value < |names| {
      var f := failAt.value;
      PostedMarksPrefixDone(segs, names, f);
      PostedSameNames(segs, names, f);
      var prev := Posted(segs, names, f);
      FirstNamedSpec(prev, names[f]);
      assert FirstNamed(prev, names[f]) == f;
      SetStatusEffect(prev, names[f], Uploading);
    } else {
      PostedMarksPrefixDone(segs, names, |names|);
      assert UploadOutcome(segs, names, failAt) == Posted(segs, names, |names|);
    }
  }

  /** `changeStatus` never reaches an entry whose name an earlier entry already has. */
  lemma SetStatusMissesLaterCopy(segs: seq<SegmentStatus>, name: string, status: Status, i: nat, j: nat)
    requires i < j < |segs| && segs[i].name == segs[j].name
    ensures SetStatus(segs, name, status)[j] == segs[j]
    ensures SameNames(SetStatus(segs, name, status), segs)
  {
    FirstNamedSpec(segs, name);
    SetStatusEffect(segs, name, status);
  }

  /** However many names are posted, an entry whose name an earlier entry already has never changes. */
  lemma {:induction false} PostedMissesLaterCopy(segs: seq<SegmentStatus>, names: seq<string>, k: nat, i: nat, j: nat)
    requires k <= |names| && i < j < |segs| && segs[i].name == segs[j].name
    ensures Posted(segs, names, k)[j] == segs[j]
    decreases k
  {
    if k > 0 {
      PostedMissesLaterCopy(segs, names, k - 1, i, j);
      PostedSameNames(segs, names, k - 1);
      var prev := Posted(segs, names, k - 1);
      var n := names[k - 1];
      SetStatusMissesLaterCopy(prev, n, Uploading, i, j);
      var up := SetStatus(prev, n, Uploading);
      SetStatusMissesLaterCopy(up, n, Done, i, j);
    }
  }

  /**
   * With a repeated upload name, `find(...)!` in `changeStatus` only ever
   * reaches the first copy: whatever the upload's outcome, the entry of a
   * later copy stays as it was.
   */
  lemma RepeatedIdStaysPending(segs: seq<SegmentStatus>, names: seq<string>, failAt: Option<nat>, a: nat, b: nat)
    requires NamedAfter(segs, names) && a < b < |names| && names[a] == names[b]
    ensures UploadOutcome(segs, names, failAt)[b] == segs[b]
  {
    if failAt.Some? && failAt.value < |names| {
      var f := failAt.value;
      PostedMissesLaterCopy(segs, names, f, a, b);
      PostedSameNames(segs, names, f);
      SetStatusMissesLaterCopy(Posted(segs, names, f), names[f], Uploading, a, b);
    } else {
      PostedMissesLaterCopy(segs, names, |names|, a, b);
    }
  }

  /**
   * The entry `selectFile` installs for segment `k`: named after its id and
   * pending, after the file description's. Two segments with the same id
   * thus give a list `RepeatedIdStaysPending` applies to.
   */
  lemma InitialSegmentsEntry(epub: VerifiedEpub, k: nat)
    requires k < |epub.segments|
    ensures NamedAfter(InitialSegments(epub), UploadNames(epub))
    ensures UploadNames(epub)[k + 1] == epub.segments[k].id
    ensures InitialSegments(epub)[k + 1] == SegmentStatus(epub.segments[k].id, Pending)
  {
    var segs := InitialSegments(epub);
    assert segs[k + 1].name == UploadNames(epub)[k + 1];
  }

  /** `bookMap.get(groupId)!.find((v) => v.trxId === trx)` */
  function FindBook(books: seq<EpubBook>, trx: string): (r: Option<EpubBook>)
    ensures r.None? <==> forall i :: 0 <= i < |books| ==> books[i].trxId != trx
    ensures r.Some? ==> r.value.trxId == trx && r.value in books
    decreases |books|
  {
    if books == [] then None
    else if books[0].trxId == trx then Some(books[0])
    else FindBook(books[1..], trx)
  }

  /** `find` returns the first book with the transaction id, not just any. */
  lemma {:induction false} FindBookIsFirst(books: seq<EpubBook>, trx: string)
    ensures FindBook(books, trx).Some? ==>
              exists i :: 0 <= i < |books| && books[i] == FindBook(books, trx).value
                          && forall j :: 0 <= j < i ==> books[j].trxId != trx
    decreases |books|
  {
    if books != [] && books[0].trxId != trx {
      var r := FindBook(books[1..], trx);
      FindBookIsFirst(books[1..], trx);
      if r.Some? {
        var i :| 0 <= i < |books[1..]| && books[1..][i] == r.value && forall j :: 0 <= j < i ==> books[1..][j].trxId != trx;
        assert books[i + 1] == r.value;
        assert forall j :: 0 <= j < i + 1 ==> books[j].trxId != trx by {
          assert forall j :: 1 <= j < i + 1 ==> books[j] == books[1..][j - 1];
        }
      }
    } else if books != [] {
      assert books[0] == FindBook(books, trx).value;
    }
  }

  // ---------------------------------------------------------------------
  // the per-group upload record

  class UploadEntry {
    var epub: Option<VerifiedEpub>
    var uploading: bool
    var uploadDone: bool
    var fileinfo: string
    var segments: seq<SegmentStatus>
    var recentUploadBook: Option<EpubBook>

    /** With a book chosen, the status list names `fileinfo` and then its segments. */
    ghost predicate Valid()
      reads this
    {
      epub.Some? ==> NamedAfter(segments, UploadNames(epub.value))
    }

    /** A fresh record; `recentUploadBook` is carried over from the record it replaces. */
    constructor (recent: Option<EpubBook>)
      ensures Valid()
      ensures epub == None && !uploading && !uploadDone && fileinfo == "" && segments == []
      ensures recentUploadBook == recent
    {
      epub, uploading, uploadDone, fileinfo, segments := None, false, false, "", [];
      recentUploadBook := recent;
    }

    /** The part of `selectFile` after the book is verified. */
    method Select(book: VerifiedEpub)
      modifies this`epub, this`uploadDone, this`segments
      ensures Valid()
      ensures epub == Some(book) && !uploadDone && segments == InitialSegments(book)
    {
      epub := Some(book);
      uploadDone := false;
      segments := InitialSegments(book);
    }

    /** `changeStatus(name, status)`; the source asserts that an entry with the name exists. */
    method ChangeStatus(name: string, status: Status)
      requires HasEntry(segments, name)
      modifies this`segments
      ensures segments == SetStatus(old(segments), name, status)
    {
      var k := FirstNamed(segments, name);
      FirstNamedSpec(segments, name);
      segments := segments[k := SegmentStatus(name, status)];
    }

    /**
     * The posting part of `doUpload`: `fileinfo` and then every segment in
     * order, each set uploading before its post and done after it; the post
     * numbered `failAt` throws, which ends the run after its uploading step.
     */
    method PostEntries(failAt: Option<nat>) returns (completed: bool)
      requires Valid() && epub.Some?
      modifies this`segments
      ensures Valid()
      ensures completed <==> failAt.None? || failAt.value >= |UploadNames(epub.value)|
      ensures segments == UploadOutcome(old(segments), UploadNames(epub.value), failAt)
    {
      completed := PostInOrder(UploadNames(epub.value), failAt);
    }

    /** The loop of `PostEntries` over the entry names `names`. */
    method PostInOrder(names: seq<string>, failAt: Option<nat>) returns (completed: bool)
      requires NamedAfter(segments, names)
      modifies this`segments
      ensures NamedAfter(segments, names)
      ensures completed <==> failAt.None? || failAt.value >= |names|
      ensures segments == UploadOutcome(old(segments), names, failAt)
    {
      ghost var segs0 := segments;
      var k := 0;
      while k < |names|
        invariant 0 <= k <= |names|
        invariant segments == Posted(segs0, names, k)
        invariant NamedAfter(segments, names)
        invariant failAt.Some? ==> k <= failAt.value
      {
        var fails := failAt.Some? && failAt.value == k;
        PostOne(names, k, segs0, fails);
        if fails {
          return false;
        }
        k := k + 1;
      }
      completed := true;
    }

    /** One round of the loop: entry `k` goes uploading and, unless its post throws, done. */
    method PostOne(names: seq<string>, k: nat, ghost segs0: seq<SegmentStatus>, fails: bool)
      requires k < |names| && NamedAfter(segments, names) && segments == Posted(segs0, names, k)
      modifies this`segments
      ensures NamedAfter(segments, names)
      ensures fails ==> segments == SetStatus(Posted(segs0, names, k), names[k], Uploading)
      ensures !fails ==> segments == Posted(segs0, names, k + 1)
    {
      var n := names[k];
      ghost var before := segments;
      assert before[k].name == n;
      ChangeStatus(n, Uploading);
      SetStatusEffect(before, n, Uploading);
      SameNamesNamedAfter(segments, before, names);
      if fails {
        return;
      }
      ghost var mid := segments;
      assert mid[k].name == n;
      ChangeStatus(n, Done);
      SetStatusEffect(mid, n, Done);
      SameNamesNamedAfter(segments, mid, names);
      PostedStep(segs0, names, k, before, mid, segments);
    }
  }

  // ---------------------------------------------------------------------
  // the store

  class EpubStore {
    var uploadMap: map<string, UploadEntry>
    var bookMap: map<string, seq<EpubBook>>

    /** Every record is well formed, and no two groups share one. */
    ghost predicate Valid()
      reads this, uploadMap.Values
    {
      && (forall g :: g in uploadMap ==> uploadMap[g].Valid())
      && (forall g, h :: g in uploadMap && h in uploadMap && g != h ==> uploadMap[g] != uploadMap[h])
    }

    constructor ()
      ensures Valid() && uploadMap == map[] && bookMap == map[]
    {
      uploadMap, bookMap := map[], map[];
    }

    /**
     * `getOrInit(groupId, reset)`: the existing record, untouched, unless
     * `reset` is set or there is none; then a fresh record that keeps only
     * the previous `recentUploadBook`.
     */
    method GetOrInit(groupId: string, reset: bool) returns (item: UploadEntry)
      requires Valid()
      modifies this`uploadMap
      ensures Valid()
      ensures groupId in uploadMap && item == uploadMap[groupId]
      ensures groupId in old(uploadMap) && !reset ==> uploadMap == old(uploadMap)
      ensures groupId !in old(uploadMap) || reset ==>
                && fresh(item)
                && uploadMap == old(uploadMap)[groupId := item]
                && item.epub == None && !item.uploading && !item.uploadDone
                && item.fileinfo == "" && item.segments == []
                && item.recentUploadBook == (if groupId in old(uploadMap) then old(uploadMap[groupId].recentUploadBook) else None)
    {
      if groupId in uploadMap && !reset {
        return uploadMap[groupId];
      }
      var recent := if groupId in uploadMap then uploadMap[groupId].recentUploadBook else None;
      item := new UploadEntry(recent);
      uploadMap := uploadMap[groupId := item];
    }

    /**
     * `selectFile(groupId, ...)`: the record is fetched or created, then the
     * file is verified (`verified`, None when verification throws); a
     * verified book becomes the record's book with every entry pending.
     * Nothing else changes: not the other groups' records, and not the
     * record's `uploading`, `fileinfo` or `recentUploadBook`.
     */
    method SelectFile(groupId: string, verified: Option<VerifiedEpub>)
      requires Valid()
      modifies this`uploadMap, uploadMap.Values
      ensures Valid() && groupId in uploadMap
      ensures groupId in old(uploadMap) ==> uploadMap == old(uploadMap)
      ensures groupId !in old(uploadMap) ==>
                && fresh(uploadMap[groupId]) && uploadMap == old(uploadMap)[groupId := uploadMap[groupId]]
                && var item := uploadMap[groupId];
                   !item.uploading && item.fileinfo == "" && item.recentUploadBook == None
      ensures forall g :: g in old(uploadMap) && g != groupId ==> unchanged(old(uploadMap)[g])
      ensures verified.Some? ==>
                var item := uploadMap[groupId];
                && item.epub == verified && !item.uploadDone
                && item.segments == InitialSegments(verified.value)
                && |item.segments| == 1 + |verified.value.segments|
      ensures verified.Some? && groupId in old(uploadMap) ==>
                var item := uploadMap[groupId];
                && item.uploading == old(item.uploading) && item.fileinfo == old(item.fileinfo)
                && item.recentUploadBook == old(item.recentUploadBook)
      ensures verified.None? && groupId in old(uploadMap) ==>
                unchanged(uploadMap[groupId])
      ensures verified.None? && groupId !in old(uploadMap) ==>
                var item := uploadMap[groupId];
                item.epub == None && !item.uploadDone && item.segments == []
    {
      var item := GetOrInit(groupId, false);
      if verified.Some? {
        item.Select(verified.value);
        assert |UploadNames(verified.value)| == 1 + |verified.value.segments|;
      }
      assert forall g :: g in uploadMap && uploadMap[g] != item ==> uploadMap[g].Valid();
    }

    /**
     * `doUpload(groupId)`: nothing happens when the record is already
     * uploading or has no book. Otherwise `uploading` is raised and the
     * upload runs; `started` is the record it runs on. Nothing else
     * changes: not the other groups' records, and not the record's other
     * fields. A group without a record gets a fresh one and nothing starts.
     */
    method DoUpload(groupId: string) returns (started: Option<UploadEntry>)
      requires Valid()
      modifies this`uploadMap, uploadMap.Values
      ensures Valid() && groupId in uploadMap
      ensures groupId in old(uploadMap) ==> uploadMap == old(uploadMap)
      ensures forall g :: g in old(uploadMap) && g != groupId ==> unchanged(old(uploadMap)[g])
      ensures groupId in old(uploadMap) && (old(uploadMap[groupId].uploading) || old(uploadMap[groupId].epub).None?) ==>
                started.None? && unchanged(uploadMap[groupId])
      ensures groupId in old(uploadMap) && !old(uploadMap[groupId].uploading) && old(uploadMap[groupId].epub).Some? ==>
                var item := uploadMap[groupId];
                && started == Some(item) && item.uploading
                && item.epub == old(item.epub) && item.segments == old(item.segments)
                && item.uploadDone == old(item.uploadDone) && item.fileinfo == old(item.fileinfo)
                && item.recentUploadBook == old(item.recentUploadBook)
      ensures groupId !in old(uploadMap) ==>
                && started.None?
                && fresh(uploadMap[groupId]) && uploadMap == old(uploadMap)[groupId := uploadMap[groupId]]
                && var item := uploadMap[groupId];
                   && item.epub == None && !item.uploading && !item.uploadDone
                   && item.fileinfo == "" && item.segments == [] && item.recentUploadBook == None
      ensures started.Some? ==> started.value.Valid() && started.value.epub.Some?
    {
      var item := GetOrInit(groupId, false);
      if item.uploading || item.epub.None? {
        return None;
      }
      item.uploading := true;
      started := Some(item);
      assert forall g :: g in uploadMap && uploadMap[g] != item ==> uploadMap[g].Valid();
    }

    /**
     * The body `doUpload` runs with its record raised to uploading: post
     * `fileinfo`, then every segment in order, each going uploading then
     * done, and stopping at the post numbered `failAt` if that one throws;
     * after a complete upload, up to 30 polls for the book whose `trxId` is
     * the file description's transaction (`books(i)` is what poll `i`
     * parses, None when `getAllEpubs` rejects, which rejects the body
     * before `uploadDone` is set). `uploading` drops in every outcome.
     */
    method RunUpload(item: UploadEntry, groupId: string, failAt: Option<nat>, fileInfoTrx: string, books: nat -> Option<seq<EpubBook>>)
      returns (polls: nat)
      requires item.Valid() && item.epub.Some?
      modifies item`segments, item`uploading, item`uploadDone, item`recentUploadBook, this`bookMap
      ensures item.Valid() && !item.uploading
      ensures item.segments == UploadOutcome(old(item.segments), UploadNames(item.epub.value), failAt)
      ensures failAt.Some? && failAt.value <= |item.epub.value.segments| ==>
                && polls == 0 && bookMap == old(bookMap)
                && item.uploadDone == old(item.uploadDone) && item.recentUploadBook == old(item.recentUploadBook)
      ensures failAt.None? || failAt.value > |item.epub.value.segments| ==>
                && 1 <= polls <= MaxBookPolls
                && (forall i :: 0 <= i < polls - 1 ==> books(i).Some? && FindBook(books(i).value, fileInfoTrx).None?)
                && (books(polls - 1).None? ==>
                      && bookMap == (if polls == 1 then old(bookMap) else old(bookMap)[groupId := books(polls - 2).value])
                      && item.uploadDone == old(item.uploadDone) && item.recentUploadBook == old(item.recentUploadBook))
                && (books(polls - 1).Some? ==>
                      && bookMap == old(bookMap)[groupId := books(polls - 1).value]
                      && item.uploadDone
                      && item.recentUploadBook == FindBook(books(polls - 1).value, fileInfoTrx)
                      && (item.recentUploadBook.None? ==> polls == MaxBookPolls))
    {
      var completed := item.PostEntries(failAt);
      if completed {
        var book, rejected;
        polls, book, rejected := PollForBook(groupId, fileInfoTrx, books);
        if !rejected {
          item.uploadDone := true;
          item.recentUploadBook := book;
        }
      } else {
        polls := 0;
      }
      item.uploading := false;
    }

    /**
     * The wait after a complete upload: the group's books are parsed again
     * (`books(i)` on attempt `i`, None when the fetch rejects) until one
     * has the transaction id `trx`, at most 30 times; each parse that
     * succeeds replaces the group's entry in `bookMap`, and a rejected one
     * ends the wait with `rejected` set.
     */
    method PollForBook(groupId: string, trx: string, books: nat -> Option<seq<EpubBook>>)
      returns (polls: nat, book: Option<EpubBook>, rejected: bool)
      modifies this`bookMap
      ensures 1 <= polls <= MaxBookPolls
      ensures forall i :: 0 <= i < polls - 1 ==> books(i).Some? && FindBook(books(i).value, trx).None?
      ensures rejected <==> books(polls - 1).None?
      ensures rejected ==>
                && book.None?
                && bookMap == (if polls == 1 then old(bookMap) else old(bookMap)[groupId := books(polls - 2).value])
      ensures !rejected ==>
                && bookMap == old(bookMap)[groupId := books(polls - 1).value]
                && book == FindBook(books(polls - 1).value, trx)
                && (book.None? ==> polls == MaxBookPolls)
    {
      polls := 0;
      var found := false;
      rejected := false;
      while polls < MaxBookPolls && !found && !rejected
        invariant 0 <= polls <= MaxBookPolls
        invariant polls == 0 ==> !found && !rejected && bookMap == old(bookMap)
        invariant forall i :: 0 <= i < polls - 1 ==> books(i).Some? && FindBook(books(i).value, trx).None?
        invariant polls > 0 ==> (rejected <==> books(polls - 1).None?)
        invariant polls > 0 && !rejected ==> bookMap == old(bookMap)[groupId := books(polls - 1).value]
        invariant polls > 0 && rejected ==>
                    bookMap == (if polls == 1 then old(bookMap) else old(bookMap)[groupId := books(polls - 2).value])
        invariant found <==> polls > 0 && !rejected && FindBook(books(polls - 1).value, trx).Some?
      {
        var parsed := books(polls);
        if parsed.None? {
          rejected := true;
        } else {
          bookMap := bookMap[groupId := parsed.value];
          found := FindBook(parsed.value, trx).Some?;
        }
        polls := polls + 1;
      }
      book := if rejected then None else FindBook(bookMap[groupId], trx);
    }
  }

  // ---------------------------------------------------------------------
  // the local database

  datatype Highlight = Highlight(groupId: string, bookTrx: string, cfiRange: string)

  datatype Progress = Progress(groupId: string, bookTrx: string, readingProgress: string)

  predicate NoRepeats(s: seq<Highlight>) {
    forall i, j :: 0 <= i < j < |s| ==> s[i] != s[j]
  }

  /** Every record except those equal to `x`, in their order. */
  function Without(s: seq<Highlight>, x: Highlight): (r: seq<Highlight>)
    ensures forall y :: y in r <==> y in s && y != x
    ensures |r| <= |s|
    decreases |s|
  {
    if s == [] then []
    else if s[0] == x then Without(s[1..], x)
    else
      assert forall y :: y in s[1..] ==> y in s;
      [s[0]] + Without(s[1..], x)
  }

  /** Deleting never creates a duplicate. */
  lemma {:induction false} WithoutKeepsNoRepeats(s: seq<Highlight>, x: Highlight)
    requires NoRepeats(s)
    ensures NoRepeats(Without(s, x))
    decreases |s|
  {
    if s != [] {
      var rest := s[1..];
      assert NoRepeats(rest) by {
        forall i, j | 0 <= i < j < |rest| ensures rest[i] != rest[j] {
          assert rest[i] == s[i + 1] && rest[j] == s[j + 1];
        }
      }
      WithoutKeepsNoRepeats(rest, x);
      if s[0] != x {
        assert s[0] !in rest by {
          forall k | 0 <= k < |rest| ensures rest[k] != s[0] { assert rest[k] == s[k + 1]; }
        }
        var r := [s[0]] + Without(rest, x);
        assert Without(s, x) == r;
        forall i, j | 0 <= i < j < |r| ensures r[i] != r[j] {
          if i == 0 { assert r[j] == Without(rest, x)[j - 1]; }
          else { assert r[i] == Without(rest, x)[i - 1] && r[j] == Without(rest, x)[j - 1]; }
        }
      }
    }
  }

  /** `where({ groupId, bookTrx }).toArray()` on the highlights table. */
  function HighlightsOf(t: seq<Highlight>, groupId: string, bookTrx: string): (r: seq<Highlight>)
    ensures forall h :: h in r <==> h in t && h.groupId == groupId && h.bookTrx == bookTrx
    decreases |t|
  {
    if t == [] then []
    else if t[0].groupId == groupId && t[0].bookTrx == bookTrx then [t[0]] + HighlightsOf(t[1..], groupId, bookTrx)
    else HighlightsOf(t[1..], groupId, bookTrx)
  }

  /** The highlights table after `saveHighlight`: a record is added only when none matches. */
  function SavedHighlights(t: seq<Highlight>, h: Highlight): seq<Highlight> {
    if h in t then t else t + [h]
  }

  /** Saving twice is saving once, and a table without repeated triples keeps none. */
  lemma SaveHighlightProperties(t: seq<Highlight>, h: Highlight)
    ensures SavedHighlights(SavedHighlights(t, h), h) == SavedHighlights(t, h)
    ensures h in SavedHighlights(t, h)
    ensures forall x :: x in SavedHighlights(t, h) <==> x in t || x == h
    ensures NoRepeats(t) ==> NoRepeats(SavedHighlights(t, h))
  {
  }

  /** Deleting after saving leaves exactly the other records. */
  lemma DeleteUndoesSave(t: seq<Highlight>, h: Highlight)
    ensures forall x :: x in Without(SavedHighlights(t, h), h) <==> x in t && x != h
  {
  }

  /** `readingProgress.where({ groupId, ...bookTrx ? { bookTrx } : {} })`: an absent or empty `bookTrx` does not filter. */
  predicate ProgressMatches(p: Progress, groupId: string, bookTrx: Option<string>) {
    p.groupId == groupId && (bookTrx.None? || bookTrx.value == "" || p.bookTrx == bookTrx.value)
  }

  /** `.last()` of that query: the last matching record, or null. */
  function LastProgress(t: seq<Progress>, groupId: string, bookTrx: Option<string>): (r: Option<Progress>)
    ensures r.None? <==> forall i :: 0 <= i < |t| ==> !ProgressMatches(t[i], groupId, bookTrx)
    ensures r.Some? ==> exists i :: 0 <= i < |t| && t[i] == r.value && ProgressMatches(t[i], groupId, bookTrx)
                          && forall j :: i < j < |t| ==> !ProgressMatches(t[j], groupId, bookTrx)
    decreases |t|
  {
    if t == [] then None
    else if ProgressMatches(t[|t| - 1], groupId, bookTrx) then Some(t[|t| - 1])
    else
      var r := LastProgress(t[..|t| - 1], groupId, bookTrx);
      assert forall i :: 0 <= i < |t| - 1 ==> t[..|t| - 1][i] == t[i];
      r
  }

  /** The records of other books or groups, in their order. */
  function OtherProgress(t: seq<Progress>, groupId: string, bookTrx: string): (r: seq<Progress>)
    ensures forall p :: p in r <==> p in t && !(p.groupId == groupId && p.bookTrx == bookTrx)
    decreases |t|
  {
    if t == [] then []
    else if t[0].groupId == groupId && t[0].bookTrx == bookTrx then OtherProgress(t[1..], groupId, bookTrx)
    else [t[0]] + OtherProgress(t[1..], groupId, bookTrx)
  }

  /** The table after `saveReadingProgress`: the old records of the book deleted, the new one added last. */
  function SavedProgress(t: seq<Progress>, groupId: string, bookTrx: string, value: string): seq<Progress> {
    OtherProgress(t, groupId, bookTrx) + [Progress(groupId, bookTrx, value)]
  }

  /**
   * After saving, exactly one record is kept for the group and book, it
   * holds the new value, and reading back (with the book, or with the group
   * alone) gives it.
   */
  lemma SavedProgressReadBack(t: seq<Progress>, groupId: string, bookTrx: string, value: string)
    ensures var t' := SavedProgress(t, groupId, bookTrx, value);
            && (forall i :: 0 <= i < |t'| && t'[i].groupId == groupId && t'[i].bookTrx == bookTrx ==> i == |t'| - 1)
            && t'[|t'| - 1] == Progress(groupId, bookTrx, value)
            && LastProgress(t', groupId, Some(bookTrx)) == Some(Progress(groupId, bookTrx, value))
            && LastProgress(t', groupId, None) == Some(Progress(groupId, bookTrx, value))
  {
    var others := OtherProgress(t, groupId, bookTrx);
    var t' := others + [Progress(groupId, bookTrx, value)];
    assert forall i :: 0 <= i < |others| ==> t'[i] == others[i] && others[i] in others;
  }

  /** Saving the progress of one book leaves the records of every other book as they were. */
  lemma SavedProgressKeepsOthers(t: seq<Progress>, groupId: string, bookTrx: string, value: string, p: Progress)
    requires !(p.groupId == groupId && p.bookTrx == bookTrx)
    ensures p in SavedProgress(t, groupId, bookTrx, value) <==> p in t
  {
  }

  class Database {
    var highlights: seq<Highlight>
    var progress: seq<Progress>

    constructor ()
      ensures highlights == [] && progress == []
    {
      highlights, progress := [], [];
    }

    /** `getHighlights(groupId, bookTrx)` */
    method GetHighlights(groupId: string, bookTrx: string) returns (items: seq<Highlight>)
      ensures items == HighlightsOf(highlights, groupId, bookTrx)
      ensures forall h :: h in items <==> h in highlights && h.groupId == groupId && h.bookTrx == bookTrx
    {
      items := HighlightsOf(highlights, groupId, bookTrx);
    }

    /** `saveHighlight(...)`: nothing is added when a record with the same triple exists. */
    method SaveHighlight(groupId: string, bookTrx: string, cfiRange: string)
      modifies this`highlights
      ensures highlights == SavedHighlights(old(highlights), Highlight(groupId, bookTrx, cfiRange))
      ensures NoRepeats(old(highlights)) ==> NoRepeats(highlights)
    {
      var h := Highlight(groupId, bookTrx, cfiRange);
      SaveHighlightProperties(highlights, h);
      if h !in highlights {
        highlights := highlights + [h];
      }
    }

    /** `deleteHighlight(...)`: every record with that triple goes, and nothing else. */
    method DeleteHighlight(groupId: string, bookTrx: string, cfiRange: string)
      modifies this`highlights
      ensures highlights == Without(old(highlights), Highlight(groupId, bookTrx, cfiRange))
      ensures Highlight(groupId, bookTrx, cfiRange) !in highlights
      ensures NoRepeats(old(highlights)) ==> NoRepeats(highlights)
    {
      if NoRepeats(highlights) {
        WithoutKeepsNoRepeats(highlights, Highlight(groupId, bookTrx, cfiRange));
      }
      highlights := Without(highlights, Highlight(groupId, bookTrx, cfiRange));
    }

    /** `getReadingProgress(groupId, bookTrx?)` */
    method GetReadingProgress(groupId: string, bookTrx: Option<string>) returns (item: Option<Progress>)
      ensures item == LastProgress(progress, groupId, bookTrx)
      ensures item.Some? ==> item.value.groupId == groupId
      ensures bookTrx.Some? && bookTrx.value != "" && item.Some? ==> item.value.bookTrx == bookTrx.value
    {
      item := LastProgress(progress, groupId, bookTrx);
    }

    /** `saveReadingProgress(...)`: the book's records are deleted and the new one added, in one transaction. */
    method SaveReadingProgress(groupId: string, bookTrx: string, readingProgress: string)
      modifies this`progress
      ensures progress == SavedProgress(old(progress), groupId, bookTrx, readingProgress)
      ensures LastProgress(progress, groupId, Some(bookTrx)) == Some(Progress(groupId, bookTrx, readingProgress))
    {
      SavedProgressReadBack(progress, groupId, bookTrx, readingProgress);
      progress := OtherProgress(progress, groupId, bookTrx) + [Progress(groupId, bookTrx, readingProgress)];
    }
  }
}
