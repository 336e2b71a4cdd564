/** Attachment bookkeeping of the contact form: the ordered list of selected
    files, the batch admission rule of `handleFiles`, and the two removal
    operations. Toasts and the rendered list are left to the caller; the
    model returns which check each file failed. */
module Attachments {

  const MaxFiles: nat := 10
  const MaxSizePerFile: nat := 5 * 1024 * 1024
  const MaxTotalSize: nat := 50 * 1024 * 1024

  /** What the browser's `File` object contributes: name, size in bytes, MIME type. */
  datatype FileInfo = FileInfo(name: string, size: nat, mime: string)

  /** Two files count as the same attachment when name and size agree. */
  predicate SameFile(a: FileInfo, b: FileInfo) {
    a.name == b.name && a.size == b.size
  }

  predicate IsDuplicate(fs: seq<FileInfo>, f: FileInfo) {
    exists g | g in fs :: SameFile(g, f)
  }

  /** Sum of the sizes, accumulated left to right as `reduce` does. */
  function Total(fs: seq<FileInfo>): nat {
    if |fs| == 0 then 0 else Total(fs[..|fs| - 1]) + fs[|fs| - 1].size
  }

  /** The invariant the upload area keeps: at most ten files, at most 50 MB
      in all, at most 5 MB each, and no two with the same name and size. */
  predicate WellFormed(fs: seq<FileInfo>) {
    |fs| <= MaxFiles && WithinLimits(fs)
  }

  /** The size and uniqueness part of the invariant, which every single
      admission keeps by itself. */
  predicate WithinLimits(fs: seq<FileInfo>) {
    && Total(fs) <= MaxTotalSize
    && (forall i :: 0 <= i < |fs| ==> fs[i].size <= MaxSizePerFile)
    && (forall i, j :: 0 <= i < j < |fs| ==> !SameFile(fs[i], fs[j]))
  }

  /** Outcome of the per-file checks, in the order the handler runs them. */
  datatype Verdict = Added | AlreadyAdded | TooLarge | TotalTooLarge

  /** The checks one file of a batch goes through against the list as it
      stands when that file's turn comes. */
  function Review(fs: seq<FileInfo>, f: FileInfo): Verdict {
    if IsDuplicate(fs, f) then AlreadyAdded
    else if f.size > MaxSizePerFile then TooLarge
    else if Total(fs) + f.size > MaxTotalSize then TotalTooLarge
    else Added
  }

  /** A whole batch is refused up front (leaving the list alone and reporting
      how many more files fit), or every file in it is reviewed. */
  datatype Report = BatchRejected(room: int) | Reviewed(verdicts: seq<Verdict>)

  datatype Upload = Upload(files: seq<FileInfo>, report: Report)

  lemma TotalAppend(fs: seq<FileInfo>, f: FileInfo)
    ensures Total(fs + [f]) == Total(fs) + f.size
  {
    assert (fs + [f])[..|fs|] == fs;
  }

  /** A file that passes the review can be appended without breaking the
      size and uniqueness limits. */
  lemma AdmittedKeepsLimits(fs: seq<FileInfo>, f: FileInfo)
    requires WithinLimits(fs) && Review(fs, f) == Added
    ensures WithinLimits(fs + [f])
  {
    TotalAppend(fs, f);
    var g := fs + [f];
    forall i, j | 0 <= i < j < |g| ensures !SameFile(g[i], g[j]) {
      if j == |fs| {
        assert g[i] in fs;
      }
    }
  }

  /** Reference reading of the admission loop from position `k` on: the
      files of `batch` are reviewed left to right, each against the list as
      it stands at its turn, and only `Added` files are appended. The
      result is the final list and the verdicts in batch order. */
  function ReviewAll(files: seq<FileInfo>, batch: seq<FileInfo>, k: nat): (r: (seq<FileInfo>, seq<Verdict>))
    requires k <= |batch|
    ensures |r.1| == |batch| - k && |files| <= |r.0| <= |files| + |batch| - k
    ensures k < |batch| ==> r.1[0] == Review(files, batch[k])
    decreases |batch| - k
  {
    if k == |batch| then (files, [])
    else
      var v := Review(files, batch[k]);
      var rest := ReviewAll(if v == Added then files + [batch[k]] else files, batch, k + 1);
      (rest.0, [v] + rest.1)
  }

  /** Reviewing a batch keeps the size and uniqueness limits. */
  lemma {:induction false} ReviewAllKeepsLimits(files: seq<FileInfo>, batch: seq<FileInfo>, k: nat)
    requires k <= |batch| && WithinLimits(files)
    ensures WithinLimits(ReviewAll(files, batch, k).0)
    decreases |batch| - k
  {
    if k < |batch| {
      var f := batch[k];
      if Review(files, f) == Added {
        AdmittedKeepsLimits(files, f);
        ReviewAllKeepsLimits(files + [f], batch, k + 1);
      } else {
        ReviewAllKeepsLimits(files, batch, k + 1);
      }
    }
  }

  /** The files of `xs` whose verdict in `vs` is `Added`, in order. */
  function Picked(xs: seq<FileInfo>, vs: seq<Verdict>): (r: seq<FileInfo>)
    requires |xs| == |vs|
    ensures |r| <= |xs|
  {
    if |xs| == 0 then []
    else (if vs[0] == Added then [xs[0]] else []) + Picked(xs[1..], vs[1..])
  }

  /** Reviewing only ever appends: the final list is the old list followed
      by exactly the files judged `Added`, in batch order. */
  lemma {:induction false} ReviewAllAppends(files: seq<FileInfo>, batch: seq<FileInfo>, k: nat)
    requires k <= |batch|
    ensures ReviewAll(files, batch, k).0 == files + Picked(batch[k..], ReviewAll(files, batch, k).1)
    decreases |batch| - k
  {
    var r := ReviewAll(files, batch, k);
    if k == |batch| {
      assert files + [] == files;
    } else {
      var v := Review(files, batch[k]);
      var next := if v == Added then files + [batch[k]] else files;
      var rest := ReviewAll(next, batch, k + 1);
      ReviewAllAppends(next, batch, k + 1);
      assert r.1 == [v] + rest.1;
      assert batch[k..][1..] == batch[k + 1..] && batch[k..][0] == batch[k];
      assert Picked(batch[k..], r.1) == (if v == Added then [batch[k]] else []) + Picked(batch[k + 1..], rest.1);
      assert next + Picked(batch[k + 1..], rest.1)
             == files + ((if v == Added then [batch[k]] else []) + Picked(batch[k + 1..], rest.1));
    }
  }

  /** One turn of the admission loop keeps it in step with the reference:
      what remains to be reviewed, from the list as it now stands, still
      yields the reference result. */
  lemma AdmitStep(selected: seq<FileInfo>, batch: seq<FileInfo>, files: seq<FileInfo>, vs: seq<Verdict>, k: nat)
    requires k < |batch|
    requires ReviewAll(files, batch, k).0 == ReviewAll(selected, batch, 0).0
    requires vs + ReviewAll(files, batch, k).1 == ReviewAll(selected, batch, 0).1
    ensures var v := Review(files, batch[k]);
            var next := if v == Added then files + [batch[k]] else files;
            && ReviewAll(next, batch, k + 1).0 == ReviewAll(selected, batch, 0).0
            && (vs + [v]) + ReviewAll(next, batch, k + 1).1 == ReviewAll(selected, batch, 0).1
  {
    var v := Review(files, batch[k]);
    var rest := ReviewAll(if v == Added then files + [batch[k]] else files, batch, k + 1);
    assert vs + ([v] + rest.1) == (vs + [v]) + rest.1;
  }

  /** The admission loop of `handleFiles`: each file in turn is reviewed
      against the list as it stands and appended when admitted. */
  method AdmitBatch(selected: seq<FileInfo>, batch: seq<FileInfo>) returns (files: seq<FileInfo>, vs: seq<Verdict>)
    ensures (files, vs) == ReviewAll(selected, batch, 0)
  {
    files := selected;
    vs := [];
    var k := 0;
    while k < |batch|
      invariant 0 <= k <= |batch| && |vs| == k
      invariant ReviewAll(files, batch, k).0 == ReviewAll(selected, batch, 0).0
      invariant vs + ReviewAll(files, batch, k).1 == ReviewAll(selected, batch, 0).1
    {
      var f := batch[k];
      var v := Review(files, f);
      AdmitStep(selected, batch, files, vs, k);
      if v == Added {
        files := files + [f];
      }
      vs := vs + [v];
      k := k + 1;
    }
    assert vs + [] == vs;
  }

  /** `handleFiles`: a batch that would overflow the list is refused whole;
      otherwise the files are admitted one at a time, in order. */
  method HandleFiles(selected: seq<FileInfo>, batch: seq<FileInfo>) returns (u: Upload)
    ensures |selected| + |batch| > MaxFiles <==> u.report.BatchRejected?
    ensures u.report.BatchRejected? ==>
              u.files == selected && u.report.room == MaxFiles - |selected|
    ensures u.report.Reviewed? ==> (u.files, u.report.verdicts) == ReviewAll(selected, batch, 0)
    ensures WellFormed(selected) ==> WellFormed(u.files)
  {
    if |selected| + |batch| > MaxFiles {
      return Upload(selected, BatchRejected(MaxFiles - |selected|));
    }
    var files, vs := AdmitBatch(selected, batch);
    if WellFormed(selected) {
      ReviewAllKeepsLimits(selected, batch, 0);
    }
    return Upload(files, Reviewed(vs));
  }

  /** `removeFile(index)`, i.e. `Array.prototype.splice(index, 1)`: a
      negative index counts from the end, an index past the end removes
      nothing. */
  function RemoveFile(fs: seq<FileInfo>, index: int): (r: seq<FileInfo>)
    ensures 0 <= index < |fs| ==>
              && |r| == |fs| - 1
              && (forall j :: 0 <= j < index ==> r[j] == fs[j])
              && (forall j :: index <= j < |r| ==> r[j] == fs[j + 1])
              && multiset(r) + multiset{fs[index]} == multiset(fs)
    ensures index >= |fs| ==> r == fs
    ensures -|fs| <= index < 0 ==> r == fs[..|fs| + index] + fs[|fs| + index + 1..]
    ensures index < -|fs| && |fs| > 0 ==> r == fs[1..]
  {
    var start := if index < 0 then (if |fs| + index < 0 then 0 else |fs| + index) else index;
    if start < |fs| then
      assert fs == fs[..start] + [fs[start]] + fs[start + 1..];
      fs[..start] + fs[start + 1..]
    else fs
  }

  /** Removing a file keeps the upload invariant. */
  lemma RemoveFileKeepsWellFormed(fs: seq<FileInfo>, index: int)
    requires WellFormed(fs)
    ensures WellFormed(RemoveFile(fs, index))
  {
    var start := if index < 0 then (if |fs| + index < 0 then 0 else |fs| + index) else index;
    if start < |fs| {
      RemoveAtKeepsWellFormed(fs, start);
      assert RemoveFile(fs, index) == fs[..start] + fs[start + 1..];
    } else {
      assert RemoveFile(fs, index) == fs;
    }
  }

  /** Dropping entry `k` keeps the upload invariant. */
  lemma RemoveAtKeepsWellFormed(fs: seq<FileInfo>, k: nat)
    requires WellFormed(fs) && k < |fs|
    ensures WellFormed(fs[..k] + fs[k + 1..])
  {
    var r := fs[..k] + fs[k + 1..];
    TotalRemove(fs, k);
    forall i | 0 <= i < |r| ensures r[i] == fs[if i < k then i else i + 1] {
    }
    forall i, j | 0 <= i < j < |r| ensures !SameFile(r[i], r[j]) {
      assert r[i] == fs[if i < k then i else i + 1];
      assert r[j] == fs[if j < k then j else j + 1];
    }
  }

  lemma {:induction false} TotalRemove(fs: seq<FileInfo>, k: int)
    requires 0 <= k < |fs|
    ensures Total(fs[..k] + fs[k + 1..]) + fs[k].size == Total(fs)
    decreases |fs|
  {
    var n := |fs| - 1;
    if k == n {
      assert fs[..k] + fs[k + 1..] == fs[..n];
    } else {
      var g := fs[..n];
      TotalRemove(g, k);
      assert fs[..k] + fs[k + 1..] == (g[..k] + g[k + 1..]) + [fs[n]];
      TotalAppend(g[..k] + g[k + 1..], fs[n]);
    }
  }

  /** `removeAllFiles`: the list is emptied, which trivially satisfies the
      upload invariant and leaves room for a full batch. */
  function RemoveAllFiles(fs: seq<FileInfo>): (r: seq<FileInfo>)
    ensures WellFormed(r) && Total(r) == 0
    ensures forall batch: seq<FileInfo> :: |batch| <= MaxFiles ==> |r| + |batch| <= MaxFiles
  {
    []
  }
}
