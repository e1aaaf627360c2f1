/** Decrypting the sealed strategy package (`decrypt_package` in
    src/cloud_protection.py). A directory tree has files and directories, named
    by relative paths; the order in which the file system lists it is arbitrary. */
module Package {
  import opened Wrappers
  import opened Bytes
  import opened Crypto
  import opened Sequences
  import opened Unwrap

  const SUFFIX := ".aesgcm"

  /** Matched by `rglob("*.aesgcm")`. */
  predicate IsBlob(path: string) {
    |path| >= |SUFFIX| && path[|path| - |SUFFIX|..] == SUFFIX
  }

  /** A logical path names a file: its last component is not empty. */
  predicate Named(path: string) {
    path != "" && path[|path| - 1] != '/'
  }

  function Stem(path: string): string
    requires IsBlob(path)
  {
    path[..|path| - |SUFFIX|]
  }

  /** `with_suffix("")`: a name that is nothing but the suffix has no suffix. */
  function LogicalPath(path: string): string {
    if IsBlob(path) && Named(Stem(path)) then Stem(path) else path
  }

  lemma SealedName(logical: string)
    requires Named(logical)
    ensures IsBlob(logical + SUFFIX) && LogicalPath(logical + SUFFIX) == logical
  {}

  /** Two blobs share a target exactly when one is a bare suffix and the other is
      that same path with the suffix once more. */
  lemma TargetsCollideExactly(p: string, q: string)
    requires IsBlob(p) && IsBlob(q) && p != q
    ensures LogicalPath(p) == LogicalPath(q) <==>
            || (!Named(Stem(p)) && q == p + SUFFIX)
            || (!Named(Stem(q)) && p == q + SUFFIX)
  {
    assert p == Stem(p) + SUFFIX && q == Stem(q) + SUFFIX;
    assert Named(p) && Named(q);
    if q == p + SUFFIX {
      assert Stem(q) == p;
    }
    if p == q + SUFFIX {
      assert Stem(p) == q;
    }
  }

  // ---- directory trees ------------------------------------------------------

  datatype Tree = Tree(files: map<string, bytes>, dirs: set<string>)

  /** `path` lies somewhere below `dir`. */
  predicate Under(dir: string, path: string) {
    |dir| < |path| && path[..|dir|] == dir && path[|dir|] == '/'
  }

  /** The directories a path lies in. */
  function Parents(path: string): (ds: set<string>)
    ensures forall d :: d in ds <==> Under(d, path)
  {
    var ds := set i | 0 <= i < |path| && path[i] == '/' :: path[..i];
    assert forall d :: Under(d, path) ==> path[..|d|] == d;
    ds
  }

  lemma UnderIsTransitive(d: string, e: string, path: string)
    requires Under(d, e) && Under(e, path)
    ensures Under(d, path)
  {
    assert path[..|e|][..|d|] == path[..|d|];
  }

  /** No path is both a file and a directory, and everything lies in directories. */
  ghost predicate IsTree(t: Tree) {
    && t.files.Keys !! t.dirs
    && (forall p, d :: (p in t.files || p in t.dirs) && Under(d, p) ==> d in t.dirs)
  }

  /** Files of these names can be written into the tree: none of them is a
      directory or lies below a file, there or among themselves. */
  ghost predicate Compatible(names: set<string>, disk: Tree) {
    && (forall f :: f in names ==> f !in disk.dirs && Parents(f) !! disk.files.Keys)
    && (forall f, g :: f in names && g in names ==> !Under(f, g))
  }

  // ---- the loop -----------------------------------------------------------------

  /** A sealed directory, the key, and the opener in use. */
  datatype Job = Job(c: Suite, encode: string -> bytes, rust: bool, master: bytes, sealed: Tree)

  /** One blob; the additional data is its logical path. A directory of that
      name does not read. */
  function OpenBlob(job: Job, path: string): Option<bytes> {
    if path !in job.sealed.files then None
    else
      var blob, aad := job.sealed.files[path], job.encode(LogicalPath(path));
      if job.rust then Opened(RustOpen(job.c, Take(job.master, 32), blob, aad))
      else Opened(AesGcmOpen(job.c, blob, job.master, aad))
  }

  /** What `rglob` lists: every file and directory with the suffix, once, in any
      order. */
  ghost predicate Lists(order: seq<string>, sealed: Tree) {
    Distinct(order) && forall p :: p in order <==> IsBlob(p) && (p in sealed.files || p in sealed.dirs)
  }

  /** The file holds the plaintext, sealed under its logical path with a key that
      the opener in use accepts. */
  ghost predicate Authentic(job: Job, path: string, pt: bytes) {
    && path in job.sealed.files
    && (job.rust ==> |job.master| >= 32 && |pt| + 44 <= |job.sealed.files[path]|)
    && Authenticates(job.c, job.master, job.sealed.files[path], job.encode(LogicalPath(path)), pt)
  }

  ghost predicate Opens(job: Job, path: string) {
    exists pt :: Authentic(job, path, pt)
  }

  /** Opening a blob yields exactly the authentic plaintext. */
  lemma OpenBlobExact(job: Job, path: string, pt: bytes)
    ensures OpenBlob(job, path) == Some(pt) <==> Authentic(job, path, pt)
  {
    if path in job.sealed.files {
      var blob, aad := job.sealed.files[path], job.encode(LogicalPath(path));
      OpenExact(job.c, blob, job.master, aad, pt);
      RustOpenExact(job.c, Take(job.master, 32), blob, aad, pt);
      assert |job.master| >= 32 ==> Take(job.master, 32)[..32] == job.master[..32];
    }
  }

  lemma OpensExact(job: Job, path: string)
    ensures Opens(job, path) <==> OpenBlob(job, path).Some?
  {
    if OpenBlob(job, path).Some? {
      OpenBlobExact(job, path, OpenBlob(job, path).value);
    }
    forall pt | Authentic(job, path, pt) ensures OpenBlob(job, path) == Some(pt) {
      OpenBlobExact(job, path, pt);
    }
  }

  ghost predicate AllOpen(job: Job, order: seq<string>, n: nat)
    requires n <= |order|
  {
    forall i :: 0 <= i < n ==> Opens(job, order[i])
  }

  datatype PackageError = RustRequired | BlobRejected | PathConflict

  /** One blob: the directories of its target are made, the blob is opened, the
      target is written. The first of these that raises ends the package. */
  function WriteBlob(job: Job, path: string, disk: Tree): (Option<PackageError>, Tree) {
    var target := LogicalPath(path);
    if !(Parents(target) !! disk.files.Keys) then (Some(PathConflict), disk)
    else
      var made := disk.(dirs := disk.dirs + Parents(target));
      var pt := OpenBlob(job, path);
      if pt.None? then (Some(BlobRejected), made)
      else if target in made.dirs then (Some(PathConflict), made)
      else (None, made.(files := made.files[target := pt.value]))
  }

  /** The first `n` blobs of the listing, up to the first that raises. */
  function Run(job: Job, order: seq<string>, n: nat, disk: Tree): (Option<PackageError>, Tree)
    requires n <= |order|
  {
    if n == 0 then (None, disk)
    else
      var (e, d) := Run(job, order, n - 1, disk);
      if e.Some? then (e, d) else WriteBlob(job, order[n - 1], d)
  }

  lemma {:induction false} RunStops(job: Job, order: seq<string>, n: nat, m: nat, disk: Tree)
    requires n <= m <= |order| && Run(job, order, n, disk).0.Some?
    ensures Run(job, order, m, disk) == Run(job, order, n, disk)
  {
    if n < m {
      RunStops(job, order, n, m - 1, disk);
    }
  }

  /** Every error of the loop has its cause at the blob where the loop stopped. */
  lemma StopsAt(job: Job, order: seq<string>, n: nat, disk: Tree)
    requires n < |order| && Run(job, order, n, disk).0.None?
    requires WriteBlob(job, order[n], Run(job, order, n, disk).1).0.Some?
    ensures Run(job, order, |order|, disk) == WriteBlob(job, order[n], Run(job, order, n, disk).1)
  {
    RunStops(job, order, n + 1, |order|, disk);
  }

  /** `decrypt_package`: it succeeds exactly when the required opener is there,
      every blob opens and the targets fit into the output directory, and then
      every target has been written. A failure leaves what was done before it. */
  method DecryptPackage(job: Job, requireRust: bool, order: seq<string>, disk: Tree)
    returns (r: Result<nat, PackageError>, out: Tree)
    requires Lists(order, job.sealed)
    ensures r == Err(RustRequired) <==> requireRust && !job.rust
    ensures r.Ok? <==> && !(requireRust && !job.rust) && AllOpen(job, order, |order|)
                       && Compatible(Elements(Targets(order)), disk)
    ensures r.Ok? ==> r.value == |order| && out == Written(job, order, |order|, disk)
    ensures r == Err(RustRequired) ==> out == disk
    ensures r.Err? && r.error != RustRequired ==>
              && Run(job, order, |order|, disk) == (Some(r.error), out)
              && exists n :: StoppedAt(job, order, n, disk, r.error, out)
  {
    out := disk;
    if requireRust && !job.rust {
      return Err(RustRequired), out;
    }
    RunExact(job, order, |order|, disk);
    if Run(job, order, |order|, disk).0.Some? {
      RunStopsExactly(job, order, disk);
    }
    assert Targets(order)[..|order|] == Targets(order);
    var count := 0;
    for n := 0 to |order|
      invariant count == n && Run(job, order, n, disk) == (None, out)
    {
      var target := LogicalPath(order[n]);
      if !(Parents(target) !! out.files.Keys) {
        StopsAt(job, order, n, disk);
        return Err(PathConflict), out;
      }
      out := out.(dirs := out.dirs + Parents(target));
      var pt := OpenBlob(job, order[n]);
      if pt.None? {
        StopsAt(job, order, n, disk);
        return Err(BlobRejected), out;
      }
      if target in out.dirs {
        StopsAt(job, order, n, disk);
        return Err(PathConflict), out;
      }
      out := out.(files := out.files[target := pt.value]);
      count := count + 1;
    }
    r := Ok(count);
  }

  // ---- what a run does -------------------------------------------------------

  function Targets(order: seq<string>): seq<string> {
    seq(|order|, i requires 0 <= i < |order| => LogicalPath(order[i]))
  }

  ghost function ParentsOf(names: set<string>): set<string> {
    set f, d | f in names && d in Parents(f) :: d
  }

  /** The contents of the first `n` blobs under their targets, over `files`. */
  function Contents(job: Job, order: seq<string>, n: nat, files: map<string, bytes>): map<string, bytes>
    requires n <= |order|
  {
    if n == 0 then files
    else
      var before, pt := Contents(job, order, n - 1, files), OpenBlob(job, order[n - 1]);
      if pt.None? then before else before[LogicalPath(order[n - 1]) := pt.value]
  }

  /** The output directory once the first `n` targets have been written. */
  ghost function Written(job: Job, order: seq<string>, n: nat, disk: Tree): Tree
    requires n <= |order|
  {
    Tree(Contents(job, order, n, disk.files), disk.dirs + ParentsOf(Elements(Targets(order)[..n])))
  }

  lemma {:induction false} ContentsKeys(job: Job, order: seq<string>, n: nat, files: map<string, bytes>)
    requires n <= |order| && AllOpen(job, order, n)
    ensures Contents(job, order, n, files).Keys == files.Keys + Elements(Targets(order)[..n])
  {
    if n > 0 {
      ContentsKeys(job, order, n - 1, files);
      TargetsGrow(order, n);
      OpensExact(job, order[n - 1]);
    }
  }

  lemma TargetsGrow(order: seq<string>, n: nat)
    requires 0 < n <= |order|
    ensures Elements(Targets(order)[..n]) == Elements(Targets(order)[..n - 1]) + {LogicalPath(order[n - 1])}
  {
    var ts := Targets(order);
    assert ts[..n] == ts[..n - 1] + [ts[n - 1]];
  }

  lemma CompatibleGrows(names: set<string>, f: string, disk: Tree)
    ensures Compatible(names + {f}, disk) <==>
            && Compatible(names, disk) && Parents(f) !! disk.files.Keys + names
            && f !in disk.dirs + ParentsOf(names) + Parents(f)
    ensures ParentsOf(names + {f}) == ParentsOf(names) + Parents(f)
  {
    var all := names + {f};
    if Compatible(all, disk) {
      assert f in all;
      assert forall g :: g in names ==> g in all;
    }
  }

  lemma WriteBlobExact(job: Job, path: string, disk: Tree)
    ensures var target, d := LogicalPath(path), WriteBlob(job, path, disk);
            && (d.0.None? <==> && OpenBlob(job, path).Some? && Parents(target) !! disk.files.Keys
                               && target !in disk.dirs + Parents(target))
            && (d.0.None? ==> d.1 == Tree(disk.files[target := OpenBlob(job, path).value],
                                          disk.dirs + Parents(target)))
  {}

  /** One more blob, on a tree to which the files `names` have been added. */
  lemma NextBlobExact(job: Job, path: string, names: set<string>, disk: Tree, d: Tree)
    requires d.files.Keys == disk.files.Keys + names && d.dirs == disk.dirs + ParentsOf(names)
    requires Compatible(names, disk)
    ensures var all, w := names + {LogicalPath(path)}, WriteBlob(job, path, d);
            && (w.0.None? <==> OpenBlob(job, path).Some? && Compatible(all, disk))
            && (w.0.None? ==> && w.1.files == d.files[LogicalPath(path) := OpenBlob(job, path).value]
                              && w.1.dirs == disk.dirs + ParentsOf(all))
  {
    WriteBlobExact(job, path, d);
    CompatibleGrows(names, LogicalPath(path), disk);
  }

  lemma AllOpenGrows(job: Job, order: seq<string>, n: nat)
    requires 0 < n <= |order|
    ensures AllOpen(job, order, n) <==> AllOpen(job, order, n - 1) && OpenBlob(job, order[n - 1]).Some?
  {
    OpensExact(job, order[n - 1]);
  }

  /** The tree after `n` blobs, from the tree before the last of them. */
  lemma WrittenGrows(job: Job, order: seq<string>, n: nat, disk: Tree)
    requires 0 < n <= |order| && OpenBlob(job, order[n - 1]).Some?
    ensures var d, names := Written(job, order, n - 1, disk), Elements(Targets(order)[..n - 1]);
            Written(job, order, n, disk) ==
            Tree(d.files[LogicalPath(order[n - 1]) := OpenBlob(job, order[n - 1]).value],
                 disk.dirs + ParentsOf(names + {LogicalPath(order[n - 1])}))
  {
    TargetsGrow(order, n);
  }

  /** The loop runs through exactly when every blob opens and the targets fit
      into the tree, and then it has made every directory and written every
      target. */
  lemma {:induction false} RunExact(job: Job, order: seq<string>, n: nat, disk: Tree)
    requires n <= |order|
    ensures Run(job, order, n, disk).0.None? <==>
            AllOpen(job, order, n) && Compatible(Elements(Targets(order)[..n]), disk)
    ensures Run(job, order, n, disk).0.None? ==> Run(job, order, n, disk).1 == Written(job, order, n, disk)
  {
    if n > 0 {
      RunExact(job, order, n - 1, disk);
      if Run(job, order, n - 1, disk).0.None? {
        RunNext(job, order, n, disk);
      } else {
        AllOpenGrows(job, order, n);
        TargetsGrow(order, n);
        CompatibleGrows(Elements(Targets(order)[..n - 1]), LogicalPath(order[n - 1]), disk);
      }
    }
  }

  lemma RunNext(job: Job, order: seq<string>, n: nat, disk: Tree)
    requires 0 < n <= |order| && Run(job, order, n - 1, disk) == (None, Written(job, order, n - 1, disk))
    requires AllOpen(job, order, n - 1) && Compatible(Elements(Targets(order)[..n - 1]), disk)
    ensures Run(job, order, n, disk).0.None? <==>
            AllOpen(job, order, n) && Compatible(Elements(Targets(order)[..n]), disk)
    ensures Run(job, order, n, disk).0.None? ==> Run(job, order, n, disk).1 == Written(job, order, n, disk)
  {
    AllOpenGrows(job, order, n);
    NextInOrder(job, order, n, disk);
  }

  lemma NextInOrder(job: Job, order: seq<string>, n: nat, disk: Tree)
    requires 0 < n <= |order| && AllOpen(job, order, n - 1)
    requires Compatible(Elements(Targets(order)[..n - 1]), disk)
    ensures var w := WriteBlob(job, order[n - 1], Written(job, order, n - 1, disk));
            && (w.0.None? <==> OpenBlob(job, order[n - 1]).Some? && Compatible(Elements(Targets(order)[..n]), disk))
            && (w.0.None? ==> w.1 == Written(job, order, n, disk))
  {
    var names := Elements(Targets(order)[..n - 1]);
    ContentsKeys(job, order, n - 1, disk.files);
    NextBlobExact(job, order[n - 1], names, disk, Written(job, order, n - 1, disk));
    assert Elements(Targets(order)[..n]) == names + {LogicalPath(order[n - 1])} by { TargetsGrow(order, n); }
    if OpenBlob(job, order[n - 1]).Some? {
      WrittenGrows(job, order, n, disk);
    }
  }

  /** How a run can stop: every blob before has been written, and then a parent of
      the target is a file, or, with the parents made, the blob is refused, or
      the target is a directory. */
  ghost predicate StoppedAt(job: Job, order: seq<string>, n: nat, disk: Tree, e: PackageError, out: Tree) {
    && n < |order| && AllOpen(job, order, n) && Compatible(Elements(Targets(order)[..n]), disk)
    && var d, target := Written(job, order, n, disk), LogicalPath(order[n]);
       var made := d.(dirs := d.dirs + Parents(target));
       if !(Parents(target) !! d.files.Keys) then e == PathConflict && out == d
       else if !Opens(job, order[n]) then e == BlobRejected && out == made
       else e == PathConflict && target in made.dirs && out == made
  }

  lemma RunStopsExactly(job: Job, order: seq<string>, disk: Tree)
    requires Run(job, order, |order|, disk).0.Some?
    ensures var (e, out) := Run(job, order, |order|, disk); exists n :: StoppedAt(job, order, n, disk, e.value, out)
  {
    var n := FirstStop(job, order, |order|, disk);
    RunExact(job, order, n, disk);
    OpensExact(job, order[n]);
    var (e, out) := Run(job, order, |order|, disk);
    assert StoppedAt(job, order, n, disk, e.value, out);
  }

  lemma {:induction false} FirstStop(job: Job, order: seq<string>, m: nat, disk: Tree) returns (n: nat)
    requires m <= |order| && Run(job, order, m, disk).0.Some?
    ensures n < m && Run(job, order, n, disk).0.None?
    ensures Run(job, order, m, disk) == WriteBlob(job, order[n], Run(job, order, n, disk).1)
  {
    n := m - 1;
    if Run(job, order, n, disk).0.Some? {
      n := FirstStop(job, order, m - 1, disk);
    }
  }

  /** Where the content of a file of the output comes from. */
  ghost predicate Comes(job: Job, order: seq<string>, n: nat, disk: Tree, f: string, content: bytes)
    requires n <= |order|
  {
    || (f in disk.files && content == disk.files[f])
    || exists i :: 0 <= i < n && LogicalPath(order[i]) == f && Authentic(job, order[i], content)
  }

  lemma StepWrites(job: Job, path: string, disk: Tree, f: string)
    ensures var out := WriteBlob(job, path, disk).1;
            && (f in disk.files ==> f in out.files)
            && (f in out.files ==>
                  || (f in disk.files && out.files[f] == disk.files[f])
                  || (f == LogicalPath(path) && Authentic(job, path, out.files[f])))
  {
    if OpenBlob(job, path).Some? {
      OpenBlobExact(job, path, OpenBlob(job, path).value);
    }
  }

  /** Whether the run goes through or stops, nothing is in the output but what was
      there before and the authentic plaintext of listed blobs, each under its
      own target; and no file disappears. */
  lemma {:induction false} OnlyAuthenticWritten(job: Job, order: seq<string>, n: nat, disk: Tree, f: string)
    requires n <= |order|
    ensures var out := Run(job, order, n, disk).1;
            && (f in disk.files ==> f in out.files)
            && (f in out.files ==> Comes(job, order, n, disk, f, out.files[f]))
  {
    if n > 0 {
      OnlyAuthenticWritten(job, order, n - 1, disk, f);
      StepWrites(job, order[n - 1], Run(job, order, n - 1, disk).1, f);
    }
  }

  /** A blob that does not authenticate stops the package, in every listing order
      and for every output directory; and unless another blob has the same
      target, what lies at its target stays as it was. */
  lemma RefusedBlobFails(job: Job, order: seq<string>, disk: Tree, path: string)
    requires path in order && !Opens(job, path)
    ensures Run(job, order, |order|, disk).0.Some?
    ensures var out, target := Run(job, order, |order|, disk).1, LogicalPath(path);
            (forall q :: q in order && q != path ==> LogicalPath(q) != target) ==>
              && (target in out.files <==> target in disk.files)
              && (target in disk.files ==> out.files[target] == disk.files[target])
  {
    RunExact(job, order, |order|, disk);
    var out, target := Run(job, order, |order|, disk).1, LogicalPath(path);
    OnlyAuthenticWritten(job, order, |order|, disk, target);
    if target in out.files && forall q :: q in order && q != path ==> LogicalPath(q) != target {
      assert Comes(job, order, |order|, disk, target, out.files[target]);
      forall i | 0 <= i < |order| && LogicalPath(order[i]) == target
        ensures !Authentic(job, order[i], out.files[target])
      {
        assert order[i] in order;
      }
    }
  }

  lemma StepKeepsTree(job: Job, path: string, disk: Tree)
    requires IsTree(disk)
    ensures IsTree(WriteBlob(job, path, disk).1)
  {
    var target, d := LogicalPath(path), WriteBlob(job, path, disk).1;
    forall p, e | (p in d.files || p in d.dirs) && Under(e, p) ensures e in d.dirs {
      if p in Parents(target) {
        UnderIsTransitive(e, p, target);
      }
    }
  }

  /** Whether it runs through or stops, the loop leaves a directory tree, with
      every file and directory that was there before. */
  lemma {:induction false} RunKeepsTree(job: Job, order: seq<string>, n: nat, disk: Tree)
    requires n <= |order| && IsTree(disk)
    ensures var out := Run(job, order, n, disk).1;
            IsTree(out) && disk.files.Keys <= out.files.Keys && disk.dirs <= out.dirs
  {
    if n > 0 {
      RunKeepsTree(job, order, n - 1, disk);
      StepKeepsTree(job, order[n - 1], Run(job, order, n - 1, disk).1);
    }
  }

  // ---- round trip -----------------------------------------------------------------

  ghost predicate SealOf(job: Job, f: string, content: bytes, blob: bytes) {
    exists salt, nonce ::
      && |salt| == SALT_LEN && |nonce| == NONCE_LEN
      && blob == AesGcmSeal(job.c, content, job.master, job.encode(f), salt, nonce)
  }

  /** The blobs of the directory are `files`: each has a name, and its content is
      sealed under its logical path, with some salt and nonce, in the file named
      by the path and the suffix. Other files may lie beside the blobs. */
  ghost predicate Seals(job: Job, files: map<string, bytes>) {
    && IsTree(job.sealed)
    && (forall f :: f in files ==> Named(f))
    && (forall p :: IsBlob(p) ==> (p in job.sealed.files <==> Stem(p) in files))
    && (forall p :: IsBlob(p) && p in job.sealed.files && Stem(p) in files ==>
          SealOf(job, Stem(p), files[Stem(p)], job.sealed.files[p]))
  }

  /** A key the opener in use accepts. */
  ghost predicate Usable(job: Job) {
    Lawful(job.c) && (job.rust ==> |job.master| >= 32)
  }

  /** No directory of the sealed tree is named like a blob. */
  ghost predicate BlobsAreFiles(job: Job) {
    forall d :: d in job.sealed.dirs ==> !IsBlob(d)
  }

  lemma SealedBlobOpens(job: Job, files: map<string, bytes>, path: string)
    requires Usable(job) && Seals(job, files) && path in job.sealed.files && IsBlob(path)
    ensures LogicalPath(path) == Stem(path) && Stem(path) in files
    ensures OpenBlob(job, path) == Some(files[Stem(path)])
  {
    var f, c := Stem(path), job.c;
    var aad, blob := job.encode(f), job.sealed.files[path];
    assert path == f + SUFFIX;
    SealedName(f);
    var salt, nonce :| |salt| == SALT_LEN && |nonce| == NONCE_LEN
      && blob == AesGcmSeal(c, files[f], job.master, job.encode(f), salt, nonce);
    SealThenOpen(c, files[f], job.master, aad, salt, nonce);
    if job.rust {
      var key := Take(job.master, 32);
      assert Take(key, 32) == key;
      assert AesGcmOpen(c, blob, key, aad) == AesGcmOpen(c, blob, job.master, aad);
      OpenersAgree(c, key, blob, aad);
    }
  }

  /** Each listed blob holds the file of its target. */
  ghost predicate Restores(job: Job, files: map<string, bytes>, order: seq<string>) {
    forall i :: 0 <= i < |order| ==> RestoresOne(job, files, order[i])
  }

  ghost predicate RestoresOne(job: Job, files: map<string, bytes>, path: string) {
    && IsBlob(path) && LogicalPath(path) == Stem(path) && Stem(path) in files
    && OpenBlob(job, path) == Some(files[Stem(path)])
  }

  /** Every blob opens, as the file of its target, exactly when none of them is
      a directory. */
  lemma SealsRestore(job: Job, files: map<string, bytes>, order: seq<string>)
    requires Usable(job) && Seals(job, files) && Lists(order, job.sealed)
    ensures AllOpen(job, order, |order|) <==> BlobsAreFiles(job)
    ensures BlobsAreFiles(job) ==> Restores(job, files, order)
  {
    if BlobsAreFiles(job) {
      forall i | 0 <= i < |order| ensures RestoresOne(job, files, order[i]) {
        assert order[i] in order;
        SealedBlobOpens(job, files, order[i]);
      }
      forall i | 0 <= i < |order| ensures Opens(job, order[i]) {
        assert RestoresOne(job, files, order[i]);
        OpensExact(job, order[i]);
      }
    } else {
      var d :| d in job.sealed.dirs && IsBlob(d);
      assert d in order;
      var i :| 0 <= i < |order| && order[i] == d;
      OpensExact(job, order[i]);
      assert !Opens(job, order[i]);
    }
  }

  lemma StemIsInjective(p: string, q: string)
    requires IsBlob(p) && IsBlob(q) && Stem(p) == Stem(q)
    ensures p == q
  {
    assert p == Stem(p) + SUFFIX && q == Stem(q) + SUFFIX;
  }

  lemma TargetsDistinct(job: Job, files: map<string, bytes>, order: seq<string>)
    requires Restores(job, files, order) && Distinct(order)
    ensures Distinct(Targets(order))
  {
    var targets := Targets(order);
    forall i, j | 0 <= i < j < |order| ensures targets[i] != targets[j] {
      assert RestoresOne(job, files, order[i]) && RestoresOne(job, files, order[j]);
      if Stem(order[i]) == Stem(order[j]) {
        StemIsInjective(order[i], order[j]);
      }
    }
  }

  lemma TargetsCover(job: Job, files: map<string, bytes>, order: seq<string>, f: string)
    requires Seals(job, files) && Lists(order, job.sealed) && f in files
    ensures f in Targets(order)
  {
    var p := f + SUFFIX;
    SealedName(f);
    assert Stem(p) == f && p in order;
    var i :| 0 <= i < |order| && order[i] == p;
    assert Targets(order)[i] == f;
  }

  /** When every blob opens, the targets of the listing are the files. */
  lemma TargetsAreFiles(job: Job, files: map<string, bytes>, order: seq<string>)
    requires Seals(job, files) && Lists(order, job.sealed)
    requires Restores(job, files, order)
    ensures Elements(Targets(order)) == files.Keys
  {
    forall f | f in files ensures f in Targets(order) {
      TargetsCover(job, files, order, f);
    }
    forall i | 0 <= i < |order| ensures Targets(order)[i] in files {
      assert RestoresOne(job, files, order[i]);
    }
  }

  ghost function Restrict(files: map<string, bytes>, keys: set<string>): map<string, bytes> {
    map f | f in files && f in keys :: files[f]
  }

  lemma RestrictGrows(disk: map<string, bytes>, files: map<string, bytes>, done: set<string>, f: string)
    requires f in files
    ensures (disk + Restrict(files, done))[f := files[f]] == disk + Restrict(files, done + {f})
  {}

  lemma {:induction false} ContentsAreFiles(job: Job, files: map<string, bytes>, order: seq<string>, n: nat,
                                            disk: map<string, bytes>)
    requires Restores(job, files, order) && n <= |order|
    ensures Contents(job, order, n, disk) == disk + Restrict(files, Elements(Targets(order)[..n]))
  {
    if n == 0 {
      assert Restrict(files, Elements(Targets(order)[..0])) == map[];
    } else {
      ContentsAreFiles(job, files, order, n - 1, disk);
      assert RestoresOne(job, files, order[n - 1]);
      TargetsGrow(order, n);
      RestrictGrows(disk, files, Elements(Targets(order)[..n - 1]), Stem(order[n - 1]));
    }
  }

  lemma RestrictAll(files: map<string, bytes>, keys: set<string>)
    requires keys == files.Keys
    ensures Restrict(files, keys) == files
  {}

  /** The package comes back: for every set of named files, sealed under one key
      and listed in any order, decryption by either opener runs through exactly
      when no directory is named like a blob and no file lies in another's way,
      in the package or in the output directory. Then it writes exactly those
      files, to different targets, and counts them. */
  lemma PackageRoundTrip(job: Job, files: map<string, bytes>, order: seq<string>, disk: Tree)
    requires Usable(job) && Seals(job, files) && Lists(order, job.sealed)
    ensures var (e, out) := Run(job, order, |order|, disk);
            && (e.None? <==> BlobsAreFiles(job) && Compatible(files.Keys, disk))
            && (e.None? ==> && out == Tree(disk.files + files, disk.dirs + ParentsOf(files.Keys))
                            && Distinct(Targets(order)) && |order| == |files|)
  {
    var targets := Targets(order);
    assert targets[..|order|] == targets;
    RunExact(job, order, |order|, disk);
    SealsRestore(job, files, order);
    if BlobsAreFiles(job) {
      TargetsAreFiles(job, files, order);
      TargetsDistinct(job, files, order);
      DistinctElements(targets);
      ContentsAreFiles(job, files, order, |order|, disk.files);
      RestrictAll(files, Elements(targets));
    }
  }

  // ---- packages that never decrypt -------------------------------------------

  const TOY_BLOB: bytes := AesGcmSeal(Toy(), [], [], [], Zeros(SALT_LEN), Zeros(NONCE_LEN))

  /** A directory in which all `names` are sealed, as empty files. */
  ghost predicate ToyPackage(job: Job, names: set<string>) {
    && job.c == Toy() && !job.rust && job.master == [] && (forall f :: job.encode(f) == [])
    && IsTree(job.sealed)
    && (forall f :: f in names ==> Named(f))
    && (forall p :: IsBlob(p) ==> (p in job.sealed.files <==> Stem(p) in names))
    && (forall p :: p in job.sealed.files ==> job.sealed.files[p] == TOY_BLOB)
  }

  lemma ToySealOf(job: Job, f: string)
    requires job.c == Toy() && job.master == [] && job.encode(f) == []
    ensures SealOf(job, f, [], TOY_BLOB)
  {
    assert TOY_BLOB == AesGcmSeal(job.c, [], job.master, job.encode(f), Zeros(SALT_LEN), Zeros(NONCE_LEN));
  }

  lemma ToySeals(job: Job, names: set<string>) returns (files: map<string, bytes>)
    requires ToyPackage(job, names)
    ensures Usable(job) && Seals(job, files) && files.Keys == names
  {
    LawsAreConsistent();
    files := map f | f in names :: [];
    forall p | IsBlob(p) && p in job.sealed.files && Stem(p) in files
      ensures SealOf(job, Stem(p), files[Stem(p)], job.sealed.files[p])
    {
      ToySealOf(job, Stem(p));
    }
  }

  /** No listing of this directory is ever decrypted, into any output directory. */
  ghost predicate NeverDecrypts(job: Job) {
    forall order, disk :: Lists(order, job.sealed) ==> Run(job, order, |order|, disk).0.Some?
  }

  /** A package with a file in another's way, or with a directory named like a
      blob, fails in every listing order and for every output directory. */
  lemma ConflictNeverDecrypts(job: Job, files: map<string, bytes>)
    requires Usable(job) && Seals(job, files)
    requires !BlobsAreFiles(job) || exists f, g :: f in files && g in files && Under(f, g)
    ensures NeverDecrypts(job)
  {
    forall order, disk | Lists(order, job.sealed) ensures Run(job, order, |order|, disk).0.Some? {
      PackageRoundTrip(job, files, order, disk);
    }
  }

  lemma OneSealed(path: string, f: string)
    requires IsBlob(path)
    ensures path == f + SUFFIX <==> Stem(path) == f
  {
    assert path == Stem(path) + SUFFIX;
  }

  function ToyJob(sealed: Tree): Job {
    Job(Toy(), f => [], false, [], sealed)
  }

  function TwoFiles(dir: string, f: string, g: string): Tree {
    Tree(map[f + SUFFIX := TOY_BLOB, g + SUFFIX := TOY_BLOB], {dir})
  }

  lemma TwoFilesSealed(dir: string, f: string, g: string)
    requires Named(f) && Named(g) && IsTree(TwoFiles(dir, f, g))
    ensures ToyPackage(ToyJob(TwoFiles(dir, f, g)), {f, g})
  {
    var job := ToyJob(TwoFiles(dir, f, g));
    forall p | IsBlob(p) ensures p in job.sealed.files <==> Stem(p) in {f, g} {
      OneSealed(p, f);
      OneSealed(p, g);
    }
  }

  /** `k` is the only place of a slash in the path. */
  predicate OneSlash(path: string, k: nat) {
    k < |path| && forall i :: 0 <= i < |path| ==> (path[i] == '/' <==> i == k)
  }

  lemma TwoFilesTree(dir: string, f: string, g: string)
    requires '/' !in f + SUFFIX && '/' !in dir && OneSlash(g + SUFFIX, |dir|) && (g + SUFFIX)[..|dir|] == dir
    requires dir != f + SUFFIX
    ensures IsTree(TwoFiles(dir, f, g))
  {
    assert forall d :: Under(d, g + SUFFIX) ==> d == dir;
  }

  /** Two files, one named like the directory of the other, can be sealed. */
  lemma NestedFilesFail() returns (job: Job, files: map<string, bytes>)
    ensures Usable(job) && Seals(job, files) && BlobsAreFiles(job) && files.Keys == {"a", "a/b"}
    ensures NeverDecrypts(job)
  {
    job := ToyJob(TwoFiles("a", "a", "a/b"));
    TwoFilesTree("a", "a", "a/b");
    TwoFilesSealed("a", "a", "a/b");
    files := ToySeals(job, {"a", "a/b"});
    assert Under("a", "a/b");
    ConflictNeverDecrypts(job, files);
  }

  /** So can a file in a directory that is named like a blob. */
  lemma BlobDirectoryFails() returns (job: Job, files: map<string, bytes>)
    ensures Usable(job) && Seals(job, files) && Compatible(files.Keys, Tree(map[], {}))
    ensures files.Keys == {"cc", "a.aesgcm/b"} && NeverDecrypts(job)
  {
    job := ToyJob(TwoFiles("a.aesgcm", "cc", "a.aesgcm/b"));
    TwoFilesTree("a.aesgcm", "cc", "a.aesgcm/b");
    TwoFilesSealed("a.aesgcm", "cc", "a.aesgcm/b");
    files := ToySeals(job, {"cc", "a.aesgcm/b"});
    assert IsBlob("a.aesgcm");
    ConflictNeverDecrypts(job, files);
  }
}
