/**
 * The packaging loop of `crear_zip_para_descarga`: the names the matcher
 * reported are looked up in the destination folder, and each one that is
 * still a regular file there is written into the archive under its bare name.
 * The archive is abstracted to the sequence of its members, in the order they
 * are written; compression is not modelled.
 */
module Packager {
  import opened Matcher

  /** One archive member: the name it is stored under and its bytes. */
  datatype Member = Member(arcname: string, data: Bytes)

  function ArcNames(archive: seq<Member>): (names: seq<string>)
  {
    seq(|archive|, k requires 0 <= k < |archive| => archive[k].arcname)
  }

  /** `a` is `b` with some elements left out and the others kept in order. */
  predicate IsSubsequence<T(==)>(a: seq<T>, b: seq<T>)
    decreases |b|
  {
    if a == [] then true
    else if b == [] then false
    else if a[|a| - 1] == b[|b| - 1] then IsSubsequence(a[..|a| - 1], b[..|b| - 1])
    else IsSubsequence(a, b[..|b| - 1])
  }

  /** Appending an element to `b` keeps every subsequence of `b` a subsequence. */
  lemma {:induction false} SubsequenceOfLonger<T>(a: seq<T>, b: seq<T>, x: T)
    requires IsSubsequence(a, b)
    ensures IsSubsequence(a, b + [x])
    decreases |b|, 1
  {
    if a != [] && a[|a| - 1] == x {
      SubsequenceDropLast(a, b);
    }
    assert (b + [x])[..|b|] == b;
  }

  /** A subsequence of `b` without its last element is still a subsequence of `b`. */
  lemma {:induction false} SubsequenceDropLast<T>(a: seq<T>, b: seq<T>)
    requires a != [] && IsSubsequence(a, b)
    ensures IsSubsequence(a[..|a| - 1], b)
    decreases |b|, 0
  {
    var init, last := b[..|b| - 1], b[|b| - 1];
    assert b == init + [last];
    if a[|a| - 1] != last {
      SubsequenceDropLast(a, init);
    }
    SubsequenceOfLonger(a[..|a| - 1], init, last);
  }

  /**
   * The archive built from `names` and the folder: in the order of `names`,
   * exactly the names that are regular files of the folder, each stored
   * under its own name with the folder's bytes.
   */
  function Packed(names: seq<string>, folder: Folder): (archive: seq<Member>)
    ensures |archive| <= |names|
    ensures forall k :: 0 <= k < |archive| ==>
              archive[k].arcname in folder && archive[k].data == folder[archive[k].arcname]
    ensures IsSubsequence(ArcNames(archive), names)
  {
    if names == [] then []
    else
      var init := names[..|names| - 1];
      var n := names[|names| - 1];
      assert names == init + [n];
      var before := Packed(init, folder);
      SubsequenceOfLonger(ArcNames(before), init, n);
      if n in folder then
        var after := before + [Member(n, folder[n])];
        assert ArcNames(after) == ArcNames(before) + [n];
        assert ArcNames(after)[..|after| - 1] == ArcNames(before);
        after
      else
        before
  }

  /** What one more requested name adds to the archive. */
  lemma PackedStep(names: seq<string>, folder: Folder, n: string)
    ensures ArcNames(Packed(names + [n], folder)) ==
            if n in folder then ArcNames(Packed(names, folder)) + [n] else ArcNames(Packed(names, folder))
  {
    assert (names + [n])[..|names|] == names;
  }

  /** A requested name is in the archive exactly when it is a regular file of the folder. */
  lemma {:induction false} PackedKeepsPresent(names: seq<string>, folder: Folder, n: string)
    ensures n in ArcNames(Packed(names, folder)) <==> n in names && n in folder
    decreases |names|
  {
    if names != [] {
      var init := names[..|names| - 1];
      assert names == init + [names[|names| - 1]];
      PackedKeepsPresent(init, folder, n);
      PackedStep(init, folder, names[|names| - 1]);
    }
  }

  /** When every requested name is a regular file of the folder, the archive holds them all, in order. */
  lemma {:induction false} PackedAllPresent(names: seq<string>, folder: Folder)
    requires forall n :: n in names ==> n in folder
    ensures ArcNames(Packed(names, folder)) == names
    decreases |names|
  {
    if names != [] {
      var init := names[..|names| - 1];
      assert names == init + [names[|names| - 1]];
      PackedAllPresent(init, folder);
      PackedStep(init, folder, names[|names| - 1]);
    }
  }

  /**
   * `crear_zip_para_descarga`: walks the requested names in order and writes
   * each one that is a regular file of the folder into the archive, under its
   * bare name; the others are skipped without error.
   */
  method Package(names: seq<string>, folder: Folder) returns (archive: seq<Member>)
    ensures archive == Packed(names, folder)
  {
    archive := [];
    var k := 0;
    while k < |names|
      invariant 0 <= k <= |names|
      invariant archive == Packed(names[..k], folder)
    {
      var name := names[k];
      assert names[..k + 1][..k] == names[..k];
      if name in folder {
        archive := archive + [Member(name, folder[name])];
      }
      k := k + 1;
    }
    assert names[..k] == names;
  }

  /**
   * Matching and then packaging: the archive holds every reported file, in
   * the order reported, under its bare name; with the distinct names of a
   * directory listing, each member carries the bytes of the listed file it
   * was copied from.
   */
  lemma PackageAfterMatch(raw: seq<string>, listing: seq<Entry>, failures: set<Attempt>, dest0: Folder)
    ensures var idx := Picked(listing, Normalize(raw), failures, |listing|);
            var archive := Packed(NamesAt(listing, idx), Deposit(dest0, listing, idx));
            ArcNames(archive) == NamesAt(listing, idx) &&
            (DistinctNames(listing) ==>
               forall k :: 0 <= k < |archive| ==> archive[k].data == listing[idx[k]].content)
  {
    var idx := Picked(listing, Normalize(raw), failures, |listing|);
    var moved := NamesAt(listing, idx);
    var dest := Deposit(dest0, listing, idx);
    var archive := Packed(moved, dest);
    assert forall n :: n in moved ==> n in dest;
    PackedAllPresent(moved, dest);
    if DistinctNames(listing) {
      DepositHoldsSourceContent(dest0, listing, idx);
      forall k | 0 <= k < |archive| ensures archive[k].data == listing[idx[k]].content {
        assert archive[k].arcname == ArcNames(archive)[k] == moved[k];
      }
    }
  }
}
