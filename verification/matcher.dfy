/**
 * The identifier matcher of `buscar_y_mover_archivos`: it normalises a column
 * of CURP identifiers, walks a directory listing in order, and copies every
 * regular file whose upper-cased name contains one of the identifiers into a
 * destination folder, reporting how many files it copied and their names.
 *
 * The file system is abstracted: the listing is a sequence of entries (name,
 * "is a regular file", content), the destination folder is a map from file
 * name to content, and whether one call of the copy raises is decided by a
 * set of failing attempts, each attempt named by the position of the listed
 * entry and the position of the identifier that triggered it.
 */
module Matcher {
  import opened Text

  datatype Option<T> = None | Some(value: T)

  type Bytes = seq<bv8>

  /** One name returned by the directory listing. */
  datatype Entry = Entry(name: string, isFile: bool, content: Bytes)

  /** A copy attempt: (position in the listing, position in the identifier list). */
  type Attempt = (nat, nat)

  /** The destination folder: the regular files it holds, by name. */
  type Folder = map<string, Bytes>

  /** An identifier as normalisation leaves it: no ASCII lower case, no white space at either end. */
  ghost predicate IsNormal(id: string) {
    (forall i :: 0 <= i < |id| ==> !IsLowerAscii(id[i])) &&
    (id == [] || (!IsSpace(id[0]) && !IsSpace(id[|id| - 1])))
  }

  /**
   * The identifier list: each raw cell upper-cased and then stripped, in the
   * order of the column. Upper-casing first and stripping first give the same
   * identifier.
   */
  function Normalize(raw: seq<string>): (ids: seq<string>)
    ensures |ids| == |raw|
    ensures forall k {:trigger raw[k]} :: 0 <= k < |raw| ==> ids[k] == Upper(Strip(raw[k]))
    ensures forall k {:trigger raw[k]} :: 0 <= k < |raw| ==> IsNormal(ids[k])
  {
    NormalizeCommutes(raw);
    seq(|raw|, k requires 0 <= k < |raw| => Strip(Upper(raw[k])))
  }

  lemma NormalizeCommutes(raw: seq<string>)
    ensures forall k :: 0 <= k < |raw| ==>
              Strip(Upper(raw[k])) == Upper(Strip(raw[k])) && IsNormal(Strip(Upper(raw[k])))
  {
    forall k | 0 <= k < |raw|
      ensures Strip(Upper(raw[k])) == Upper(Strip(raw[k])) && IsNormal(Strip(Upper(raw[k])))
    {
      UpperStripCommute(raw[k]);
      StrippedUpperIsNormal(raw[k]);
    }
  }

  lemma StrippedUpperIsNormal(x: string)
    ensures IsNormal(Strip(Upper(x)))
  {
    var u := Upper(x);
    var r := Strip(u);
    var a := SkipLeading(u, 0);
    forall i | 0 <= i < |r| ensures !IsLowerAscii(r[i]) {
      assert r[i] == u[a + i] == UpperChar(x[a + i]);
    }
  }

  /** Normalising an already normalised identifier list changes nothing. */
  lemma NormalizeIdempotent(raw: seq<string>)
    ensures Normalize(Normalize(raw)) == Normalize(raw)
  {
    var ids := Normalize(raw);
    forall k | 0 <= k < |ids| ensures Strip(Upper(ids[k])) == ids[k] {
      NormalIsFixed(ids[k]);
    }
  }

  lemma NormalIsFixed(id: string)
    requires IsNormal(id)
    ensures Strip(Upper(id)) == id
  {
    assert Upper(id) == id;
    assert SkipLeading(id, 0) == 0;
    assert SkipTrailing(id, 0, |id|) == |id|;
  }

  /** The test `curp in nombre_archivo_upper`. */
  predicate Matches(name: string, id: string) {
    Contains(Upper(name), id)
  }

  /** The copy of entry `i` triggered by identifier `j` goes through. */
  predicate Succeeds(name: string, id: string, i: nat, j: nat, failures: set<Attempt>) {
    Matches(name, id) && (i, j) !in failures
  }

  /**
   * The inner loop over the identifiers, from position `from` on: every
   * identifier contained in the name triggers a copy; a copy that raises is
   * passed over, the first one that succeeds ends the loop. The result is the
   * position of the identifier whose copy succeeded, if any.
   */
  function FirstCopy(ids: seq<string>, name: string, i: nat, failures: set<Attempt>, from: nat): (r: Option<nat>)
    ensures r.Some? ==> from <= r.value < |ids| && Succeeds(name, ids[r.value], i, r.value, failures)
    ensures forall j {:trigger Succeeds(name, ids[j], i, j, failures)} :: from <= j < |ids| && (r.None? || j < r.value) ==> !Succeeds(name, ids[j], i, j, failures)
    decreases |ids| - from
  {
    if from >= |ids| then None
    else if Succeeds(name, ids[from], i, from, failures) then Some(from)
    else FirstCopy(ids, name, i, failures, from + 1)
  }

  /** Entry `i` is reported: it is a regular file and one of its copies went through. */
  predicate Recorded(listing: seq<Entry>, ids: seq<string>, failures: set<Attempt>, i: nat)
    requires i < |listing|
  {
    listing[i].isFile && FirstCopy(ids, listing[i].name, i, failures, 0).Some?
  }

  /**
   * The positions, among the first `n` entries of the listing, of the entries
   * reported, in increasing order, so each at most once.
   */
  function Picked(listing: seq<Entry>, ids: seq<string>, failures: set<Attempt>, n: nat): (r: seq<nat>)
    requires n <= |listing|
    ensures forall k :: 0 <= k < |r| ==> r[k] < n
    ensures forall k, l :: 0 <= k < l < |r| ==> r[k] < r[l]
    ensures |r| <= n
  {
    if n == 0 then []
    else
      var before := Picked(listing, ids, failures, n - 1);
      if Recorded(listing, ids, failures, n - 1) then before + [n - 1] else before
  }

  predicate InListing(listing: seq<Entry>, idx: seq<nat>) {
    forall k :: 0 <= k < |idx| ==> idx[k] < |listing|
  }

  /** The names of the entries at the positions `idx`. */
  function NamesAt(listing: seq<Entry>, idx: seq<nat>): (names: seq<string>)
    requires InListing(listing, idx)
  {
    seq(|idx|, k requires 0 <= k < |idx| => listing[idx[k]].name)
  }

  /**
   * The destination folder after copying the entries at positions `idx`, in
   * that order, into `dest`: a copy overwrites a file of the same name, and
   * nothing else is touched.
   */
  function Deposit(dest: Folder, listing: seq<Entry>, idx: seq<nat>): (r: Folder)
    requires InListing(listing, idx)
    ensures forall n :: n in r <==> n in dest || n in NamesAt(listing, idx)
    ensures forall n :: n in dest && n !in NamesAt(listing, idx) ==> r[n] == dest[n]
  {
    if idx == [] then dest
    else
      var last := listing[idx[|idx| - 1]];
      assert NamesAt(listing, idx) == NamesAt(listing, idx[..|idx| - 1]) + [last.name];
      Deposit(dest, listing, idx[..|idx| - 1])[last.name := last.content]
  }

  /**
   * `buscar_y_mover_archivos`: scans the listing in order; for each regular
   * file, tries the identifiers in order and, on the first copy that goes
   * through, counts the file, records its name and moves to the next file.
   * Returns the count, the recorded names and the destination folder.
   */
  method FindAndCopy(raw: seq<string>, listing: seq<Entry>, failures: set<Attempt>, dest0: Folder)
    returns (count: nat, moved: seq<string>, dest: Folder)
    ensures moved == NamesAt(listing, Picked(listing, Normalize(raw), failures, |listing|))
    ensures dest == Deposit(dest0, listing, Picked(listing, Normalize(raw), failures, |listing|))
    ensures count == |moved|
  {
    var ids := Normalize(raw);
    count, moved, dest := ScanListing(ids, listing, failures, dest0);
  }

  /**
   * The outer loop of `buscar_y_mover_archivos` over the directory listing,
   * with the identifiers already normalised: every regular file is handed to
   * the inner loop, and each one copied is counted and reported in listing order.
   */
  method ScanListing(ids: seq<string>, listing: seq<Entry>, failures: set<Attempt>, dest0: Folder)
    returns (count: nat, moved: seq<string>, dest: Folder)
    ensures moved == NamesAt(listing, Picked(listing, ids, failures, |listing|))
    ensures dest == Deposit(dest0, listing, Picked(listing, ids, failures, |listing|))
    ensures count == |moved|
  {
    count, moved, dest := 0, [], dest0;
    var i := 0;
    while i < |listing|
      invariant 0 <= i <= |listing|
      invariant moved == NamesAt(listing, Picked(listing, ids, failures, i))
      invariant dest == Deposit(dest0, listing, Picked(listing, ids, failures, i))
      invariant count == |moved|
    {
      var entry := listing[i];
      var copied := false;
      if entry.isFile {
        copied, dest := CopyOnFirstMatch(ids, entry, i, failures, dest);
        if copied {
          count := count + 1;
          moved := moved + [entry.name];
        }
      }
      ScanStep(dest0, listing, ids, failures, i, copied);
      i := i + 1;
    }
  }

  /**
   * The inner loop of `buscar_y_mover_archivos` for one regular file: each
   * identifier contained in the upper-cased name triggers a copy; a copy that
   * raises is reported and passed over, the first that goes through ends the
   * loop.
   */
  method CopyOnFirstMatch(ids: seq<string>, entry: Entry, i: nat, failures: set<Attempt>, dest: Folder)
    returns (copied: bool, dest': Folder)
    ensures copied <==> exists j :: 0 <= j < |ids| && Succeeds(entry.name, ids[j], i, j, failures)
    ensures copied == FirstCopy(ids, entry.name, i, failures, 0).Some?
    ensures dest' == if copied then dest[entry.name := entry.content] else dest
  {
    copied, dest' := false, dest;
    var upperName := Upper(entry.name);
    var j := 0;
    while j < |ids|
      invariant j <= |ids|
      invariant FirstCopy(ids, entry.name, i, failures, j) == FirstCopy(ids, entry.name, i, failures, 0)
    {
      if Contains(upperName, ids[j]) {
        if (i, j) !in failures {
          // the copy goes through; the success message is printed
          assert Succeeds(entry.name, ids[j], i, j, failures);
          dest' := dest'[entry.name := entry.content];
          copied := true;
          break;
        }
        // the copy raised: the error is reported and the next identifier is tried
      }
      j := j + 1;
    }
    ghost var r := FirstCopy(ids, entry.name, i, failures, 0);
    if r.Some? {
      assert Succeeds(entry.name, ids[r.value], i, r.value, failures);
    }
  }

  /** The positions picked are exactly those of the entries reported. */
  lemma {:induction false} PickedExactly(listing: seq<Entry>, ids: seq<string>, failures: set<Attempt>, n: nat, i: nat)
    requires n <= |listing|
    ensures i in Picked(listing, ids, failures, n) <==> i < n && Recorded(listing, ids, failures, i)
  {
    if n > 0 {
      PickedExactly(listing, ids, failures, n - 1, i);
    }
  }

  /** One more entry of the listing is picked exactly when it is reported. */
  lemma PickedStep(listing: seq<Entry>, ids: seq<string>, failures: set<Attempt>, i: nat, copied: bool)
    requires i < |listing|
    requires copied == Recorded(listing, ids, failures, i)
    ensures Picked(listing, ids, failures, i + 1) ==
            if copied then Picked(listing, ids, failures, i) + [i] else Picked(listing, ids, failures, i)
  {
  }

  /** What one more entry of the listing adds to the reported names and to the destination folder. */
  lemma ScanStep(dest0: Folder, listing: seq<Entry>, ids: seq<string>, failures: set<Attempt>, i: nat, copied: bool)
    requires i < |listing|
    requires copied == Recorded(listing, ids, failures, i)
    ensures var before, after := Picked(listing, ids, failures, i), Picked(listing, ids, failures, i + 1);
            NamesAt(listing, after) == (if copied then NamesAt(listing, before) + [listing[i].name] else NamesAt(listing, before)) &&
            Deposit(dest0, listing, after) ==
              if copied then Deposit(dest0, listing, before)[listing[i].name := listing[i].content]
              else Deposit(dest0, listing, before)
  {
    PickedStep(listing, ids, failures, i, copied);
    if copied {
      AppendOne(dest0, listing, Picked(listing, ids, failures, i), i);
    }
  }

  lemma AppendOne(dest0: Folder, listing: seq<Entry>, idx: seq<nat>, i: nat)
    requires InListing(listing, idx) && i < |listing|
    ensures InListing(listing, idx + [i])
    ensures NamesAt(listing, idx + [i]) == NamesAt(listing, idx) + [listing[i].name]
    ensures Deposit(dest0, listing, idx + [i]) == Deposit(dest0, listing, idx)[listing[i].name := listing[i].content]
  {
    var after := idx + [i];
    assert after[..|after| - 1] == idx;
    assert after[|after| - 1] == i;
  }

  /**
   * An entry is reported exactly when it is a regular file and some
   * identifier contained in its upper-cased name got its copy through; in
   * particular a copy that raises is retried by any later matching identifier.
   */
  lemma RecordedIff(listing: seq<Entry>, ids: seq<string>, failures: set<Attempt>, i: nat)
    requires i < |listing|
    ensures i in Picked(listing, ids, failures, |listing|) <==>
            listing[i].isFile &&
            exists j :: 0 <= j < |ids| && Succeeds(listing[i].name, ids[j], i, j, failures)
  {
    PickedExactly(listing, ids, failures, |listing|, i);
    var r := FirstCopy(ids, listing[i].name, i, failures, 0);
    if r.Some? {
      assert Succeeds(listing[i].name, ids[r.value], i, r.value, failures);
    }
  }

  /**
   * When no copy raises, the result is the listing filtered by "regular file
   * whose upper-cased name contains some identifier".
   */
  lemma NoFailuresIsFilter(listing: seq<Entry>, ids: seq<string>, i: nat)
    requires i < |listing|
    ensures i in Picked(listing, ids, {}, |listing|) <==>
            listing[i].isFile && exists id :: id in ids && Matches(listing[i].name, id)
  {
    PickedExactly(listing, ids, {}, |listing|, i);
    RecordedNoFailures(listing, ids, i);
  }

  lemma RecordedNoFailures(listing: seq<Entry>, ids: seq<string>, i: nat)
    requires i < |listing|
    ensures Recorded(listing, ids, {}, i) <==>
            listing[i].isFile && exists id :: id in ids && Matches(listing[i].name, id)
  {
    var r := FirstCopy(ids, listing[i].name, i, {}, 0);
    if r.Some? {
      assert ids[r.value] in ids && Matches(listing[i].name, ids[r.value]);
    }
    if listing[i].isFile && exists id :: id in ids && Matches(listing[i].name, id) {
      var id :| id in ids && Matches(listing[i].name, id);
      var j :| 0 <= j < |ids| && ids[j] == id;
      assert Succeeds(listing[i].name, ids[j], i, j, {});
    }
  }

  /**
   * Every reported name belongs to a regular file of the listing, and some
   * normalised identifier occurs in its upper-cased form; names come in the
   * listing's order, each listed entry at most once.
   */
  lemma ReportedNamesMatch(raw: seq<string>, listing: seq<Entry>, failures: set<Attempt>)
    ensures var idx := Picked(listing, Normalize(raw), failures, |listing|);
            var moved := NamesAt(listing, idx);
            |moved| == |idx| &&
            (forall k :: 0 <= k < |idx| ==> moved[k] == listing[idx[k]].name && listing[idx[k]].isFile) &&
            (forall k, l :: 0 <= k < l < |idx| ==> idx[k] < idx[l]) &&
            (forall k :: 0 <= k < |moved| ==>
               exists j :: 0 <= j < |raw| && Contains(Upper(moved[k]), Normalize(raw)[j]))
  {
    var ids := Normalize(raw);
    var idx := Picked(listing, ids, failures, |listing|);
    forall k | 0 <= k < |idx|
      ensures exists j :: 0 <= j < |raw| && Contains(Upper(listing[idx[k]].name), ids[j])
    {
      PickedExactly(listing, ids, failures, |listing|, idx[k]);
      var r := FirstCopy(ids, listing[idx[k]].name, idx[k], failures, 0);
      assert Matches(listing[idx[k]].name, ids[r.value]);
    }
    forall k | 0 <= k < |idx| ensures listing[idx[k]].isFile {
      PickedExactly(listing, ids, failures, |listing|, idx[k]);
    }
  }

  /**
   * An entry that is not a regular file is never reported and never copied:
   * if no other entry carries its name and the destination did not hold it,
   * the destination does not hold it afterwards.
   */
  lemma NonFilesNeverCopied(raw: seq<string>, listing: seq<Entry>, failures: set<Attempt>, dest0: Folder, i: nat)
    requires i < |listing| && !listing[i].isFile
    requires forall l :: 0 <= l < |listing| && l != i ==> listing[l].name != listing[i].name
    requires listing[i].name !in dest0
    ensures i !in Picked(listing, Normalize(raw), failures, |listing|)
    ensures listing[i].name !in Deposit(dest0, listing, Picked(listing, Normalize(raw), failures, |listing|))
  {
    var ids := Normalize(raw);
    var idx := Picked(listing, ids, failures, |listing|);
    PickedExactly(listing, ids, failures, |listing|, i);
    forall k | 0 <= k < |idx| ensures NamesAt(listing, idx)[k] != listing[i].name {
      PickedExactly(listing, ids, failures, |listing|, idx[k]);
    }
  }

  /** An empty identifier column reports nothing: the result is `(0, [])`. */
  lemma {:induction false} NoIdentifiersNoMatches(listing: seq<Entry>, failures: set<Attempt>, n: nat)
    requires n <= |listing|
    ensures Picked(listing, Normalize([]), failures, n) == []
  {
    if n > 0 {
      NoIdentifiersNoMatches(listing, failures, n - 1);
      assert FirstCopy(Normalize([]), listing[n - 1].name, n - 1, failures, 0) == None;
    }
  }

  /**
   * A cell that is only white space normalises to the empty identifier, which
   * occurs in every name: when no copy raises, every regular file is reported.
   */
  lemma BlankIdentifierMatchesEveryFile(raw: seq<string>, listing: seq<Entry>, b: nat, i: nat)
    requires b < |raw| && forall c :: c in raw[b] ==> IsSpace(c)
    requires i < |listing|
    ensures i in Picked(listing, Normalize(raw), {}, |listing|) <==> listing[i].isFile
  {
    var ids := Normalize(raw);
    EmptyIsEverywhere(Upper(listing[i].name));
    assert Succeeds(listing[i].name, ids[b], i, b, {});
    RecordedIff(listing, ids, {}, i);
  }

  /**
   * When no copy raises, only the set of identifiers matters: reordering the
   * column or repeating a value reports the same files.
   */
  lemma {:induction false} IdentifierOrderIrrelevant(listing: seq<Entry>, ids1: seq<string>, ids2: seq<string>, n: nat)
    requires n <= |listing|
    requires forall id :: id in ids1 <==> id in ids2
    ensures Picked(listing, ids1, {}, n) == Picked(listing, ids2, {}, n)
  {
    if n > 0 {
      IdentifierOrderIrrelevant(listing, ids1, ids2, n - 1);
      RecordedNoFailures(listing, ids1, n - 1);
      RecordedNoFailures(listing, ids2, n - 1);
      assert Recorded(listing, ids1, {}, n - 1) == Recorded(listing, ids2, {}, n - 1);
    }
  }

  predicate DistinctNames(listing: seq<Entry>) {
    forall a, b :: 0 <= a < b < |listing| ==> listing[a].name != listing[b].name
  }

  /**
   * With distinct names in the listing (as a directory listing has), every
   * copied file holds in the destination the content of the entry it came from.
   */
  lemma {:induction false} DepositHoldsSourceContent(dest0: Folder, listing: seq<Entry>, idx: seq<nat>)
    requires InListing(listing, idx) && DistinctNames(listing)
    ensures forall k :: 0 <= k < |idx| ==>
              listing[idx[k]].name in Deposit(dest0, listing, idx) &&
              Deposit(dest0, listing, idx)[listing[idx[k]].name] == listing[idx[k]].content
  {
    if idx != [] {
      var init, last := idx[..|idx| - 1], idx[|idx| - 1];
      var before := Deposit(dest0, listing, init);
      assert Deposit(dest0, listing, idx) == before[listing[last].name := listing[last].content];
      DepositHoldsSourceContent(dest0, listing, init);
      forall k | 0 <= k < |idx| - 1
        ensures listing[idx[k]].name in Deposit(dest0, listing, idx) &&
                Deposit(dest0, listing, idx)[listing[idx[k]].name] == listing[idx[k]].content
      {
        assert idx[k] == init[k];
        if idx[k] != last {
          assert listing[idx[k]].name != listing[last].name;
        }
      }
    }
  }
}
