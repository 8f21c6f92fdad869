/** Replacing the stored file a database row points at: write a temporary,
    commit the row, move into place, sweep.  The call may stop at any step. */
module FileReplace {

  import opened Common

  type Bytes = seq<bv8>

  // ---- Names ----

  predicate StartsWith(s: string, prefix: string) {
    prefix <= s
  }

  predicate EndsWith(s: string, suffix: string) {
    |suffix| <= |s| && s[|s| - |suffix|..] == suffix
  }

  /** The glob `<stem>.*`. */
  predicate MatchesStem(stem: string, name: string) {
    StartsWith(name, stem + ".")
  }

  /** The glob `.<stem>.*.tmp`; its two fixed parts may not overlap. */
  predicate MatchesTemporary(stem: string, name: string) {
    |stem| + 6 <= |name| && StartsWith(name, "." + stem + ".") && EndsWith(name, ".tmp")
  }

  predicate OnStem(stem: string, name: string) {
    MatchesStem(stem, name) || MatchesTemporary(stem, name)
  }

  /** The fixed stems the handlers use: "photo", "logo", "cover". */
  predicate IsStem(stem: string) {
    stem != "" && '.' !in stem && '/' !in stem
  }

  function FinalName(stem: string, ext: string): string {
    stem + "." + ext
  }

  function TemporaryName(stem: string, hex: string): string {
    "." + stem + "." + hex + ".tmp"
  }

  lemma OwnNamesAreOnStem(stem: string, ext: string, hex: string)
    requires IsStem(stem)
    ensures MatchesStem(stem, FinalName(stem, ext)) && !Hidden(FinalName(stem, ext))
    ensures MatchesTemporary(stem, TemporaryName(stem, hex)) && !MatchesStem(stem, TemporaryName(stem, hex))
    ensures Hidden(TemporaryName(stem, hex))
  {
    var tmp := TemporaryName(stem, hex);
    assert tmp == ("." + stem + ".") + (hex + ".tmp");
    assert tmp == ("." + stem + "." + hex) + ".tmp";
    assert tmp[|tmp| - 4..] == ".tmp";
    assert (stem + ".")[0] != '.';
  }

  predicate Hidden(name: string) {
    name != "" && name[0] == '.'
  }

  lemma {:induction false} DotEndsTheStem(stem: string, other: string, rest: string)
    requires '.' !in stem && '.' !in other
    ensures stem + "." <= other + "." + rest ==> stem == other
  {
    if stem != "" && other != "" {
      DotEndsTheStem(stem[1..], other[1..], rest);
      assert (stem + ".")[1..] == stem[1..] + ".";
      assert (other + "." + rest)[1..] == other[1..] + "." + rest;
      assert stem == [stem[0]] + stem[1..] && other == [other[0]] + other[1..];
      Tail(stem + ".", other + "." + rest);
    } else if stem != "" {
      assert (stem + ".")[0] == stem[0] && (other + "." + rest)[0] == '.';
    } else if other != "" {
      assert (other + "." + rest)[0] == other[0];
    }
  }

  lemma Tail(a: string, b: string)
    requires a != ""
    ensures a <= b ==> b != "" && a[0] == b[0] && a[1..] <= b[1..]
  {
    if a <= b { assert a == b[..|a|]; }
  }

  /** No file of another owner's stem is ever matched. */
  lemma OtherStemsDoNotMatch(stem: string, other: string, ext: string, hex: string)
    requires IsStem(stem) && IsStem(other) && stem != other
    ensures !OnStem(stem, FinalName(other, ext)) && !OnStem(stem, TemporaryName(other, hex))
  {
    DotEndsTheStem(stem, other, ext);
    DotEndsTheStem(stem, other, hex + ".tmp");
    var tmp := TemporaryName(other, hex);
    assert tmp[1..] == other + "." + (hex + ".tmp");
    assert ("." + stem + ".")[1..] == stem + ".";
    Tail("." + stem + ".", tmp);
    Tail("." + stem + ".", FinalName(other, ext));
    Tail(stem + ".", tmp);
    assert tmp[0] == '.' && (stem + ".")[0] != '.' && FinalName(other, ext)[0] != '.';
  }

  // ---- The store ----

  type Files = map<string, Bytes>

  /** Where a call ends.  Short of `Never` it dies there, by exception or by
      the death of the process.  It answers only an exception from the commit:
      `CommitRaises` when nothing was committed, `CommitsAndRaises` when the row is
      durable and only the answer was lost. */
  datatype Stop =
    | AtOpen
    | AtWrite(written: nat)
    | BeforeCommit
    | CommitRaises
    | CommitRaisesUncleaned
    | CommitsAndRaises
    | BeforeMove
    | AtSweep(unlinked: nat)
    | Never

  predicate Commits(stop: Stop) {
    stop.CommitsAndRaises? || stop.BeforeMove? || stop.AtSweep? || stop.Never?
  }

  predicate Dangles(row: Option<string>, files: Files) {
    row.Some? && row.value !in files
  }

  function Without(files: Files, stem: string): Files {
    map n | n in files && !OnStem(stem, n) :: files[n]
  }

  class Store {
    /** The name the row points at, and the directory beside it. */
    var row: Option<string>
    var files: Files
    /** Every content ever handed in. */
    ghost var uploaded: set<Bytes>

    /** A file under a name that can be served holds a whole upload. */
    ghost predicate Whole()
      reads this
    {
      forall n :: n in files && !Hidden(n) ==> files[n] in uploaded
    }

    constructor ()
      ensures row == None && files == map[] && Whole()
    {
      row, files, uploaded := None, map[], {};
    }

    /** Unlinks at most `limit` of the matching files, in no particular order. */
    method RemoveFiles(stem: string, keep: Option<string>, limit: Option<nat>) returns (finished: bool)
      modifies `files
      ensures files.Keys <= old(files).Keys && forall n :: n in files ==> files[n] == old(files)[n]
      ensures forall n :: n in old(files) && (!OnStem(stem, n) || keep == Some(n)) ==> n in files
      ensures finished ==> forall n :: n in files && OnStem(stem, n) ==> keep == Some(n)
      ensures limit.None? ==> finished
    {
      var todo := set n | n in files && OnStem(stem, n);
      var unlinked := 0;
      while todo != {}
        invariant files.Keys <= old(files).Keys && forall n :: n in files ==> files[n] == old(files)[n]
        invariant forall n :: n in old(files) && (!OnStem(stem, n) || keep == Some(n)) ==> n in files
        invariant forall n :: n in files && OnStem(stem, n) ==> keep == Some(n) || n in todo
        invariant forall n :: n in todo ==> OnStem(stem, n)
        decreases |todo|
      {
        var name :| name in todo;
        if keep != Some(name) {
          if limit == Some(unlinked) { return false; }
          files := files - {name};
          unlinked := unlinked + 1;
        }
        todo := todo - {name};
      }
      return true;
    }

    method ReplaceFile(stem: string, ext: string, content: Bytes, hex: string, stop: Stop) returns (res: Option<string>)
      requires IsStem(stem) && TemporaryName(stem, hex) !in files && row != Some(TemporaryName(stem, hex))
      modifies this
      // The row moves at the commit and nowhere else.
      ensures row == if Commits(stop) then Some(FinalName(stem, ext)) else old(row)
      // Up to the commit every stored file is untouched; only a temporary may be left.
      ensures !Commits(stop) ==> files - {TemporaryName(stem, hex)} == old(files)
      ensures stop.AtOpen? || stop.CommitRaises? || stop.CommitsAndRaises? ==> files == old(files)
      ensures stop.BeforeCommit? || stop.CommitRaisesUncleaned? || stop.BeforeMove? ==>
        files == old(files)[TemporaryName(stem, hex) := content]
      // From the move on the final name holds the new content whole.
      ensures stop.AtSweep? || stop.Never? ==> FinalName(stem, ext) in files && files[FinalName(stem, ext)] == content
      ensures stop.AtSweep? || stop.Never? ==> Without(files, stem) == Without(old(files), stem)
      ensures stop.AtSweep? || stop.Never? ==>
        forall n :: n in files && n != FinalName(stem, ext) ==> n in old(files) && files[n] == old(files)[n]
      // Success leaves exactly one file on the stem.
      ensures res.Some? ==> res.value == FinalName(stem, ext)
      ensures FinalName(stem, ext) == stem + "." + ext && (Commits(stop) ==> row == Some(stem + "." + ext))
      ensures res.Some? ==> files == Without(old(files), stem)[FinalName(stem, ext) := content]
      ensures stop.Never? ==> res.Some?
      ensures res.Some? ==> stop.Never? || stop.AtSweep?
      // The one window: committed, not moved, under a name that was not there.
      ensures Dangles(row, files) <==>
        if Commits(stop) then (stop.BeforeMove? || stop.CommitsAndRaises?) && FinalName(stem, ext) !in old(files)
        else old(Dangles(row, files))
      ensures uploaded == old(uploaded) + {content}
      ensures old(Whole()) ==> Whole()
    {
      OwnNamesAreOnStem(stem, ext, hex);
      uploaded := uploaded + {content};
      var finalName := FinalName(stem, ext);
      var tmp := TemporaryName(stem, hex);
      if stop.AtOpen? { return None; }
      files := files[tmp := []];
      if stop.AtWrite? {
        files := files[tmp := content[..if stop.written <= |content| then stop.written else |content|]];
        assert files - {tmp} == old(files);
        return None;
      }
      files := files[tmp := content];
      assert files - {tmp} == old(files);
      OutsideUntouched(stem, old(files), files, tmp);
      if stop.BeforeCommit? || stop.CommitRaisesUncleaned? { return None; }
      if stop.CommitRaises? {
        files := files - {tmp};
        return None;
      }
      row := Some(finalName);
      if stop.CommitsAndRaises? {
        files := files - {tmp};
        return None;
      }
      if stop.BeforeMove? { return None; }
      var installed := Install(stem, finalName, tmp, content, if stop.AtSweep? then Some(stop.unlinked) else None);
      return if installed then Some(finalName) else None;
    }

    /** `os.replace`, then the sweep of everything else on the stem. */
    method Install(stem: string, finalName: string, tmp: string, content: Bytes, limit: Option<nat>) returns (finished: bool)
      requires tmp in files && files[tmp] == content && tmp != finalName && OnStem(stem, tmp) && OnStem(stem, finalName)
      modifies `files
      ensures finalName in files && files[finalName] == content && tmp !in files
      ensures Without(files, stem) == Without(old(files), stem)
      ensures forall n :: n in files && n != finalName ==> n in old(files) && files[n] == old(files)[n]
      ensures finished ==> files == Without(old(files), stem)[finalName := content]
      ensures limit.None? ==> finished
    {
      files := (files - {tmp})[finalName := content];
      assert Without(files, stem) == Without(old(files), stem);
      ghost var moved := files;
      finished := RemoveFiles(stem, Some(finalName), limit);
      assert Without(files, stem) == Without(moved, stem);
      if finished { assert files == Without(moved, stem)[finalName := content]; }
    }

    /** The delete handlers: nothing to delete is refused; otherwise the row is
        cleared and committed before any file goes, so the row never names a file
        this removed. */
    method DeleteFile(stem: string, commitFails: bool, limit: Option<nat>) returns (finished: bool)
      modifies this
      ensures old(row).None? || commitFails ==> row == old(row) && files == old(files) && !finished
      ensures old(row).Some? && !commitFails ==> row == None && Without(files, stem) == Without(old(files), stem)
      ensures finished ==> files == Without(old(files), stem)
      ensures old(row).Some? && !commitFails && limit.None? ==> finished
      ensures Dangles(row, files) ==> old(Dangles(row, files))
      ensures old(Whole()) ==> Whole()
    {
      if row.None? || commitFails { return false; }
      row := None;
      ghost var before := files;
      finished := RemoveFiles(stem, None, limit);
      assert Without(files, stem) == Without(before, stem);
      if finished { assert files == Without(before, stem); }
    }
  }

  datatype Call = Call(ext: string, content: Bytes, hex: string, stop: Stop)

  /** `uuid4` draws a name nobody holds and never repeats itself. */
  ghost predicate FreshNames(stem: string, row: Option<string>, files: Files, calls: seq<Call>) {
    && (forall i :: 0 <= i < |calls| ==> TemporaryName(stem, calls[i].hex) !in files)
    && (forall i :: 0 <= i < |calls| ==> row != Some(TemporaryName(stem, calls[i].hex)))
    && (forall i, j :: 0 <= i < j < |calls| ==> calls[i].hex != calls[j].hex)
  }

  lemma TemporaryNamesDiffer(stem: string, hex: string, other: string)
    ensures TemporaryName(stem, hex) == TemporaryName(stem, other) ==> hex == other
  {
    var n := |"." + stem + "."|;
    assert TemporaryName(stem, hex)[n..][..|hex|] == hex;
    assert TemporaryName(stem, other)[n..][..|other|] == other;
  }

  /** However many calls died, and wherever they died, the next one that runs to
      its end leaves the row naming the one file on the stem, which holds the new
      content, and every other file of the directory as it was before them all. */
  method RepairedByOneSuccess(store: Store, stem: string, calls: seq<Call>)
    requires IsStem(stem) && calls != [] && calls[|calls| - 1].stop.Never?
    requires FreshNames(stem, store.row, store.files, calls)
    modifies store
    ensures var last := calls[|calls| - 1];
      && store.row == Some(FinalName(stem, last.ext))
      && store.files == Without(old(store.files), stem)[FinalName(stem, last.ext) := last.content]
    ensures old(store.Whole()) ==> store.Whole()
  {
    ghost var outside := Without(store.files, stem);
    var i := 0;
    while i < |calls|
      invariant 0 <= i <= |calls| && (old(store.Whole()) ==> store.Whole())
      invariant Without(store.files, stem) == outside
      invariant forall j :: i <= j < |calls| ==> TemporaryName(stem, calls[j].hex) !in store.files
      invariant forall j :: i <= j < |calls| ==> store.row != Some(TemporaryName(stem, calls[j].hex))
      invariant i == |calls| ==> store.row == Some(FinalName(stem, calls[i - 1].ext))
      invariant i == |calls| ==> store.files == outside[FinalName(stem, calls[i - 1].ext) := calls[i - 1].content]
    {
      ghost var before := store.files;
      var call := calls[i];
      OwnNamesAreOnStem(stem, call.ext, call.hex);
      forall j | i < j < |calls| ensures TemporaryName(stem, calls[j].hex) != TemporaryName(stem, call.hex) {
        TemporaryNamesDiffer(stem, calls[j].hex, call.hex);
      }
      forall j | i < j < |calls| ensures Hidden(TemporaryName(stem, calls[j].hex)) {
        OwnNamesAreOnStem(stem, call.ext, calls[j].hex);
      }
      var _ := store.ReplaceFile(stem, call.ext, call.content, call.hex, call.stop);
      if store.files - {TemporaryName(stem, call.hex)} == before - {TemporaryName(stem, call.hex)} {
        OutsideUntouched(stem, before, store.files, TemporaryName(stem, call.hex));
      }
      i := i + 1;
    }
  }

  lemma OutsideUntouched(stem: string, before: Files, after: Files, tmp: string)
    requires MatchesTemporary(stem, tmp) && after - {tmp} == before - {tmp}
    ensures Without(after, stem) == Without(before, stem)
  {
    assert forall n :: n != tmp ==> (n in after <==> n in after - {tmp}) && (n in before <==> n in before - {tmp});
    assert forall n :: n in after && n != tmp ==> after[n] == (after - {tmp})[n];
    assert forall n :: n in before && n != tmp ==> before[n] == (before - {tmp})[n];
  }
}
