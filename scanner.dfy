/** Choosing the files to analyse: the enabled extensions of the format
    filters, a recursive walk of the folder tree, or a flat listing of the
    folder itself. A file is kept when its lower-cased name ends with one of
    the enabled extensions. */
module Scanner {
  import opened Text
  import Paths

  /** The format check boxes in their display order: extension and state. */
  type Filters = seq<(string, bool)>

  /** `.jpg` and `.jpeg` are ticked at start-up, `.png` and `.tiff` are not. */
  const DefaultFilters: Filters :=
    [(".jpg", true), (".jpeg", true), (".png", false), (".tiff", false)]

  /** The ticked extensions, in the order of the check boxes. */
  function Enabled(filters: Filters): (exts: seq<string>)
    ensures |exts| <= |filters|
    ensures forall x :: x in exts <==>
      exists i :: 0 <= i < |filters| && filters[i].1 && filters[i].0 == x
  {
    if filters == [] then []
    else
      var init := filters[..|filters| - 1];
      var last := filters[|filters| - 1];
      var rest := Enabled(init);
      assert forall i :: 0 <= i < |init| ==> init[i] == filters[i];
      if last.1 then rest + [last.0] else rest
  }

  /** `get_target_extensions`: one pass over the check boxes. */
  method GetTargetExtensions(filters: Filters) returns (exts: seq<string>)
    ensures exts == Enabled(filters)
  {
    exts := [];
    for i := 0 to |filters|
      invariant exts == Enabled(filters[..i])
    {
      assert filters[..i + 1][..i] == filters[..i];
      if filters[i].1 {
        exts := exts + [filters[i].0];
      }
    }
    assert filters[..|filters|] == filters;
  }

  /** `name.lower().endswith(exts)`: an empty tuple matches nothing. */
  predicate Matches(name: string, exts: seq<string>) {
    EndsWithAny(Lower(name), exts)
  }

  /** Matching ignores case: two names that agree letter by letter up to
      ASCII case match the same extensions. */
  lemma MatchesIgnoresCase(s: string, t: string, exts: seq<string>)
    requires |s| == |t|
    requires forall i :: 0 <= i < |s| ==> LowerChar(s[i]) == LowerChar(t[i])
    ensures Matches(s, exts) == Matches(t, exts)
  {
  }

  /** One directory produced by the walk: its path and the names of the
      files directly inside it. */
  datatype WalkStep = WalkStep(root: string, files: seq<string>)

  /** One entry of a flat listing: its name and whether it is a regular file. */
  datatype DirEntry = DirEntry(name: string, isFile: bool)

  /** The paths kept from one directory of the walk, in listing order. */
  function KeptNames(root: string, names: seq<string>, exts: seq<string>): seq<string> {
    if names == [] then []
    else
      var init := KeptNames(root, names[..|names| - 1], exts);
      var name := names[|names| - 1];
      if Matches(name, exts) then init + [Paths.Join(root, name)] else init
  }

  /** The paths kept from the whole walk, directory after directory. */
  function KeptWalk(walk: seq<WalkStep>, exts: seq<string>): seq<string> {
    if walk == [] then []
    else
      var step := walk[|walk| - 1];
      KeptWalk(walk[..|walk| - 1], exts) + KeptNames(step.root, step.files, exts)
  }

  /** The paths kept from a flat listing: regular files whose name matches. */
  function KeptListing(folder: string, listing: seq<DirEntry>, exts: seq<string>): seq<string> {
    if listing == [] then []
    else
      var init := KeptListing(folder, listing[..|listing| - 1], exts);
      var e := listing[|listing| - 1];
      if e.isFile && Matches(e.name, exts) then init + [Paths.Join(folder, e.name)] else init
  }

  /** The recursive branch of the scan: every file of every walked directory. */
  method ScanRecursive(walk: seq<WalkStep>, exts: seq<string>) returns (files: seq<string>)
    ensures files == KeptWalk(walk, exts)
  {
    files := [];
    for i := 0 to |walk|
      invariant files == KeptWalk(walk[..i], exts)
    {
      var step := walk[i];
      assert walk[..i + 1][..i] == walk[..i];
      var base := files;
      for j := 0 to |step.files|
        invariant files == base + KeptNames(step.root, step.files[..j], exts)
      {
        var name := step.files[j];
        assert step.files[..j + 1][..j] == step.files[..j];
        if Matches(name, exts) {
          files := files + [Paths.Join(step.root, name)];
        }
      }
      assert step.files[..|step.files|] == step.files;
    }
    assert walk[..|walk|] == walk;
  }

  /** The flat branch of the scan: only the folder's own regular files. */
  method ScanFolder(folder: string, listing: seq<DirEntry>, exts: seq<string>)
    returns (files: seq<string>)
    ensures files == KeptListing(folder, listing, exts)
  {
    files := [];
    for i := 0 to |listing|
      invariant files == KeptListing(folder, listing[..i], exts)
    {
      var e := listing[i];
      assert listing[..i + 1][..i] == listing[..i];
      if e.isFile && Matches(e.name, exts) {
        files := files + [Paths.Join(folder, e.name)];
      }
    }
    assert listing[..|listing|] == listing;
  }

  /** A name the file system can hold: not empty and without a separator. */
  predicate EntryName(name: string) {
    name != [] && '/' !in name
  }

  /** A path is kept from a directory exactly when it joins the directory with
      one of its matching names. */
  lemma {:induction false} KeptNamesExactly(root: string, names: seq<string>, exts: seq<string>)
    ensures |KeptNames(root, names, exts)| <= |names|
    ensures forall p :: p in KeptNames(root, names, exts) <==>
      exists j :: 0 <= j < |names| && Matches(names[j], exts) && p == Paths.Join(root, names[j])
  {
    if names != [] {
      var init := names[..|names| - 1];
      KeptNamesExactly(root, init, exts);
      assert forall j :: 0 <= j < |init| ==> init[j] == names[j];
      forall p | (exists j :: 0 <= j < |names| && Matches(names[j], exts) && p == Paths.Join(root, names[j]))
        ensures p in KeptNames(root, names, exts)
      {
        var j :| 0 <= j < |names| && Matches(names[j], exts) && p == Paths.Join(root, names[j]);
        if j < |init| {
          assert Matches(init[j], exts) && p == Paths.Join(root, init[j]);
        }
      }
    }
  }

  /** A path is kept from the walk exactly when some walked directory keeps it. */
  lemma {:induction false} KeptWalkExactly(walk: seq<WalkStep>, exts: seq<string>)
    ensures forall p :: p in KeptWalk(walk, exts) <==>
      exists i :: 0 <= i < |walk| && p in KeptNames(walk[i].root, walk[i].files, exts)
  {
    if walk != [] {
      var n := |walk| - 1;
      var init := walk[..n];
      assert forall i :: 0 <= i < n ==> init[i] == walk[i];
      KeptWalkExactly(init, exts);
    }
  }

  /** Every path kept from the walk has, as its file name, a name that
      matches the enabled extensions. */
  lemma KeptWalkMatches(walk: seq<WalkStep>, exts: seq<string>)
    requires forall i, j :: 0 <= i < |walk| && 0 <= j < |walk[i].files| ==> EntryName(walk[i].files[j])
    ensures forall p :: p in KeptWalk(walk, exts) ==> Matches(Paths.Basename(p), exts)
  {
    KeptWalkExactly(walk, exts);
    forall p | p in KeptWalk(walk, exts)
      ensures Matches(Paths.Basename(p), exts)
    {
      var i :| 0 <= i < |walk| && p in KeptNames(walk[i].root, walk[i].files, exts);
      KeptNamesExactly(walk[i].root, walk[i].files, exts);
      var j :| 0 <= j < |walk[i].files| && Matches(walk[i].files[j], exts)
        && p == Paths.Join(walk[i].root, walk[i].files[j]);
      Paths.BasenameOfJoin(walk[i].root, walk[i].files[j]);
    }
  }

  /** A path is kept from the flat listing exactly when it joins the folder
      with a regular file whose name matches. */
  lemma {:induction false} KeptListingExactly(folder: string, listing: seq<DirEntry>, exts: seq<string>)
    ensures |KeptListing(folder, listing, exts)| <= |listing|
    ensures forall p :: p in KeptListing(folder, listing, exts) <==>
      exists i :: 0 <= i < |listing| && listing[i].isFile && Matches(listing[i].name, exts)
        && p == Paths.Join(folder, listing[i].name)
  {
    if listing != [] {
      var n := |listing| - 1;
      var init := listing[..n];
      assert forall i :: 0 <= i < n ==> init[i] == listing[i];
      KeptListingExactly(folder, init, exts);
      forall p | (exists i :: 0 <= i < |listing| && listing[i].isFile
                                && Matches(listing[i].name, exts)
                                && p == Paths.Join(folder, listing[i].name))
        ensures p in KeptListing(folder, listing, exts)
      {
        var i :| 0 <= i < |listing| && listing[i].isFile && Matches(listing[i].name, exts)
          && p == Paths.Join(folder, listing[i].name);
        if i < n {
          assert init[i] == listing[i];
        }
      }
    }
  }

  /** Every path kept from the flat listing has, as its file name, a name
      that matches the enabled extensions. */
  lemma KeptListingMatches(folder: string, listing: seq<DirEntry>, exts: seq<string>)
    requires forall i :: 0 <= i < |listing| ==> EntryName(listing[i].name)
    ensures forall p :: p in KeptListing(folder, listing, exts) ==> Matches(Paths.Basename(p), exts)
  {
    KeptListingExactly(folder, listing, exts);
    forall p | p in KeptListing(folder, listing, exts)
      ensures Matches(Paths.Basename(p), exts)
    {
      var i :| 0 <= i < |listing| && listing[i].isFile && Matches(listing[i].name, exts)
        && p == Paths.Join(folder, listing[i].name);
      Paths.BasenameOfJoin(folder, listing[i].name);
    }
  }

  /** With no format ticked nothing is kept. */
  lemma {:induction false} NoWalkKept(walk: seq<WalkStep>)
    ensures KeptWalk(walk, []) == []
  {
    if walk != [] {
      NoWalkKept(walk[..|walk| - 1]);
      NoNameKept(walk[|walk| - 1].root, walk[|walk| - 1].files);
    }
  }

  lemma {:induction false} NoListingKept(folder: string, listing: seq<DirEntry>)
    ensures KeptListing(folder, listing, []) == []
  {
    if listing != [] {
      NoListingKept(folder, listing[..|listing| - 1]);
    }
  }

  lemma {:induction false} NoNameKept(root: string, names: seq<string>)
    ensures KeptNames(root, names, []) == []
  {
    if names != [] {
      NoNameKept(root, names[..|names| - 1]);
    }
  }

  /** The default filters select `.jpg` and `.jpeg`. */
  lemma DefaultSelection()
    ensures Enabled(DefaultFilters) == [".jpg", ".jpeg"]
  {
    var f := DefaultFilters;
    assert f[..1][..0] == [];
    assert Enabled(f[..1]) == [".jpg"];
    assert f[..2][..1] == f[..1];
    assert Enabled(f[..2]) == [".jpg", ".jpeg"];
    assert f[..3][..2] == f[..2];
    assert Enabled(f[..3]) == [".jpg", ".jpeg"];
    assert f[..3] == f[..|f| - 1];
  }

  /** Matching ignores the case of the file name. */
  lemma UpperCaseMatches(name: string)
    requires name == "IMG_0001.JPG"
    ensures Matches(name, [".jpg", ".jpeg"])
  {
    var l := Lower(name);
    assert |l| == 12;
    assert l[8] == '.' && l[9] == 'j' && l[10] == 'p' && l[11] == 'g';
    assert l[8..] == ".jpg";
    assert EndsWith(l, [".jpg", ".jpeg"][0]);
  }
}
