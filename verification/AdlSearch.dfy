/** The ADL search pass over a file list (modules/ADLSearch.cpp): the traversal that moves one cursor
    per destination directory and copies matched files and subtrees as it goes. */
module AdlSearch {

  import opened AdlDestinations
  import opened AdlSteps
  import opened AdlTree
  import opened DirectoryTree
  import opened Names
  import opened Options

  class ADLSearchManager {
    var collection: seq<Search>
    var breakOnFirst: bool

    function Setup(): Rules
      reads this
    {
      Rules(collection, breakOnFirst)
    }

    predicate Prepared(n: nat)
      reads this
    {
      forall k :: 0 <= k < |collection| ==> collection[k].ddIndex < n
    }

    /** Adds the file to every substructure being stored and forgets which searches matched. */
    method AddToCopies(dests: array<Dest>, file: File)
      requires forall i :: 0 <= i < dests.Length ==> dests[i].Valid()
      modifies dests
      ensures forall i :: 0 <= i < dests.Length ==>
        old(dests[i]).Valid() && dests[i] == TakeFile(old(dests[i]), false, file)
    {
      hide Put, Node, Reaches;
      for i := 0 to dests.Length
        invariant forall j :: i <= j < dests.Length ==> dests[j] == old(dests[j])
        invariant forall j :: 0 <= j < i ==> old(dests[j]).Valid() && dests[j] == TakeFile(old(dests[j]), false, file)
      {
        if dests[i].subdir.Some? {
          var copy := Node(dests[i].dir, dests[i].subdir.value);
          dests[i] := dests[i].(dir := Put(dests[i].dir, dests[i].subdir.value, copy.(files := copy.files + [file])));
        }
        dests[i] := dests[i].(fileAdded := false);
      }
    }

    method MatchesFile(dests: array<Dest>, file: File, adcPath: string)
      requires Prepared(dests.Length)
      requires forall i :: 0 <= i < dests.Length ==> dests[i].Valid()
      modifies dests
      ensures forall i :: 0 <= i < dests.Length ==>
        old(dests[i]).Valid() && dests[i] == TakeFile(old(dests[i]), i in FileHits(Setup(), file, adcPath), file)
    {
      AddToCopies(dests, file);
      if |file.name| < 1 {
        return;
      }
      var nmdcPath := ToNmdcFile(adcPath + file.name);
      ghost var item, r := AFile(file.name, nmdcPath, file.size), Setup();
      hide Put, Node, Reaches, ToNmdcFile;
      ghost var added: set<nat> := {};
      assert Chosen(r, item, 0, {}) == added + Chosen(r, item, 0, added);
      for j := 0 to |collection|
        invariant Chosen(r, item, 0, {}) == added + Chosen(r, item, j, added)
        invariant forall i :: 0 <= i < dests.Length ==>
          old(dests[i]).Valid() && dests[i] == TakeFile(old(dests[i]), i in added, file)
      {
        var s := collection[j];
        if dests[s.ddIndex].fileAdded {
          continue;
        }
        if s.MatchesFile(file.name, nmdcPath, file.size) {
          dests[s.ddIndex] := dests[s.ddIndex].(
            dir := dests[s.ddIndex].dir.(files := dests[s.ddIndex].dir.files + [file]), fileAdded := true);
          added := added + {s.ddIndex};
          if breakOnFirst {
            break;
          }
        }
      }
      assert added == Chosen(r, item, 0, {});
    }

    /** VirtualDirectory::create: a new directory inside the one at p, under a free name. */
    method CreateVirtual(dest: Dest, p: seq<nat>, name: string, adcPath: string) returns (r: Dest)
      requires Reaches(dest.dir, p)
      ensures r == Create(dest, p, name, adcPath)
    {
      var parent := Node(dest.dir, p);
      var free := FindName(NamesOf(parent.subs), name);
      r := dest.(dir := Put(dest.dir, p, parent.(subs := parent.subs + [Tree(free, adcPath, [], [])])),
                 subdir := Some(p + [|parent.subs|]));
    }

    /** Adds the directory to every substructure being stored. */
    method EnterCopies(dests: array<Dest>, name: string, adcPath: string)
      requires forall i :: 0 <= i < dests.Length ==> dests[i].Valid()
      modifies dests
      ensures forall i :: 0 <= i < dests.Length ==>
        old(dests[i]).Valid() && dests[i] == Enter(old(dests[i]), false, name, adcPath)
    {
      hide Put, Node, Reaches, Create;
      for i := 0 to dests.Length
        invariant forall j :: i <= j < dests.Length ==> dests[j] == old(dests[j])
        invariant forall j :: 0 <= j < i ==>
          old(dests[j]).Valid() && dests[j] == Enter(old(dests[j]), false, name, adcPath)
      {
        if dests[i].subdir.Some? {
          dests[i] := CreateVirtual(dests[i], dests[i].subdir.value, name, adcPath);
        }
      }
    }

    method MatchesDirectory(dests: array<Dest>, dir: Dir, adcPath: string)
      requires Prepared(dests.Length)
      requires forall i :: 0 <= i < dests.Length ==> dests[i].Valid()
      modifies dests
      ensures var below := OpenBelow(Setup(), dir, OpenOf(old(dests[..])));
        forall i :: 0 <= i < dests.Length ==>
          old(dests[i]).Valid() && dests[i] == Enter(old(dests[i]), i in below, dir.name, adcPath)
    {
      ghost var item, r, open := ADirectory(dir.name), Setup(), OpenOf(dests[..]);
      EnterCopies(dests, dir.name, adcPath);
      hide Put, Node, Reaches, Create;
      if |dir.name| < 1 {
        return;
      }
      ghost var added: set<nat> := {};
      assert open + added == open;
      assert Chosen(r, item, 0, open) == added + Chosen(r, item, 0, open + added);
      for j := 0 to |collection|
        invariant Chosen(r, item, 0, open) == added + Chosen(r, item, j, open + added)
        invariant forall i :: 0 <= i < dests.Length ==>
          old(dests[i]).Valid() && dests[i] == Enter(old(dests[i]), i in open + added, dir.name, adcPath)
      {
        var s := collection[j];
        if dests[s.ddIndex].subdir.Some? {
          assert s.ddIndex in open + added;
          continue;
        }
        if s.MatchesDirectory(dir.name) {
          dests[s.ddIndex] := CreateVirtual(dests[s.ddIndex], [], dir.name, adcPath);
          assert (open + added) + {s.ddIndex} == open + (added + {s.ddIndex});
          added := added + {s.ddIndex};
          if breakOnFirst {
            break;
          }
        }
      }
      assert added == Chosen(r, item, 0, open);
    }

    method StepUpDirectory(dests: array<Dest>)
      requires forall i :: 0 <= i < dests.Length ==> dests[i].Valid()
      modifies dests
      ensures forall i :: 0 <= i < dests.Length ==> old(dests[i]).Valid() && dests[i] == StepUp(old(dests[i]))
    {
      hide Reaches;
      for i := 0 to dests.Length
        invariant forall j :: i <= j < dests.Length ==> dests[j] == old(dests[j])
        invariant forall j :: 0 <= j < i ==> old(dests[j]).Valid() && dests[j] == StepUp(old(dests[j]))
      {
        if dests[i].subdir.Some? {
          var parent := dests[i].subdir.value[..|dests[i].subdir.value| - 1];
          dests[i] := dests[i].(subdir := if parent == [] then None else Some(parent));
        }
      }
    }

    method MatchRecurse(dests: array<Dest>, dir: Dir, adcPath: string)
      requires Prepared(dests.Length) && Listing(dir, adcPath) && AllReady(dests[..])
      modifies dests
      ensures AllReady(old(dests[..])) && AllVisited(Setup(), old(dests[..]), dests[..], dir)
      decreases dir, 0
    {
      ghost var was := dests[..];
      hide AllReady, AllVisited, Progress, OpenOf;
      Started(Setup(), was, dir.info);
      for k := 0 to |dir.subs|
        invariant Progress(Setup(), was, dests[..], dir.subs[..k], [], dir.info)
      {
        assert dir.subs[..k + 1] == dir.subs[..k] + [dir.subs[k]];
        VisitSub(dests, dir.subs[k], adcPath, dir.subs[..k], was);
      }
      assert dir.subs[..|dir.subs|] == dir.subs;
      for k := 0 to |dir.files|
        invariant Progress(Setup(), was, dests[..], dir.subs, dir.files[..k], dir.info)
      {
        assert dir.files[..k + 1] == dir.files[..k] + [dir.files[k]];
        ghost var now := dests[..];
        InProgress(Setup(), was, now, dir.subs, dir.files[..k], dir.info);
        MatchesFile(dests, dir.files[k], adcPath);
        FileTaken(Setup(), was, now, dests[..], dir.subs, dir.files[..k], dir.files[k], dir.info);
      }
      assert dir.files[..|dir.files|] == dir.files;
      ghost var now := dests[..];
      InProgress(Setup(), was, now, dir.subs, dir.files, dir.info);
      StepUpDirectory(dests);
      Finished(Setup(), was, now, dests[..], dir);
    }

    /** The body of the loop over the subdirectories. */
    method VisitSub(dests: array<Dest>, sub: Dir, adcPath: string, ghost done: seq<Dir>, ghost was: seq<Dest>)
      requires Prepared(dests.Length) && Listing(sub, adcPath + sub.name + "/") && Distinct(done + [sub])
      requires Progress(Setup(), was, dests[..], done, [], adcPath)
      modifies dests
      ensures Progress(Setup(), was, dests[..], done + [sub], [], adcPath)
      decreases sub, 1
    {
      ghost var now := dests[..];
      hide AllReady, AllVisited, Progress, OpenOf, Distinct;
      var subAdcPath := adcPath + sub.name + "/";
      InProgress(Setup(), was, now, done, [], adcPath);
      MatchesDirectory(dests, sub, subAdcPath);
      ghost var entered := dests[..];
      SubEntered(Setup(), was, now, entered, done, sub, adcPath);
      MatchRecurse(dests, sub, subAdcPath);
      SubVisited(Setup(), was, now, entered, dests[..], done, sub, adcPath);
    }

    // -------------------------------------------------------------- before and after the traversal

    method AddRootDirectory(name: string, destDirs: seq<Dest>, root: Dir) returns (r: seq<Dest>)
      ensures r == destDirs + [Destination(root, name)]
    {
      var title := FindName(NamesOf(root.subs), "<<<" + name + ">>>");
      r := destDirs + [Dest(name, Tree(title, "/", [], []), None, false)];
    }

    /** The destination with this name, if there is one. */
    method FindDestination(destDirs: seq<Dest>, name: string) returns (index: nat)
      ensures index <= |destDirs| && (index < |destDirs| ==> Same(name, destDirs[index].name))
      ensures forall i :: 0 <= i < index ==> !Same(name, destDirs[i].name)
    {
      index := 0;
      while index < |destDirs|
        invariant index <= |destDirs| && forall i :: 0 <= i < index ==> !Same(name, destDirs[i].name)
      {
        if Same(name, destDirs[index].name) {
          break;
        }
        index := index + 1;
      }
    }

    method PrepareDestinationDirectories(root: Dir) returns (destDirs: seq<Dest>)
      modifies this`collection
      ensures Assigned(old(collection), collection, destDirs, root)
    {
      destDirs := AddRootDirectory("ADLSearch", [], root);
      AssignedStart(destDirs, root);
      hide Same, Destination, Assigned;
      ghost var searches := collection;
      for k := 0 to |collection|
        invariant |collection| == |searches| && forall j :: k <= j < |searches| ==> collection[j] == searches[j]
        invariant Assigned(searches[..k], collection[..k], destDirs, root)
      {
        ghost var dirs := destDirs;
        var index := 0;
        if |collection[k].destDir| != 0 {
          index := FindDestination(destDirs, collection[k].destDir);
          if index == |destDirs| {
            destDirs := AddRootDirectory(collection[k].destDir, destDirs, root);
          }
        }
        AssignedStep(searches[..k], collection[..k], dirs, root, searches[k], index);
        collection := collection[k := collection[k].(ddIndex := index)];
        assert collection[..k + 1] == collection[..k] + [searches[k].(ddIndex := index)];
        assert searches[..k + 1] == searches[..k] + [searches[k]];
      }
      assert searches[..|searches|] == searches && collection[..|searches|] == collection;
    }

    method FinalizeDestinationDirectories(dests: array<Dest>, root: Dir) returns (listing: Dir)
      ensures listing == root.(subs := EmplaceAll(root.subs, Kept(DirsOf(dests[..]))))
    {
      listing := root;
      hide Taken, Same, NamesOf;
      for i := 0 to dests.Length
        invariant listing == root.(subs := EmplaceAll(root.subs, Kept(DirsOf(dests[..i]))))
      {
        var dir := dests[i].dir;
        assert dests[..i + 1] == dests[..i] + [dests[i]];
        KeptStep(root.subs, dests[..i], dests[i]);
        if dir.files == [] && dir.subs == [] {
          continue;
        }
        if Same(dir.name, "<<<Discard>>>") {
          continue;
        }
        var found := Contains(NamesOf(listing.subs), dir.name);
        if !found {
          listing := listing.(subs := listing.subs + [dir]);
        }
      }
      assert dests[..dests.Length] == dests[..];
    }

    /** The whole pass.  Each destination is filled as `Filled` says, and every one with something in
        it comes to the list, after the directories already there, but for the one called Discard. */
    method MatchListing(root: Dir) returns (listing: Dir, ghost destDirs: seq<Dest>)
      requires Listing(root, root.name)
      modifies this`collection
      ensures Assigned(old(collection), collection, destDirs, root)
      ensures listing == root.(subs := root.subs + Kept(AllFilled(Setup(), root, destDirs)))
    {
      var prepared := PrepareDestinationDirectories(root);
      destDirs := prepared;
      var dests := new Dest[|prepared|](i requires 0 <= i < |prepared| => prepared[i]);
      assert dests[..] == destDirs;
      Fit(old(collection), collection, destDirs, root);
      hide Assigned, AllReady, AllVisited, Listing;
      MatchRecurse(dests, root, root.name);
      RootVisited(Setup(), destDirs, dests[..], root);
      listing := FinalizeDestinationDirectories(dests, root);
      NoneLost(old(collection), collection, Setup(), destDirs, root);
    }
  }
}
