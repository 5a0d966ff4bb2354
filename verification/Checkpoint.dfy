/** The resume state of an index run: per file, the fingerprint it was indexed at. */
module Checkpoints {
  import opened Options

  datatype Stamp = Stamp(mtimeMs: int, sizeBytes: int)

  /** The checkpoint file; `None` for `files` stands for a missing or malformed one. */
  datatype Saved = Saved(version: int, workspace: Option<string>, files: Option<map<string, Stamp>>)

  /** The fingerprints a loaded checkpoint offers for a workspace. */
  function Usable(saved: Saved, workspace: Option<string>): map<string, Stamp>
  {
    if saved.version == 1 && saved.files.Some? && !Foreign(saved, workspace) then saved.files.value else map[]
  }

  /** Stamped for another workspace than the one asked for. */
  predicate Foreign(saved: Saved, workspace: Option<string>)
  {
    workspace.Some? && saved.workspace.Some? && saved.workspace != workspace
  }

  /** The fingerprint `markIndexed` records: the one known, else a new stat, else none. */
  function Recorded(known: Option<Stamp>, stat: Option<Stamp>): Option<Stamp>
  {
    if known.Some? then known else stat
  }

  function Marked(files: map<string, Stamp>, rel: string, stamp: Option<Stamp>): map<string, Stamp>
  {
    if stamp.Some? then files[rel := stamp.value] else files
  }

  /** The entries after a list of landed files was marked, in order. */
  function MarkedAll(files: map<string, Stamp>, landed: seq<string>, known: map<string, Stamp>,
                     disk: map<string, Stamp>): map<string, Stamp>
  {
    if landed == [] then files
    else
      var n := |landed| - 1;
      Marked(MarkedAll(files, landed[..n], known, disk), landed[n],
        Recorded(Lookup(known, landed[n]), Lookup(disk, landed[n])))
  }

  function Pruned(files: map<string, Stamp>, live: set<string>): map<string, Stamp>
  {
    map rel | rel in files && rel in live :: files[rel]
  }

  /** What marking leaves under a path: its last mark if it landed and had a fingerprint,
      else what was there. */
  lemma {:induction false} MarkedAllAt(
    files: map<string, Stamp>, landed: seq<string>, known: map<string, Stamp>, disk: map<string, Stamp>, rel: string)
    ensures var after, stamp := MarkedAll(files, landed, known, disk), Recorded(Lookup(known, rel), Lookup(disk, rel));
      Lookup(after, rel) == if rel in landed && stamp.Some? then stamp else Lookup(files, rel)
  {
    if landed != [] {
      var n := |landed| - 1;
      assert landed == landed[..n] + [landed[n]];
      MarkedAllAt(files, landed[..n], known, disk, rel);
    }
  }

  /** The entries after a landing: none but of live files; a landed file has the stat of its parse,
      without that the one it has now, without both what it had; any other keeps what it had. */
  ghost predicate Landed(before: map<string, Stamp>, after: map<string, Stamp>, landed: seq<string>,
                         statAtParse: map<string, Stamp>, disk: map<string, Stamp>, live: set<string>)
  {
    && (forall rel :: rel in after ==> rel in live)
    && (forall rel :: rel in live && rel in landed && rel in statAtParse ==>
      rel in after && after[rel] == statAtParse[rel])
    && (forall rel :: rel in live && rel in landed && rel !in statAtParse && rel in disk ==>
          rel in after && after[rel] == disk[rel])
    && (forall rel :: rel in live && (rel !in landed || (rel !in statAtParse && rel !in disk)) ==>
          (rel in after <==> rel in before) && (rel in after ==> after[rel] == before[rel]))
  }

  lemma MarkedIsLanded(before: map<string, Stamp>, landed: seq<string>, statAtParse: map<string, Stamp>,
                       disk: map<string, Stamp>, live: set<string>)
    ensures Landed(before, Pruned(MarkedAll(before, landed, statAtParse, disk), live), landed, statAtParse, disk, live)
  {
    hide MarkedAll;
    forall rel ensures Lookup(MarkedAll(before, landed, statAtParse, disk), rel) ==
      if rel in landed && Recorded(Lookup(statAtParse, rel), Lookup(disk, rel)).Some?
      then Recorded(Lookup(statAtParse, rel), Lookup(disk, rel)) else Lookup(before, rel)
    {
      MarkedAllAt(before, landed, statAtParse, disk, rel);
    }
    var marked := MarkedAll(before, landed, statAtParse, disk);
    assert forall rel :: rel in marked <==> Lookup(marked, rel).Some?;
  }

  class Checkpoint {
    var workspace: Option<string>
    var files: map<string, Stamp>

    /** `loadCheckpoint`, then the stamp the index run puts on it. */
    constructor Load(saved: Saved, workspace: Option<string>)
      ensures files == Usable(saved, workspace)
      ensures saved.version != 1 || saved.files.None? ==> files == map[]
      ensures saved.version == 1 && saved.files.Some? ==>
        if saved.workspace.Some? && workspace.Some? && saved.workspace.value != workspace.value then files == map[]
        else files == saved.files.value
      ensures this.workspace ==
        if saved.version == 1 && saved.files.Some? && !Foreign(saved, workspace) then saved.workspace else workspace
    {
      if saved.version == 1 && saved.files.Some? {
        if workspace.Some? && saved.workspace.Some? && saved.workspace != workspace {
          this.workspace, files := workspace, map[];
        } else {
          this.workspace, files := saved.workspace, saved.files.value;
        }
      } else {
        this.workspace, files := workspace, map[];
      }
    }

    /** A file is left alone exactly when its fingerprint is the recorded one. */
    method NeedsReindex(rel: string, stat: Option<Stamp>) returns (needed: bool)
      ensures !needed <==> rel in files && stat == Some(files[rel])
    {
      if rel !in files { return true; }
      if stat.None? { return true; }
      if stat.value.mtimeMs != files[rel].mtimeMs { return true; }
      if stat.value.sizeBytes != files[rel].sizeBytes { return true; }
      return false;
    }

    method MarkIndexed(rel: string, known: Option<Stamp>, stat: Option<Stamp>)
      modifies this`files
      ensures files == Marked(old(files), rel, Recorded(known, stat))
      ensures known.Some? ==> files == old(files)[rel := known.value]
      ensures known.None? && stat.Some? ==> files == old(files)[rel := stat.value]
      ensures known.None? && stat.None? ==> files == old(files)
    {
      var stamp;
      if known.Some? {
        stamp := known.value;
      } else {
        if stat.None? { return; }
        stamp := stat.value;
      }
      files := files[rel := stamp];
    }

    /** Drops the entries of files the walk no longer yields; counts them. */
    method Prune(live: set<string>) returns (pruned: nat)
      modifies this`files
      ensures files == Pruned(old(files), live)
      ensures forall rel :: rel in files <==> rel in old(files) && rel in live
      ensures forall rel :: rel in files ==> files[rel] == old(files)[rel]
      ensures pruned == |old(files)| - |files|
    {
      pruned := 0;
      var keys := files.Keys;
      ghost var was := files;
      while keys != {}
        invariant keys <= was.Keys && pruned == |was| - |files|
        invariant files == map rel | rel in was && (rel in live || rel in keys) :: was[rel]
        decreases |keys|
      {
        var rel :| rel in keys;
        keys := keys - {rel};
        if rel !in live {
          assert files.Keys == (files - {rel}).Keys + {rel};
          assert |files.Keys| == |files| && |(files - {rel}).Keys| == |files - {rel}|;
          files := files - {rel};
          pruned := pruned + 1;
        }
      }
    }

    /** The `onLanded` callback: marks what landed at the stat of its parse, prunes, saves. */
    method OnLanded(landed: seq<string>, statAtParse: map<string, Stamp>, disk: map<string, Stamp>, live: set<string>)
      returns (saved: Saved)
      modifies this`files
      ensures files == Pruned(MarkedAll(old(files), landed, statAtParse, disk), live)
      ensures Landed(old(files), files, landed, statAtParse, disk, live)
      ensures saved == Saved(1, workspace, Some(files))
    {
      for i := 0 to |landed|
        invariant files == MarkedAll(old(files), landed[..i], statAtParse, disk)
      {
        assert landed[..i + 1][..i] == landed[..i];
        MarkIndexed(landed[i], Lookup(statAtParse, landed[i]), Lookup(disk, landed[i]));
      }
      assert landed[..|landed|] == landed;
      var pruned := Prune(live);
      MarkedIsLanded(old(files), landed, statAtParse, disk, live);
      saved := Saved(1, workspace, Some(files));
    }
  }
}
