/** The sweep as the program runs it: a class whose fields are the working tree
    (the entries of ROOT_PATH), the archive directory, the clock and the log, and
    whose methods change them one filesystem call at a time. Every method is
    proved to do what the function of the same name in Traversal or Archive
    describes. */
module Sweeper {
  import opened FileSystem
  import opened Threshold
  import Archive
  import Traversal

  class Sweeper {
    var root: map<string, Node>
    var archive: map<string, Node>
    var now: int
    var log: seq<Event>
    const days: int
    const env: Env

    /** Everything in the sweep's reach except the working tree. */
    function State(): State
      reads this
    {
      FileSystem.State(archive, now, log)
    }

    constructor (root: map<string, Node>, archive: map<string, Node>, now: int, days: int, env: Env)
      ensures this.root == root && this.archive == archive && this.now == now && this.log == []
      ensures this.days == days && this.env == env
    {
      this.root := root;
      this.archive := archive;
      this.now := now;
      this.log := [];
      this.days := days;
      this.env := env;
    }

    /** isOlderThanThreshold with the threshold read from the clock at this
      moment; the clock then runs on. */
    method CheckAge(path: Path, mtime: int) returns (older: bool)
      modifies this`now, this`log
      ensures older == IsOlderThanThreshold(mtime, old(now), days)
      ensures State() == Traversal.Check(old(State()), path, days, env)
    {
      var threshold := CalculateDeletionThreshold(now, days);
      older := mtime < threshold;
      now := now + Elapsed(env, |log|);
      log := log + [Checked(path, threshold)];
    }

    method DeleteFolderFromTemp(name: string)
      modifies this`archive, this`log
      ensures State() == Archive.DeleteFolderFromTemp(old(State()), name, env)
    {
      if name !in archive {
        log := log + [DeleteFailed(FolderKind, name)];
      } else if name in env.undeletable {
        log := log + [Deleted(FolderKind, name)];
      } else {
        archive := archive - {name};
        log := log + [Deleted(FolderKind, name)];
      }
    }

    method DeleteFileFromTemp(name: string)
      modifies this`archive, this`log
      ensures State() == Archive.DeleteFileFromTemp(old(State()), name, env)
    {
      if name !in archive {
        log := log + [Deleted(FileKind, name)];
      } else if name in env.undeletable || Archive.NonEmptyDirAt(archive, name) {
        log := log + [DeleteFailed(FileKind, name)];
      } else {
        archive := archive - {name};
        log := log + [Deleted(FileKind, name)];
      }
    }

    /** moveFileToTemp / moveFolderToTemp: returns [] when the source left the
      working tree and [n] when it stayed. */
    method MoveToTemp(kind: Kind, path: Path, n: Node) returns (kept: seq<Node>)
      requires path != []
      modifies this`archive, this`log
      ensures var r := Archive.MoveToTemp(old(State()), kind, path, n, env);
        State() == r.st && kept == r.kept
    {
      var target := FileName(path);
      if path in env.unmovable || Archive.NonEmptyDirAt(archive, target) {
        log := log + [MoveFailed(kind, path)];
        kept := [n];
      } else {
        archive := archive[target := n];
        log := log + [Moved(kind, path)];
        kept := [];
      }
    }

    method HandleFile(path: Path, n: Node) returns (kept: seq<Node>, ok: bool)
      requires path != []
      modifies this`archive, this`now, this`log
      ensures var r := Traversal.HandleFile(old(State()), path, n, days, env);
        State() == r.st && kept == r.kept && ok == r.ok
    {
      if path in env.unstatable {
        return [n], false;
      }
      var older := CheckAge(path, n.mtime);
      if older {
        DeleteFileFromTemp(FileName(path));
        kept := MoveToTemp(FileKind, path, n);
      } else {
        kept := [n];
      }
      ok := true;
    }

    method HandleSubfolder(path: Path, n: Node) returns (kept: seq<Node>, ok: bool)
      requires path != []
      modifies this`archive, this`now, this`log
      decreases n, 1
      ensures var r := Traversal.HandleSubfolder(old(State()), path, n, days, env);
        State() == r.st && kept == r.kept && ok == r.ok
    {
      if path in env.unstatable {
        return [n], false;
      }
      var older := CheckAge(path, n.mtime);
      if older {
        DeleteFolderFromTemp(FileName(path));
        kept := MoveToTemp(FolderKind, path, n);
        return kept, true;
      }
      if n.File? || path in env.unlistable {
        return [n], false;
      }
      var left: seq<Node>;
      left, ok := ListAndHandle(path, n);
      kept := [Dir(n.name, n.mtime, left)];
    }

    /** The files.isDirectory dispatch for one listed child. */
    method HandleEntry(path: Path, c: Node) returns (kept: seq<Node>, ok: bool)
      requires path != []
      modifies this`archive, this`now, this`log
      decreases c, 2
      ensures var r := Traversal.HandleEntry(old(State()), path, c, days, env);
        State() == r.st && kept == r.kept && ok == r.ok
    {
      if c.Dir? {
        kept, ok := HandleSubfolder(path, c);
      } else {
        kept, ok := HandleFile(path, c);
      }
    }

    /** The directory-stream loop of handleSubfolder: each child in listing
      order until one throws. Returns the children that are still in the
      folder. */
    method ListAndHandle(path: Path, n: Node) returns (left: seq<Node>, ok: bool)
      requires n.Dir?
      modifies this`archive, this`now, this`log
      decreases n, 0
      ensures var r := Traversal.HandleChildren(old(State()), path, n, 0, days, env);
        State() == r.st && left == r.kept && ok == r.ok
    {
      ghost var goal := Traversal.HandleChildren(State(), path, n, 0, days, env);
      var i := 0;
      left := [];
      while i < |n.children|
        invariant i <= |n.children|
        invariant var rest := Traversal.HandleChildren(State(), path, n, i, days, env);
          goal == Outcome(rest.st, left + rest.kept, rest.ok)
      {
        ghost var before := State();
        var c := n.children[i];
        var k, childOk := HandleEntry(path + [c.name], c);
        Traversal.ChildrenStep(before, path, n, i, days, env, Outcome(State(), k, childOk));
        if !childOk {
          var tail := k + n.children[i + 1..];
          assert Traversal.HandleChildren(before, path, n, i, days, env) == Outcome(State(), tail, false);
          assert goal == Outcome(State(), left + tail, false);
          left, ok := left + tail, false;
          return;
        }
        ghost var rest := Traversal.HandleChildren(State(), path, n, i + 1, days, env);
        assert left + (k + rest.kept) == (left + k) + rest.kept;
        left := left + k;
        i := i + 1;
      }
      assert left + [] == left;
      ok := true;
    }

    /** autoMoveAndDeleteFiles: one sweep over the configured folder names;
      false when an exception propagated out of it. */
    method AutoMoveAndDeleteFiles(names: seq<string>) returns (ok: bool)
      modifies this
      ensures var r := Traversal.AutoMoveAndDeleteFiles(old(root), old(State()), names, days, env);
        root == r.root && State() == r.st && ok == r.ok
    {
      var i := 0;
      while i < |names|
        invariant i <= |names|
        invariant Traversal.AutoMoveAndDeleteFiles(root, State(), names[i..], days, env)
               == Traversal.AutoMoveAndDeleteFiles(old(root), old(State()), names, days, env)
      {
        var name := names[i];
        assert names[i..][1..] == names[i + 1..];
        if name !in root {
          return false;
        }
        var kept, folderOk := HandleSubfolder([name], root[name]);
        if kept == [] {
          root := root - {name};
        } else {
          root := root[name := kept[0]];
        }
        if !folderOk {
          return false;
        }
        i := i + 1;
      }
      return true;
    }
  }
}
