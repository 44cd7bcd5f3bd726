/** Three concrete sweeps worked out in full, and the single-folder steps
    the first of them is built from. */
module Scenarios {
  import opened FileSystem
  import opened Threshold
  import opened Archive
  import opened Traversal

  const Now: int := 1000 * MsPerDay
  const NoFaults: Env := Env({}, {}, {}, {}, map[])

  const FolderA: Node := Dir("A", Now - 40 * MsPerDay, [File("a.txt", Now - 40 * MsPerDay)])
  const OldTxt: Node := File("old.txt", Now - 35 * MsPerDay)
  const FolderB: Node := Dir("B", Now - 5 * MsPerDay, [OldTxt])

  /** A (40 days, days = 30) replaces the older A of the archive as a whole. */
  lemma FolderAMoves(st: State)
    requires st.now == Now && st.archive == map["A" := File("A", 0)]
    ensures var o := HandleSubfolder(st, ["A"], FolderA, 30, NoFaults);
      o.ok && o.kept == [] && o.st.archive == map["A" := FolderA] && o.st.now == Now
  {
    var st1 := Check(st, ["A"], 30, NoFaults);
    var d := DeleteFolderFromTemp(st1, "A", NoFaults);
    assert d.archive == map[];
  }

  /** B (5 days) stays; old.txt (35 days) inside it is archived as old.txt. */
  lemma FolderBStays(st: State)
    requires st.now == Now && st.archive == map["A" := FolderA]
    ensures var o := HandleSubfolder(st, ["B"], FolderB, 30, NoFaults);
      o.ok && o.kept == [Dir("B", Now - 5 * MsPerDay, [])] && o.st.archive == map["A" := FolderA, "old.txt" := OldTxt]
  {
    var st1 := Check(st, ["B"], 30, NoFaults);
    assert ["B"] + [OldTxt.name] == ["B", "old.txt"];
    var of := HandleEntry(st1, ["B", "old.txt"], OldTxt, 30, NoFaults);
    assert of.kept == [] && of.ok && of.st.archive == map["A" := FolderA, "old.txt" := OldTxt];
    assert HandleChildren(of.st, ["B"], FolderB, 1, 30, NoFaults) == Outcome(of.st, [], true);
    assert HandleChildren(st1, ["B"], FolderB, 0, 30, NoFaults) == Outcome(of.st, [], true);
  }

  /** Days are 30. Folder A was last modified 40 days ago and replaces an older
      A in the archive as a whole. Folder B (5 days) stays, but its file
      old.txt (35 days) is archived flat, as old.txt and not as B/old.txt. */
  lemma OldFolderAndOldFile()
    ensures var r := AutoMoveAndDeleteFiles(map["A" := FolderA, "B" := FolderB], State(map["A" := File("A", 0)], Now, []), ["A", "B"], 30, NoFaults);
      && r.ok
      && r.root == map["B" := Dir("B", Now - 5 * MsPerDay, [])]
      && r.st.archive == map["A" := FolderA, "old.txt" := OldTxt]
  {
    var root := map["A" := FolderA, "B" := FolderB];
    var st := State(map["A" := File("A", 0)], Now, []);
    FolderAMoves(st);
    var oa := HandleSubfolder(st, ["A"], FolderA, 30, NoFaults);
    var root1 := Replace(root, "A", oa.kept);
    assert root1 == map["B" := FolderB];
    FolderBStays(oa.st);
    var ob := HandleSubfolder(oa.st, ["B"], FolderB, 30, NoFaults);
    assert Replace(root1, "B", ob.kept) == map["B" := Dir("B", Now - 5 * MsPerDay, [])];
    assert ["A", "B"][1..] == ["B"] && ["B"][1..] == [];
    assert AutoMoveAndDeleteFiles(root, st, ["A", "B"], 30, NoFaults) == AutoMoveAndDeleteFiles(root1, oa.st, ["B"], 30, NoFaults);
  }

  /** Folder C cannot be listed: the sweep ends there, folder D (later in the
      list) is never tested, and nothing is moved. */
  lemma ListingFailureSkipsLaterFolders()
    ensures var c := Dir("C", Now, [File("c.txt", 0)]);
      var d := Dir("D", 0, []);
      var env := Env({}, {["C"]}, {}, {}, map[]);
      var r := AutoMoveAndDeleteFiles(map["C" := c, "D" := d], State(map[], Now, []), ["C", "D"], 30, env);
      && !r.ok
      && r.root == map["C" := c, "D" := d]
      && r.st.archive == map[]
      && r.st.log == [Checked(["C"], CalculateDeletionThreshold(Now, 30))]
  {
    var c := Dir("C", Now, [File("c.txt", 0)]);
    var env := Env({}, {["C"]}, {}, {}, map[]);
    var o := HandleSubfolder(State(map[], Now, []), ["C"], c, 30, env);
    assert o == Outcome(State(map[], Now, [Checked(["C"], CalculateDeletionThreshold(Now, 30))]), [c], false);
  }

  /** Folder E, inside folder C, cannot be listed, and it has no entries: the
      failure passes up through C and ends the sweep, folder D is never tested,
      and nothing is moved. */
  lemma NestedListingFailureEndsSweep()
    ensures var e := Dir("E", Now, []);
      var c := Dir("C", Now, [e]);
      var d := Dir("D", 0, []);
      var env := Env({}, {["C", "E"]}, {}, {}, map[]);
      var r := AutoMoveAndDeleteFiles(map["C" := c, "D" := d], State(map[], Now, []), ["C", "D"], 30, env);
      && !r.ok
      && r.root == map["C" := c, "D" := d]
      && r.st.archive == map[]
      && r.st.log == [Checked(["C"], CalculateDeletionThreshold(Now, 30)), Checked(["C", "E"], CalculateDeletionThreshold(Now, 30))]
  {
    var e := Dir("E", Now, []);
    var c := Dir("C", Now, [e]);
    var env := Env({}, {["C", "E"]}, {}, {}, map[]);
    var st1 := Check(State(map[], Now, []), ["C"], 30, env);
    assert st1 == State(map[], Now, [Checked(["C"], CalculateDeletionThreshold(Now, 30))]);
    assert ["C"] + [e.name] == ["C", "E"];
    assert !IsOlderThanThreshold(e.mtime, st1.now, 30);
    var oe := HandleEntry(st1, ["C", "E"], e, 30, env);
    assert ["C", "E"] in env.unlistable && ["C", "E"] !in env.unstatable;
    assert oe == HandleSubfolder(st1, ["C", "E"], e, 30, env);
    assert oe == Outcome(Check(st1, ["C", "E"], 30, env), [e], false);
    assert HandleChildren(st1, ["C"], c, 0, 30, env) == Outcome(oe.st, [e], false);
    var o := HandleSubfolder(State(map[], Now, []), ["C"], c, 30, env);
    assert o == Outcome(oe.st, [c], false);
  }
}
