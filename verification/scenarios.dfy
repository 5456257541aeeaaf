/**
 * Concrete passes of the sync engine: the situations the repository's own
 * tests describe, worked through on the model.
 */
module Scenarios {
  import opened Common
  import Paths
  import opened FileSystem
  import opened Sync
  import SyncProperties

  /** The paths of the scenarios are their own normalised forms. */
  lemma PlainPaths()
    ensures Paths.Normalize("workflows/ci.yml") == "workflows/ci.yml"
    ensures Paths.Normalize("CODEOWNERS") == "CODEOWNERS"
    ensures Paths.Normalize("README.md") == "README.md"
    ensures Paths.Normalize("docs/notes.txt") == "docs/notes.txt"
  {
    Paths.NormalizeIdempotent("workflows/ci.yml");
    Paths.NormalizeIdempotent("CODEOWNERS");
    Paths.NormalizeIdempotent("README.md");
    Paths.NormalizeIdempotent("docs/notes.txt");
  }

  /**
   * The shape of the exclusion test, for any names, in an order `rglob`
   * yields (every entry of a directory before the entries below it): a
   * directory, an excluded file, an ordinary file, a directory, then an
   * excluded and an ordinary file from inside the two directories, synced
   * into an empty target. The ordinary files are added with their content,
   * the excluded ones are skipped and never written, and the directories
   * are passed over.
   */
  lemma ExclusionPass(
    dir1: string, rel1: string, c1: Bytes, rel2: string, c2: Bytes,
    dir2: string, rel4: string, c4: Bytes, rel5: string, c5: Bytes)
    requires Paths.Normalize(rel1) == rel1 && Paths.IsExcluded(rel1)
    requires Paths.Normalize(rel2) == rel2 && !Paths.IsExcluded(rel2)
    requires Paths.Normalize(rel4) == rel4 && Paths.IsExcluded(rel4)
    requires Paths.Normalize(rel5) == rel5 && !Paths.IsExcluded(rel5)
    requires rel2 != rel5
    ensures Reconcile(
      [DirItem(dir1), FileItem(rel1, c1), FileItem(rel2, c2), DirItem(dir2), FileItem(rel4, c4), FileItem(rel5, c5)],
      map[], false)
      == (SyncResult([rel2, rel5], [], [rel1, rel4], []), map[rel2 := c2, rel5 := c5])
  {
    var walk := [DirItem(dir1), FileItem(rel1, c1), FileItem(rel2, c2), DirItem(dir2), FileItem(rel4, c4), FileItem(rel5, c5)];
    ExclusionFirstFive(walk);
    assert walk[..5] == walk[..|walk| - 1];
    assert [rel1] + [rel4] == [rel1, rel4];
    assert [rel2] + [rel5] == [rel2, rel5];
    SnocAdded(walk, map[], SyncResult([rel2], [], [rel1, rel4], []), map[rel2 := c2], rel5);
  }

  /**
   * The first five items of the exclusion walk: after the head, a directory
   * changes nothing and the second excluded file is skipped.
   */
  lemma ExclusionFirstFive(walk: seq<Item>)
    requires |walk| >= 5 && walk[0].DirItem? && walk[3].DirItem?
    requires walk[1].FileItem? && Paths.IsExcluded(Paths.Normalize(walk[1].rel))
    requires walk[2].FileItem? && !Paths.IsExcluded(Paths.Normalize(walk[2].rel))
    requires walk[4].FileItem? && Paths.IsExcluded(Paths.Normalize(walk[4].rel))
    ensures Reconcile(walk[..5], map[], false)
      == (SyncResult([Paths.Normalize(walk[2].rel)], [], [Paths.Normalize(walk[1].rel), Paths.Normalize(walk[4].rel)], []),
          map[walk[2].rel := walk[2].content])
  {
    var n1, n2, n4 := Paths.Normalize(walk[1].rel), Paths.Normalize(walk[2].rel), Paths.Normalize(walk[4].rel);
    var head := SyncResult([n2], [], [n1], []);
    var added := map[walk[2].rel := walk[2].content];
    assert Reconcile(walk[..4], map[], false) == (head, added) by {
      ExclusionHead(walk);
      assert walk[..4][..3] == walk[..3];
      SnocDirectory(walk[..4], map[], false, head, added);
    }
    assert walk[..5][..4] == walk[..4];
    assert [n1] + [n4] == [n1, n4];
    SnocSkipped(walk[..5], map[], head, added, n4);
  }

  /**
   * A directory, an excluded file and an ordinary file at the head of a walk
   * into an empty target: the first is skipped, the second added.
   */
  lemma ExclusionHead(walk: seq<Item>)
    requires |walk| >= 3 && walk[0].DirItem?
    requires walk[1].FileItem? && Paths.IsExcluded(Paths.Normalize(walk[1].rel))
    requires walk[2].FileItem? && !Paths.IsExcluded(Paths.Normalize(walk[2].rel))
    ensures Reconcile(walk[..3], map[], false)
      == (SyncResult([Paths.Normalize(walk[2].rel)], [], [Paths.Normalize(walk[1].rel)], []),
          map[walk[2].rel := walk[2].content])
  {
    var n1, n2 := Paths.Normalize(walk[1].rel), Paths.Normalize(walk[2].rel);
    assert Reconcile(walk[..2], map[], false) == (SyncResult([], [], [n1], []), map[]) by {
      assert walk[..1][..0] == [];
      SnocDirectory(walk[..1], map[], false, NoFiles, map[]);
      assert walk[..2][..1] == walk[..1];
      assert [] + [n1] == [n1];
      SnocSkipped(walk[..2], map[], NoFiles, map[], n1);
    }
    assert walk[..3][..2] == walk[..2];
    assert [] + [n2] == [n2];
    SnocAdded(walk[..3], map[], SyncResult([], [], [n1], []), map[], n2);
  }

  /**
   * The exclusion test of the repository: syncing its template into a
   * project without `.github` adds `README.md` and `docs/notes.txt` and
   * skips `CODEOWNERS` and `workflows/ci.yml`.
   */
  lemma ExclusionScenario(ci: Bytes, owners: Bytes, readme: Bytes, notes: Bytes)
    ensures
      var walk := [ DirItem("workflows"), FileItem("CODEOWNERS", owners), FileItem("README.md", readme),
                    DirItem("docs"), FileItem("workflows/ci.yml", ci), FileItem("docs/notes.txt", notes) ];
      var r := Reconcile(walk, map[], false);
      && r.0 == SyncResult(["README.md", "docs/notes.txt"], [], ["CODEOWNERS", "workflows/ci.yml"], [])
      && r.1 == map["README.md" := readme, "docs/notes.txt" := notes]
  {
    PlainPaths();
    CiExcluded();
    Paths.ExclusionCaseExamples();
    Paths.ExclusionMisses();
    ExclusionPass("workflows", "CODEOWNERS", owners, "README.md", readme, "docs", "workflows/ci.yml", ci, "docs/notes.txt", notes);
  }

  /** `workflows/ci.yml` lies under the excluded directory. */
  lemma CiExcluded()
    ensures Paths.IsExcluded("workflows/ci.yml")
  {
    Paths.ExclusionMatchesDirectory("ci.yml");
    assert "workflows/" + "ci.yml" == "workflows/ci.yml";
  }

  /** A directory at the end of the walk changes neither the report nor the target. */
  lemma SnocDirectory(walk: seq<Item>, tree: Tree, force: bool, report: SyncResult, after: Tree)
    requires |walk| > 0 && walk[|walk| - 1].DirItem?
    requires Reconcile(walk[..|walk| - 1], tree, force) == (report, after)
    ensures Reconcile(walk, tree, force) == (report, after)
  {
    SyncProperties.ReconcileSnoc(walk, tree, force);
  }

  /** An excluded file at the end of the walk is appended to the skipped list, and nothing is written. */
  lemma SnocSkipped(walk: seq<Item>, tree: Tree, report: SyncResult, after: Tree, normalized: string)
    requires |walk| > 0 && walk[|walk| - 1].FileItem?
    requires Paths.Normalize(walk[|walk| - 1].rel) == normalized && Paths.IsExcluded(normalized)
    requires Reconcile(walk[..|walk| - 1], tree, false) == (report, after)
    ensures Reconcile(walk, tree, false) == (report.(filesSkipped := report.filesSkipped + [normalized]), after)
  {
    SyncProperties.ReconcileSnoc(walk, tree, false);
  }

  /**
   * A file at the end of the walk that is not excluded and has no
   * destination yet is appended to the added list and written.
   */
  lemma SnocAdded(walk: seq<Item>, tree: Tree, report: SyncResult, after: Tree, normalized: string)
    requires |walk| > 0 && walk[|walk| - 1].FileItem? && walk[|walk| - 1].rel !in after
    requires Paths.Normalize(walk[|walk| - 1].rel) == normalized && !Paths.IsExcluded(normalized)
    requires Reconcile(walk[..|walk| - 1], tree, false) == (report, after)
    ensures Reconcile(walk, tree, false)
      == (report.(filesAdded := report.filesAdded + [normalized]), after[walk[|walk| - 1].rel := walk[|walk| - 1].content])
  {
    SyncProperties.ReconcileSnoc(walk, tree, false);
  }

  /**
   * A file at the end of the walk that is not excluded and whose
   * destination holds different content is, without `force`, appended to
   * the conflicted list, and nothing is written.
   */
  lemma SnocConflicted(walk: seq<Item>, tree: Tree, report: SyncResult, after: Tree, normalized: string)
    requires |walk| > 0 && walk[|walk| - 1].FileItem? && walk[|walk| - 1].rel in after
    requires after[walk[|walk| - 1].rel] != walk[|walk| - 1].content
    requires Paths.Normalize(walk[|walk| - 1].rel) == normalized && !Paths.IsExcluded(normalized)
    requires Reconcile(walk[..|walk| - 1], tree, false) == (report, after)
    ensures Reconcile(walk, tree, false) == (report.(filesConflicted := report.filesConflicted + [normalized]), after)
  {
    SyncProperties.ReconcileSnoc(walk, tree, false);
  }

  /**
   * A template `README.md` that differs from the project's: without
   * `force` it is reported as a conflict and the project keeps its content;
   * with `force` it is reported as updated and takes the template's content.
   */
  lemma ForceScenario(template: Bytes, project: Bytes, force: bool)
    requires template != project
    ensures
      var r := Reconcile([FileItem("README.md", template)], map["README.md" := project], force);
      && (!force ==> r.0 == SyncResult([], [], [], ["README.md"]) && r.1 == map["README.md" := project])
      && (force ==> r.0 == SyncResult([], ["README.md"], [], []) && r.1 == map["README.md" := template])
  {
    PlainPaths();
    Paths.ReadmeNotExcluded();
    var walk := [FileItem("README.md", template)];
    assert walk[..0] == [];
  }

  /** `x\y` and `x/y` normalise to the same path, which is not excluded. */
  lemma CollidingPaths()
    ensures Paths.Normalize("x\\y") == "x/y" && Paths.Normalize("x/y") == "x/y"
    ensures !Paths.IsExcluded("x/y")
  {
    assert Paths.Normalize("x\\y") == "x/y";
    Paths.NormalizeIdempotent("x/y");
    assert Paths.Lower("x/y") == "x/y";
    Paths.NoPatternLetterNotExcluded("x/y");
  }

  /**
   * Two template files whose relative paths differ but normalise alike, a
   * top-level `x\y` (a legal file name on POSIX) and `y` inside `x`, are
   * recorded under the same path `x/y`. When the project already has a
   * differing `x/y`, that path is reported both as added and as conflicted,
   * so the four lists are not disjoint.
   */
  lemma BackslashNameCollides(c1: Bytes, c2: Bytes, previous: Bytes)
    requires c2 != previous
    ensures
      var r := Reconcile([FileItem("x\\y", c1), FileItem("x/y", c2)], map["x/y" := previous], false);
      && r.0 == SyncResult(["x/y"], [], [], ["x/y"])
      && r.1 == map["x/y" := previous, "x\\y" := c1]
  {
    CollidingPaths();
    var walk := [FileItem("x\\y", c1), FileItem("x/y", c2)];
    var tree := map["x/y" := previous];
    assert Reconcile(walk[..1], tree, false) == (SyncResult(["x/y"], [], [], []), tree["x\\y" := c1]) by {
      assert walk[..1][..0] == [];
      assert [] + ["x/y"] == ["x/y"];
      SnocAdded(walk[..1], tree, NoFiles, tree, "x/y");
    }
    assert walk[..1] == walk[..|walk| - 1];
    assert [] + ["x/y"] == ["x/y"];
    SnocConflicted(walk, tree, SyncResult(["x/y"], [], [], []), tree["x\\y" := c1], "x/y");
  }
}
