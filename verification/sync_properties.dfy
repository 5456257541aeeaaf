/**
 * Properties of a whole pass of the sync engine: the report is the
 * classification of each template file against the target as it was before
 * the pass; each destination ends up as its bucket says; and a second pass
 * right after a first one adds and updates nothing.
 */
module SyncProperties {
  import opened Common
  import opened FileSystem
  import Paths
  import opened Sync

  /**
   * The walk never yields the same relative path twice, as a recursive
   * directory walk does.
   */
  predicate DistinctPaths(walk: seq<Item>)
  {
    forall i, j :: 0 <= i < j < |walk| ==> walk[i].rel != walk[j].rel
  }

  /**
   * The reference classification, without any sequential state: the
   * normalised paths of the files of the walk whose outcome against the
   * ORIGINAL target tree is `o`, in walk order.
   */
  function Expected(walk: seq<Item>, tree: Tree, force: bool, o: Outcome): seq<string>
  {
    if |walk| == 0 then []
    else
      var last := walk[|walk| - 1];
      Expected(walk[..|walk| - 1], tree, force, o)
        + (if last.FileItem? && ClassOf(last, tree, force) == o then [Paths.Normalize(last.rel)] else [])
  }

  /** The destination of a file after a pass, as its outcome against the original tree says. */
  function ExpectedContent(item: Item, tree: Tree, force: bool): Option<Bytes>
    requires item.FileItem?
  {
    if Writes(ClassOf(item, tree, force)) then Some(item.content) else Get(tree, item.rel)
  }

  /** Only the relative paths of non-excluded files of the walk are touched. */
  lemma {:induction false} TouchedFromWalk(walk: seq<Item>, p: string)
    requires p in Touched(walk)
    ensures exists i :: 0 <= i < |walk| && walk[i].FileItem? && walk[i].rel == p
    decreases |walk|
  {
    var prefix := walk[..|walk| - 1];
    if p in Touched(prefix) {
      TouchedFromWalk(prefix, p);
      var i :| 0 <= i < |prefix| && prefix[i].FileItem? && prefix[i].rel == p;
      assert walk[i] == prefix[i];
    } else {
      assert walk[|walk| - 1].rel == p;
    }
  }

  /** One step on a file, in terms of its outcome. */
  lemma StepByOutcome(item: Item, report: SyncResult, tree: Tree, force: bool)
    requires item.FileItem?
    ensures
      var o := ClassOf(item, tree, force);
      Step(item, report, tree, force)
        == (report.Record(o, Paths.Normalize(item.rel)), if Writes(o) then tree[item.rel := item.content] else tree)
  {
  }

  /**
   * When the walk yields each path once, the destination of its last file is
   * untouched by the pass over the files before it.
   */
  lemma LastUntouched(walk: seq<Item>, tree: Tree, force: bool)
    requires DistinctPaths(walk) && |walk| > 0
    ensures Get(Reconcile(walk[..|walk| - 1], tree, force).1, walk[|walk| - 1].rel) == Get(tree, walk[|walk| - 1].rel)
  {
    var n := |walk| - 1;
    var prefix := walk[..n];
    ReconcileFrame(prefix, tree, force);
    if walk[n].rel in Touched(prefix) {
      TouchedFromWalk(prefix, walk[n].rel);
    }
  }

  /** A pass is the pass over all but the last item, then one step. */
  lemma ReconcileSnoc(walk: seq<Item>, tree: Tree, force: bool)
    requires |walk| > 0
    ensures
      var before := Reconcile(walk[..|walk| - 1], tree, force);
      Reconcile(walk, tree, force) == Step(walk[|walk| - 1], before.0, before.1, force)
  {
  }

  /** What one step appends to the list of outcome `o`. */
  lemma StepBucket(item: Item, report: SyncResult, tree: Tree, force: bool, o: Outcome)
    ensures Step(item, report, tree, force).0.Bucket(o)
      == report.Bucket(o) + (if item.FileItem? && ClassOf(item, tree, force) == o then [Paths.Normalize(item.rel)] else [])
  {
  }

  /**
   * Coverage. Whatever the walk, every file it yields is recorded exactly
   * once, under its normalised path, and nothing else is recorded.
   */
  lemma {:induction false} ReportCoversEveryFile(walk: seq<Item>, tree: Tree, force: bool)
    ensures Reconcile(walk, tree, force).0.AllPaths() == multiset(NormalizedFiles(walk))
    decreases |walk|
  {
    if |walk| > 0 {
      var n := |walk| - 1;
      var prefix, last := walk[..n], walk[n];
      ReportCoversEveryFile(prefix, tree, force);
      var before := Reconcile(prefix, tree, force);
      ReconcileSnoc(walk, tree, force);
      if last.FileItem? {
        var path := Paths.Normalize(last.rel);
        StepByOutcome(last, before.0, before.1, force);
        RecordAllPaths(before.0, ClassOf(last, before.1, force), path);
        assert NormalizedFiles(walk) == NormalizedFiles(prefix) + [path];
        assert multiset(NormalizedFiles(prefix) + [path]) == multiset(NormalizedFiles(prefix)) + multiset{path};
      } else {
        assert NormalizedFiles(walk) == NormalizedFiles(prefix) + [];
      }
    }
  }

  /** Recording a path adds exactly that path to the report. */
  lemma RecordAllPaths(report: SyncResult, o: Outcome, path: string)
    ensures report.Record(o, path).AllPaths() == report.AllPaths() + multiset{path}
  {
    match o
    case Added =>
      assert multiset(report.filesAdded + [path]) == multiset(report.filesAdded) + multiset{path};
    case Updated =>
      assert multiset(report.filesUpdated + [path]) == multiset(report.filesUpdated) + multiset{path};
    case Skipped =>
      assert multiset(report.filesSkipped + [path]) == multiset(report.filesSkipped) + multiset{path};
    case Conflicted =>
      assert multiset(report.filesConflicted + [path]) == multiset(report.filesConflicted) + multiset{path};
  }

  /**
   * Partition. When the walk yields each path once, the four lists are
   * exactly the reference classification against the target as it was
   * before the pass.
   */
  lemma {:induction false} ReconcileMatchesClassification(walk: seq<Item>, tree: Tree, force: bool, o: Outcome)
    requires DistinctPaths(walk)
    ensures Reconcile(walk, tree, force).0.Bucket(o) == Expected(walk, tree, force, o)
    decreases |walk|
  {
    if |walk| > 0 {
      var n := |walk| - 1;
      var prefix, last := walk[..n], walk[n];
      assert DistinctPaths(prefix);
      ReconcileMatchesClassification(prefix, tree, force, o);
      var before := Reconcile(prefix, tree, force);
      ReconcileSnoc(walk, tree, force);
      StepBucket(last, before.0, before.1, force, o);
      if last.FileItem? {
        LastUntouched(walk, tree, force);
        assert ClassOf(last, before.1, force) == ClassOf(last, tree, force);
      }
    }
  }

  /** What one step does to the destination `p`. */
  lemma StepContent(item: Item, report: SyncResult, tree: Tree, force: bool, p: string)
    ensures Get(Step(item, report, tree, force).1, p)
      == if item.FileItem? && p == item.rel && Writes(ClassOf(item, tree, force)) then Some(item.content) else Get(tree, p)
  {
  }

  /**
   * Per-file effect. When the walk yields each path once, every destination
   * ends up as its file's outcome against the original target says: the
   * template content after added or updated, the old content (or absence)
   * after skipped or conflicted.
   */
  lemma {:induction false} ReconcileContents(walk: seq<Item>, tree: Tree, force: bool, i: int)
    requires DistinctPaths(walk)
    requires 0 <= i < |walk| && walk[i].FileItem?
    ensures Get(Reconcile(walk, tree, force).1, walk[i].rel) == ExpectedContent(walk[i], tree, force)
    decreases |walk|
  {
    var n := |walk| - 1;
    var prefix, last := walk[..n], walk[n];
    var before := Reconcile(prefix, tree, force);
    var p := walk[i].rel;
    var after := Get(Step(last, before.0, before.1, force).1, p);
    assert Get(Reconcile(walk, tree, force).1, p) == after by {
      ReconcileSnoc(walk, tree, force);
    }
    if i < n {
      assert after == Get(before.1, p) by {
        assert walk[i].rel != walk[n].rel;
        StepContent(last, before.0, before.1, force, p);
      }
      assert Get(before.1, p) == ExpectedContent(walk[i], tree, force) by {
        assert DistinctPaths(prefix);
        assert prefix[i] == walk[i];
        ReconcileContents(prefix, tree, force, i);
      }
    } else {
      assert Get(before.1, p) == Get(tree, p) by {
        LastUntouched(walk, tree, force);
      }
      assert ClassOf(last, before.1, force) == ClassOf(last, tree, force);
      StepContent(last, before.0, before.1, force, p);
    }
  }

  /** What the reference lists hold: the file paths whose outcome is `o`. */
  lemma {:induction false} ExpectedMembers(walk: seq<Item>, tree: Tree, force: bool, o: Outcome, p: string)
    ensures p in Expected(walk, tree, force, o) <==>
      exists i :: 0 <= i < |walk| && walk[i].FileItem? && Paths.Normalize(walk[i].rel) == p
                  && ClassOf(walk[i], tree, force) == o
    decreases |walk|
  {
    if |walk| > 0 {
      var n := |walk| - 1;
      var prefix := walk[..n];
      ExpectedMembers(prefix, tree, force, o, p);
      assert forall i :: 0 <= i < n ==> prefix[i] == walk[i];
      if p in Expected(walk, tree, force, o) && p !in Expected(prefix, tree, force, o) {
        assert walk[n].FileItem? && Paths.Normalize(walk[n].rel) == p && ClassOf(walk[n], tree, force) == o;
      }
    }
  }

  /**
   * Exactly one bucket. When the walk yields each path once and distinct
   * paths stay distinct after normalisation, the normalised path of every
   * template file lies in the bucket of its outcome and in no other.
   */
  lemma ExactlyOneBucket(walk: seq<Item>, tree: Tree, force: bool, i: int, o: Outcome)
    requires DistinctPaths(walk)
    requires forall j, k :: 0 <= j < k < |walk| && walk[j].FileItem? && walk[k].FileItem? ==>
      Paths.Normalize(walk[j].rel) != Paths.Normalize(walk[k].rel)
    requires 0 <= i < |walk| && walk[i].FileItem?
    ensures Paths.Normalize(walk[i].rel) in Reconcile(walk, tree, force).0.Bucket(o)
      <==> o == ClassOf(walk[i], tree, force)
  {
    ReconcileMatchesClassification(walk, tree, force, o);
    ExpectedMembers(walk, tree, force, o, Paths.Normalize(walk[i].rel));
    if Paths.Normalize(walk[i].rel) in Expected(walk, tree, force, o) {
      var j :| 0 <= j < |walk| && walk[j].FileItem? && Paths.Normalize(walk[j].rel) == Paths.Normalize(walk[i].rel)
               && ClassOf(walk[j], tree, force) == o;
      assert j == i;
    }
  }

  /**
   * A pass over a target that already holds a destination for every
   * non-excluded template file, without `force`, adds and updates nothing
   * and leaves the target as it is.
   */
  lemma {:induction false} QuietWhenAllPresent(walk: seq<Item>, tree: Tree)
    requires Touched(walk) <= tree.Keys
    ensures Reconcile(walk, tree, false).0.filesAdded == []
    ensures Reconcile(walk, tree, false).0.filesUpdated == []
    ensures Reconcile(walk, tree, false).1 == tree
    decreases |walk|
  {
    if |walk| > 0 {
      var prefix, last := walk[..|walk| - 1], walk[|walk| - 1];
      QuietWhenAllPresent(prefix, tree);
      var report := Reconcile(prefix, tree, false).0;
      assert Reconcile(walk, tree, false) == Step(last, report, tree, false);
      if last.FileItem? {
        var o := ClassOf(last, tree, false);
        assert o != Added by {
          if !Paths.IsExcluded(Paths.Normalize(last.rel)) {
            assert last.rel in tree;
          }
        }
        assert o != Updated;
        assert Step(last, report, tree, false) == (report.Record(o, Paths.Normalize(last.rel)), tree);
      }
    }
  }

  /**
   * Idempotence: right after a pass, a second pass without `force` adds and
   * updates nothing and changes nothing.
   */
  lemma SecondPassAddsNothing(walk: seq<Item>, tree: Tree, force: bool)
    ensures
      var first := Reconcile(walk, tree, force);
      var second := Reconcile(walk, first.1, false);
      second.0.filesAdded == [] && second.0.filesUpdated == [] && second.1 == first.1
  {
    ReconcileFrame(walk, tree, force);
    QuietWhenAllPresent(walk, Reconcile(walk, tree, force).1);
  }

  /** Two trees that classify every file alike into `o` give the same reference list for `o`. */
  lemma {:induction false} ExpectedAgrees(walk: seq<Item>, t1: Tree, f1: bool, t2: Tree, f2: bool, o: Outcome)
    requires forall i :: 0 <= i < |walk| && walk[i].FileItem? ==>
      (ClassOf(walk[i], t1, f1) == o <==> ClassOf(walk[i], t2, f2) == o)
    ensures Expected(walk, t1, f1, o) == Expected(walk, t2, f2, o)
    decreases |walk|
  {
    if |walk| > 0 {
      var prefix := walk[..|walk| - 1];
      assert forall i :: 0 <= i < |prefix| ==> prefix[i] == walk[i];
      ExpectedAgrees(prefix, t1, f1, t2, f2, o);
    }
  }

  /**
   * The conflicts survive a second pass: with each path walked once, the
   * second pass reports exactly the conflicts of the first (none after a
   * forced pass), and skips everything else.
   */
  lemma SecondPassKeepsConflicts(walk: seq<Item>, tree: Tree, force: bool)
    requires DistinctPaths(walk)
    ensures
      var first := Reconcile(walk, tree, force);
      var second := Reconcile(walk, first.1, false);
      && second.0.filesConflicted == first.0.filesConflicted
      && (force ==> second.0.filesConflicted == [])
  {
    ReconcileMatchesClassification(walk, tree, force, Conflicted);
    ReconcileMatchesClassification(walk, Reconcile(walk, tree, force).1, false, Conflicted);
    ConflictsAgreeAfterPass(walk, tree, force);
  }

  /**
   * Against the target a first pass leaves behind, a non-forced pass has the
   * same reference conflicts as the first pass had, and a forced first pass
   * has none.
   */
  lemma ConflictsAgreeAfterPass(walk: seq<Item>, tree: Tree, force: bool)
    requires DistinctPaths(walk)
    ensures Expected(walk, Reconcile(walk, tree, force).1, false, Conflicted) == Expected(walk, tree, force, Conflicted)
    ensures force ==> Expected(walk, tree, force, Conflicted) == []
  {
    var after := Reconcile(walk, tree, force).1;
    forall i | 0 <= i < |walk| && walk[i].FileItem?
      ensures ClassOf(walk[i], after, false) == Conflicted <==> ClassOf(walk[i], tree, force) == Conflicted
      ensures force ==> ClassOf(walk[i], tree, force) != Conflicted
    {
      ReconcileContents(walk, tree, force, i);
      ConflictAgainAfterPass(walk[i], tree, force, after);
    }
    ExpectedAgrees(walk, after, false, tree, force, Conflicted);
    if force {
      NoneExpected(walk, tree, force, Conflicted);
    }
  }

  /**
   * A file whose destination is as a first pass left it is in conflict on a
   * second pass exactly when it was in conflict on the first.
   */
  lemma ConflictAgainAfterPass(item: Item, tree: Tree, force: bool, after: Tree)
    requires item.FileItem?
    requires Get(after, item.rel) == ExpectedContent(item, tree, force)
    ensures ClassOf(item, after, false) == Conflicted <==> ClassOf(item, tree, force) == Conflicted
    ensures force ==> ClassOf(item, tree, force) != Conflicted
  {
    var n := Paths.Normalize(item.rel);
    if !Paths.IsExcluded(n) {
      if item.rel in tree && tree[item.rel] != item.content && !force {
        assert ClassOf(item, tree, force) == Conflicted;
        assert Get(after, item.rel) == Get(tree, item.rel);
      } else {
        assert ClassOf(item, tree, force) != Conflicted;
        assert Get(after, item.rel) == Some(item.content);
      }
    }
  }

  /** When no file has outcome `o`, the reference list for `o` is empty. */
  lemma {:induction false} NoneExpected(walk: seq<Item>, tree: Tree, force: bool, o: Outcome)
    requires forall i :: 0 <= i < |walk| && walk[i].FileItem? ==> ClassOf(walk[i], tree, force) != o
    ensures Expected(walk, tree, force, o) == []
    decreases |walk|
  {
    if |walk| > 0 {
      var prefix := walk[..|walk| - 1];
      assert forall i :: 0 <= i < |prefix| ==> prefix[i] == walk[i];
      NoneExpected(prefix, tree, force, o);
    }
  }
}
