/**
 * `collect_process_tree`: the pre-order walk over a snapshot's
 * parent-to-children map that lists a process and all its descendants, so
 * that `kill_process_tree` can kill them in reverse order, children before
 * parents.
 *
 * A process table is a forest, but the map itself does not say so; the
 * walk terminates because every child has a smaller rank than its parent
 * (for instance its depth below the leaves), which is a ghost argument.
 */
module ProcessTree {

  type Pid = nat

  type ChildrenMap = map<Pid, seq<Pid>>

  /** The rank of a process, zero when it has none. */
  function RankOf(rank: map<Pid, nat>, p: Pid): nat
  {
    if p in rank then rank[p] else 0
  }

  /** Every child ranks below its parent: the map has no cycles. */
  predicate Ranked(children: ChildrenMap, rank: map<Pid, nat>)
  {
    forall p, i :: p in children && 0 <= i < |children[p]| ==>
      RankOf(rank, children[p][i]) < RankOf(rank, p)
  }

  /** `children_map.get(&pid)`, with no entry meaning no children. */
  function ChildrenOf(children: ChildrenMap, p: Pid): seq<Pid>
  {
    if p in children then children[p] else []
  }

  predicate IsChild(children: ChildrenMap, parent: Pid, child: Pid)
  {
    child in ChildrenOf(children, parent)
  }

  /** The pre-order listing of the tree below `pid`. */
  function Preorder(children: ChildrenMap, rank: map<Pid, nat>, pid: Pid): seq<Pid>
    requires Ranked(children, rank)
    decreases RankOf(rank, pid), 1, 0
  {
    [pid] + Forest(children, rank, ChildrenOf(children, pid), RankOf(rank, pid))
  }

  /** The pre-order listings of the trees below `kids`, one after another. */
  function Forest(children: ChildrenMap, rank: map<Pid, nat>, kids: seq<Pid>, bound: nat): seq<Pid>
    requires Ranked(children, rank)
    requires forall i :: 0 <= i < |kids| ==> RankOf(rank, kids[i]) < bound
    decreases bound, 0, |kids|
  {
    if kids == [] then []
    else Forest(children, rank, kids[..|kids| - 1], bound) + Preorder(children, rank, kids[|kids| - 1])
  }

  /** `collect_process_tree`: push `pid`, then the trees below its children, in order. */
  method CollectProcessTree(pid: Pid, children: ChildrenMap, ghost rank: map<Pid, nat>, out: seq<Pid>)
    returns (result: seq<Pid>)
    requires Ranked(children, rank)
    ensures result == out + Preorder(children, rank, pid)
    decreases RankOf(rank, pid)
  {
    result := out + [pid];
    if pid in children {
      var kids := children[pid];
      var i := 0;
      while i < |kids|
        invariant 0 <= i <= |kids|
        invariant result == out + [pid] + Forest(children, rank, kids[..i], RankOf(rank, pid))
      {
        assert kids[..i + 1][..i] == kids[..i];
        result := CollectProcessTree(kids[i], children, rank, result);
        i := i + 1;
      }
      assert kids[..|kids|] == kids;
    }
  }

  // ---------------------------------------------------------------------------
  // What the walk promises
  // ---------------------------------------------------------------------------

  /** The entry at position `k` has its parent at an earlier position. */
  predicate ParentBefore(children: ChildrenMap, s: seq<Pid>, k: nat)
    requires k < |s|
  {
    exists j :: 0 <= j < k && IsChild(children, s[j], s[k])
  }

  /** Every entry after the first has its parent at an earlier position. */
  predicate ParentsFirst(children: ChildrenMap, s: seq<Pid>)
  {
    forall k: nat :: 0 < k < |s| ==> ParentBefore(children, s, k)
  }

  /** Every entry is a child of `root` or of an earlier entry. */
  predicate HangsBelow(children: ChildrenMap, root: Pid, s: seq<Pid>)
  {
    forall k: nat :: k < |s| ==> IsChild(children, root, s[k]) || ParentBefore(children, s, k)
  }

  /** A listing below `root` followed by a child's own listing still hangs below `root`. */
  lemma HangsBelowAppend(children: ChildrenMap, root: Pid, a: seq<Pid>, b: seq<Pid>)
    requires HangsBelow(children, root, a)
    requires b != [] && IsChild(children, root, b[0]) && ParentsFirst(children, b)
    ensures HangsBelow(children, root, a + b)
  {
    var s := a + b;
    forall k: nat | k < |s|
      ensures IsChild(children, root, s[k]) || ParentBefore(children, s, k)
    {
      if k < |a| {
        assert s[k] == a[k];
        if !IsChild(children, root, a[k]) {
          var j :| 0 <= j < k && IsChild(children, a[j], a[k]);
          assert s[j] == a[j];
        }
      } else if k > |a| {
        var kb := k - |a|;
        assert s[k] == b[kb];
        assert ParentBefore(children, b, kb);
        var j :| 0 <= j < kb && IsChild(children, b[j], b[kb]);
        assert s[|a| + j] == b[j];
      }
    }
  }

  /**
   * The walk starts at the root and lists every other process after its
   * parent, so the reverse order kills children before their parents.
   */
  lemma {:induction false} PreorderParentsFirst(children: ChildrenMap, rank: map<Pid, nat>, pid: Pid)
    requires Ranked(children, rank)
    ensures var s := Preorder(children, rank, pid);
            s[0] == pid && ParentsFirst(children, s)
    decreases RankOf(rank, pid), 1, 0
  {
    var kids := ChildrenOf(children, pid);
    ForestHangsBelow(children, rank, pid, kids, |kids|);
    assert kids[..|kids|] == kids;
    var f := Forest(children, rank, kids, RankOf(rank, pid));
    assert Preorder(children, rank, pid) == [pid] + f;
    RootThenHanging(children, pid, f);
  }

  /** A root followed by a listing that hangs below it lists parents first. */
  lemma RootThenHanging(children: ChildrenMap, root: Pid, f: seq<Pid>)
    requires HangsBelow(children, root, f)
    ensures ParentsFirst(children, [root] + f)
  {
    var s := [root] + f;
    forall k: nat | 0 < k < |s|
      ensures ParentBefore(children, s, k)
    {
      var i: nat := k - 1;
      assert IsChild(children, root, f[i]) || ParentBefore(children, f, i);
      ParentBeforeAfterRoot(children, root, f, k);
    }
  }

  /** Entry `k - 1` of a listing is entry `k` once `root` is put in front, and its parent moves with it. */
  lemma ParentBeforeAfterRoot(children: ChildrenMap, root: Pid, f: seq<Pid>, k: nat)
    requires 0 < k <= |f|
    requires IsChild(children, root, f[k - 1]) || ParentBefore(children, f, k - 1)
    ensures ParentBefore(children, [root] + f, k)
  {
    var s := [root] + f;
    assert s[k] == f[k - 1];
    if IsChild(children, root, f[k - 1]) {
      assert s[0] == root;
      assert IsChild(children, s[0], s[k]);
    } else {
      var j :| 0 <= j < k - 1 && IsChild(children, f[j], f[k - 1]);
      assert s[j + 1] == f[j];
      assert IsChild(children, s[j + 1], s[k]);
    }
  }

  /** The listings of the first `n` children of `pid` hang below `pid`. */
  lemma {:induction false} ForestHangsBelow(children: ChildrenMap, rank: map<Pid, nat>, pid: Pid,
                                           kids: seq<Pid>, n: nat)
    requires Ranked(children, rank)
    requires kids == ChildrenOf(children, pid) && n <= |kids|
    ensures HangsBelow(children, pid, Forest(children, rank, kids[..n], RankOf(rank, pid)))
    decreases RankOf(rank, pid), 0, n
  {
    if n > 0 {
      var bound := RankOf(rank, pid);
      assert kids[..n][..n - 1] == kids[..n - 1];
      ForestHangsBelow(children, rank, pid, kids, n - 1);
      PreorderParentsFirst(children, rank, kids[n - 1]);
      assert IsChild(children, pid, kids[n - 1]);
      HangsBelowAppend(children, pid, Forest(children, rank, kids[..n - 1], bound),
                       Preorder(children, rank, kids[n - 1]));
    }
  }

  /** Nothing below a listed process is missed: every child of a listed process is listed. */
  lemma {:induction false} PreorderClosed(children: ChildrenMap, rank: map<Pid, nat>, pid: Pid)
    requires Ranked(children, rank)
    ensures var s := Preorder(children, rank, pid);
            forall x, c :: x in s && IsChild(children, x, c) ==> c in s
    decreases RankOf(rank, pid), 1, 0
  {
    var kids := ChildrenOf(children, pid);
    ForestClosed(children, rank, kids, RankOf(rank, pid));
    var s := Preorder(children, rank, pid);
    forall x, c | x in s && IsChild(children, x, c) ensures c in s {
      if x == pid {
        ForestContainsRoots(children, rank, kids, RankOf(rank, pid), c);
      }
    }
  }

  /** Every root of a forest is listed in it. */
  lemma {:induction false} ForestContainsRoots(children: ChildrenMap, rank: map<Pid, nat>,
                                              kids: seq<Pid>, bound: nat, c: Pid)
    requires Ranked(children, rank)
    requires forall i :: 0 <= i < |kids| ==> RankOf(rank, kids[i]) < bound
    requires c in kids
    ensures c in Forest(children, rank, kids, bound)
    decreases |kids|
  {
    if c != kids[|kids| - 1] {
      var i :| 0 <= i < |kids| && kids[i] == c;
      assert kids[..|kids| - 1][i] == c;
      ForestContainsRoots(children, rank, kids[..|kids| - 1], bound, c);
    }
  }

  /** The forest of a list of roots contains the children of each listed process. */
  lemma {:induction false} ForestClosed(children: ChildrenMap, rank: map<Pid, nat>,
                                       kids: seq<Pid>, bound: nat)
    requires Ranked(children, rank)
    requires forall i :: 0 <= i < |kids| ==> RankOf(rank, kids[i]) < bound
    ensures var s := Forest(children, rank, kids, bound);
            forall x, c :: x in s && IsChild(children, x, c) ==> c in s
    decreases bound, 0, |kids|
  {
    if kids != [] {
      ForestClosed(children, rank, kids[..|kids| - 1], bound);
      PreorderClosed(children, rank, kids[|kids| - 1]);
    }
  }
}
