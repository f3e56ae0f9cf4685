/** Action pruning of agents/old/peucrl.py `_action_pruning`, on the array of
    intracellular pruning flags (flags[s, a] is false once the pair (s, a) is
    pruned). A cell that reaches a state known to be unsafe prunes the pair it
    came through (the basic case). A cell also keeps a path: the pairs it went
    through while its state had exactly one unpruned action left; a cell that
    reaches an unsafe state, or whose state has no unpruned action left,
    prunes its whole path (the corner cases). One step of the environment is
    given by the cells' previous states `ps`, actions `xs` and current states
    `cs`, with the label sets `labels` of the intracellular states. */
module Pruning {
  import opened Codec
  import opened Labels
  import opened Numerics

  /** The cells' step and the label sets fit the flag array. */
  predicate StepInRange(n0: nat, n1: nat, labels: seq<set<Label>>, ps: seq<int>, xs: seq<int>, cs: seq<int>)
  {
    |ps| == |xs| == |cs| && IsDigits(ps, n0) && IsDigits(xs, n1) && IsDigits(cs, |labels|)
  }

  /** Every pair of the set is an index of the flag array. */
  predicate PairsIn(pairs: set<(int, int)>, n0: nat, n1: nat)
  {
    forall p :: p in pairs ==> 0 <= p.0 < n0 && 0 <= p.1 < n1
  }

  /** Cell c has reached a state known to be unsafe. */
  predicate ReachedUnsafe(labels: seq<set<Label>>, cs: seq<int>, c: int)
    requires 0 <= c < |cs| && 0 <= cs[c] < |labels|
  {
    DefinitelyUnsafe(labels[cs[c]])
  }

  /** The basic case: some cell reached an unsafe state through (s, a). */
  ghost predicate BasicPruned(labels: seq<set<Label>>, ps: seq<int>, xs: seq<int>, cs: seq<int>,
                              s: int, a: int, k: nat)
    requires k <= |ps| == |xs| == |cs| && IsDigits(cs, |labels|)
  {
    exists c :: 0 <= c < k && ReachedUnsafe(labels, cs, c) && ps[c] == s && xs[c] == a
  }

  /** The corner cases fire for a cell that reached an unsafe state or whose
      previous state had no unpruned action left. */
  predicate Triggered(labels: seq<set<Label>>, cs: seq<int>, c: int, unpruned: nat)
    requires 0 <= c < |cs| && 0 <= cs[c] < |labels|
  {
    ReachedUnsafe(labels, cs, c) || unpruned == 0
  }

  /** The path of a cell after a step through `pair`, when its previous state
      had `unpruned` unpruned actions: reset with two or more, extended with
      exactly one, kept with none. */
  function PathAfter(path: set<(int, int)>, unpruned: nat, pair: (int, int)): (r: set<(int, int)>)
    ensures unpruned >= 2 ==> r == {}
    ensures unpruned == 1 ==> r == path + {pair}
    ensures unpruned == 0 ==> r == path
  {
    if unpruned >= 2 then {} else if unpruned == 1 then path + {pair} else path
  }

  /** The number of true entries: `np.sum` over a row of flags. */
  function CountTrue(row: seq<bool>): (n: nat)
    ensures n <= |row|
  {
    if row == [] then 0 else CountTrue(row[..|row| - 1]) + (if row[|row| - 1] then 1 else 0)
  }

  /** Fewer flags set, fewer counted. */
  lemma {:induction false} CountTrueMonotone(fewer: seq<bool>, more: seq<bool>)
    requires |fewer| == |more| && forall i :: 0 <= i < |fewer| ==> fewer[i] ==> more[i]
    ensures CountTrue(fewer) <= CountTrue(more)
  {
    if fewer != [] {
      CountTrueMonotone(fewer[..|fewer| - 1], more[..|more| - 1]);
    }
  }

  /** No flag set, none counted; some flag set, some counted. */
  lemma {:induction false} CountTrueZero(row: seq<bool>)
    ensures CountTrue(row) == 0 <==> forall i :: 0 <= i < |row| ==> !row[i]
  {
    if row != [] {
      CountTrueZero(row[..|row| - 1]);
      assert forall i :: 0 <= i < |row| - 1 ==> row[..|row| - 1][i] == row[i];
    }
  }

  /** The basic case, cell by cell. */
  method PruneBasic(flags: array2<bool>, labels: seq<set<Label>>, ps: seq<int>, xs: seq<int>, cs: seq<int>)
    returns (newPruning: bool)
    requires StepInRange(flags.Length0, flags.Length1, labels, ps, xs, cs)
    modifies flags
    ensures forall s, a :: 0 <= s < flags.Length0 && 0 <= a < flags.Length1 ==>
      flags[s, a] == (old(flags[s, a]) && !BasicPruned(labels, ps, xs, cs, s, a, |ps|))
    ensures newPruning <==>
      exists s, a :: 0 <= s < flags.Length0 && 0 <= a < flags.Length1 && old(flags[s, a]) && !flags[s, a]
  {
    newPruning := false;
    for cell := 0 to |ps|
      invariant forall s, a :: 0 <= s < flags.Length0 && 0 <= a < flags.Length1 ==>
        flags[s, a] == (old(flags[s, a]) && !BasicPruned(labels, ps, xs, cs, s, a, cell))
      invariant newPruning <==>
        exists s, a :: 0 <= s < flags.Length0 && 0 <= a < flags.Length1 && old(flags[s, a]) && !flags[s, a]
    {
      BasicPrunedStep(labels, ps, xs, cs, cell);
      if ReachedUnsafe(labels, cs, cell) {
        if flags[ps[cell], xs[cell]] {
          newPruning := true;
        }
        flags[ps[cell], xs[cell]] := false;
      }
    }
  }

  lemma BasicPrunedStep(labels: seq<set<Label>>, ps: seq<int>, xs: seq<int>, cs: seq<int>, k: nat)
    requires k < |ps| == |xs| == |cs| && IsDigits(cs, |labels|)
    ensures forall s, a :: BasicPruned(labels, ps, xs, cs, s, a, k + 1) <==>
      BasicPruned(labels, ps, xs, cs, s, a, k) || (ReachedUnsafe(labels, cs, k) && ps[k] == s && xs[k] == a)
  {
    forall s, a | BasicPruned(labels, ps, xs, cs, s, a, k + 1)
      ensures BasicPruned(labels, ps, xs, cs, s, a, k) || (ReachedUnsafe(labels, cs, k) && ps[k] == s && xs[k] == a)
    {
      var c :| 0 <= c < k + 1 && ReachedUnsafe(labels, cs, c) && ps[c] == s && xs[c] == a;
    }
  }

  /** Prune every pair of a path. */
  method ClearPairs(flags: array2<bool>, pairs: set<(int, int)>) returns (changed: bool)
    requires PairsIn(pairs, flags.Length0, flags.Length1)
    modifies flags
    ensures forall s, a :: 0 <= s < flags.Length0 && 0 <= a < flags.Length1 ==>
      flags[s, a] == (old(flags[s, a]) && (s, a) !in pairs)
    ensures changed <==>
      exists s, a :: 0 <= s < flags.Length0 && 0 <= a < flags.Length1 && old(flags[s, a]) && !flags[s, a]
  {
    var todo := pairs;
    changed := false;
    while todo != {}
      invariant todo <= pairs
      invariant forall s, a :: 0 <= s < flags.Length0 && 0 <= a < flags.Length1 ==>
        flags[s, a] == (old(flags[s, a]) && (s, a) !in pairs - todo)
      invariant changed <==>
        exists s, a :: 0 <= s < flags.Length0 && 0 <= a < flags.Length1 && old(flags[s, a]) && !flags[s, a]
      decreases |todo|
    {
      var p :| p in todo;
      if flags[p.0, p.1] {
        changed := true;
      }
      flags[p.0, p.1] := false;
      todo := todo - {p};
    }
  }

  /** The corner cases for one cell: count the unpruned actions of its
      previous state, update its path, and prune the path when triggered. */
  method CascadeCell(flags: array2<bool>, labels: seq<set<Label>>, ps: seq<int>, xs: seq<int>, cs: seq<int>,
                     cell: nat, path: set<(int, int)>)
    returns (newPath: set<(int, int)>, ghost unpruned: nat, changed: bool)
    requires StepInRange(flags.Length0, flags.Length1, labels, ps, xs, cs) && cell < |ps|
    requires PairsIn(path, flags.Length0, flags.Length1)
    modifies flags
    ensures unpruned == CountTrue(old(Row2(flags, ps[cell])))
    ensures newPath == PathAfter(path, unpruned, (ps[cell], xs[cell]))
    ensures PairsIn(newPath, flags.Length0, flags.Length1)
    ensures forall s, a :: 0 <= s < flags.Length0 && 0 <= a < flags.Length1 ==>
      flags[s, a] == (old(flags[s, a]) && !(Triggered(labels, cs, cell, unpruned) && (s, a) in newPath))
    ensures changed <==>
      exists s, a :: 0 <= s < flags.Length0 && 0 <= a < flags.Length1 && old(flags[s, a]) && !flags[s, a]
  {
    var n := CountTrue(Row2(flags, ps[cell]));
    unpruned := n;
    newPath := path;
    if n >= 2 {
      newPath := {};
    } else if n == 1 {
      newPath := newPath + {(ps[cell], xs[cell])};
    }
    changed := false;
    if ReachedUnsafe(labels, cs, cell) || n == 0 {
      changed := ClearPairs(flags, newPath);
    }
  }

  /** Some cell before k was triggered and had (s, a) on its path. */
  ghost predicate ClearedBefore(labels: seq<set<Label>>, cs: seq<int>, unpruned: seq<nat>,
                                paths: seq<set<(int, int)>>, s: int, a: int, k: nat)
    requires k <= |cs| && k <= |unpruned| && k <= |paths| && IsDigits(cs, |labels|)
  {
    exists c :: 0 <= c < k && Triggered(labels, cs, c, unpruned[c]) && (s, a) in paths[c]
  }

  lemma ClearedStep(labels: seq<set<Label>>, cs: seq<int>, u: seq<nat>, u': seq<nat>,
                    paths: seq<set<(int, int)>>, paths': seq<set<(int, int)>>, k: nat)
    requires k < |cs| && k <= |u| && k < |u'| && k <= |paths| && k < |paths'| && IsDigits(cs, |labels|)
    requires forall c :: 0 <= c < k ==> u'[c] == u[c] && paths'[c] == paths[c]
    ensures forall s, a :: ClearedBefore(labels, cs, u', paths', s, a, k + 1) <==>
      ClearedBefore(labels, cs, u, paths, s, a, k) || (Triggered(labels, cs, k, u'[k]) && (s, a) in paths'[k])
  {
    forall s, a | ClearedBefore(labels, cs, u', paths', s, a, k + 1)
      ensures ClearedBefore(labels, cs, u, paths, s, a, k) || (Triggered(labels, cs, k, u'[k]) && (s, a) in paths'[k])
    {
      var c :| 0 <= c < k + 1 && Triggered(labels, cs, c, u'[c]) && (s, a) in paths'[c];
      if c < k {
        assert Triggered(labels, cs, c, u[c]) && (s, a) in paths[c];
      }
    }
    forall s, a | ClearedBefore(labels, cs, u, paths, s, a, k)
      ensures ClearedBefore(labels, cs, u', paths', s, a, k + 1)
    {
      var c :| 0 <= c < k && Triggered(labels, cs, c, u[c]) && (s, a) in paths[c];
      assert Triggered(labels, cs, c, u'[c]) && (s, a) in paths'[c];
    }
  }

  /** ClearedBefore at k reads only the cells before k. */
  lemma ClearedFrame(labels: seq<set<Label>>, cs: seq<int>, u: seq<nat>, u': seq<nat>,
                     paths: seq<set<(int, int)>>, paths': seq<set<(int, int)>>, k: nat)
    requires k <= |cs| && k <= |u| && k <= |u'| && k <= |paths| && k <= |paths'| && IsDigits(cs, |labels|)
    requires forall c :: 0 <= c < k ==> u'[c] == u[c] && paths'[c] == paths[c]
    ensures forall s, a :: ClearedBefore(labels, cs, u', paths', s, a, k) <==> ClearedBefore(labels, cs, u, paths, s, a, k)
  {
    forall s, a | ClearedBefore(labels, cs, u', paths', s, a, k)
      ensures ClearedBefore(labels, cs, u, paths, s, a, k)
    {
      var c :| 0 <= c < k && Triggered(labels, cs, c, u'[c]) && (s, a) in paths'[c];
      assert Triggered(labels, cs, c, u[c]) && (s, a) in paths[c];
    }
    forall s, a | ClearedBefore(labels, cs, u, paths, s, a, k)
      ensures ClearedBefore(labels, cs, u', paths', s, a, k)
    {
      var c :| 0 <= c < k && Triggered(labels, cs, c, u[c]) && (s, a) in paths[c];
      assert Triggered(labels, cs, c, u'[c]) && (s, a) in paths'[c];
    }
  }

  /** Row s of the flags as cell k finds it: the row it started from, less
      the pairs the triggered cells before k have cleared. */
  ghost function Remaining(row: seq<bool>, labels: seq<set<Label>>, cs: seq<int>, unpruned: seq<nat>,
                           paths: seq<set<(int, int)>>, s: int, k: nat): (r: seq<bool>)
    requires k <= |cs| && k <= |unpruned| && k <= |paths| && IsDigits(cs, |labels|)
    ensures |r| == |row|
    ensures forall a :: 0 <= a < |r| ==> r[a] == (row[a] && !ClearedBefore(labels, cs, unpruned, paths, s, a, k))
  {
    seq(|row|, a requires 0 <= a < |row| => row[a] && !ClearedBefore(labels, cs, unpruned, paths, s, a, k))
  }

  /** Row s of the flags after the basic case. */
  ghost function AfterBasic(row: seq<bool>, labels: seq<set<Label>>, ps: seq<int>, xs: seq<int>, cs: seq<int>,
                            s: int): (r: seq<bool>)
    requires |ps| == |xs| == |cs| && IsDigits(cs, |labels|)
    ensures |r| == |row|
    ensures forall a :: 0 <= a < |r| ==> r[a] == (row[a] && !BasicPruned(labels, ps, xs, cs, s, a, |ps|))
  {
    seq(|row|, a requires 0 <= a < |row| => row[a] && !BasicPruned(labels, ps, xs, cs, s, a, |ps|))
  }

  /** Every cell before k counted, for its previous state, the unpruned
      actions the row it started from has left when its turn comes. */
  ghost predicate CountsAsFound(rows: seq<seq<bool>>, labels: seq<set<Label>>, ps: seq<int>, cs: seq<int>,
                                unpruned: seq<nat>, paths: seq<set<(int, int)>>, k: nat)
    requires k <= |ps| == |cs| && |rows| == |ps| && k <= |unpruned| && k <= |paths| && IsDigits(cs, |labels|)
  {
    forall c :: 0 <= c < k ==> unpruned[c] == CountTrue(Remaining(rows[c], labels, cs, unpruned, paths, ps[c], c))
  }

  lemma CountsAsFoundStep(rows: seq<seq<bool>>, labels: seq<set<Label>>, ps: seq<int>, cs: seq<int>,
                          u: seq<nat>, paths: seq<set<(int, int)>>, n: nat, path: set<(int, int)>, k: nat)
    requires k < |ps| == |cs| && |rows| == |ps| && k == |u| && k < |paths| && IsDigits(cs, |labels|)
    requires CountsAsFound(rows, labels, ps, cs, u, paths, k)
    requires n == CountTrue(Remaining(rows[k], labels, cs, u, paths, ps[k], k))
    ensures CountsAsFound(rows, labels, ps, cs, u + [n], paths[k := path], k + 1)
  {
    var u', paths' := u + [n], paths[k := path];
    forall c | 0 <= c <= k
      ensures u'[c] == CountTrue(Remaining(rows[c], labels, cs, u', paths', ps[c], c))
    {
      ClearedFrame(labels, cs, u, u', paths, paths', c);
      assert Remaining(rows[c], labels, cs, u', paths', ps[c], c) == Remaining(rows[c], labels, cs, u, paths, ps[c], c);
    }
  }

  /** Rows ps[0], ps[1], ... of the flags. */
  ghost function RowsAt(flags: array2<bool>, ps: seq<int>): (rows: seq<seq<bool>>)
    reads flags
    requires forall c :: 0 <= c < |ps| ==> 0 <= ps[c] < flags.Length0
    ensures |rows| == |ps| && forall c :: 0 <= c < |ps| ==> rows[c] == Row2(flags, ps[c])
  {
    seq(|ps|, c requires 0 <= c < |ps| reads flags => Row2(flags, ps[c]))
  }

  /** The rows of `rows` after the basic case, row c being row ps[c]. */
  ghost function BasicRows(rows: seq<seq<bool>>, labels: seq<set<Label>>, ps: seq<int>, xs: seq<int>,
                           cs: seq<int>): (r: seq<seq<bool>>)
    requires |rows| == |ps| == |xs| == |cs| && IsDigits(cs, |labels|)
    ensures |r| == |rows| && forall c :: 0 <= c < |r| ==> r[c] == AfterBasic(rows[c], labels, ps, xs, cs, ps[c])
  {
    seq(|rows|, c requires 0 <= c < |rows| => AfterBasic(rows[c], labels, ps, xs, cs, ps[c]))
  }

  /** The corner cases, cell by cell; each cell updates only its own path,
      counts the unpruned actions its previous state has left when its turn
      comes, and a pair is pruned exactly when some triggered cell has it on
      its path. */
  method PruneCascade(flags: array2<bool>, labels: seq<set<Label>>, ps: seq<int>, xs: seq<int>, cs: seq<int>,
                      paths: seq<set<(int, int)>>)
    returns (newPaths: seq<set<(int, int)>>, ghost unpruned: seq<nat>, newPruning: bool)
    requires StepInRange(flags.Length0, flags.Length1, labels, ps, xs, cs) && |paths| == |ps|
    requires forall c :: 0 <= c < |paths| ==> PairsIn(paths[c], flags.Length0, flags.Length1)
    modifies flags
    ensures |newPaths| == |ps| && |unpruned| == |ps|
    ensures forall c :: 0 <= c < |ps| ==> PairsIn(newPaths[c], flags.Length0, flags.Length1)
    ensures forall c :: 0 <= c < |ps| ==> newPaths[c] == PathAfter(paths[c], unpruned[c], (ps[c], xs[c]))
    ensures forall s, a :: 0 <= s < flags.Length0 && 0 <= a < flags.Length1 ==>
      flags[s, a] == (old(flags[s, a]) && !ClearedBefore(labels, cs, unpruned, newPaths, s, a, |ps|))
    ensures forall c :: 0 <= c < |ps| ==> unpruned[c] <= flags.Length1
    ensures CountsAsFound(old(RowsAt(flags, ps)), labels, ps, cs, unpruned, newPaths, |ps|)
    ensures newPruning <==>
      exists s, a :: 0 <= s < flags.Length0 && 0 <= a < flags.Length1 && old(flags[s, a]) && !flags[s, a]
  {
    ghost var rows := RowsAt(flags, ps);
    newPaths := paths;
    unpruned := [];
    newPruning := false;
    for cell := 0 to |ps|
      invariant |newPaths| == |ps| && |unpruned| == cell
      invariant forall c :: 0 <= c < |ps| ==> PairsIn(newPaths[c], flags.Length0, flags.Length1)
      invariant forall c :: cell <= c < |ps| ==> newPaths[c] == paths[c]
      invariant forall c :: 0 <= c < cell ==> newPaths[c] == PathAfter(paths[c], unpruned[c], (ps[c], xs[c]))
      invariant forall s, a :: 0 <= s < flags.Length0 && 0 <= a < flags.Length1 ==>
        flags[s, a] == (old(flags[s, a]) && !ClearedBefore(labels, cs, unpruned, newPaths, s, a, cell))
      invariant forall c :: 0 <= c < cell ==> unpruned[c] <= flags.Length1
      invariant CountsAsFound(rows, labels, ps, cs, unpruned, newPaths, cell)
      invariant newPruning <==>
        exists s, a :: 0 <= s < flags.Length0 && 0 <= a < flags.Length1 && old(flags[s, a]) && !flags[s, a]
    {
      assert Row2(flags, ps[cell]) == Remaining(rows[cell], labels, cs, unpruned, newPaths, ps[cell], cell);
      var p, n, ch := CascadeCell(flags, labels, ps, xs, cs, cell, newPaths[cell]);
      ClearedStep(labels, cs, unpruned, unpruned + [n], newPaths, newPaths[cell := p], cell);
      CountsAsFoundStep(rows, labels, ps, cs, unpruned, newPaths, n, p, cell);
      newPaths := newPaths[cell := p];
      unpruned := unpruned + [n];
      newPruning := newPruning || ch;
    }
  }

  /** Every component pair of the joint pair (S, A) is unpruned: the joint
      pair is allowed exactly when all its cells' pairs are. */
  ghost predicate ComponentsPermitted(flags: array2<bool>, nCells: nat, S: nat, A: nat)
    reads flags
    requires flags.Length0 > 0 && flags.Length1 > 0
  {
    var ss := ToCellular(S, flags.Length0, nCells);
    var aa := ToCellular(A, flags.Length1, nCells);
    forall c :: 0 <= c < nCells ==> flags[ss[c], aa[c]]
  }

  /** The joint mask entry (S, A): cleared at the first pruned component. */
  method MaskEntry(mask: array2<bool>, flags: array2<bool>, nCells: nat, S: nat, A: nat)
    requires mask != flags && flags.Length0 > 0 && flags.Length1 > 0
    requires S < mask.Length0 && A < mask.Length1
    modifies mask
    ensures mask[S, A] == (old(mask[S, A]) && ComponentsPermitted(flags, nCells, S, A))
    ensures forall S', A' :: 0 <= S' < mask.Length0 && 0 <= A' < mask.Length1 && (S' != S || A' != A) ==>
      mask[S', A'] == old(mask[S', A'])
  {
    var ss := ToCellular(S, flags.Length0, nCells);
    var aa := ToCellular(A, flags.Length1, nCells);
    var c := 0;
    while c < nCells
      invariant 0 <= c <= nCells
      invariant forall d :: 0 <= d < c ==> flags[ss[d], aa[d]]
    {
      if !flags[ss[c], aa[c]] {
        mask[S, A] := false;
        break;
      }
      c := c + 1;
    }
  }

  /** Row S of the joint mask. */
  method MaskRow(mask: array2<bool>, flags: array2<bool>, nCells: nat, S: nat)
    requires mask != flags && flags.Length0 > 0 && flags.Length1 > 0 && S < mask.Length0
    modifies mask
    ensures forall A :: 0 <= A < mask.Length1 ==>
      mask[S, A] == (old(mask[S, A]) && ComponentsPermitted(flags, nCells, S, A))
    ensures forall S', A :: 0 <= S' < mask.Length0 && 0 <= A < mask.Length1 && S' != S ==>
      mask[S', A] == old(mask[S', A])
  {
    for A := 0 to mask.Length1
      invariant forall A' :: 0 <= A' < A ==>
        mask[S, A'] == (old(mask[S, A']) && ComponentsPermitted(flags, nCells, S, A'))
      invariant forall S', A' :: 0 <= S' < mask.Length0 && 0 <= A' < mask.Length1 && (S' != S || A' >= A) ==>
        mask[S', A'] == old(mask[S', A'])
    {
      MaskEntry(mask, flags, nCells, S, A);
    }
  }

  /** The joint mask after new pruning: a joint pair stays allowed only while
      all its component pairs are. */
  method RecomputeJointMask(mask: array2<bool>, flags: array2<bool>, nCells: nat)
    requires mask != flags && flags.Length0 > 0 && flags.Length1 > 0
    modifies mask
    ensures forall S, A :: 0 <= S < mask.Length0 && 0 <= A < mask.Length1 ==>
      mask[S, A] == (old(mask[S, A]) && ComponentsPermitted(flags, nCells, S, A))
  {
    for S := 0 to mask.Length0
      invariant forall S', A :: 0 <= S' < S && 0 <= A < mask.Length1 ==>
        mask[S', A] == (old(mask[S', A]) && ComponentsPermitted(flags, nCells, S', A))
      invariant forall S', A :: S <= S' < mask.Length0 && 0 <= A < mask.Length1 ==>
        mask[S', A] == old(mask[S', A])
    {
      MaskRow(mask, flags, nCells, S);
    }
  }

  /** The joint mask holds exactly the joint pairs whose components are all unpruned. */
  ghost predicate MaskExact(mask: array2<bool>, flags: array2<bool>, nCells: nat)
    reads mask, flags
    requires flags.Length0 > 0 && flags.Length1 > 0
  {
    forall S, A :: 0 <= S < mask.Length0 && 0 <= A < mask.Length1 ==>
      (mask[S, A] <==> ComponentsPermitted(flags, nCells, S, A))
  }

  /** _action_pruning on the flags, the paths of the cells and the joint mask:
      the basic case, then the corner cases, then the mask when anything was
      newly pruned. */
  method Prune(mask: array2<bool>, flags: array2<bool>, labels: seq<set<Label>>,
               ps: seq<int>, xs: seq<int>, cs: seq<int>, paths: seq<set<(int, int)>>)
    returns (newPaths: seq<set<(int, int)>>, ghost unpruned: seq<nat>, newPruning: bool)
    requires mask != flags && flags.Length0 > 0 && flags.Length1 > 0
    requires StepInRange(flags.Length0, flags.Length1, labels, ps, xs, cs) && |paths| == |ps|
    requires forall c :: 0 <= c < |paths| ==> PairsIn(paths[c], flags.Length0, flags.Length1)
    requires MaskExact(mask, flags, |ps|)
    modifies mask, flags
    ensures MaskExact(mask, flags, |ps|)
    ensures |newPaths| == |ps| && |unpruned| == |ps|
    ensures forall c :: 0 <= c < |ps| ==> PairsIn(newPaths[c], flags.Length0, flags.Length1)
    ensures forall c :: 0 <= c < |ps| ==> newPaths[c] == PathAfter(paths[c], unpruned[c], (ps[c], xs[c]))
    ensures forall c :: 0 <= c < |ps| ==> unpruned[c] <= flags.Length1
    ensures CountsAsFound(BasicRows(old(RowsAt(flags, ps)), labels, ps, xs, cs), labels, ps, cs, unpruned, newPaths, |ps|)
    ensures forall s, a :: 0 <= s < flags.Length0 && 0 <= a < flags.Length1 ==>
      flags[s, a] == (old(flags[s, a]) && !BasicPruned(labels, ps, xs, cs, s, a, |ps|)
                      && !ClearedBefore(labels, cs, unpruned, newPaths, s, a, |ps|))
    ensures newPruning <==>
      exists s, a :: 0 <= s < flags.Length0 && 0 <= a < flags.Length1 && old(flags[s, a]) && !flags[s, a]
  {
    var basic := PruneBasic(flags, labels, ps, xs, cs);
    label Basic:
    var cascade;
    forall c | 0 <= c < |ps|
      ensures Row2(flags, ps[c]) == AfterBasic(old(Row2(flags, ps[c])), labels, ps, xs, cs, ps[c])
    {
    }
    assert RowsAt(flags, ps) == BasicRows(old(RowsAt(flags, ps)), labels, ps, xs, cs);
    newPaths, unpruned, cascade := PruneCascade(flags, labels, ps, xs, cs, paths);
    newPruning := basic || cascade;
    if basic {
      ghost var s, a :| 0 <= s < flags.Length0 && 0 <= a < flags.Length1 && old(flags[s, a]) && !old@Basic(flags[s, a]);
      assert !flags[s, a];
    } else if cascade {
      ghost var s, a :| 0 <= s < flags.Length0 && 0 <= a < flags.Length1 && old@Basic(flags[s, a]) && !flags[s, a];
      assert old(flags[s, a]);
    } else {
      assert forall s, a :: 0 <= s < flags.Length0 && 0 <= a < flags.Length1 ==> flags[s, a] == old(flags[s, a]);
    }
    if newPruning {
      RecomputeJointMask(mask, flags, |ps|);
      forall S, A | 0 <= S < mask.Length0 && 0 <= A < mask.Length1 && ComponentsPermitted(flags, |ps|, S, A)
        ensures old(ComponentsPermitted(flags, |ps|, S, A))
      {
        var ss := ToCellular(S, flags.Length0, |ps|);
        var aa := ToCellular(A, flags.Length1, |ps|);
        assert forall c :: 0 <= c < |ps| ==> old(flags[ss[c], aa[c]]);
      }
    }
  }
}
