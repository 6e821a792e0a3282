/** Two-way synchronisation: the union of both trees, the newer file winning, nothing removed. */
module TwoWaySync {
  import opened Wrappers
  import opened Counting
  import opened Storage
  import opened MirrorSync

  /** A failure of a storage, or a path that is a file on one side and a directory on the other. */
  datatype SyncError = Backend(error: VfsError) | Conflict(relative: Path)

  function Lift(r: Result<(), VfsError>): Result<(), SyncError> {
    match r
    case Ok(u) => Ok(u)
    case Err(e) => Err(Backend(e))
  }

  /** What a finished run has made of one relative path, at `lp` on the left and `rp` on the right. */
  ghost predicate PairSynced(l0: Tree, lp: Path, r0: Tree, rp: Path, l1: Tree, r1: Tree) {
    if lp !in l0 && rp !in r0 then lp !in l1 && rp !in r1
    else
      && lp in l1 && rp in r1
      && if rp !in r0 then l1[lp] == l0[lp] && SameAs(l0[lp], r1[rp])
         else if lp !in l0 then r1[rp] == r0[rp] && SameAs(r0[rp], l1[lp])
         else
           && (l0[lp].Dir? <==> r0[rp].Dir?)
           && match Winner(l0[lp], r0[rp])
              case LeftWins => l1[lp] == l0[lp] && SameAs(l0[lp], r1[rp])
              case RightWins => r1[rp] == r0[rp] && SameAs(r0[rp], l1[lp])
              case LeftAlone => l1[lp] == l0[lp] && r1[rp] == r0[rp]
  }

  datatype Verdict = LeftWins | RightWins | LeftAlone

  /** The newer file wins; files of equal time go left to right when their sizes differ. */
  function Winner(left: Node, right: Node): Verdict {
    if left.Dir? || right.Dir? then LeftAlone
    else if Newer(left.modified, right.modified) then LeftWins
    else if Newer(right.modified, left.modified) then RightWins
    else if |left.content| != |right.content| then LeftWins
    else LeftAlone
  }

  /** `t1` may differ from `t0` only at the relative paths in `done`. */
  ghost predicate ChangedOnlyAt(t0: Tree, t1: Tree, root: Path, done: set<Path>) {
    forall p :: !(Within(root, p) && p[|root|..] in done) ==> (p in t1 <==> p in t0) && (p in t0 ==> t1[p] == t0[p])
  }

  /** The state after the relative paths in `done`: those pairs are final, everything else is as it was. */
  ghost predicate Progress(l0: Tree, lr: Path, r0: Tree, rr: Path, l1: Tree, r1: Tree, done: set<Path>) {
    && ChangedOnlyAt(l0, l1, lr, done) && ChangedOnlyAt(r0, r1, rr, done)
    && forall k :: k in done && k != [] ==> PairSynced(l0, lr + k, r0, rr + k, l1, r1)
  }

  ghost predicate UpdatedAt(t0: Tree, t1: Tree, p: Path) {
    t1 == t0 || (p in t1 && t1 == t0[p := t1[p]])
  }

  lemma PairUnaffected(l0: Tree, lp: Path, r0: Tree, rp: Path, l1: Tree, r1: Tree, l2: Tree, r2: Tree)
    requires PairSynced(l0, lp, r0, rp, l1, r1)
    requires lp in l2 <==> lp in l1
    requires rp in r2 <==> rp in r1
    requires lp in l1 ==> l2[lp] == l1[lp]
    requires rp in r1 ==> r2[rp] == r1[rp]
    ensures PairSynced(l0, lp, r0, rp, l2, r2)
  {}

  lemma ChangedAlsoAt(t0: Tree, t1: Tree, t2: Tree, root: Path, done: set<Path>, k: Path)
    requires ChangedOnlyAt(t0, t1, root, done) && UpdatedAt(t1, t2, root + k)
    ensures ChangedOnlyAt(t0, t2, root, done + {k})
  {
    assert (root + k)[|root|..] == k && Within(root, root + k);
  }

  lemma Advance(l0: Tree, lr: Path, r0: Tree, rr: Path, l1: Tree, r1: Tree, l2: Tree, r2: Tree, done: set<Path>,
                k: Path)
    requires Progress(l0, lr, r0, rr, l1, r1, done) && k !in done
    requires UpdatedAt(l1, l2, lr + k) && UpdatedAt(r1, r2, rr + k)
    requires PairSynced(l0, lr + k, r0, rr + k, l2, r2)
    ensures Progress(l0, lr, r0, rr, l2, r2, done + {k})
  {
    ChangedAlsoAt(l0, l1, l2, lr, done, k);
    ChangedAlsoAt(r0, r1, r2, rr, done, k);
    hide ChangedOnlyAt, PairSynced, UpdatedAt;
    forall l | l in done && l != []
      ensures PairSynced(l0, lr + l, r0, rr + l, l2, r2)
    {
      OtherPairStays(l0, lr, r0, rr, l1, r1, l2, r2, l, k);
    }
  }

  lemma OtherPairStays(l0: Tree, lr: Path, r0: Tree, rr: Path, l1: Tree, r1: Tree, l2: Tree, r2: Tree, l: Path, k: Path)
    requires l != k && PairSynced(l0, lr + l, r0, rr + l, l1, r1)
    requires UpdatedAt(l1, l2, lr + k) && UpdatedAt(r1, r2, rr + k)
    ensures PairSynced(l0, lr + l, r0, rr + l, l2, r2)
  {
    if lr + l == lr + k {
      RelativeInjective(lr, l, k);
    }
    if rr + l == rr + k {
      RelativeInjective(rr, l, k);
    }
    hide PairSynced;
    PairUnaffected(l0, lr + l, r0, rr + l, l1, r1, l2, r2);
  }

  /** No later path of the order is a prefix of an earlier one. */
  ghost predicate PrefixFirst(order: seq<Path>) {
    forall i, j :: 0 <= i < j < |order| ==> !Within(order[j], order[i])
  }

  /** Lists a set of relative paths in an arbitrary order that puts every path before its extensions. */
  method InPrefixFirstOrder(keys: set<Path>) returns (order: seq<Path>)
    ensures Distinct(order) && Elements(order) == keys && PrefixFirst(order)
  {
    order := [];
    var left := keys;
    while left != {}
      invariant left <= keys && Distinct(order) && Elements(order) == keys - left && PrefixFirst(order)
      invariant forall i, k :: 0 <= i < |order| && k in left ==> !Within(k, order[i])
      decreases left
    {
      ShallowestExists(left);
      assert exists k :: k in left && forall l :: l in left ==> l == k || !Within(l, k) by {
        var k :| Shallowest(left, k);
        forall l | l in left && Within(l, k)
          ensures l == k
        {}
      }
      var k :| k in left && forall l :: l in left ==> l == k || !Within(l, k);
      order := order + [k];
      left := left - {k};
    }
  }

  // ---- one path ----

  /** What the loop knows when it comes to `k`: both listings, and that everything above `k` is done. */
  ghost predicate AtStep(l0: Tree, lr: Path, r0: Tree, rr: Path, l1: Tree, r1: Tree, done: set<Path>, k: Path) {
    && WellFormed(l0) && WellFormed(r0) && WellFormed(l1) && WellFormed(r1)
    && lr in l0 && rr in r0 && l0[lr] == Dir && r0[rr] == Dir
    && Progress(l0, lr, r0, rr, l1, r1, done) && k !in done && [] !in done
    && (lr + k in l0 || rr + k in r0)
    && forall a :: Within(a, k) && a != k && a != [] ==> a in done
  }

  lemma ChangedOnlyHere(t0: Tree, t1: Tree, root: Path, done: set<Path>, k: Path)
    requires ChangedOnlyAt(t0, t1, root, done) && k !in done
    ensures root + k in t1 <==> root + k in t0
    ensures root + k in t0 ==> t1[root + k] == t0[root + k]
  {
    assert (root + k)[|root|..] == k;
  }

  /** When `k` exists on one side, its parent is a directory on both sides by now. */
  lemma ParentsAreDirs(l0: Tree, lr: Path, r0: Tree, rr: Path, l1: Tree, r1: Tree, done: set<Path>, k: Path)
    requires AtStep(l0, lr, r0, rr, l1, r1, done, k) && k != []
    ensures lr + k[..|k| - 1] in l1 && l1[lr + k[..|k| - 1]] == Dir
    ensures rr + k[..|k| - 1] in r1 && r1[rr + k[..|k| - 1]] == Dir
  {
    var parent := k[..|k| - 1];
    assert Within(parent, k);
    ParentListed(l0, lr, r0, rr, k);
    if parent == [] {
      assert lr + parent == lr && rr + parent == rr;
      ChangedOnlyHere(l0, l1, lr, done, []);
      ChangedOnlyHere(r0, r1, rr, done, []);
    } else {
      hide WellFormed, ChangedOnlyAt;
      assert PairSynced(l0, lr + parent, r0, rr + parent, l1, r1);
    }
  }

  lemma ParentListed(l0: Tree, lr: Path, r0: Tree, rr: Path, k: Path)
    requires WellFormed(l0) && WellFormed(r0) && k != [] && (lr + k in l0 || rr + k in r0)
    ensures || (lr + k[..|k| - 1] in l0 && l0[lr + k[..|k| - 1]] == Dir)
            || (rr + k[..|k| - 1] in r0 && r0[rr + k[..|k| - 1]] == Dir)
  {
    var parent := k[..|k| - 1];
    assert Within(lr + parent, lr + k) && Within(rr + parent, rr + k);
    if lr + k in l0 {
      AncestorsAreDirs(l0, lr + k, lr + parent);
    } else {
      AncestorsAreDirs(r0, rr + k, rr + parent);
    }
  }

  lemma OneDirMade(t: Tree, p: Path)
    requires WellFormed(t) && p != [] && p[..|p| - 1] in t
    ensures WithDirs(t, p) == if p in t then t else t[p := Dir]
  {
    forall q | Within(q, p) && q != p
      ensures q in t
    {
      InitKeepsPrefix(p, q);
      AncestorsAreDirs(t, p[..|p| - 1], q);
    }
    assert Within(p, p);
  }

  /** Makes one directory whose parent is there already. */
  method MakeDir(storage: Store, p: Path) returns (r: Result<(), VfsError>)
    requires storage.Valid() && HasParent(storage.tree, p)
    modifies storage`tree
    ensures storage.Valid() && (r.Err? ==> storage.tree == old(storage.tree))
    ensures r.Ok? ==> UpdatedAt(old(storage.tree), storage.tree, p) && p in storage.tree && storage.tree[p] == Dir
  {
    OneDirMade(storage.tree, p);
    hide WithDirs;
    r := storage.CreateDirAll(p);
    assert Within(p, p);
  }

  lemma ParentOfJoined(root: Path, k: Path)
    requires k != []
    ensures (root + k)[..|root + k| - 1] == root + k[..|k| - 1]
  {}

  datatype Action = MakeRight | MakeLeft | CopyRight | CopyLeft | Nothing | Clash

  /** The decision the loop body takes from the two listings. */
  function Decide(left: Option<Info>, right: Option<Info>): Action {
    match (left, right)
    case (None, None) => Nothing
    case (Some(l), None) => if l.isDir then MakeRight else CopyRight
    case (None, Some(r)) => if r.isDir then MakeLeft else CopyLeft
    case (Some(l), Some(r)) =>
      if l.isDir && r.isDir then Nothing
      else if l.isDir || r.isDir then Clash
      else if Newer(l.modified, r.modified) then CopyRight
      else if Newer(r.modified, l.modified) then CopyLeft
      else if l.size != r.size then CopyRight
      else Nothing
  }

  /** The path is a directory on one side and a file on the other. */
  ghost predicate KindsDiffer(l0: Tree, lp: Path, r0: Tree, rp: Path) {
    lp in l0 && rp in r0 && (l0[lp].Dir? <==> r0[rp].File?)
  }

  lemma ClashIsDifference(l0: Tree, lp: Path, r0: Tree, rp: Path)
    ensures Decide(NodeInfo(l0, lp), NodeInfo(r0, rp)).Clash? <==> KindsDiffer(l0, lp, r0, rp)
  {}

  function Lookup(m: map<Path, Info>, k: Path): Option<Info> {
    if k in m then Some(m[k]) else None
  }

  function NodeInfo(t: Tree, p: Path): Option<Info> {
    if p in t then Some(InfoOf(p, t[p])) else None
  }

  /** What carrying out a decision does to the two trees. */
  ghost predicate Acted(action: Action, l1: Tree, lp: Path, r1: Tree, rp: Path, l2: Tree, r2: Tree) {
    && UpdatedAt(l1, l2, lp) && UpdatedAt(r1, r2, rp)
    && match action
       case MakeRight => l2 == l1 && rp in r2 && r2[rp] == Dir
       case MakeLeft => r2 == r1 && lp in l2 && l2[lp] == Dir
       case CopyRight => l2 == l1 && lp in l1 && rp in r2 && SameAs(l1[lp], r2[rp])
       case CopyLeft => r2 == r1 && rp in r1 && lp in l2 && SameAs(r1[rp], l2[lp])
       case Nothing => l2 == l1 && r2 == r1
       case Clash => false
  }

  /** Carrying out the decision makes the pair final. */
  lemma ActionSyncs(l0: Tree, lp: Path, r0: Tree, rp: Path, l1: Tree, r1: Tree, l2: Tree, r2: Tree)
    requires lp in l0 || rp in r0
    requires (lp in l1 <==> lp in l0) && (lp in l0 ==> l1[lp] == l0[lp])
    requires (rp in r1 <==> rp in r0) && (rp in r0 ==> r1[rp] == r0[rp])
    requires Acted(Decide(NodeInfo(l0, lp), NodeInfo(r0, rp)), l1, lp, r1, rp, l2, r2)
    ensures PairSynced(l0, lp, r0, rp, l2, r2)
  {}

  method Act(left: Store, lp: Path, right: Store, rp: Path, action: Action, k: Path) returns (r: Result<(), SyncError>)
    requires left != right && left.Valid() && right.Valid()
    requires HasParent(left.tree, lp) && HasParent(right.tree, rp)
    modifies left`tree, right`tree
    ensures left.Valid() && right.Valid()
    ensures r.Ok? ==> Acted(action, old(left.tree), lp, old(right.tree), rp, left.tree, right.tree)
    ensures r.Err? ==> left.tree == old(left.tree) && right.tree == old(right.tree)
    ensures action.Clash? <==> r == Err(Conflict(k))
    ensures r.Err? && r.error.Conflict? ==> r.error.relative == k
  {
    DirsAlreadyThere(left.tree, ParentPath(lp));
    DirsAlreadyThere(right.tree, ParentPath(rp));
    var step := Ok(());
    match action {
      case MakeRight => step := MakeDir(right, rp);
      case MakeLeft => step := MakeDir(left, lp);
      case CopyRight => step := CopyFileBetween(left, lp, right, rp);
      case CopyLeft => step := CopyFileBetween(right, rp, left, lp);
      case Nothing =>
      case Clash => return Err(Conflict(k));
    }
    r := Lift(step);
  }

  /** The body of the loop for a proper relative path. */
  method SyncPath(left: Store, lr: Path, right: Store, rr: Path, leftInfo: Option<Info>, rightInfo: Option<Info>,
                  k: Path, ghost l0: Tree, ghost r0: Tree, ghost done: set<Path>) returns (r: Result<(), SyncError>)
    requires left != right && AtStep(l0, lr, r0, rr, left.tree, right.tree, done, k) && k != []
    requires left.Valid() && right.Valid()
    requires leftInfo == NodeInfo(l0, lr + k) && rightInfo == NodeInfo(r0, rr + k)
    modifies left`tree, right`tree
    ensures left.Valid() && right.Valid()
    ensures r.Ok? ==> Progress(l0, lr, r0, rr, left.tree, right.tree, done + {k})
    ensures r.Err? ==> left.tree == old(left.tree) && right.tree == old(right.tree)
    ensures r.Err? && r.error.Conflict? ==> r.error.relative == k && KindsDiffer(l0, lr + k, r0, rr + k)
  {
    ghost var l1, r1 := left.tree, right.tree;
    hide *;
    ClashIsDifference(l0, lr + k, r0, rr + k);
    StepStarts(l0, lr, r0, rr, l1, r1, done, k);
    r := Act(left, lr + k, right, rr + k, Decide(leftInfo, rightInfo), k);
    if r.Ok? {
      StepEnds(l0, lr, r0, rr, l1, r1, left.tree, right.tree, done, k);
    }
  }

  lemma StepStarts(l0: Tree, lr: Path, r0: Tree, rr: Path, l1: Tree, r1: Tree, done: set<Path>, k: Path)
    requires AtStep(l0, lr, r0, rr, l1, r1, done, k) && k != []
    ensures WellFormed(l1) && WellFormed(r1)
    ensures HasParent(l1, lr + k) && HasParent(r1, rr + k)
  {
    ParentsAreDirs(l0, lr, r0, rr, l1, r1, done, k);
    ParentOfJoined(lr, k);
    ParentOfJoined(rr, k);
  }

  lemma StepEnds(l0: Tree, lr: Path, r0: Tree, rr: Path, l1: Tree, r1: Tree, l2: Tree, r2: Tree, done: set<Path>,
                 k: Path)
    requires AtStep(l0, lr, r0, rr, l1, r1, done, k) && k != []
    requires Acted(Decide(NodeInfo(l0, lr + k), NodeInfo(r0, rr + k)), l1, lr + k, r1, rr + k, l2, r2)
    ensures Progress(l0, lr, r0, rr, l2, r2, done + {k})
  {
    ChangedOnlyHere(l0, l1, lr, done, k);
    ChangedOnlyHere(r0, r1, rr, done, k);
    ActedUpdates(Decide(NodeInfo(l0, lr + k), NodeInfo(r0, rr + k)), l1, lr + k, r1, rr + k, l2, r2);
    ActionSyncs(l0, lr + k, r0, rr + k, l1, r1, l2, r2);
    Advance(l0, lr, r0, rr, l1, r1, l2, r2, done, k);
  }

  lemma ActedUpdates(action: Action, l1: Tree, lp: Path, r1: Tree, rp: Path, l2: Tree, r2: Tree)
    requires Acted(action, l1, lp, r1, rp, l2, r2)
    ensures UpdatedAt(l1, l2, lp) && UpdatedAt(r1, r2, rp)
  {}

  // ---- the whole run ----

  /** The result of a successful two-way sync. */
  ghost predicate TwoWaySynced(l0: Tree, lr: Path, r0: Tree, rr: Path, l1: Tree, r1: Tree) {
    && WellFormed(l1) && WellFormed(r1)
    && OnlyRootAdded(l0, l1, lr) && OnlyRootAdded(r0, r1, rr)
    && RootsSynced(l0, lr, r0, rr, l1, r1)
    && forall k :: k != [] ==> PairSynced(l0, lr + k, r0, rr + k, l1, r1)
  }

  /** Either both roots are directories, or neither existed and nothing changed. */
  ghost predicate RootsSynced(l0: Tree, lr: Path, r0: Tree, rr: Path, l1: Tree, r1: Tree) {
    if lr in l0 || rr in r0 then lr in l1 && rr in r1 && l1[lr] == Dir && r1[rr] == Dir
    else lr !in l1 && rr !in r1 && l1 == l0 && r1 == r0
  }

  /** Afterwards both sides hold the union of the two path sets, and no path changed its kind. */
  lemma BothHoldTheUnion(l0: Tree, lr: Path, r0: Tree, rr: Path, l1: Tree, r1: Tree, k: Path)
    requires TwoWaySynced(l0, lr, r0, rr, l1, r1) && k != []
    ensures lr + k in l1 <==> lr + k in l0 || rr + k in r0
    ensures rr + k in r1 <==> lr + k in l0 || rr + k in r0
    ensures lr + k in l0 ==> (l1[lr + k].Dir? <==> l0[lr + k].Dir?) && (r1[rr + k].Dir? <==> l0[lr + k].Dir?)
    ensures rr + k in r0 ==> (r1[rr + k].Dir? <==> r0[rr + k].Dir?) && (l1[lr + k].Dir? <==> r0[rr + k].Dir?)
  {
    assert PairSynced(l0, lr + k, r0, rr + k, l1, r1);
  }

  /** Two files end up with equal content, or were left alone because their times and sizes agree. */
  lemma FilePairsAgree(l0: Tree, lr: Path, r0: Tree, rr: Path, l1: Tree, r1: Tree, k: Path)
    requires TwoWaySynced(l0, lr, r0, rr, l1, r1) && k != [] && lr + k in l1 && l1[lr + k].File?
    ensures rr + k in r1 && r1[rr + k].File?
    ensures || l1[lr + k].content == r1[rr + k].content
            || (&& lr + k in l0 && l1[lr + k] == l0[lr + k] && rr + k in r0 && r1[rr + k] == r0[rr + k]
                && l1[lr + k].modified == r1[rr + k].modified && |l1[lr + k].content| == |r1[rr + k].content|)
  {
    assert PairSynced(l0, lr + k, r0, rr + k, l1, r1);
  }

  /**
   * Which of two files stays: the one with the later time, one with a time before one without, and of
   * equal times but different sizes the left one. The side it came from is untouched, and with equal
   * times and sizes both are.
   */
  lemma LaterFileWins(l0: Tree, lr: Path, r0: Tree, rr: Path, l1: Tree, r1: Tree, k: Path)
    requires TwoWaySynced(l0, lr, r0, rr, l1, r1) && k != []
    requires lr + k in l0 && l0[lr + k].File? && rr + k in r0 && r0[rr + k].File?
    ensures var left, right := l0[lr + k], r0[rr + k];
            var leftLater := left.modified.Some?
                             && (right.modified.None? || left.modified.value > right.modified.value);
            var rightLater := right.modified.Some?
                              && (left.modified.None? || right.modified.value > left.modified.value);
            && lr + k in l1 && rr + k in r1
            && if rightLater then
                 r1[rr + k] == right && l1[lr + k].File? && l1[lr + k].content == right.content
               else if leftLater || |left.content| != |right.content| then
                 l1[lr + k] == left && r1[rr + k].File? && r1[rr + k].content == left.content
               else l1[lr + k] == left && r1[rr + k] == right
  {
    assert PairSynced(l0, lr + k, r0, rr + k, l1, r1);
  }

  /** What only one side had is on the other side too, and untouched where it was. */
  lemma OneSidedEntryIsCopied(l0: Tree, lr: Path, r0: Tree, rr: Path, l1: Tree, r1: Tree, k: Path)
    requires TwoWaySynced(l0, lr, r0, rr, l1, r1) && k != []
    ensures lr + k in l0 && rr + k !in r0 ==>
              lr + k in l1 && l1[lr + k] == l0[lr + k] && rr + k in r1 && SameAs(l0[lr + k], r1[rr + k])
    ensures rr + k in r0 && lr + k !in l0 ==>
              rr + k in r1 && r1[rr + k] == r0[rr + k] && lr + k in l1 && SameAs(r0[rr + k], l1[lr + k])
  {
    assert PairSynced(l0, lr + k, r0, rr + k, l1, r1);
  }

  lemma PairAgain(l0: Tree, lp: Path, r0: Tree, rp: Path, l1: Tree, r1: Tree, l2: Tree, r2: Tree)
    requires PairSynced(l0, lp, r0, rp, l1, r1) && PairSynced(l1, lp, r1, rp, l2, r2)
    ensures lp in l2 <==> lp in l1
    ensures rp in r2 <==> rp in r1
    ensures lp in l1 ==> SameAs(l1[lp], l2[lp])
    ensures rp in r1 ==> SameAs(r1[rp], r2[rp])
  {}

  /** Syncing again right after a successful run changes no path, no kind and no content on either side. */
  lemma TwoWayAgainChangesNothing(l0: Tree, lr: Path, r0: Tree, rr: Path, l1: Tree, r1: Tree, l2: Tree, r2: Tree)
    requires TwoWaySynced(l0, lr, r0, rr, l1, r1) && TwoWaySynced(l1, lr, r1, rr, l2, r2)
    ensures SameContents(l1, l2) && SameContents(r1, r2)
  {
    forall k | k != []
      ensures lr + k in l2 <==> lr + k in l1
      ensures rr + k in r2 <==> rr + k in r1
      ensures lr + k in l1 ==> SameAs(l1[lr + k], l2[lr + k])
      ensures rr + k in r1 ==> SameAs(r1[rr + k], r2[rr + k])
    {
      assert PairSynced(l0, lr + k, r0, rr + k, l1, r1) && PairSynced(l1, lr + k, r1, rr + k, l2, r2);
      PairAgain(l0, lr + k, r0, rr + k, l1, r1, l2, r2);
    }
    hide PairSynced;
    if lr in l1 {
      SameSide(l1, l2, lr);
      SameSide(r1, r2, rr);
    }
  }

  lemma SameSide(t1: Tree, t2: Tree, root: Path)
    requires WellFormed(t1) && root in t1 && root in t2 && t1[root] == Dir && t2[root] == Dir
              && OnlyRootAdded(t1, t2, root)
    requires forall k :: k != [] ==> (root + k in t2 <==> root + k in t1) && (root + k in t1 ==>
              SameAs(t1[root + k], t2[root + k]))
    ensures SameContents(t1, t2)
  {
    forall p
      ensures p in t1 <==> p in t2
      ensures p in t1 ==> SameAs(t1[p], t2[p])
    {
      if Within(root, p) {
        RelativeOf(root, p);
        var k := p[|root|..];
        assert root + [] == root;
        assert k != [] ==> (root + k in t2 <==> root + k in t1);
      } else if Within(p, root) {
        AncestorsAreDirs(t1, root, p);
      }
    }
  }

  /** A run, finished or not, removes nothing and changes no path's kind. */
  ghost predicate NothingRemoved(t0: Tree, t1: Tree) {
    forall p :: p in t0 ==> p in t1 && (t1[p].Dir? <==> t0[p].Dir?)
  }

  /** `k` and everything below it is as it was. */
  ghost predicate UntouchedBelow(t0: Tree, t1: Tree, root: Path, k: Path) {
    forall e :: Within(k, e) ==> (root + e in t1 <==> root + e in t0) && (root + e in t0 ==>
      t1[root + e] == t0[root + e])
  }

  /** However far a run came, each pair is as it was on both sides, or finally synced. */
  ghost predicate PairsKept(l0: Tree, lr: Path, r0: Tree, rr: Path, l1: Tree, r1: Tree) {
    forall k :: k != [] ==>
      || (SameAt(l0, l1, lr + k) && SameAt(r0, r1, rr + k))
      || PairSynced(l0, lr + k, r0, rr + k, l1, r1)
  }

  lemma ProgressKeepsPairs(l0: Tree, l1: Tree, lr: Path, l2: Tree, r0: Tree, r1: Tree, rr: Path, r2: Tree,
                           done: set<Path>)
    requires WellFormed(l0) && WellFormed(r0)
    requires l1 == l0 || (l1 == WithDirs(l0, lr) && lr in l1)
    requires r1 == r0 || (r1 == WithDirs(r0, rr) && rr in r1)
    requires Progress(l1, lr, r1, rr, l2, r2, done)
    ensures PairsKept(l0, lr, r0, rr, l2, r2)
  {
    MadePairs(l0, l1, lr);
    MadePairs(r0, r1, rr);
    forall k: Path | k != []
      ensures (SameAt(l0, l2, lr + k) && SameAt(r0, r2, rr + k)) || PairSynced(l0, lr + k, r0, rr + k, l2, r2)
    {
      if k in done {
        PairFromMade(l0, lr + k, r0, rr + k, l1, r1, l2, r2);
      } else {
        ChangedOnlyHere(l1, l2, lr, done, k);
        ChangedOnlyHere(r1, r2, rr, done, k);
      }
    }
  }

  lemma NothingDone(l1: Tree, lr: Path, r1: Tree, rr: Path)
    ensures Progress(l1, lr, r1, rr, l1, r1, {})
  {}

  /** A reported path has different kinds on the two sides, and nothing at or below it was touched. */
  ghost predicate ConflictIsReal(r: Result<(), SyncError>, l0: Tree, lr: Path, r0: Tree, rr: Path, l1: Tree, r1: Tree) {
    r.Err? && r.error.Conflict? ==>
      var k := r.error.relative;
      && k != [] && KindsDiffer(l0, lr + k, r0, rr + k)
      && UntouchedBelow(l0, l1, lr, k) && UntouchedBelow(r0, r1, rr, k)
  }

  lemma ProgressRemovesNothing(l0: Tree, lr: Path, r0: Tree, rr: Path, l1: Tree, r1: Tree, done: set<Path>)
    requires Progress(l0, lr, r0, rr, l1, r1, done) && [] !in done
    ensures NothingRemoved(l0, l1) && NothingRemoved(r0, r1)
    ensures OnlyRootAdded(l0, l1, lr) && OnlyRootAdded(r0, r1, rr)
  {
    forall p | p in l0
      ensures p in l1 && (l1[p].Dir? <==> l0[p].Dir?)
    {
      if Within(lr, p) && p[|lr|..] in done {
        RelativeOf(lr, p);
        var k := p[|lr|..];
        assert PairSynced(l0, lr + k, r0, rr + k, l1, r1);
      }
    }
    forall p | p in r0
      ensures p in r1 && (r1[p].Dir? <==> r0[p].Dir?)
    {
      if Within(rr, p) && p[|rr|..] in done {
        RelativeOf(rr, p);
        var k := p[|rr|..];
        assert PairSynced(l0, lr + k, r0, rr + k, l1, r1);
      }
    }
  }

  lemma NotYetBelow(t0: Tree, t1: Tree, root: Path, order: seq<Path>, i: nat, done: set<Path>)
    requires i < |order| && PrefixFirst(order) && Distinct(order) && done <= Elements(order[..i])
    requires ChangedOnlyAt(t0, t1, root, done)
    ensures UntouchedBelow(t0, t1, root, order[i]) && order[i] !in done
  {
    assert Within(order[i], order[i]);
    assert forall j :: 0 <= j < i ==> !Within(order[i], order[j]);
    forall e | Within(order[i], e)
      ensures (root + e in t1 <==> root + e in t0) && (root + e in t0 ==> t1[root + e] == t0[root + e])
    {
      assert e !in order[..i];
      assert (root + e)[|root|..] == e;
    }
  }

  lemma AncestorsAreDone(l0: Tree, lr: Path, r0: Tree, rr: Path, leftMap: map<Path, Info>, rightMap: map<Path, Info>,
                         order: seq<Path>, i: nat, a: Path)
    requires WellFormed(l0) && WellFormed(r0) && Collected(leftMap, l0, lr) && Collected(rightMap, r0, rr)
    requires i < |order| && PrefixFirst(order) && Elements(order) == leftMap.Keys + rightMap.Keys
    requires Within(a, order[i]) && a != order[i] && a != []
    ensures a in Elements(order[..i])
  {
    var k := order[i];
    assert k in Elements(order);
    assert Within(lr + a, lr + k) && Within(rr + a, rr + k);
    if k in leftMap {
      AncestorsAreDirs(l0, lr + k, lr + a);
    } else {
      AncestorsAreDirs(r0, rr + k, rr + a);
    }
    assert a in Elements(order);
    var j :| 0 <= j < |order| && order[j] == a;
    assert j < i;
    assert order[..i][j] == a;
  }

  /** What holds in front of every round of the loop. */
  ghost predicate LoopState(l0: Tree, lr: Path, r0: Tree, rr: Path, l1: Tree, r1: Tree,
                            leftMap: map<Path, Info>, rightMap: map<Path, Info>, order: seq<Path>, i: nat,
                            done: set<Path>) {
    && WellFormed(l0) && WellFormed(r0) && WellFormed(l1) && WellFormed(r1)
    && (lr in l0 <==> rr in r0) && (lr in l0 ==> l0[lr] == Dir && r0[rr] == Dir)
    && Collected(leftMap, l0, lr) && Collected(rightMap, r0, rr)
    && Distinct(order) && PrefixFirst(order) && Elements(order) == leftMap.Keys + rightMap.Keys
    && i <= |order| && done == Elements(order[..i]) - {[]}
    && Progress(l0, lr, r0, rr, l1, r1, done)
  }

  lemma StepFromLoop(l0: Tree, lr: Path, r0: Tree, rr: Path, l1: Tree, r1: Tree,
                     leftMap: map<Path, Info>, rightMap: map<Path, Info>, order: seq<Path>, i: nat, done: set<Path>)
    requires LoopState(l0, lr, r0, rr, l1, r1, leftMap, rightMap, order, i, done) && i < |order|
    ensures lr in l0 && rr in r0 && lr in l1 && rr in r1
    ensures order[i] != [] ==> AtStep(l0, lr, r0, rr, l1, r1, done, order[i])
    ensures order[i] != [] ==> Lookup(leftMap, order[i]) == NodeInfo(l0, lr + order[i])
                               && Lookup(rightMap, order[i]) == NodeInfo(r0, rr + order[i])
  {
    var k := order[i];
    assert k in Elements(order);
    BothListed(l0, lr, r0, rr, leftMap, rightMap, k);
    NothingBelowYet(l0, lr, r0, rr, l1, r1, leftMap, rightMap, order, i, done);
    forall a | Within(a, k) && a != k && a != []
      ensures a in done
    {
      AncestorsAreDone(l0, lr, r0, rr, leftMap, rightMap, order, i, a);
    }
    hide Collected, Within, WellFormed, Distinct, PrefixFirst, UntouchedBelow;
    ChangedOnlyHere(l0, l1, lr, done, []);
    ChangedOnlyHere(r0, r1, rr, done, []);
    assert lr + [] == lr && rr + [] == rr;
  }

  /** A listed path is in one of the trees, so its root is there, and then both are. */
  lemma BothListed(l0: Tree, lr: Path, r0: Tree, rr: Path, leftMap: map<Path, Info>, rightMap: map<Path, Info>, k: Path)
    requires WellFormed(l0) && WellFormed(r0) && Collected(leftMap, l0, lr) && Collected(rightMap, r0, rr)
    requires (lr in l0 <==> rr in r0) && k in leftMap.Keys + rightMap.Keys
    ensures lr in l0 && rr in r0
    ensures k != [] ==> Lookup(leftMap, k) == NodeInfo(l0, lr + k) && Lookup(rightMap, k) == NodeInfo(r0, rr + k)
    ensures k != [] ==> lr + k in l0 || rr + k in r0
  {
    assert Within(lr, lr + k) && Within(rr, rr + k);
    if k in leftMap {
      AncestorsAreDirs(l0, lr + k, lr);
    } else {
      AncestorsAreDirs(r0, rr + k, rr);
    }
  }

  lemma NothingBelowYet(l0: Tree, lr: Path, r0: Tree, rr: Path, l1: Tree, r1: Tree,
                        leftMap: map<Path, Info>, rightMap: map<Path, Info>, order: seq<Path>, i: nat, done: set<Path>)
    requires LoopState(l0, lr, r0, rr, l1, r1, leftMap, rightMap, order, i, done) && i < |order|
    ensures UntouchedBelow(l0, l1, lr, order[i]) && UntouchedBelow(r0, r1, rr, order[i]) && order[i] !in done
  {
    hide Collected, WellFormed;
    NotYetBelow(l0, l1, lr, order, i, done);
    NotYetBelow(r0, r1, rr, order, i, done);
  }

  lemma LoopAdvances(l0: Tree, lr: Path, r0: Tree, rr: Path, l1: Tree, r1: Tree, l2: Tree, r2: Tree,
                     leftMap: map<Path, Info>, rightMap: map<Path, Info>, order: seq<Path>, i: nat, done: set<Path>)
    requires LoopState(l0, lr, r0, rr, l1, r1, leftMap, rightMap, order, i, done) && i < |order|
    requires WellFormed(l2) && WellFormed(r2)
    requires if order[i] == [] then l2 == l1 && r2 == r1 else Progress(l0, lr, r0, rr, l2, r2, done + {order[i]})
    ensures LoopState(l0, lr, r0, rr, l2, r2, leftMap, rightMap, order, i + 1, done + {order[i]} - {[]})
  {
    hide Progress, Collected, WellFormed, Distinct, PrefixFirst;
    ElementsStep(order, i);
    assert done + {order[i]} - {[]} == Elements(order[..i + 1]) - {[]};
    assert order[i] == [] ==> done + {order[i]} - {[]} == done;
    assert order[i] != [] ==> done + {order[i]} - {[]} == done + {order[i]};
  }

  /** One round: the root entry, if listed, is a directory on both sides already. */
  method Round(left: Store, lr: Path, right: Store, rr: Path, leftMap: map<Path, Info>, rightMap: map<Path, Info>,
               order: seq<Path>, i: nat, ghost l0: Tree, ghost r0: Tree, ghost done: set<Path>)
    returns (r: Result<(), SyncError>)
    requires left != right && i < |order|
    requires LoopState(l0, lr, r0, rr, left.tree, right.tree, leftMap, rightMap, order, i, done)
    modifies left`tree, right`tree
    ensures r.Ok? ==> LoopState(l0, lr, r0, rr, left.tree, right.tree, leftMap, rightMap, order, i + 1,
              done + {order[i]} - {[]})
    ensures r.Err? ==> left.tree == old(left.tree) && right.tree == old(right.tree)
    ensures ConflictIsReal(r, l0, lr, r0, rr, left.tree, right.tree)
  {
    ghost var l1, r1 := left.tree, right.tree;
    StepFromLoop(l0, lr, r0, rr, l1, r1, leftMap, rightMap, order, i, done);
    NothingBelowYet(l0, lr, r0, rr, l1, r1, leftMap, rightMap, order, i, done);
    assert WellFormed(l1) && WellFormed(r1);
    hide LoopState, AtStep, Progress, UntouchedBelow;
    if order[i] == [] {
      DirsAlreadyThere(l1, lr);
      DirsAlreadyThere(r1, rr);
      var step := Ok(());
      if Lookup(rightMap, []).None? {
        step := right.CreateDirAll(rr);
      } else if Lookup(leftMap, []).None? {
        step := left.CreateDirAll(lr);
      }
      r := Lift(step);
    } else {
      r := SyncPath(left, lr, right, rr, Lookup(leftMap, order[i]), Lookup(rightMap, order[i]), order[i], l0, r0, done);
    }
    if r.Ok? {
      LoopAdvances(l0, lr, r0, rr, l1, r1, left.tree, right.tree, leftMap, rightMap, order, i, done);
    }
  }

  method SyncAll(left: Store, lr: Path, right: Store, rr: Path, leftMap: map<Path, Info>, rightMap: map<Path, Info>)
    returns (r: Result<(), SyncError>, ghost done: set<Path>)
    requires left != right && left.Valid() && right.Valid()
    requires lr in left.tree <==> rr in right.tree
    requires lr in left.tree ==> left.tree[lr] == Dir && right.tree[rr] == Dir
    requires Collected(leftMap, left.tree, lr) && Collected(rightMap, right.tree, rr)
    modifies left`tree, right`tree
    ensures left.Valid() && right.Valid() && [] !in done
    ensures Progress(old(left.tree), lr, old(right.tree), rr, left.tree, right.tree, done)
    ensures r.Ok? ==> done == leftMap.Keys + rightMap.Keys - {[]}
    ensures ConflictIsReal(r, old(left.tree), lr, old(right.tree), rr, left.tree, right.tree)
  {
    ghost var l0, r0 := left.tree, right.tree;
    var order := InPrefixFirstOrder(leftMap.Keys + rightMap.Keys);
    done := {};
    r := Ok(());
    assert LoopState(l0, lr, r0, rr, l0, r0, leftMap, rightMap, order, 0, done);
    assert ConflictIsReal(r, l0, lr, r0, rr, l0, r0);
    hide LoopState, Collected, Progress, ConflictIsReal;
    var i := 0;
    while i < |order| && r.Ok?
      invariant 0 <= i <= |order|
      invariant LoopState(l0, lr, r0, rr, left.tree, right.tree, leftMap, rightMap, order, i, done)
      invariant ConflictIsReal(r, l0, lr, r0, rr, left.tree, right.tree)
      decreases |order| - i, r.Ok?
    {
      r := Round(left, lr, right, rr, leftMap, rightMap, order, i, l0, r0, done);
      if r.Ok? {
        done := done + {order[i]} - {[]};
        i := i + 1;
      }
    }
    LoopGives(l0, lr, r0, rr, left.tree, right.tree, leftMap, rightMap, order, i, done);
  }

  lemma LoopGives(l0: Tree, lr: Path, r0: Tree, rr: Path, l1: Tree, r1: Tree,
                  leftMap: map<Path, Info>, rightMap: map<Path, Info>, order: seq<Path>, i: nat, done: set<Path>)
    requires LoopState(l0, lr, r0, rr, l1, r1, leftMap, rightMap, order, i, done)
    ensures WellFormed(l1) && WellFormed(r1) && [] !in done && Progress(l0, lr, r0, rr, l1, r1, done)
    ensures i == |order| ==> done == leftMap.Keys + rightMap.Keys - {[]}
  {
    assert order[..|order|] == order;
  }

  /** Both roots made, when either existed: what the loop starts from. */
  ghost predicate RootsMade(l0: Tree, lr: Path, r0: Tree, rr: Path, l1: Tree, r1: Tree) {
    if lr in l0 || rr in r0
    then l1 == WithDirs(l0, lr) && r1 == WithDirs(r0, rr) && lr in l1 && rr in r1
    else l1 == l0 && r1 == r0
  }

  lemma MadePairs(t0: Tree, t1: Tree, root: Path)
    requires WellFormed(t0) && (t1 == t0 || (t1 == WithDirs(t0, root) && root in t1))
    ensures forall k :: k != [] ==> (root + k in t1 <==> root + k in t0) && (root + k in t0 ==>
              t1[root + k] == t0[root + k])
    ensures OnlyRootAdded(t0, t1, root) && NothingRemoved(t0, t1)
  {
    if t1 != t0 {
      RootMade(t0, root);
    }
  }

  lemma OnlyRootAddedThen(t0: Tree, t1: Tree, t2: Tree, root: Path)
    requires OnlyRootAdded(t0, t1, root) && OnlyRootAdded(t1, t2, root)
    ensures OnlyRootAdded(t0, t2, root)
  {}

  lemma PairFromMade(l0: Tree, lp: Path, r0: Tree, rp: Path, l1: Tree, r1: Tree, l2: Tree, r2: Tree)
    requires (lp in l1 <==> lp in l0) && (lp in l0 ==> l1[lp] == l0[lp])
    requires (rp in r1 <==> rp in r0) && (rp in r0 ==> r1[rp] == r0[rp])
    requires PairSynced(l1, lp, r1, rp, l2, r2)
    ensures PairSynced(l0, lp, r0, rp, l2, r2)
  {}

  /** A finished loop has synced every pair, listed or not. */
  lemma LoopSyncsAll(l0: Tree, lr: Path, r0: Tree, rr: Path, l1: Tree, r1: Tree, l2: Tree, r2: Tree,
                     leftMap: map<Path, Info>, rightMap: map<Path, Info>, k: Path)
    requires WellFormed(l0) && WellFormed(r0) && RootsMade(l0, lr, r0, rr, l1, r1)
    requires Collected(leftMap, l1, lr) && Collected(rightMap, r1, rr) && k != []
    requires Progress(l1, lr, r1, rr, l2, r2, leftMap.Keys + rightMap.Keys - {[]})
    ensures PairSynced(l0, lr + k, r0, rr + k, l2, r2)
  {
    var done := leftMap.Keys + rightMap.Keys - {[]};
    MadePairs(l0, l1, lr);
    MadePairs(r0, r1, rr);
    if k in done {
      assert PairSynced(l1, lr + k, r1, rr + k, l2, r2);
    } else {
      ChangedOnlyHere(l1, l2, lr, done, k);
      ChangedOnlyHere(r1, r2, rr, done, k);
      assert PairSynced(l1, lr + k, r1, rr + k, l2, r2);
    }
    PairFromMade(l0, lr + k, r0, rr + k, l1, r1, l2, r2);
  }

  lemma RunSyncs(l0: Tree, lr: Path, r0: Tree, rr: Path, l1: Tree, r1: Tree, l2: Tree, r2: Tree,
                 leftMap: map<Path, Info>, rightMap: map<Path, Info>)
    requires WellFormed(l0) && WellFormed(r0) && WellFormed(l2) && WellFormed(r2) && RootsMade(l0, lr, r0, rr, l1, r1)
    requires lr in l1 ==> l1[lr] == Dir && r1[rr] == Dir
    requires Collected(leftMap, l1, lr) && Collected(rightMap, r1, rr)
    requires Progress(l1, lr, r1, rr, l2, r2, leftMap.Keys + rightMap.Keys - {[]})
    ensures TwoWaySynced(l0, lr, r0, rr, l2, r2)
  {
    var done := leftMap.Keys + rightMap.Keys - {[]};
    AfterLoop(l0, l1, lr, l2, r0, r1, rr, r2, done);
    RootsAfter(l0, lr, r0, rr, l1, r1, l2, r2, leftMap, rightMap, done);
    hide RootsSynced, OnlyRootAdded, PairSynced, WellFormed, RootsMade, Collected, Progress;
    forall k | k != []
      ensures PairSynced(l0, lr + k, r0, rr + k, l2, r2)
    {
      LoopSyncsAll(l0, lr, r0, rr, l1, r1, l2, r2, leftMap, rightMap, k);
    }
  }

  lemma RootsAfter(l0: Tree, lr: Path, r0: Tree, rr: Path, l1: Tree, r1: Tree, l2: Tree, r2: Tree,
                   leftMap: map<Path, Info>, rightMap: map<Path, Info>, done: set<Path>)
    requires WellFormed(l0) && WellFormed(r0) && RootsMade(l0, lr, r0, rr, l1, r1)
    requires lr in l1 ==> l1[lr] == Dir && r1[rr] == Dir
    requires Collected(leftMap, l1, lr) && Collected(rightMap, r1, rr) && done == leftMap.Keys + rightMap.Keys - {[]}
    requires ChangedOnlyAt(l1, l2, lr, done) && ChangedOnlyAt(r1, r2, rr, done)
    ensures RootsSynced(l0, lr, r0, rr, l2, r2)
  {
    if lr in l0 || rr in r0 {
      ChangedOnlyHere(l1, l2, lr, done, []);
      ChangedOnlyHere(r1, r2, rr, done, []);
      assert lr + [] == lr && rr + [] == rr;
    } else {
      NoRootNoChange(l0, l2, lr, leftMap, rightMap, done, r0, r2, rr);
    }
  }

  lemma NoRootNoChange(l0: Tree, l2: Tree, lr: Path, leftMap: map<Path, Info>, rightMap: map<Path, Info>,
                       done: set<Path>,
                       r0: Tree, r2: Tree, rr: Path)
    requires WellFormed(l0) && WellFormed(r0) && lr !in l0 && rr !in r0
    requires Collected(leftMap, l0, lr) && Collected(rightMap, r0, rr) && done == leftMap.Keys + rightMap.Keys - {[]}
    requires ChangedOnlyAt(l0, l2, lr, done) && ChangedOnlyAt(r0, r2, rr, done)
    ensures l2 == l0 && r2 == r0
  {
    NothingBelowMissing(l0, lr);
    NothingBelowMissing(r0, rr);
    assert leftMap.Keys == {} && rightMap.Keys == {};
    NoChange(l0, l2, lr, done);
    NoChange(r0, r2, rr, done);
  }

  lemma NoChange(t0: Tree, t2: Tree, root: Path, done: set<Path>)
    requires ChangedOnlyAt(t0, t2, root, done) && done == {}
    ensures t2 == t0
  {
    forall p
      ensures (p in t2 <==> p in t0) && (p in t0 ==> t2[p] == t0[p])
    {}
  }

  method MakeRoots(left: Store, lr: Path, right: Store, rr: Path) returns (r: Result<(), SyncError>)
    requires left != right && left.Valid() && right.Valid()
    modifies left`tree, right`tree
    ensures left.Valid() && right.Valid()
    ensures left.tree == old(left.tree) || (left.tree == WithDirs(old(left.tree), lr) && lr in left.tree)
    ensures right.tree == old(right.tree) || (right.tree == WithDirs(old(right.tree), rr) && rr in right.tree)
    ensures r.Ok? ==> RootsMade(old(left.tree), lr, old(right.tree), rr, left.tree, right.tree)
    ensures r.Err? ==> r.error.Backend?
  {
    var leftExists := left.Exists(lr);
    if leftExists.Err? {
      return Err(Backend(leftExists.error));
    }
    var rightExists := right.Exists(rr);
    if rightExists.Err? {
      return Err(Backend(rightExists.error));
    }
    var step := Ok(());
    if leftExists.value {
      DirsAlreadyThere(left.tree, lr);
      step := EnsureDirectoryExists(right, rr);
    }
    if step.Ok? && rightExists.value {
      DirsAlreadyThere(old(right.tree), rr);
      step := EnsureDirectoryExists(left, lr);
    }
    r := Lift(step);
  }

  /**
   * Two-way sync. On success the two trees are `TwoWaySynced`. On every exit nothing was removed,
   * no path changed its kind, nothing outside the roots changed, and each pair is as it was or finally
   * synced. A reported conflict is one, and is reported before anything at or below it was touched.
   */
  method SyncBidirectionalKeep(left: Store, lr: Path, right: Store, rr: Path) returns (r: Result<(), SyncError>)
    requires left != right && left.Valid() && right.Valid()
    modifies left`tree, right`tree
    ensures left.Valid() && right.Valid()
    ensures r.Ok? ==> TwoWaySynced(old(left.tree), lr, old(right.tree), rr, left.tree, right.tree)
    ensures NothingRemoved(old(left.tree), left.tree) && NothingRemoved(old(right.tree), right.tree)
    ensures OnlyRootAdded(old(left.tree), left.tree, lr) && OnlyRootAdded(old(right.tree), right.tree, rr)
    ensures PairsKept(old(left.tree), lr, old(right.tree), rr, left.tree, right.tree)
    ensures ConflictIsReal(r, old(left.tree), lr, old(right.tree), rr, left.tree, right.tree)
  {
    ghost var l0, r0 := left.tree, right.tree;
    r := MakeRoots(left, lr, right, rr);
    ghost var l1, r1 := left.tree, right.tree;
    MadePairs(l0, l1, lr);
    MadePairs(r0, r1, rr);
    NothingDone(l1, lr, r1, rr);
    ProgressKeepsPairs(l0, l1, lr, l1, r0, r1, rr, r1, {});
    if r.Err? {
      return;
    }
    var leftMap := CollectTree(left, lr);
    if leftMap.Err? {
      return Err(Backend(leftMap.error));
    }
    var rightMap := CollectTree(right, rr);
    if rightMap.Err? {
      return Err(Backend(rightMap.error));
    }
    r := SyncListed(left, lr, right, rr, leftMap.value, rightMap.value, l0, r0);
  }

  method SyncListed(left: Store, lr: Path, right: Store, rr: Path, leftMap: map<Path, Info>, rightMap: map<Path, Info>,
                    ghost l0: Tree, ghost r0: Tree) returns (r: Result<(), SyncError>)
    requires left != right && left.Valid() && right.Valid() && WellFormed(l0) && WellFormed(r0)
    requires RootsMade(l0, lr, r0, rr, left.tree, right.tree)
    requires lr in left.tree ==> left.tree[lr] == Dir
    requires rr in right.tree ==> right.tree[rr] == Dir
    requires Collected(leftMap, left.tree, lr) && Collected(rightMap, right.tree, rr)
    modifies left`tree, right`tree
    ensures left.Valid() && right.Valid()
    ensures r.Ok? ==> TwoWaySynced(l0, lr, r0, rr, left.tree, right.tree)
    ensures NothingRemoved(l0, left.tree) && NothingRemoved(r0, right.tree)
    ensures OnlyRootAdded(l0, left.tree, lr) && OnlyRootAdded(r0, right.tree, rr)
    ensures PairsKept(l0, lr, r0, rr, left.tree, right.tree)
    ensures ConflictIsReal(r, l0, lr, r0, rr, left.tree, right.tree)
  {
    ghost var l1, r1 := left.tree, right.tree;
    ghost var done;
    r, done := SyncAll(left, lr, right, rr, leftMap, rightMap);
    AfterLoop(l0, l1, lr, left.tree, r0, r1, rr, right.tree, done);
    hide Progress, Collected, WellFormed, OnlyRootAdded, NothingRemoved, RootsMade, WithDirs, PairsKept;
    if r.Ok? {
      RunSyncs(l0, lr, r0, rr, l1, r1, left.tree, right.tree, leftMap, rightMap);
    } else if r.error.Conflict? {
      StillDiffers(l0, l1, lr, r0, r1, rr, r.error.relative);
      StillUntouched(l0, l1, left.tree, lr, r.error.relative);
      StillUntouched(r0, r1, right.tree, rr, r.error.relative);
    }
  }

  lemma AfterLoop(l0: Tree, l1: Tree, lr: Path, l2: Tree, r0: Tree, r1: Tree, rr: Path, r2: Tree, done: set<Path>)
    requires WellFormed(l0) && WellFormed(r0) && RootsMade(l0, lr, r0, rr, l1, r1)
    requires Progress(l1, lr, r1, rr, l2, r2, done) && [] !in done
    ensures NothingRemoved(l0, l2) && NothingRemoved(r0, r2)
    ensures OnlyRootAdded(l0, l2, lr) && OnlyRootAdded(r0, r2, rr)
    ensures l1 == l0 || (l1 == WithDirs(l0, lr) && lr in l1)
    ensures r1 == r0 || (r1 == WithDirs(r0, rr) && rr in r1)
    ensures PairsKept(l0, lr, r0, rr, l2, r2)
  {
    MadePairs(l0, l1, lr);
    MadePairs(r0, r1, rr);
    ProgressKeepsPairs(l0, l1, lr, l2, r0, r1, rr, r2, done);
    ProgressRemovesNothing(l1, lr, r1, rr, l2, r2, done);
    OnlyRootAddedThen(l0, l1, l2, lr);
    OnlyRootAddedThen(r0, r1, r2, rr);
  }

  lemma StillDiffers(l0: Tree, l1: Tree, lr: Path, r0: Tree, r1: Tree, rr: Path, k: Path)
    requires WellFormed(l0) && (l1 == l0 || (l1 == WithDirs(l0, lr) && lr in l1))
    requires WellFormed(r0) && (r1 == r0 || (r1 == WithDirs(r0, rr) && rr in r1))
    requires k != [] && KindsDiffer(l1, lr + k, r1, rr + k)
    ensures KindsDiffer(l0, lr + k, r0, rr + k)
  {
    MadePairs(l0, l1, lr);
    MadePairs(r0, r1, rr);
  }

  lemma StillUntouched(t0: Tree, t1: Tree, t2: Tree, root: Path, k: Path)
    requires WellFormed(t0) && (t1 == t0 || (t1 == WithDirs(t0, root) && root in t1))
    requires k != [] && UntouchedBelow(t1, t2, root, k)
    ensures UntouchedBelow(t0, t2, root, k)
  {
    MadePairs(t0, t1, root);
  }
}
