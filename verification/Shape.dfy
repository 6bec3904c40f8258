/** The tree invariant said without ghost state: which frames the links of a table
    reach from its root, and along how many paths. */
module Shape {
  import opened Pte
  import opened Blocks
  import opened Tables
  import opened Frames
  import opened Steps

  /** Slot indices from the root down; a path of length n ends at a table of level 4 - n. */
  type Path = seq<nat>

  ghost predicate IsPath(path: Path) {
    |path| <= 3 && forall k | 0 <= k < |path| :: path[k] < 512
  }

  /** The frame that the links along the path lead to, read from raw entries. */
  ghost function Follow(fmt: Format, h: Heap, root: nat, path: Path): Option<nat> {
    if path == [] then Some(root)
    else
      var n := |path| - 1;
      match Follow(fmt, h, root, path[..n])
      case None => None
      case Some(p) => if IsTable(fmt, Load(h, p, path[n])) then Some(Addr(Load(h, p, path[n]))) else None
  }

  /** The block of addresses that use the path. */
  ghost function Covered(path: Path): Block
    requires |path| <= 3
  {
    if path == [] then WHOLE
    else var n := |path| - 1; Block(4 - n, Covered(path[..n]).num * 512 + path[n])
  }

  lemma {:induction false} CoveredStep(path: Path)
    requires IsPath(path)
    ensures Covered(path).level == 5 - |path|
    ensures path != [] ==> var n := |path| - 1;
              Parent(Covered(path)) == Covered(path[..n]) && Covered(path).num % 512 == path[n] && IsPath(path[..n])
  {
    if path != [] {
      CoveredStep(path[..|path| - 1]);
    }
  }

  /** A path reaches the table of the block it covers, or nothing. */
  lemma {:induction false} FollowMeaning(v: View, path: Path)
    requires Tree(v) && IsPath(path)
    ensures Follow(v.fmt, v.h, v.root, path)
            == if Covered(path) in v.tables then Some(v.tables[Covered(path)]) else None
  {
    CoveredStep(path);
    if path != [] {
      assert SlotOk(v, Covered(path));
      hide Tree, Covered;
      FollowMeaning(v, path[..|path| - 1]);
    }
  }

  lemma {:induction false} CoveredInjective(p: Path, q: Path)
    requires IsPath(p) && IsPath(q) && Covered(p) == Covered(q)
    ensures p == q
    decreases |p|
  {
    hide Covered;
    CoveredStep(p);
    CoveredStep(q);
    if p != [] {
      var n := |p| - 1;
      CoveredInjective(p[..n], q[..n]);
      assert p == p[..n] + [p[n]] && q == q[..n] + [q[n]];
    }
  }

  lemma TableParent(v: View, b: Block)
    requires Tree(v) && b in v.tables
    ensures 2 <= b.level <= 5 && (if b.level == 5 then b == WHOLE else Parent(b) in v.tables)
  {
    assert TableOk(v, b);
    if b.level < 5 { assert SlotOk(v, b); }
  }

  /** Every table has a path to it. */
  lemma {:induction false} PathTo(v: View, b: Block) returns (path: Path)
    requires Tree(v) && b in v.tables
    ensures IsPath(path) && Covered(path) == b
    decreases 5 - b.level
  {
    TableParent(v, b);
    hide Tree;
    if b.level == 5 {
      path := [];
    } else {
      var up := PathTo(v, Parent(b));
      assert |up| == 4 - b.level by { CoveredStep(up); }
      path := up + [b.num % 512];
      assert path[..|up|] == up;
      assert Covered(path) == Block(b.level, Parent(b).num * 512 + b.num % 512);
    }
  }

  /** The tables of a tree, seen from the raw entries: the frames in `intrm_tables` are
      exactly the frames that links reach from the root, and each is reached along one
      path only, so it hangs from one slot of one level. */
  lemma TreeShape(v: View, intrm: seq<nat>)
    requires Tree(v) && Tracked(intrm, v.tables)
    ensures forall q: nat :: q in intrm <==>
              exists path: Path :: IsPath(path) && path != [] && Follow(v.fmt, v.h, v.root, path) == Some(q)
    ensures forall p: Path, q: Path | IsPath(p) && IsPath(q) && Follow(v.fmt, v.h, v.root, p).Some?
              && Follow(v.fmt, v.h, v.root, p) == Follow(v.fmt, v.h, v.root, q) :: p == q
  {
    forall q: nat ensures q in intrm <==>
        exists path: Path :: IsPath(path) && path != [] && Follow(v.fmt, v.h, v.root, path) == Some(q)
    {
      ReachedIffTracked(v, intrm, q);
    }
    forall p: Path, q: Path | IsPath(p) && IsPath(q) && Follow(v.fmt, v.h, v.root, p).Some?
      && Follow(v.fmt, v.h, v.root, p) == Follow(v.fmt, v.h, v.root, q)
      ensures p == q
    {
      FollowMeaning(v, p);
      FollowMeaning(v, q);
      assert Injective(v.tables);
      hide Tree, Follow;
      CoveredInjective(p, q);
    }
  }

  lemma ReachedIffTracked(v: View, intrm: seq<nat>, q: nat)
    requires Tree(v) && Tracked(intrm, v.tables)
    ensures q in intrm <==>
              exists path: Path :: IsPath(path) && path != [] && Follow(v.fmt, v.h, v.root, path) == Some(q)
  {
    hide Tree, Follow;
    if q in intrm {
      assert IsInner(v.tables, q);
      var b :| b in v.tables && b != WHOLE && v.tables[b] == q;
      var path := PathTo(v, b);
      FollowMeaning(v, path);
    }
    forall path: Path | IsPath(path) && path != [] && Follow(v.fmt, v.h, v.root, path) == Some(q) ensures q in intrm {
      FollowMeaning(v, path);
      CoveredStep(path);
      assert Covered(path) in v.tables && Covered(path) != WHOLE;
      assert IsInner(v.tables, q);
    }
  }
}
