/**
  The directory of a replica on disk: data files, their metadata files and the
  volume metadata, changed one file operation at a time.  A crash stops after
  any operation; recovery reads the volume metadata and follows the parent
  pointers from the head.  Metadata is replaced by rename, so a metadata file is
  always either the old or the new one; data files are shared by hard links.
*/
module ReplicaDir {
  import opened Layers
  import opened Volume
  import opened Coalesce

  datatype Option<+T> = None | Some(value: T)

  /** volume-head-<index>.img or volume-snap-<name>.img */
  datatype Name = HeadDisk(index: nat) | SnapDisk(name: string)

  datatype Meta = Meta(parent: Option<Name>, userCreated: bool, removed: bool)

  /** Data files name inodes; head is what the volume metadata records. */
  datatype Dir = Dir(data: map<Name, nat>, metas: map<Name, Meta>, inodes: map<nat, Layer>, head: Option<Name>)

  datatype FileOp =
    | WriteTemp
    | CreateData(name: Name, inode: nat)
    | PutMeta(name: Name, meta: Meta)
    | PutHead(name: Name)
    | LinkData(source: Name, target: Name)
    | LinkMeta(source: Name, target: Name)
    | RemoveData(name: Name)
    | RemoveMeta(name: Name)
    | CopySector(from: Name, to: Name, sector: nat)

  function LayerOf(d: Dir, name: Name): Layer {
    if name in d.data && d.data[name] in d.inodes then d.inodes[d.data[name]] else map[]
  }

  function Apply(d: Dir, op: FileOp): Dir {
    match op
    case WriteTemp => d
    case CreateData(n, inode) => d.(data := d.data[n := inode], inodes := d.inodes[inode := map[]])
    case PutMeta(n, meta) => d.(metas := d.metas[n := meta])
    case PutHead(n) => d.(head := Some(n))
    case LinkData(from, n) => if from in d.data then d.(data := d.data[n := d.data[from]]) else d
    case LinkMeta(from, n) => if from in d.metas then d.(metas := d.metas[n := d.metas[from]]) else d
    case RemoveData(n) => d.(data := d.data - {n})
    case RemoveMeta(n) => d.(metas := d.metas - {n})
    case CopySector(from, to, x) =>
      if to in d.data && x in LayerOf(d, from)
      then d.(inodes := d.inodes[d.data[to] := LayerOf(d, to)[x := LayerOf(d, from)[x]]])
      else d
  }

  function ApplyAll(d: Dir, ops: seq<FileOp>): Dir {
    if ops == [] then d else Apply(ApplyAll(d, ops[..|ops| - 1]), ops[|ops| - 1])
  }

  // ---- Recovery ----

  /** Follows parent pointers from cur; a missing metadata file or a cycle gives no chain. */
  function Walk(metas: map<Name, Meta>, cur: Name, unseen: set<Name>): Option<seq<Name>>
    decreases unseen
  {
    if cur !in unseen || cur !in metas then None
    else
      match metas[cur].parent
      case None => Some([cur])
      case Some(p) =>
        match Walk(metas, p, unseen - {cur})
        case None => None
        case Some(rest) => Some([cur] + rest)
  }

  /** The chain a replica opens after a restart, head first. */
  function Recover(d: Dir): Option<seq<Name>> {
    match d.head
    case None => None
    case Some(h) => Walk(d.metas, h, d.metas.Keys)
  }

  ghost predicate Linked(metas: map<Name, Meta>, c: seq<Name>) {
    && |c| > 0
    && (forall i :: 0 <= i < |c| ==> c[i] in metas)
    && (forall i: nat :: i < |c| - 1 ==> LinkedAt(metas, c, i))
    && metas[c[|c| - 1]].parent == None
  }

  predicate LinkedAt(metas: map<Name, Meta>, c: seq<Name>, i: nat)
    requires i < |c| - 1
  {
    c[i] in metas && metas[c[i]].parent == Some(c[i + 1])
  }

  predicate Distinct<T(==)>(c: seq<T>) {
    forall i, j :: 0 <= i < j < |c| ==> c[i] != c[j]
  }

  lemma LinkedTail(metas: map<Name, Meta>, c: seq<Name>)
    requires Linked(metas, c) && |c| > 1
    ensures Linked(metas, c[1..]) && metas[c[0]].parent == Some(c[1])
  {
    var rest := c[1..];
    assert LinkedAt(metas, c, 0);
    forall i: nat | i < |rest| - 1
      ensures LinkedAt(metas, rest, i)
    {
      assert LinkedAt(metas, c, i + 1);
    }
  }

  lemma {:induction false} WalkFindsChain(metas: map<Name, Meta>, c: seq<Name>, unseen: set<Name>)
    requires Linked(metas, c) && Distinct(c)
    requires forall n :: n in c ==> n in unseen
    ensures Walk(metas, c[0], unseen) == Some(c)
    decreases |c|
  {
    if |c| == 1 {
      assert c == [c[0]];
    } else {
      var rest := c[1..];
      assert forall i :: 0 <= i < |rest| ==> rest[i] == c[i + 1];
      LinkedTail(metas, c);
      WalkFindsChain(metas, rest, unseen - {c[0]});
      assert [c[0]] + rest == c;
    }
  }

  /** Every data file of the chain is there, and no two share an inode. */
  ghost predicate Complete(d: Dir, c: seq<Name>) {
    && (forall i :: 0 <= i < |c| ==> c[i] in d.data && d.data[c[i]] in d.inodes)
    && (forall i, j :: 0 <= i < j < |c| ==> d.data[c[i]] != d.data[c[j]])
  }

  /** The head is a head file, everything below it a snapshot file. */
  predicate WellNamed(c: seq<Name>) {
    && |c| > 0
    && c[0].HeadDisk?
    && forall i :: 1 <= i < |c| ==> c[i].SnapDisk?
  }

  /** The directory holds a complete volume with the given chain. */
  ghost predicate Holds(d: Dir, c: seq<Name>) {
    && |c| > 0
    && d.head == Some(c[0])
    && Linked(d.metas, c)
    && Distinct(c)
    && WellNamed(c)
    && Complete(d, c)
  }

  lemma HoldsRecovers(d: Dir, c: seq<Name>)
    requires Holds(d, c)
    ensures Recover(d) == Some(c)
  {
    WalkFindsChain(d.metas, c, d.metas.Keys);
  }

  /** The layers of a chain, nil entry first, head last. */
  function ChainLayers(d: Dir, c: seq<Name>): (L: seq<Layer>)
    ensures |L| == |c| + 1
    ensures forall k :: 1 <= k <= |c| ==> L[k] == LayerOf(d, c[|c| - k])
    ensures L[0] == map[]
  {
    seq(|c| + 1, k requires 0 <= k <= |c| => if k == 0 then map[] else LayerOf(d, c[|c| - k]))
  }

  /** The view at u' of the one chain is the view at u of the other. */
  ghost predicate SameView(L: seq<Layer>, u: nat, L': seq<Layer>, u': nat)
    requires u < |L| && u' < |L'|
  {
    forall s: nat :: View(L', s, u') == View(L, s, u)
  }

  /** Per layer, whether it is recorded as a user-created snapshot; this is what opening the chain loads. */
  function Marks(d: Dir, c: seq<Name>): (r: seq<bool>)
    ensures |r| == |c| + 1 && !r[0]
    ensures forall k :: 1 <= k <= |c| ==> r[k] == (c[|c| - k] in d.metas && d.metas[c[|c| - k]].userCreated)
  {
    seq(|c| + 1, k requires 0 <= k <= |c| =>
      k > 0 && c[|c| - k] in d.metas && d.metas[c[|c| - k]].userCreated)
  }

  /** The metadata of the given disks is the same in d' as in d. */
  ghost predicate SameRecords(d: Dir, d': Dir, disks: seq<Name>) {
    forall n :: n in disks ==> SameRecord(d, d', n)
  }

  ghost predicate SameRecord(d: Dir, d': Dir, n: Name) {
    n in d.metas && n in d'.metas && d'.metas[n] == d.metas[n]
  }

  // ---- Operations that do not concern the chain ----

  /** The two directories agree on everything a chain is made of. */
  ghost predicate Agree(d: Dir, d': Dir, c: seq<Name>) {
    forall i :: 0 <= i < |c| ==> AgreeAt(d, d', c[i])
  }

  ghost predicate AgreeAt(d: Dir, d': Dir, n: Name) {
    && n in d.data && n in d'.data && d'.data[n] == d.data[n]
    && n in d.metas && n in d'.metas && d'.metas[n] == d.metas[n]
    && d.data[n] in d.inodes && d.data[n] in d'.inodes && d'.inodes[d.data[n]] == d.inodes[d.data[n]]
  }

  lemma AgreeHolds(d: Dir, d': Dir, c: seq<Name>)
    requires Holds(d, c) && Agree(d, d', c) && d'.head == d.head
    ensures Holds(d', c) && ChainLayers(d', c) == ChainLayers(d, c) && Marks(d', c) == Marks(d, c) && SameRecords(d, d', c)
  {
    assert forall i :: 0 <= i < |c| ==> AgreeAt(d, d', c[i]);
    forall i: nat | i < |c| - 1
      ensures LinkedAt(d'.metas, c, i)
    {
      assert LinkedAt(d.metas, c, i);
    }
  }

  /** The operation changes no name and no inode that the chain uses. */
  predicate Elsewhere(d: Dir, op: FileOp, c: seq<Name>) {
    match op
    case WriteTemp => true
    case CreateData(n, inode) => n !in c && inode !in d.inodes
    case PutMeta(n, _) => n !in c
    case PutHead(_) => false
    case LinkData(_, n) => n !in c
    case LinkMeta(_, n) => n !in c
    case RemoveData(n) => n !in c
    case RemoveMeta(n) => n !in c
    case CopySector(_, _, _) => false
  }

  lemma ElsewhereAgrees(d: Dir, op: FileOp, c: seq<Name>)
    requires Holds(d, c) && Elsewhere(d, op, c)
    ensures Agree(d, Apply(d, op), c) && Apply(d, op).head == d.head
  {
    forall i | 0 <= i < |c|
      ensures AgreeAt(d, Apply(d, op), c[i])
    {
      assert c[i] in c;
    }
  }

  lemma AgreeTransitive(d: Dir, d1: Dir, d2: Dir, c: seq<Name>)
    requires Agree(d, d1, c) && Agree(d1, d2, c)
    ensures Agree(d, d2, c)
  {
    forall i | 0 <= i < |c|
      ensures AgreeAt(d, d2, c[i])
    {
      assert AgreeAt(d, d1, c[i]) && AgreeAt(d1, d2, c[i]);
    }
  }

  ghost predicate AllElsewhere(d: Dir, ops: seq<FileOp>, c: seq<Name>) {
    forall k :: 0 <= k < |ops| ==> Elsewhere(ApplyAll(d, ops[..k]), ops[k], c)
  }

  lemma {:induction false} ElsewhereHolds(d: Dir, ops: seq<FileOp>, c: seq<Name>)
    requires Holds(d, c) && AllElsewhere(d, ops, c)
    ensures Agree(d, ApplyAll(d, ops), c) && ApplyAll(d, ops).head == d.head
    ensures Holds(ApplyAll(d, ops), c)
    ensures ChainLayers(ApplyAll(d, ops), c) == ChainLayers(d, c)
    ensures Marks(ApplyAll(d, ops), c) == Marks(d, c) && SameRecords(d, ApplyAll(d, ops), c)
  {
    if ops == [] {
      assert forall i :: 0 <= i < |c| ==> AgreeAt(d, d, c[i]);
    } else {
      var init := ops[..|ops| - 1];
      assert forall k :: 0 <= k < |init| ==> init[..k] == ops[..k];
      ElsewhereHolds(d, init, c);
      ElsewhereAgrees(ApplyAll(d, init), ops[|ops| - 1], c);
      AgreeTransitive(d, ApplyAll(d, init), ApplyAll(d, ops), c);
    }
    AgreeHolds(d, ApplyAll(d, ops), c);
  }

  // ---- Taking a snapshot ----

  /** Removing a disk removes its data file and then its metadata file; a missing file is no error. */
  function RemoveOps(n: Name): seq<FileOp> {
    [RemoveData(n), RemoveMeta(n)]
  }

  /** Metadata is written to a temporary file that is then renamed. */
  function MetaOps(n: Name, meta: Meta): seq<FileOp> {
    [WriteTemp, PutMeta(n, meta)]
  }

  function HeadMeta(snap: Name): Meta {
    Meta(Some(snap), false, false)
  }

  /** Up to the new volume metadata: a new head, links to the old one, metadata of both. */
  function PrepareOps(d: Dir, i: nat, name: string, inode: nat, userCreated: bool): seq<FileOp> {
    var oldHead, newHead, snap := HeadDisk(i), HeadDisk(i + 1), SnapDisk(name);
    var oldMeta := if oldHead in d.metas then d.metas[oldHead] else Meta(None, false, false);
    (if newHead in d.data then RemoveOps(newHead) else [])
    + [CreateData(newHead, inode)]
    + MetaOps(newHead, HeadMeta(snap))
    + [LinkData(oldHead, snap), LinkMeta(oldHead, snap)]
    + MetaOps(snap, oldMeta.(userCreated := userCreated))
    + [WriteTemp]
  }

  /** No file of that name is there; only then does linking go ahead. */
  predicate FreeName(d: Dir, name: string) {
    SnapDisk(name) !in d.data && SnapDisk(name) !in d.metas
  }

  /** All file operations of a snapshot that succeeds, in order. */
  function CreateOps(d: Dir, i: nat, name: string, inode: nat, userCreated: bool): seq<FileOp> {
    PrepareOps(d, i, name, inode, userCreated) + [PutHead(HeadDisk(i + 1))] + RemoveOps(HeadDisk(i))
  }

  /** The chain after a snapshot: a new head on top of the old head under its snapshot name. */
  function NewChain(c: seq<Name>, i: nat, name: string): seq<Name>
    requires |c| > 0
  {
    [HeadDisk(i + 1), SnapDisk(name)] + c[1..]
  }

  lemma {:induction false} ApplyAllAppend(d: Dir, a: seq<FileOp>, b: seq<FileOp>)
    ensures ApplyAll(d, a + b) == ApplyAll(ApplyAll(d, a), b)
    decreases |b|
  {
    if b == [] {
      assert a + b == a;
    } else {
      ApplyAllAppend(d, a, b[..|b| - 1]);
      assert (a + b)[..|a + b| - 1] == a + b[..|b| - 1];
    }
  }

  lemma ApplyOne(d: Dir, op: FileOp)
    ensures ApplyAll(d, [op]) == Apply(d, op)
  {
    assert [op][..0] == [];
  }

  lemma ApplyTwo(d: Dir, a: FileOp, b: FileOp)
    ensures ApplyAll(d, [a, b]) == Apply(Apply(d, a), b)
  {
    assert [a, b] == [a] + [b];
    ApplyAllAppend(d, [a], [b]);
    ApplyOne(d, a);
    ApplyOne(Apply(d, a), b);
  }

  /** Names that an operation may change. */
  predicate TouchesOnly(op: FileOp, n: Name, m: Name) {
    match op
    case WriteTemp => true
    case CreateData(x, _) => x == n || x == m
    case PutMeta(x, _) => x == n || x == m
    case LinkData(_, x) => x == n || x == m
    case LinkMeta(_, x) => x == n || x == m
    case RemoveData(x) => x == n || x == m
    case RemoveMeta(x) => x == n || x == m
    case _ => false
  }

  ghost predicate Confined(ops: seq<FileOp>, n: Name, m: Name, inode: nat) {
    && (forall k :: 0 <= k < |ops| ==> TouchesOnly(ops[k], n, m))
    && (forall k :: 0 <= k < |ops| && ops[k].CreateData? ==> ops[k].inode == inode)
    && (forall j, k :: 0 <= j < k < |ops| && ops[j].CreateData? ==> !ops[k].CreateData?)
  }

  lemma {:induction false} ConfinedInodes(d: Dir, ops: seq<FileOp>, n: Name, m: Name, inode: nat)
    requires Confined(ops, n, m, inode)
    requires forall k :: 0 <= k < |ops| ==> !ops[k].CreateData?
    ensures ApplyAll(d, ops).inodes == d.inodes
  {
    if ops != [] {
      ConfinedInodes(d, ops[..|ops| - 1], n, m, inode);
    }
  }

  /** Operations confined to names outside the chain leave the chain as it is, wherever they stop. */
  lemma ConfinedHolds(d: Dir, ops: seq<FileOp>, n: Name, m: Name, inode: nat, c: seq<Name>)
    requires Holds(d, c) && n !in c && m !in c && inode !in d.inodes
    requires Confined(ops, n, m, inode)
    ensures Agree(d, ApplyAll(d, ops), c)
    ensures Holds(ApplyAll(d, ops), c)
    ensures ChainLayers(ApplyAll(d, ops), c) == ChainLayers(d, c)
    ensures Marks(ApplyAll(d, ops), c) == Marks(d, c) && SameRecords(d, ApplyAll(d, ops), c)
  {
    forall k | 0 <= k < |ops|
      ensures Elsewhere(ApplyAll(d, ops[..k]), ops[k], c)
    {
      if ops[k].CreateData? {
        ConfinedInodes(d, ops[..k], n, m, inode);
      }
    }
    ElsewhereHolds(d, ops, c);
  }

  lemma PrepareConfined(d: Dir, i: nat, name: string, inode: nat, userCreated: bool, k: nat)
    requires k <= |PrepareOps(d, i, name, inode, userCreated)|
    ensures Confined(PrepareOps(d, i, name, inode, userCreated)[..k], HeadDisk(i + 1), SnapDisk(name), inode)
  {
  }

  /** What the files of the new head and the new snapshot are, just before the volume metadata is replaced. */
  ghost predicate Prepared(d: Dir, D: Dir, i: nat, name: string, inode: nat, userCreated: bool) {
    var oldHead, newHead, snap := HeadDisk(i), HeadDisk(i + 1), SnapDisk(name);
    && oldHead in d.data && oldHead in d.metas
    && newHead in D.data && D.data[newHead] == inode && inode in D.inodes && D.inodes[inode] == map[]
    && snap in D.data && D.data[snap] == d.data[oldHead]
    && newHead in D.metas && D.metas[newHead] == HeadMeta(snap)
    && snap in D.metas && D.metas[snap] == d.metas[oldHead].(userCreated := userCreated)
  }

  lemma PrepareFirst(d: Dir, i: nat, inode: nat, meta: Meta)
    requires HeadDisk(i) in d.data && HeadDisk(i) in d.metas
    ensures var newHead := HeadDisk(i + 1);
            var ops := (if newHead in d.data then RemoveOps(newHead) else []) + [CreateData(newHead, inode)]
                       + MetaOps(newHead, meta);
            var D := ApplyAll(d, ops);
            && newHead in D.data && D.data[newHead] == inode && inode in D.inodes && D.inodes[inode] == map[]
            && newHead in D.metas && D.metas[newHead] == meta
            && HeadDisk(i) in D.data && D.data[HeadDisk(i)] == d.data[HeadDisk(i)]
  {
    var newHead := HeadDisk(i + 1);
    var rm := if newHead in d.data then RemoveOps(newHead) else [];
    if newHead in d.data {
      ApplyTwo(d, RemoveData(newHead), RemoveMeta(newHead));
    }
    ApplyAllAppend(d, rm, [CreateData(newHead, inode)]);
    ApplyOne(ApplyAll(d, rm), CreateData(newHead, inode));
    ApplyAllAppend(d, rm + [CreateData(newHead, inode)], MetaOps(newHead, meta));
    ApplyTwo(ApplyAll(d, rm + [CreateData(newHead, inode)]), WriteTemp, PutMeta(newHead, meta));
  }

  lemma PrepareEffect(d: Dir, i: nat, name: string, inode: nat, userCreated: bool)
    requires HeadDisk(i) in d.data && HeadDisk(i) in d.metas
    ensures Prepared(d, ApplyAll(d, PrepareOps(d, i, name, inode, userCreated)), i, name, inode, userCreated)
  {
    var oldHead, newHead, snap := HeadDisk(i), HeadDisk(i + 1), SnapDisk(name);
    var b := (if newHead in d.data then RemoveOps(newHead) else []) + [CreateData(newHead, inode)]
             + MetaOps(newHead, HeadMeta(snap));
    var link := [LinkData(oldHead, snap), LinkMeta(oldHead, snap)];
    var meta := MetaOps(snap, d.metas[oldHead].(userCreated := userCreated));
    assert PrepareOps(d, i, name, inode, userCreated) == b + link + meta + [WriteTemp];
    PrepareFirst(d, i, inode, HeadMeta(snap));
    ApplyAllAppend(d, b, link);
    ApplyTwo(ApplyAll(d, b), link[0], link[1]);
    ApplyAllAppend(d, b + link, meta);
    ApplyTwo(ApplyAll(d, b + link), meta[0], meta[1]);
    ApplyAllAppend(d, b + link + meta, [WriteTemp]);
    ApplyOne(ApplyAll(d, b + link + meta), WriteTemp);
  }

  /** Replacing the volume metadata switches to the new chain. */
  lemma SwitchHolds(d: Dir, D: Dir, c: seq<Name>, i: nat, name: string, inode: nat, userCreated: bool)
    requires Holds(d, c) && c[0] == HeadDisk(i) && SnapDisk(name) !in c && inode !in d.inodes
    requires Agree(d, D, c)
    requires Prepared(d, D, i, name, inode, userCreated)
    ensures var E := Apply(D, PutHead(HeadDisk(i + 1)));
            && Holds(E, NewChain(c, i, name))
            && ChainLayers(E, NewChain(c, i, name)) == ChainLayers(d, c) + [map[]]
            && Marks(E, NewChain(c, i, name)) == Marks(d, c)[|c| := userCreated] + [false]
            && NewRecords(d, E, c, i, name, userCreated)
  {
    var E := Apply(D, PutHead(HeadDisk(i + 1)));
    var n := NewChain(c, i, name);
    assert forall k :: 0 <= k < |c| ==> AgreeAt(d, D, c[k]);
    assert n[0] == HeadDisk(i + 1) && n[1] == SnapDisk(name) && |n| == |c| + 1;
    assert forall k :: 2 <= k < |n| ==> n[k] == c[k - 1];
    forall k | 0 <= k < |n|
      ensures n[k] in E.data && E.data[n[k]] in E.inodes && n[k] in E.metas
    {
    }
    assert Linked(E.metas, n) by {
      forall k: nat | k < |n| - 1
        ensures LinkedAt(E.metas, n, k)
      {
        if k >= 1 {
          assert LinkedAt(d.metas, c, k - 1);
        }
      }
    }
    assert Distinct(n) && Complete(E, n);
    SwitchLayers(d, E, c, n);
  }

  lemma SwitchLayers(d: Dir, E: Dir, c: seq<Name>, n: seq<Name>)
    requires Holds(d, c) && |n| == |c| + 1
    requires forall k :: 2 <= k < |n| ==> n[k] == c[k - 1]
    requires forall k :: 1 <= k < |c| ==> AgreeAt(d, E, c[k])
    requires n[1] in E.data && E.data[n[1]] == d.data[c[0]] && E.data[n[1]] in E.inodes
    requires E.inodes[E.data[n[1]]] == d.inodes[d.data[c[0]]]
    requires n[0] in E.data && E.data[n[0]] in E.inodes && E.inodes[E.data[n[0]]] == map[]
    requires n[1] in E.metas && n[0] in E.metas && !E.metas[n[0]].userCreated
    ensures ChainLayers(E, n) == ChainLayers(d, c) + [map[]]
    ensures Marks(E, n) == Marks(d, c)[|c| := E.metas[n[1]].userCreated] + [false]
  {
    var L, L' := ChainLayers(d, c), ChainLayers(E, n);
    forall k | 0 <= k < |L'|
      ensures L'[k] == (L + [map[]])[k]
      ensures Marks(E, n)[k] == (Marks(d, c)[|c| := E.metas[n[1]].userCreated] + [false])[k]
    {
      if 1 <= k < |c| {
        assert n[|n| - k] == c[|c| - k];
        assert AgreeAt(d, E, c[|c| - k]);
      }
    }
  }

  /** The directory holds the volume as it was before the snapshot. */
  ghost predicate IsOld(d: Dir, d': Dir, c: seq<Name>) {
    Holds(d', c) && ChainLayers(d', c) == ChainLayers(d, c) && Marks(d', c) == Marks(d, c) && SameRecords(d, d', c)
  }

  /**
    The metadata after a snapshot: the new head points to the snapshot, which has the
    record of the old head but for the mark, and no other record has changed.
  */
  ghost predicate NewRecords(d: Dir, d': Dir, c: seq<Name>, i: nat, name: string, userCreated: bool)
    requires |c| > 0
  {
    && HeadDisk(i + 1) in d'.metas && d'.metas[HeadDisk(i + 1)] == Meta(Some(SnapDisk(name)), false, false)
    && c[0] in d.metas && SnapDisk(name) in d'.metas
    && d'.metas[SnapDisk(name)] == Meta(d.metas[c[0]].parent, userCreated, d.metas[c[0]].removed)
    && SameRecords(d, d', c[1..])
  }

  /** The directory holds the volume as it is after the snapshot. */
  ghost predicate IsNew(d: Dir, d': Dir, c: seq<Name>, i: nat, name: string, userCreated: bool)
    requires |c| > 0
  {
    var n := NewChain(c, i, name);
    && Holds(d', n)
    && ChainLayers(d', n) == ChainLayers(d, c) + [map[]]
    && Marks(d', n) == Marks(d, c)[|c| := userCreated] + [false]
    && NewRecords(d, d', c, i, name, userCreated)
  }

  /**
    Crash atomicity of a snapshot: after any prefix of its file operations the
    directory holds either the old volume or the new one, and it is the new one
    exactly from the replacement of the volume metadata on.
  */
  lemma SnapshotCrashAtomic(d: Dir, c: seq<Name>, i: nat, name: string, inode: nat, userCreated: bool, k: nat)
    requires Holds(d, c) && c[0] == HeadDisk(i) && FreeName(d, name) && inode !in d.inodes
    requires k <= |CreateOps(d, i, name, inode, userCreated)|
    ensures var d' := ApplyAll(d, CreateOps(d, i, name, inode, userCreated)[..k]);
            if k <= |PrepareOps(d, i, name, inode, userCreated)| then IsOld(d, d', c)
            else IsNew(d, d', c, i, name, userCreated)
  {
    var prepare := PrepareOps(d, i, name, inode, userCreated);
    var ops := CreateOps(d, i, name, inode, userCreated);
    var m := |prepare|;
    NewHeadIsFresh(c, i);
    FreeIsFresh(d, c, name);
    if k <= m {
      assert ops[..k] == prepare[..k];
      PrepareConfined(d, i, name, inode, userCreated, k);
      ConfinedHolds(d, prepare[..k], HeadDisk(i + 1), SnapDisk(name), inode, c);
    } else {
      assert prepare[..m] == prepare;
      PrepareConfined(d, i, name, inode, userCreated, m);
      ConfinedHolds(d, prepare, HeadDisk(i + 1), SnapDisk(name), inode, c);
      PrepareEffect(d, i, name, inode, userCreated);
      var D := ApplyAll(d, prepare);
      SwitchHolds(d, D, c, i, name, inode, userCreated);
      var put := [PutHead(HeadDisk(i + 1))];
      var rest := RemoveOps(HeadDisk(i))[..k - m - 1];
      assert ops[..k] == prepare + put + rest;
      ApplyAllAppend(d, prepare, put);
      ApplyOne(D, put[0]);
      var E := ApplyAll(d, prepare + put);
      ApplyAllAppend(d, prepare + put, rest);
      RemovalElsewhere(E, NewChain(c, i, name), HeadDisk(i), rest);
      StillNew(d, E, ApplyAll(E, rest), c, i, name, userCreated);
    }
  }

  lemma StillNew(d: Dir, E: Dir, d': Dir, c: seq<Name>, i: nat, name: string, userCreated: bool)
    requires |c| > 0 && NewRecords(d, E, c, i, name, userCreated) && SameRecords(E, d', NewChain(c, i, name))
    ensures NewRecords(d, d', c, i, name, userCreated)
  {
    var n := NewChain(c, i, name);
    assert n[0] in n && n[1] in n && SameRecord(E, d', n[0]) && SameRecord(E, d', n[1]);
    forall x | x in c[1..]
      ensures SameRecord(d, d', x)
    {
      assert x in n && SameRecord(E, d', x) && SameRecord(d, E, x);
    }
  }

  /** Removing the files of a disk that is not in the chain, or beginning to. */
  lemma RemovalElsewhere(E: Dir, n: seq<Name>, x: Name, rest: seq<FileOp>)
    requires Holds(E, n) && x !in n
    requires rest <= RemoveOps(x)
    ensures Holds(ApplyAll(E, rest), n)
    ensures ChainLayers(ApplyAll(E, rest), n) == ChainLayers(E, n) && Marks(ApplyAll(E, rest), n) == Marks(E, n)
    ensures SameRecords(E, ApplyAll(E, rest), n)
  {
    forall k | 0 <= k < |rest|
      ensures Elsewhere(ApplyAll(E, rest[..k]), rest[k], n)
    {
    }
    ElsewhereHolds(E, rest, n);
  }

  // ---- A snapshot that fails ----

  /** Where linking starts; a name that is already taken is detected there. */
  function LinkIndex(d: Dir, i: nat): nat {
    if HeadDisk(i + 1) in d.data then 5 else 3
  }

  lemma LinkIndexIs(d: Dir, i: nat, name: string, inode: nat, userCreated: bool)
    ensures LinkIndex(d, i) < |PrepareOps(d, i, name, inode, userCreated)|
    ensures PrepareOps(d, i, name, inode, userCreated)[LinkIndex(d, i)] == LinkData(HeadDisk(i), SnapDisk(name))
  {
  }

  /**
    How a snapshot ends.  A failure while the new head is created leads to the
    removal of that head, unless not even its name was known to the caller.  Any
    later failure leads to the removal of the new head and of the named snapshot.
    The replacement of the volume metadata itself can be done and still be
    reported as failed, because the directory is synced afterwards.
  */
  datatype Fault =
    | NoFault
    | InHead(done: nat, named: bool)
    | Later(done: nat)

  /** A failure after the given number of operations can happen; a taken name always fails at the link. */
  predicate Possible(d: Dir, i: nat, name: string, inode: nat, userCreated: bool, fault: Fault) {
    match fault
    case NoFault => FreeName(d, name)
    case InHead(done, _) => done <= LinkIndex(d, i)
    case Later(done) =>
      && LinkIndex(d, i) <= done <= |PrepareOps(d, i, name, inode, userCreated)| + 1
      && (FreeName(d, name) || done == LinkIndex(d, i))
  }

  /** The file operations of a snapshot, with the clean-up after a failure. */
  function SnapshotOps(d: Dir, i: nat, name: string, inode: nat, userCreated: bool, fault: Fault): seq<FileOp>
    requires Possible(d, i, name, inode, userCreated, fault)
  {
    var prepare := PrepareOps(d, i, name, inode, userCreated);
    match fault
    case NoFault => CreateOps(d, i, name, inode, userCreated)
    case InHead(done, named) => prepare[..done] + if named then RemoveOps(HeadDisk(i + 1)) else []
    case Later(done) => (prepare + [PutHead(HeadDisk(i + 1))])[..done] + CleanUp(i, name)
  }

  function CleanUp(i: nat, name: string): seq<FileOp> {
    RemoveOps(HeadDisk(i + 1)) + RemoveOps(SnapDisk(name))
  }

  /**
    The clean-up removes a file that the volume needs: a snapshot of the chain, if
    the name was taken, or the new head, once the volume metadata names it.
  */
  predicate Fatal(d: Dir, c: seq<Name>, i: nat, name: string, inode: nat, userCreated: bool, fault: Fault, k: nat) {
    var m := |PrepareOps(d, i, name, inode, userCreated)|;
    && fault.Later?
    && (|| (SnapDisk(name) in c && k >= LinkIndex(d, i) + 3)
        || (fault.done == m + 1 && k >= m + 2))
  }

  /**
    After any prefix of the operations of a snapshot, failed or not, the directory
    holds the volume as it was or as the snapshot makes it, if and only if the
    clean-up has not removed a file it needs.
  */
  lemma SnapshotSurvivesIff(d: Dir, c: seq<Name>, i: nat, name: string, inode: nat, userCreated: bool, fault: Fault, k: nat)
    requires Holds(d, c) && c[0] == HeadDisk(i) && inode !in d.inodes
    requires Possible(d, i, name, inode, userCreated, fault)
    requires k <= |SnapshotOps(d, i, name, inode, userCreated, fault)|
    ensures var d' := ApplyAll(d, SnapshotOps(d, i, name, inode, userCreated, fault)[..k]);
            IsOld(d, d', c) || IsNew(d, d', c, i, name, userCreated)
            <==> !Fatal(d, c, i, name, inode, userCreated, fault, k)
  {
    match fault
    case NoFault => SnapshotCrashAtomic(d, c, i, name, inode, userCreated, k);
    case InHead(done, named) => HeadFaultIsOld(d, c, i, name, inode, userCreated, done, named, k);
    case Later(done) => LaterSurvivesIff(d, c, i, name, inode, userCreated, done, k);
  }

  lemma LaterSurvivesIff(d: Dir, c: seq<Name>, i: nat, name: string, inode: nat, userCreated: bool, done: nat, k: nat)
    requires Holds(d, c) && c[0] == HeadDisk(i) && inode !in d.inodes
    requires Possible(d, i, name, inode, userCreated, Later(done))
    requires k <= |SnapshotOps(d, i, name, inode, userCreated, Later(done))|
    ensures var d' := ApplyAll(d, SnapshotOps(d, i, name, inode, userCreated, Later(done))[..k]);
            IsOld(d, d', c) || IsNew(d, d', c, i, name, userCreated)
            <==> !Fatal(d, c, i, name, inode, userCreated, Later(done), k)
  {
    FreeIsFresh(d, c, name);
    if SnapDisk(name) in c {
      TakenFaultIff(d, c, i, name, inode, userCreated, k);
    } else if done <= |PrepareOps(d, i, name, inode, userCreated)| {
      EarlyFaultIsOld(d, c, i, name, inode, userCreated, done, k);
    } else {
      LateFaultIff(d, c, i, name, inode, userCreated, k);
    }
  }

  lemma FreeIsFresh(d: Dir, c: seq<Name>, name: string)
    requires Holds(d, c)
    ensures FreeName(d, name) ==> SnapDisk(name) !in c
  {
  }

  lemma NewHeadIsFresh(c: seq<Name>, i: nat)
    requires WellNamed(c) && c[0] == HeadDisk(i)
    ensures HeadDisk(i + 1) !in c
  {
    assert forall j :: 0 <= j < |c| ==> c[j] != HeadDisk(i + 1);
  }

  /** The operations before the link concern the new head only. */
  lemma HeadConfined(d: Dir, i: nat, name: string, inode: nat, userCreated: bool, done: nat)
    requires done <= LinkIndex(d, i)
    ensures done <= |PrepareOps(d, i, name, inode, userCreated)|
    ensures var ops := PrepareOps(d, i, name, inode, userCreated)[..done] + RemoveOps(HeadDisk(i + 1));
            Confined(ops, HeadDisk(i + 1), HeadDisk(i + 1), inode)
  {
    PrepareConfined(d, i, name, inode, userCreated, done);
  }

  lemma ConfinedPrefix(ops: seq<FileOp>, n: Name, m: Name, inode: nat, k: nat)
    requires Confined(ops, n, m, inode) && k <= |ops|
    ensures Confined(ops[..k], n, m, inode)
  {
  }

  lemma HeadFaultIsOld(d: Dir, c: seq<Name>, i: nat, name: string, inode: nat, userCreated: bool, done: nat, named: bool, k: nat)
    requires Holds(d, c) && c[0] == HeadDisk(i) && inode !in d.inodes
    requires done <= LinkIndex(d, i) && k <= |SnapshotOps(d, i, name, inode, userCreated, InHead(done, named))|
    ensures IsOld(d, ApplyAll(d, SnapshotOps(d, i, name, inode, userCreated, InHead(done, named))[..k]), c)
  {
    var all := PrepareOps(d, i, name, inode, userCreated)[..done] + RemoveOps(HeadDisk(i + 1));
    HeadConfined(d, i, name, inode, userCreated, done);
    ConfinedPrefix(all, HeadDisk(i + 1), HeadDisk(i + 1), inode, k);
    assert SnapshotOps(d, i, name, inode, userCreated, InHead(done, named))[..k] == all[..k];
    NewHeadIsFresh(c, i);
    ConfinedHolds(d, all[..k], HeadDisk(i + 1), HeadDisk(i + 1), inode, c);
  }

  lemma EarlyFaultIsOld(d: Dir, c: seq<Name>, i: nat, name: string, inode: nat, userCreated: bool, done: nat, k: nat)
    requires Holds(d, c) && c[0] == HeadDisk(i) && inode !in d.inodes && SnapDisk(name) !in c
    requires Possible(d, i, name, inode, userCreated, Later(done))
    requires done <= |PrepareOps(d, i, name, inode, userCreated)|
    requires k <= |SnapshotOps(d, i, name, inode, userCreated, Later(done))|
    ensures IsOld(d, ApplyAll(d, SnapshotOps(d, i, name, inode, userCreated, Later(done))[..k]), c)
  {
    var newHead, snap := HeadDisk(i + 1), SnapDisk(name);
    var all := PrepareOps(d, i, name, inode, userCreated)[..done] + CleanUp(i, name);
    PrepareConfined(d, i, name, inode, userCreated, done);
    assert Confined(all, newHead, snap, inode);
    ConfinedPrefix(all, newHead, snap, inode, k);
    assert SnapshotOps(d, i, name, inode, userCreated, Later(done)) == all;
    NewHeadIsFresh(c, i);
    ConfinedHolds(d, all[..k], newHead, snap, inode, c);
  }

  /** A name of the chain: the clean-up takes the data file of that snapshot, and then its metadata. */
  lemma TakenFaultIff(d: Dir, c: seq<Name>, i: nat, name: string, inode: nat, userCreated: bool, k: nat)
    requires Holds(d, c) && c[0] == HeadDisk(i) && inode !in d.inodes && SnapDisk(name) in c
    requires k <= LinkIndex(d, i) + 4
    ensures var ops := SnapshotOps(d, i, name, inode, userCreated, Later(LinkIndex(d, i)));
            && |ops| == LinkIndex(d, i) + 4
            && var d' := ApplyAll(d, ops[..k]);
            && (k < LinkIndex(d, i) + 3 ==> IsOld(d, d', c))
            && (k >= LinkIndex(d, i) + 3 ==> !IsOld(d, d', c) && !IsNew(d, d', c, i, name, userCreated))
            && (k == LinkIndex(d, i) + 4 ==> Recover(d') == None)
  {
    var newHead, snap, at := HeadDisk(i + 1), SnapDisk(name), LinkIndex(d, i);
    var first := PrepareOps(d, i, name, inode, userCreated)[..at] + RemoveOps(newHead);
    var ops := SnapshotOps(d, i, name, inode, userCreated, Later(at));
    assert ops == first + RemoveOps(snap);
    HeadConfined(d, i, name, inode, userCreated, at);
    NewHeadIsFresh(c, i);
    if k <= at + 2 {
      ConfinedPrefix(first, newHead, newHead, inode, k);
      assert ops[..k] == first[..k];
      ConfinedHolds(d, first[..k], newHead, newHead, inode, c);
    } else {
      ConfinedHolds(d, first, newHead, newHead, inode, c);
      var e := ApplyAll(d, first);
      var tail := RemoveOps(snap)[..k - at - 2];
      assert ops[..k] == first + tail;
      ApplyAllAppend(d, first, tail);
      RemovedIsLost(e, c, snap);
      DataIsLost(e, snap, tail);
      NotIntact(d, ApplyAll(e, tail), c, i, name, userCreated);
      assert k == at + 4 ==> tail == RemoveOps(snap);
    }
  }

  lemma DataIsLost(e: Dir, n: Name, tail: seq<FileOp>)
    requires 0 < |tail| <= 2 && tail <= RemoveOps(n)
    ensures n !in ApplyAll(e, tail).data
  {
    if |tail| == 1 {
      assert tail == [RemoveData(n)];
      ApplyOne(e, RemoveData(n));
    } else {
      assert tail == [RemoveData(n), RemoveMeta(n)];
      ApplyTwo(e, RemoveData(n), RemoveMeta(n));
    }
  }

  lemma NotIntact(d: Dir, d': Dir, c: seq<Name>, i: nat, name: string, userCreated: bool)
    requires |c| > 0 && SnapDisk(name) !in d'.data
    ensures SnapDisk(name) in c ==> !IsOld(d, d', c)
    ensures !IsNew(d, d', c, i, name, userCreated)
  {
    assert NewChain(c, i, name)[1] == SnapDisk(name);
  }

  /** The volume metadata names the new head, and then the clean-up removes that head. */
  lemma LateFaultIff(d: Dir, c: seq<Name>, i: nat, name: string, inode: nat, userCreated: bool, k: nat)
    requires Holds(d, c) && c[0] == HeadDisk(i) && inode !in d.inodes && FreeName(d, name)
    requires k <= |PrepareOps(d, i, name, inode, userCreated)| + 5
    ensures var m := |PrepareOps(d, i, name, inode, userCreated)|;
            var ops := SnapshotOps(d, i, name, inode, userCreated, Later(m + 1));
            && |ops| == m + 5
            && var d' := ApplyAll(d, ops[..k]);
            && (k < m + 2 ==> IsOld(d, d', c) || IsNew(d, d', c, i, name, userCreated))
            && (k >= m + 2 ==> !IsOld(d, d', c) && !IsNew(d, d', c, i, name, userCreated))
            && (k >= m + 3 ==> Recover(d') == None)
  {
    var prepare, newHead := PrepareOps(d, i, name, inode, userCreated), HeadDisk(i + 1);
    var m := |prepare|;
    var put := prepare + [PutHead(newHead)];
    var ops := SnapshotOps(d, i, name, inode, userCreated, Later(m + 1));
    assert put[..m + 1] == put && ops == put + CleanUp(i, name);
    FreeIsFresh(d, c, name);
    if k <= m + 1 {
      SnapshotCrashAtomic(d, c, i, name, inode, userCreated, k);
      assert ops[..k] == CreateOps(d, i, name, inode, userCreated)[..k];
    } else {
      var tail := CleanUp(i, name)[..k - m - 1];
      assert ops[..k] == put + tail;
      ApplyAllAppend(d, put, tail);
      ApplyAllAppend(d, prepare, [PutHead(newHead)]);
      ApplyOne(ApplyAll(d, prepare), PutHead(newHead));
      CleanedHead(ApplyAll(d, put), i, name, tail);
      NewHeadIsFresh(c, i);
    }
  }

  lemma {:induction false} CleanedHead(e: Dir, i: nat, name: string, tail: seq<FileOp>)
    requires 0 < |tail| && tail <= CleanUp(i, name) && e.head == Some(HeadDisk(i + 1))
    ensures var d' := ApplyAll(e, tail);
            && d'.head == e.head && HeadDisk(i + 1) !in d'.data
            && (|tail| >= 2 ==> HeadDisk(i + 1) !in d'.metas)
  {
    var init := tail[..|tail| - 1];
    if |tail| > 1 {
      CleanedHead(e, i, name, init);
    }
  }

  /**
    What a failed snapshot leaves behind: the volume as it was, if and only if it
    failed while the new head was created, or failed before the volume metadata was
    replaced and had a name that is not in the chain.  Otherwise the volume cannot
    be opened any more.
  */
  lemma FailedSnapshotIff(d: Dir, c: seq<Name>, i: nat, name: string, inode: nat, userCreated: bool, fault: Fault)
    requires Holds(d, c) && c[0] == HeadDisk(i) && inode !in d.inodes
    requires Possible(d, i, name, inode, userCreated, fault) && fault != NoFault
    ensures var d' := ApplyAll(d, SnapshotOps(d, i, name, inode, userCreated, fault));
            if fault.InHead? || (SnapDisk(name) !in c && fault.done <= |PrepareOps(d, i, name, inode, userCreated)|)
            then IsOld(d, d', c) else Recover(d') == None
  {
    var ops := SnapshotOps(d, i, name, inode, userCreated, fault);
    assert ops[..|ops|] == ops;
    FreeIsFresh(d, c, name);
    if fault.InHead? {
      HeadFaultIsOld(d, c, i, name, inode, userCreated, fault.done, fault.named, |ops|);
    } else if SnapDisk(name) in c {
      TakenFaultIff(d, c, i, name, inode, userCreated, |ops|);
    } else if fault.done <= |PrepareOps(d, i, name, inode, userCreated)| {
      EarlyFaultIsOld(d, c, i, name, inode, userCreated, fault.done, |ops|);
    } else {
      LateFaultIff(d, c, i, name, inode, userCreated, |ops|);
    }
  }

  /** A volume with one head; its first snapshot fails in the sync after the volume metadata has been replaced. */
  lemma LateFailureLosesVolume() returns (d: Dir, fault: Fault)
    ensures Holds(d, [HeadDisk(0)]) && FreeName(d, "s") && Possible(d, 0, "s", 1, true, fault)
    ensures Recover(ApplyAll(d, SnapshotOps(d, 0, "s", 1, true, fault))) == None
  {
    d := Dir(map[HeadDisk(0) := 0], map[HeadDisk(0) := Meta(None, false, false)], map[0 := map[]], Some(HeadDisk(0)));
    fault := Later(|PrepareOps(d, 0, "s", 1, true)| + 1);
    FailedSnapshotIff(d, [HeadDisk(0)], 0, "s", 1, true, fault);
  }

  /** Without the files of one of its snapshots a chain cannot be opened. */
  lemma RemovedIsLost(d: Dir, c: seq<Name>, snap: Name)
    requires Holds(d, c) && snap in c && snap != c[0]
    ensures Recover(ApplyAll(d, RemoveOps(snap))) == None
  {
    ApplyTwo(d, RemoveData(snap), RemoveMeta(snap));
    var d' := ApplyAll(d, RemoveOps(snap));
    var p :| 0 <= p < |c| && c[p] == snap;
    BrokenWalk(d.metas, d'.metas, c, p, d'.metas.Keys);
  }

  /** A chain with one metadata file missing is not recovered. */
  lemma {:induction false} BrokenWalk(metas: map<Name, Meta>, metas': map<Name, Meta>, c: seq<Name>, p: nat, unseen: set<Name>)
    requires Linked(metas, c) && p < |c|
    requires metas' == metas - {c[p]}
    ensures Walk(metas', c[0], unseen) == None
    decreases |c|
  {
    if p > 0 && c[0] != c[p] && c[0] in unseen {
      var rest := c[1..];
      assert forall i :: 0 <= i < |rest| ==> rest[i] == c[i + 1];
      LinkedTail(metas, c);
      BrokenWalk(metas, metas', rest, p - 1, unseen - {c[0]});
      assert metas'[c[0]].parent == Some(rest[0]);
    }
  }

  // ---- Removing a snapshot ----

  /** Copying the allocated sectors of one file over another, one at a time. */
  function FoldOps(from: Name, to: Name, sectors: seq<nat>): (r: seq<FileOp>)
    ensures |r| == |sectors|
    ensures forall k :: 0 <= k < |r| ==> r[k] == CopySector(from, to, sectors[k])
  {
    seq(|sectors|, k requires 0 <= k < |sectors| => CopySector(from, to, sectors[k]))
  }

  /** Marking a disk as removed, folding it into its parent, bypassing it in the chain, and removing its files. */
  function DeleteOps(d: Dir, child: Name, n: Name, parent: Name, sectors: seq<nat>): seq<FileOp>
    requires child in d.metas && n in d.metas && parent in d.metas
  {
    MetaOps(n, d.metas[n].(removed := true))
    + FoldOps(n, parent, sectors)
    + [WriteTemp]
    + [PutMeta(child, d.metas[child].(parent := d.metas[n].parent))]
    + MetaOps(parent, d.metas[parent])
    + RemoveOps(n)
  }

  /** The position of the metadata write that takes the disk out of the chain. */
  function BypassIndex(sectors: seq<nat>): nat {
    2 + |sectors| + 1
  }

  function DropAt<T>(c: seq<T>, j: nat): (r: seq<T>)
    requires j < |c|
    ensures |r| == |c| - 1
    ensures forall k :: 0 <= k < |r| ==> r[k] == if k < j then c[k] else c[k + 1]
  {
    c[..j] + c[j + 1..]
  }

  /** A file after the given sectors of another have been copied into it. */
  function Overlay(base: Layer, top: Layer, sectors: seq<nat>): Layer {
    base + map x | x in top && x in sectors :: top[x]
  }

  lemma OverlaySnoc(base: Layer, top: Layer, sectors: seq<nat>, x: nat)
    ensures Overlay(base, top, sectors + [x])
            == if x in top then Overlay(base, top, sectors)[x := top[x]] else Overlay(base, top, sectors)
  {
    assert forall y :: y in sectors + [x] <==> y in sectors || y == x;
  }

  function Copied(d: Dir, n: Name, parent: Name, sectors: seq<nat>): Layer {
    Overlay(LayerOf(d, parent), LayerOf(d, n), sectors)
  }

  lemma {:induction false} FoldEffect(d: Dir, n: Name, parent: Name, sectors: seq<nat>)
    requires n in d.data && parent in d.data && d.data[n] != d.data[parent]
    requires d.data[n] in d.inodes && d.data[parent] in d.inodes
    ensures ApplyAll(d, FoldOps(n, parent, sectors))
            == d.(inodes := d.inodes[d.data[parent] := Copied(d, n, parent, sectors)])
  {
    if sectors == [] {
      assert Copied(d, n, parent, []) == LayerOf(d, parent);
      assert d.inodes[d.data[parent] := LayerOf(d, parent)] == d.inodes;
    } else {
      var init, x := sectors[..|sectors| - 1], sectors[|sectors| - 1];
      FoldEffect(d, n, parent, init);
      var ops := FoldOps(n, parent, sectors);
      assert ops[..|ops| - 1] == FoldOps(n, parent, init);
      assert sectors == init + [x];
      CopyEffect(d, n, parent, init, x);
    }
  }

  lemma CopyEffect(d: Dir, n: Name, parent: Name, init: seq<nat>, x: nat)
    requires n in d.data && parent in d.data && d.data[n] != d.data[parent]
    requires d.data[n] in d.inodes && d.data[parent] in d.inodes
    ensures Apply(d.(inodes := d.inodes[d.data[parent] := Copied(d, n, parent, init)]), CopySector(n, parent, x))
            == d.(inodes := d.inodes[d.data[parent] := Copied(d, n, parent, init + [x])])
  {
    var e := d.(inodes := d.inodes[d.data[parent] := Copied(d, n, parent, init)]);
    assert LayerOf(e, n) == LayerOf(d, n);
    assert LayerOf(e, parent) == Copied(d, n, parent, init);
    OverlaySnoc(LayerOf(d, parent), LayerOf(d, n), init, x);
    var y := Copied(d, n, parent, init + [x]);
    assert e.inodes[d.data[parent] := y] == d.inodes[d.data[parent] := y];
  }

  /** The chain with part of the fold done: the same volume, but for the view at the layer folded into. */
  ghost predicate IsFolding(d: Dir, d': Dir, c: seq<Name>, j: nat)
    requires 2 <= j < |c| - 1
  {
    && Holds(d', c)
    && PartlyFolded(ChainLayers(d, c), ChainLayers(d', c), |c| - j)
    && Marks(d', c) == Marks(d, c)
    && FoldingRecords(d, d', c, j)
  }

  /** Nothing has changed in the metadata, but that the disk may be marked as removed. */
  ghost predicate FoldingRecords(d: Dir, d': Dir, c: seq<Name>, j: nat)
    requires j < |c|
  {
    forall n :: n in c ==>
      n in d.metas && n in d'.metas && (d'.metas[n] == d.metas[n] || (n == c[j] && d'.metas[n] == d.metas[n].(removed := true)))
  }

  /** Nothing has changed in the metadata of the shorter chain, but the parent of the disk above the deleted one. */
  ghost predicate BypassedRecords(d: Dir, d': Dir, c: seq<Name>, j: nat)
    requires 0 < j < |c| - 1
  {
    forall n :: n in DropAt(c, j) ==>
      n in d.metas && n in d'.metas && d'.metas[n] == if n == c[j - 1] then d.metas[n].(parent := Some(c[j + 1])) else d.metas[n]
  }

  ghost predicate IsDeleted(d: Dir, d': Dir, c: seq<Name>, j: nat)
    requires 2 <= j < |c| - 1
  {
    && Holds(d', DropAt(c, j))
    && ChainLayers(d', DropAt(c, j)) == RemoveLayer(Fold(ChainLayers(d, c), |c| - j), |c| - j)
    && Marks(d', DropAt(c, j)) == DropAt(Marks(d, c), |c| - j)
    && BypassedRecords(d, d', c, j)
  }

  /** d' is d with the removed flag of one disk set and some sectors of it copied into its parent. */
  lemma FoldingHolds(d: Dir, d': Dir, c: seq<Name>, j: nat, meta: Meta, sectors: seq<nat>)
    requires Holds(d, c) && 2 <= j < |c| - 1
    requires meta == d.metas[c[j]] || meta == d.metas[c[j]].(removed := true)
    requires d' == d.(metas := d.metas[c[j] := meta],
                      inodes := d.inodes[d.data[c[j + 1]] := Copied(d, c[j], c[j + 1], sectors)])
    ensures IsFolding(d, d', c, j)
  {
    var L, L' := ChainLayers(d, c), ChainLayers(d', c);
    var i := |c| - j;
    forall k: nat | k < |c| - 1
      ensures LinkedAt(d'.metas, c, k)
    {
      assert LinkedAt(d.metas, c, k);
    }
    assert c[j] in d.data && c[j + 1] in d.data;
    forall k | 0 <= k < |L| && k != i - 1
      ensures L'[k] == L[k]
    {
    }
    assert L'[i - 1] == Copied(d, c[j], c[j + 1], sectors);
    assert L[i - 1] == LayerOf(d, c[j + 1]) && L[i] == LayerOf(d, c[j]);
  }

  /** d' is d with the fold of disk j complete and its child pointing past it. */
  ghost predicate Bypassed(d: Dir, d': Dir, c: seq<Name>, j: nat)
    requires Holds(d, c) && 2 <= j < |c| - 1
  {
    && d'.data == d.data && d'.head == d.head
    && d'.inodes == d.inodes[d.data[c[j + 1]] := LayerOf(d, c[j + 1]) + LayerOf(d, c[j])]
    && (forall k :: 0 <= k < |c| ==> c[k] in d'.metas)
    && (forall k :: 0 <= k < |c| && k != j && k != j - 1 ==> d'.metas[c[k]] == d.metas[c[k]])
    && d'.metas[c[j - 1]] == d.metas[c[j - 1]].(parent := Some(c[j + 1]))
  }

  lemma BypassedRecord(d: Dir, d': Dir, c: seq<Name>, j: nat, k: nat)
    requires Holds(d, c) && 2 <= j < |c| - 1 && Bypassed(d, d', c, j) && k < |c| - 1
    ensures var n := DropAt(c, j)[k];
            && n in d.metas && n in d'.metas
            && d'.metas[n] == if n == c[j - 1] then d.metas[n].(parent := Some(c[j + 1])) else d.metas[n]
  {
    assert DropAt(c, j)[k] == c[if k < j then k else k + 1];
  }

  lemma BypassedMark(d: Dir, d': Dir, c: seq<Name>, j: nat, k: nat)
    requires Holds(d, c) && 2 <= j < |c| - 1 && Bypassed(d, d', c, j) && 1 <= k < |c|
    ensures Marks(d', DropAt(c, j))[k] == DropAt(Marks(d, c), |c| - j)[k]
  {
    BypassedRecord(d, d', c, j, |c| - 1 - k);
  }

  lemma BypassedMarks(d: Dir, d': Dir, c: seq<Name>, j: nat)
    requires Holds(d, c) && 2 <= j < |c| - 1 && Bypassed(d, d', c, j)
    ensures Marks(d', DropAt(c, j)) == DropAt(Marks(d, c), |c| - j) && BypassedRecords(d, d', c, j)
  {
    var n := DropAt(c, j);
    forall k | 1 <= k < |c|
      ensures Marks(d', n)[k] == DropAt(Marks(d, c), |c| - j)[k]
    {
      BypassedMark(d, d', c, j, k);
    }
    forall x | x in n
      ensures x in d.metas && x in d'.metas
      ensures d'.metas[x] == if x == c[j - 1] then d.metas[x].(parent := Some(c[j + 1])) else d.metas[x]
    {
      var k :| 0 <= k < |n| && n[k] == x;
      BypassedRecord(d, d', c, j, k);
    }
  }

  lemma BypassedLinked(d: Dir, d': Dir, c: seq<Name>, j: nat)
    requires Holds(d, c) && 2 <= j < |c| - 1 && Bypassed(d, d', c, j)
    ensures Holds(d', DropAt(c, j))
  {
    var n := DropAt(c, j);
    forall k: nat | k < |n| - 1
      ensures LinkedAt(d'.metas, n, k)
    {
      if k != j - 1 {
        assert LinkedAt(d.metas, c, if k >= j then k + 1 else k);
      }
    }
    assert Linked(d'.metas, n);
    assert Complete(d', n);
  }

  lemma BypassedLayers(d: Dir, d': Dir, c: seq<Name>, j: nat)
    requires Holds(d, c) && 2 <= j < |c| - 1 && Bypassed(d, d', c, j)
    ensures ChainLayers(d', DropAt(c, j)) == RemoveLayer(Fold(ChainLayers(d, c), |c| - j), |c| - j)
  {
    var i, L := |c| - j, ChainLayers(d, c);
    var L', R := ChainLayers(d', DropAt(c, j)), RemoveLayer(Fold(L, i), i);
    forall k | 0 <= k < |L'|
      ensures L'[k] == R[k]
    {
      BypassedLayerIs(d, d', c, j, k);
    }
  }

  lemma BypassedLayerIs(d: Dir, d': Dir, c: seq<Name>, j: nat, k: nat)
    requires Holds(d, c) && 2 <= j < |c| - 1 && Bypassed(d, d', c, j) && k < |c|
    ensures ChainLayers(d', DropAt(c, j))[k] == RemoveLayer(Fold(ChainLayers(d, c), |c| - j), |c| - j)[k]
  {
    var i, L := |c| - j, ChainLayers(d, c);
    var p := if k < i then k else k + 1;
    assert RemoveLayer(Fold(L, i), i)[k] == Fold(L, i)[p];
    if k > 0 {
      BypassedLayer(d, d', c, j, k, |c| - p);
    }
  }

  /** Layer k of the shorter chain is the disk at place m of the longer one; the disk folded into has grown. */
  lemma BypassedLayer(d: Dir, d': Dir, c: seq<Name>, j: nat, k: nat, m: nat)
    requires Holds(d, c) && 2 <= j < |c| - 1 && Bypassed(d, d', c, j)
    requires 0 < k < |c| && m == if k < |c| - j then |c| - k else |c| - k - 1
    ensures ChainLayers(d', DropAt(c, j))[k]
            == if m == j + 1 then LayerOf(d, c[m]) + LayerOf(d, c[j]) else LayerOf(d, c[m])
  {
    var n := DropAt(c, j);
    assert n[|n| - k] == c[m];
  }

  /** Bypassing a disk whose fold is complete. */
  lemma BypassHolds(d: Dir, d': Dir, c: seq<Name>, j: nat, meta: Meta, sectors: seq<nat>, childMeta: Meta)
    requires Holds(d, c) && 2 <= j < |c| - 1
    requires forall x :: x in LayerOf(d, c[j]) ==> x in sectors
    requires childMeta == d.metas[c[j - 1]].(parent := d.metas[c[j]].parent)
    requires d' == d.(metas := d.metas[c[j] := meta][c[j - 1] := childMeta],
                      inodes := d.inodes[d.data[c[j + 1]] := Copied(d, c[j], c[j + 1], sectors)])
    ensures IsDeleted(d, d', c, j)
  {
    assert Copied(d, c[j], c[j + 1], sectors) == LayerOf(d, c[j + 1]) + LayerOf(d, c[j]);
    assert LinkedAt(d.metas, c, j);
    assert Bypassed(d, d', c, j);
    BypassedLinked(d, d', c, j);
    BypassedLayers(d, d', c, j);
    BypassedMarks(d, d', c, j);
  }

  /** The sectors copied are those of the folded file, each at least once. */
  ghost predicate CopiesAll(d: Dir, n: Name, sectors: seq<nat>) {
    forall x :: x in LayerOf(d, n) ==> x in sectors
  }

  /**
    Crash atomicity of a deletion: after any prefix of its file operations the
    directory holds either the whole old chain or the chain without the disk.
  */
  lemma DeleteCrashAtomic(d: Dir, c: seq<Name>, j: nat, sectors: seq<nat>, k: nat)
    requires Holds(d, c) && 2 <= j < |c| - 1
    requires CopiesAll(d, c[j], sectors)
    requires k <= |DeleteOps(d, c[j - 1], c[j], c[j + 1], sectors)|
    ensures var d' := ApplyAll(d, DeleteOps(d, c[j - 1], c[j], c[j + 1], sectors)[..k]);
            if k <= BypassIndex(sectors) then IsFolding(d, d', c, j) && (k >= 2 ==> d'.metas[c[j]].removed)
            else IsDeleted(d, d', c, j)
  {
    if k <= BypassIndex(sectors) {
      BeforeBypass(d, c, j, sectors, k);
    } else {
      AfterBypass(d, c, j, sectors, k);
    }
  }

  lemma BeforeBypass(d: Dir, c: seq<Name>, j: nat, sectors: seq<nat>, k: nat)
    requires Holds(d, c) && 2 <= j < |c| - 1
    requires k <= BypassIndex(sectors)
    ensures var d' := ApplyAll(d, DeleteOps(d, c[j - 1], c[j], c[j + 1], sectors)[..k]);
            IsFolding(d, d', c, j) && (k >= 2 ==> d'.metas[c[j]].removed)
  {
    var n, parent := c[j], c[j + 1];
    var ops := DeleteOps(d, c[j - 1], n, parent, sectors);
    var meta := d.metas[n].(removed := true);
    var mark := MetaOps(n, meta);
    if k < 2 {
      assert ops[..k] == if k == 0 then [] else [WriteTemp];
      ApplyOne(d, WriteTemp);
      assert Copied(d, n, parent, []) == LayerOf(d, parent);
      assert d == d.(metas := d.metas[n := d.metas[n]], inodes := d.inodes[d.data[parent] := LayerOf(d, parent)]);
      FoldingHolds(d, d, c, j, d.metas[n], []);
    } else {
      var some := sectors[..if k - 2 <= |sectors| then k - 2 else |sectors|];
      var tail := if k == BypassIndex(sectors) then [WriteTemp] else [];
      assert ops[..k] == mark + FoldOps(n, parent, some) + tail;
      MarkAndFold(d, n, parent, meta, some);
      ApplyAllAppend(d, mark + FoldOps(n, parent, some), tail);
      ApplyOne(ApplyAll(d, mark + FoldOps(n, parent, some)), WriteTemp);
      FoldingHolds(d, ApplyAll(d, ops[..k]), c, j, meta, some);
    }
  }

  lemma MarkAndFold(d: Dir, n: Name, parent: Name, meta: Meta, sectors: seq<nat>)
    requires n in d.data && parent in d.data && d.data[n] != d.data[parent]
    requires d.data[n] in d.inodes && d.data[parent] in d.inodes
    ensures ApplyAll(d, MetaOps(n, meta) + FoldOps(n, parent, sectors))
            == d.(metas := d.metas[n := meta],
                  inodes := d.inodes[d.data[parent] := Copied(d, n, parent, sectors)])
  {
    ApplyAllAppend(d, MetaOps(n, meta), FoldOps(n, parent, sectors));
    ApplyTwo(d, WriteTemp, PutMeta(n, meta));
    var e := d.(metas := d.metas[n := meta]);
    FoldEffect(e, n, parent, sectors);
    assert Copied(e, n, parent, sectors) == Copied(d, n, parent, sectors);
  }

  lemma AfterBypass(d: Dir, c: seq<Name>, j: nat, sectors: seq<nat>, k: nat)
    requires Holds(d, c) && 2 <= j < |c| - 1
    requires CopiesAll(d, c[j], sectors)
    requires BypassIndex(sectors) < k <= |DeleteOps(d, c[j - 1], c[j], c[j + 1], sectors)|
    ensures IsDeleted(d, ApplyAll(d, DeleteOps(d, c[j - 1], c[j], c[j + 1], sectors)[..k]), c, j)
  {
    var child, n, parent := c[j - 1], c[j], c[j + 1];
    var ops := DeleteOps(d, child, n, parent, sectors);
    var meta := d.metas[n].(removed := true);
    var childMeta := d.metas[child].(parent := d.metas[n].parent);
    var fold := MetaOps(n, meta) + FoldOps(n, parent, sectors);
    var bypass := [WriteTemp, PutMeta(child, childMeta)];
    var last := (MetaOps(parent, d.metas[parent]) + RemoveOps(n))[..k - BypassIndex(sectors) - 1];
    assert ops[..k] == fold + bypass + last;
    MarkAndFold(d, n, parent, meta, sectors);
    ApplyAllAppend(d, fold, bypass);
    ApplyTwo(ApplyAll(d, fold), bypass[0], bypass[1]);
    var e := ApplyAll(d, fold + bypass);
    BypassHolds(d, e, c, j, meta, sectors, childMeta);
    ApplyAllAppend(d, fold + bypass, last);
    TailHolds(e, DropAt(c, j), n, parent, d.metas[parent], last);
    StillBypassed(d, e, ApplyAll(e, last), c, j);
  }

  lemma StillBypassed(d: Dir, e: Dir, d': Dir, c: seq<Name>, j: nat)
    requires 0 < j < |c| - 1 && BypassedRecords(d, e, c, j) && SameRecords(e, d', DropAt(c, j))
    ensures BypassedRecords(d, d', c, j)
  {
    assert forall n :: n in DropAt(c, j) ==> SameRecord(e, d', n);
  }

  /** The revision counter of the parent is rewritten, and the files of the bypassed disk are removed. */
  lemma TailHolds(e: Dir, c: seq<Name>, n: Name, parent: Name, meta: Meta, last: seq<FileOp>)
    requires Holds(e, c) && n !in c
    requires parent in e.metas && e.metas[parent] == meta
    requires last <= MetaOps(parent, meta) + RemoveOps(n)
    ensures Holds(ApplyAll(e, last), c) && ChainLayers(ApplyAll(e, last), c) == ChainLayers(e, c)
    ensures Marks(ApplyAll(e, last), c) == Marks(e, c) && SameRecords(e, ApplyAll(e, last), c)
  {
    var first, rest := TailParts(n, parent, meta, last);
    ApplyAllAppend(e, first, rest);
    RewritingKeeps(e, parent, meta, first);
    RemovalElsewhere(e, c, n, rest);
  }

  lemma TailParts(n: Name, parent: Name, meta: Meta, last: seq<FileOp>) returns (first: seq<FileOp>, rest: seq<FileOp>)
    requires last <= MetaOps(parent, meta) + RemoveOps(n)
    ensures last == first + rest && first <= MetaOps(parent, meta) && rest <= RemoveOps(n)
  {
    first := last[..if |last| <= 2 then |last| else 2];
    rest := last[|first|..];
  }

  /** Writing metadata that is there already, or beginning to, changes nothing. */
  lemma RewritingKeeps(e: Dir, parent: Name, meta: Meta, ops: seq<FileOp>)
    requires parent in e.metas && e.metas[parent] == meta
    requires ops <= MetaOps(parent, meta)
    ensures ApplyAll(e, ops) == e
  {
    assert e.metas[parent := meta] == e.metas;
    assert ops == [] || ops == [WriteTemp] || ops == [WriteTemp, PutMeta(parent, meta)];
    ApplyOne(e, WriteTemp);
    ApplyTwo(e, WriteTemp, PutMeta(parent, meta));
  }

  // ---- Which files are there at the end ----

  /** The operation creates, replaces or removes a file of this name. */
  predicate Changes(op: FileOp, x: Name) {
    match op
    case CreateData(n, _) => n == x
    case PutMeta(n, _) => n == x
    case LinkData(_, n) => n == x
    case LinkMeta(_, n) => n == x
    case RemoveData(n) => n == x
    case RemoveMeta(n) => n == x
    case _ => false
  }

  /** Data and metadata file of a name are there in both directories, or in neither. */
  predicate SameFiles(d: Dir, d': Dir, x: Name) {
    (x in d'.data <==> x in d.data) && (x in d'.metas <==> x in d.metas)
  }

  lemma {:induction false} Untouched(d: Dir, ops: seq<FileOp>, x: Name)
    requires forall k :: 0 <= k < |ops| ==> !Changes(ops[k], x)
    ensures SameFiles(d, ApplyAll(d, ops), x)
  {
    if ops != [] {
      Untouched(d, ops[..|ops| - 1], x);
    }
  }

  lemma RemovedAtEnd(d: Dir, ops: seq<FileOp>, n: Name)
    ensures var d' := ApplyAll(d, ops + RemoveOps(n)); n !in d'.data && n !in d'.metas
  {
    ApplyAllAppend(d, ops, RemoveOps(n));
    ApplyTwo(ApplyAll(d, ops), RemoveData(n), RemoveMeta(n));
  }

  /** A snapshot that is completed has replaced the files of the old head by those of the new head and of the snapshot. */
  lemma CompletedSnapshot(d: Dir, c: seq<Name>, i: nat, name: string, inode: nat, userCreated: bool, x: Name)
    requires Holds(d, c) && c[0] == HeadDisk(i) && FreeName(d, name) && inode !in d.inodes
    ensures var d' := ApplyAll(d, CreateOps(d, i, name, inode, userCreated));
            && (x in {HeadDisk(i + 1), SnapDisk(name)} ==> x in d'.data && x in d'.metas)
            && (x == HeadDisk(i) ==> x !in d'.data && x !in d'.metas)
            && (x !in {HeadDisk(i), HeadDisk(i + 1), SnapDisk(name)} ==> SameFiles(d, d', x))
  {
    var ops := CreateOps(d, i, name, inode, userCreated);
    SnapshotCrashAtomic(d, c, i, name, inode, userCreated, |ops|);
    assert ops[..|ops|] == ops;
    var n := NewChain(c, i, name);
    assert n[0] == HeadDisk(i + 1) && n[1] == SnapDisk(name);
    RemovedAtEnd(d, PrepareOps(d, i, name, inode, userCreated) + [PutHead(HeadDisk(i + 1))], HeadDisk(i));
    if x !in {HeadDisk(i), HeadDisk(i + 1), SnapDisk(name)} {
      Untouched(d, ops, x);
    }
  }

  /** A deletion that is completed has removed the files of the deleted disk and no others. */
  lemma CompletedDeletion(d: Dir, c: seq<Name>, j: nat, sectors: seq<nat>, x: Name)
    requires Holds(d, c) && 2 <= j < |c| - 1 && CopiesAll(d, c[j], sectors)
    ensures var d' := ApplyAll(d, DeleteOps(d, c[j - 1], c[j], c[j + 1], sectors));
            if x == c[j] then x !in d'.data && x !in d'.metas else SameFiles(d, d', x)
  {
    var ops := DeleteOps(d, c[j - 1], c[j], c[j + 1], sectors);
    assert ops == ops[..|ops| - 2] + RemoveOps(c[j]);
    RemovedAtEnd(d, ops[..|ops| - 2], c[j]);
    DeleteCrashAtomic(d, c, j, sectors, |ops|);
    assert ops[..|ops|] == ops;
    if x == c[j - 1] || x == c[j + 1] {
      assert x == DropAt(c, j)[if x == c[j - 1] then j - 1 else j];
    } else if x != c[j] {
      Untouched(d, ops, x);
    }
  }

  /** The layer that a disk of the chain is. */
  ghost function Place(c: seq<Name>, n: Name): (u: nat)
    requires n in c
    ensures 0 < u <= |c| && c[|c| - u] == n
  {
    var k :| 0 <= k < |c| && c[k] == n;
    |c| - k
  }

  lemma PlaceIs(c: seq<Name>, n: Name, u: nat)
    requires Distinct(c) && 0 < u <= |c| && c[|c| - u] == n
    ensures n in c && Place(c, n) == u
  {
  }

  /** The live view, and the views and marks of the given disks, are the same in d' as in d. */
  ghost predicate SameViews(d: Dir, c: seq<Name>, d': Dir, c': seq<Name>, kept: set<Name>) {
    && SameView(ChainLayers(d, c), |c|, ChainLayers(d', c'), |c'|)
    && forall n :: n in kept && n in c ==> SameViewOf(d, c, d', c', n)
  }

  ghost predicate SameViewOf(d: Dir, c: seq<Name>, d': Dir, c': seq<Name>, n: Name)
    requires n in c
  {
    && n in c' && SameView(ChainLayers(d, c), Place(c, n), ChainLayers(d', c'), Place(c', n))
    && Marks(d', c')[Place(c', n)] == Marks(d, c)[Place(c, n)]
  }

  lemma SameViewsTransitive(d: Dir, c: seq<Name>, d1: Dir, c1: seq<Name>, d2: Dir, c2: seq<Name>, kept: set<Name>)
    requires SameViews(d, c, d1, c1, kept) && SameViews(d1, c1, d2, c2, kept)
    ensures SameViews(d, c, d2, c2, kept)
  {
    forall n | n in kept && n in c
      ensures SameViewOf(d, c, d2, c2, n)
    {
      assert SameViewOf(d, c, d1, c1, n) && SameViewOf(d1, c1, d2, c2, n);
    }
  }

  lemma OldKeepsViews(d: Dir, d': Dir, c: seq<Name>, kept: set<Name>)
    requires IsOld(d, d', c)
    ensures SameViews(d, c, d', c, kept)
  {
  }

  lemma HeadSame(L: seq<Layer>, L': seq<Layer>, u: nat, u': nat)
    requires |L| > 0 && L' == L + [map[]] && u < |L|
    requires u' == u || (u == Head(L) && u' == |L|)
    ensures SameView(L, u, L', u')
  {
    var v := Vol(L, [], [], 0, false);
    forall s: nat
      ensures View(L', s, u') == View(L, s, u)
    {
      AddHeadTop(v, false, s, u');
    }
  }

  /** A new head on top changes no view. */
  lemma NewKeepsViews(d: Dir, d': Dir, c: seq<Name>, i: nat, name: string, userCreated: bool, kept: set<Name>)
    requires Holds(d, c) && c[0] == HeadDisk(i) && IsNew(d, d', c, i, name, userCreated)
    requires forall n :: n in kept ==> n.SnapDisk?
    ensures SameViews(d, c, d', NewChain(c, i, name), kept)
  {
    var c', L := NewChain(c, i, name), ChainLayers(d, c);
    var L' := ChainLayers(d', c');
    HeadSame(L, L', |c|, |c'|);
    forall n | n in kept && n in c
      ensures SameViewOf(d, c, d', c', n)
    {
      PlaceInNew(c, i, name, n);
      HeadSame(L, L', Place(c, n), Place(c', n));
    }
  }

  lemma PlaceInNew(c: seq<Name>, i: nat, name: string, n: Name)
    requires |c| > 0 && c[0] == HeadDisk(i) && n in c && n.SnapDisk? && Distinct(NewChain(c, i, name))
    ensures n in NewChain(c, i, name) && Place(NewChain(c, i, name), n) == Place(c, n)
  {
    var c', u := NewChain(c, i, name), Place(c, n);
    assert c'[|c'| - u] == c[|c| - u];
    PlaceIs(c', n, u);
  }

  lemma FoldSame(L: seq<Layer>, L': seq<Layer>, i: nat, u: nat)
    requires 2 <= i < |L| && u < |L| && u != i - 1 && PartlyFolded(L, L', i)
    ensures u < |L'| && SameView(L, u, L', u)
  {
    forall s: nat
      ensures View(L', s, u) == View(L, s, u)
    {
      PartialFoldKeepsViews(L, L', i, s, u);
    }
  }

  lemma FoldingKeepsViews(d: Dir, d': Dir, c: seq<Name>, j: nat, kept: set<Name>)
    requires 2 <= j < |c| - 1 && IsFolding(d, d', c, j)
    requires c[j + 1] !in kept
    ensures SameViews(d, c, d', c, kept)
  {
    var L, L' := ChainLayers(d, c), ChainLayers(d', c);
    FoldSame(L, L', |c| - j, |c|);
    forall n | n in kept && n in c
      ensures SameViewOf(d, c, d', c, n)
    {
      FoldSame(L, L', |c| - j, Place(c, n));
    }
  }

  lemma DropSame(L: seq<Layer>, L': seq<Layer>, i: nat, u: nat, u': nat)
    requires 2 <= i < |L| && u < |L| && u != i - 1
    requires L' == RemoveLayer(Fold(L, i), i) && u' == Shift(u, i)
    ensures u' < |L'| && SameView(L, u, L', u')
  {
    forall s: nat
      ensures View(L', s, u') == View(L, s, u)
    {
      FoldRemoveKeepsViews(L, i, s, u);
    }
  }

  lemma DeletedKeepsViews(d: Dir, d': Dir, c: seq<Name>, j: nat, kept: set<Name>)
    requires 2 <= j < |c| - 1 && IsDeleted(d, d', c, j)
    requires c[j] !in kept && c[j + 1] !in kept
    ensures SameViews(d, c, d', DropAt(c, j), kept)
  {
    var c' := DropAt(c, j);
    DropSame(ChainLayers(d, c), ChainLayers(d', c'), |c| - j, |c|, |c'|);
    forall n | n in kept && n in c
      ensures SameViewOf(d, c, d', c', n)
    {
      DeletedKeepsViewOf(d, d', c, j, n);
    }
  }

  lemma DeletedKeepsViewOf(d: Dir, d': Dir, c: seq<Name>, j: nat, n: Name)
    requires 2 <= j < |c| - 1 && IsDeleted(d, d', c, j)
    requires n in c && n != c[j] && n != c[j + 1]
    ensures SameViewOf(d, c, d', DropAt(c, j), n)
  {
    var c', i, u := DropAt(c, j), |c| - j, Place(c, n);
    PlaceAfterDrop(c, j, n);
    DropSame(ChainLayers(d, c), ChainLayers(d', c'), i, u, Shift(u, i));
    DropKeepsEntry(Marks(d, c), i, u);
  }

  lemma DropKeepsEntry<T>(s: seq<T>, i: nat, u: nat)
    requires 0 < i < |s| && u < |s| && u != i
    ensures Shift(u, i) < |s| - 1 && DropAt(s, i)[Shift(u, i)] == s[u]
  {
  }

  /**
    What a client of the volume sees of a deletion, crashed or not: the live view
    and every snapshot view but that of the disk folded into are as before.
  */
  lemma DeleteKeepsViews(d: Dir, c: seq<Name>, j: nat, sectors: seq<nat>, k: nat, u: nat)
    requires Holds(d, c) && 2 <= j < |c| - 1
    requires CopiesAll(d, c[j], sectors)
    requires k <= |DeleteOps(d, c[j - 1], c[j], c[j + 1], sectors)|
    requires u <= |c| && u != |c| - j - 1
    ensures var d' := ApplyAll(d, DeleteOps(d, c[j - 1], c[j], c[j + 1], sectors)[..k]);
            if k <= BypassIndex(sectors)
            then Recover(d') == Some(c) && SameView(ChainLayers(d, c), u, ChainLayers(d', c), u)
            else && Recover(d') == Some(DropAt(c, j))
                 && Shift(u, |c| - j) < |c|
                 && SameView(ChainLayers(d, c), u, ChainLayers(d', DropAt(c, j)), Shift(u, |c| - j))
  {
    var d', L := ApplyAll(d, DeleteOps(d, c[j - 1], c[j], c[j + 1], sectors)[..k]), ChainLayers(d, c);
    DeleteCrashAtomic(d, c, j, sectors, k);
    if k <= BypassIndex(sectors) {
      HoldsRecovers(d', c);
      FoldSame(L, ChainLayers(d', c), |c| - j, u);
    } else {
      HoldsRecovers(d', DropAt(c, j));
      DropSame(L, ChainLayers(d', DropAt(c, j)), |c| - j, u, Shift(u, |c| - j));
    }
  }

  lemma PlaceAfterDrop(c: seq<Name>, j: nat, n: Name)
    requires j < |c| && n in c && n != c[j] && Distinct(DropAt(c, j))
    ensures n in DropAt(c, j) && Place(DropAt(c, j), n) == Shift(Place(c, n), |c| - j)
  {
    var c', u := DropAt(c, j), Place(c, n);
    var u' := Shift(u, |c| - j);
    assert c'[|c'| - u'] == c[|c| - u];
    PlaceIs(c', n, u');
  }

  /**
    What a client sees of a snapshot that succeeds, fails or crashes, as long as no
    clean-up is fatal: the live view and every snapshot are as before.
  */
  lemma SnapshotKeepsViews(d: Dir, c: seq<Name>, i: nat, name: string, inode: nat, userCreated: bool, fault: Fault, k: nat,
                           kept: set<Name>)
    requires Holds(d, c) && c[0] == HeadDisk(i) && inode !in d.inodes
    requires Possible(d, i, name, inode, userCreated, fault)
    requires k <= |SnapshotOps(d, i, name, inode, userCreated, fault)|
    requires !Fatal(d, c, i, name, inode, userCreated, fault, k)
    requires forall n :: n in kept ==> n.SnapDisk?
    ensures Reopens(d, c, ApplyAll(d, SnapshotOps(d, i, name, inode, userCreated, fault)[..k]), kept)
  {
    var d' := ApplyAll(d, SnapshotOps(d, i, name, inode, userCreated, fault)[..k]);
    SnapshotSurvivesIff(d, c, i, name, inode, userCreated, fault, k);
    if IsOld(d, d', c) {
      OldKeepsViews(d, d', c, kept);
      ReopensWith(d, c, d', c, kept);
    } else {
      NewKeepsViews(d, d', c, i, name, userCreated, kept);
      ReopensWith(d, c, d', NewChain(c, i, name), kept);
    }
  }

  // ---- Whole runs with crashes ----

  /** A snapshot or a deletion that stops after k file operations, after which the replica is opened again. */
  datatype Action =
    | Take(name: string, inode: nat, userCreated: bool, fault: Fault, k: nat)
    | Delete(j: nat, sectors: seq<nat>, k: nat)

  /** The kept disks are neither deleted nor folded into, and no clean-up of a failed snapshot is fatal. */
  ghost predicate CanAct(d: Dir, c: seq<Name>, a: Action, kept: set<Name>)
    requires Holds(d, c)
  {
    match a
    case Take(name, inode, user, fault, k) =>
      && inode !in d.inodes
      && Possible(d, c[0].index, name, inode, user, fault)
      && k <= |SnapshotOps(d, c[0].index, name, inode, user, fault)|
      && !Fatal(d, c, c[0].index, name, inode, user, fault, k)
    case Delete(j, sectors, k) =>
      && 2 <= j < |c| - 1
      && c[j] !in kept && c[j + 1] !in kept
      && CopiesAll(d, c[j], sectors)
      && k <= |DeleteOps(d, c[j - 1], c[j], c[j + 1], sectors)|
  }

  ghost function Act(d: Dir, c: seq<Name>, a: Action, kept: set<Name>): Dir
    requires Holds(d, c) && CanAct(d, c, a, kept)
  {
    match a
    case Take(name, inode, user, fault, k) => ApplyAll(d, SnapshotOps(d, c[0].index, name, inode, user, fault)[..k])
    case Delete(j, sectors, k) => ApplyAll(d, DeleteOps(d, c[j - 1], c[j], c[j + 1], sectors)[..k])
  }

  /** Each action starts from the chain that opening the replica finds, as long as it finds a complete one. */
  ghost predicate IsCrashRun(d: Dir, c: seq<Name>, acts: seq<Action>, kept: set<Name>)
    decreases |acts|
  {
    acts != [] && Holds(d, c) ==>
      && CanAct(d, c, acts[0], kept)
      && var d' := Act(d, c, acts[0], kept);
         Recover(d').Some? ==> IsCrashRun(d', Recover(d').value, acts[1..], kept)
  }

  /** The run ends where the replica cannot be opened, or its chain is not complete. */
  ghost function CrashRun(d: Dir, c: seq<Name>, acts: seq<Action>, kept: set<Name>): Dir
    requires IsCrashRun(d, c, acts, kept)
    decreases |acts|
  {
    if acts == [] || !Holds(d, c) then d
    else
      var d' := Act(d, c, acts[0], kept);
      if Recover(d').Some? then CrashRun(d', Recover(d').value, acts[1..], kept) else d'
  }

  /** Opening d' succeeds, with a complete chain that shows what the chain c of d shows. */
  ghost predicate Reopens(d: Dir, c: seq<Name>, d': Dir, kept: set<Name>) {
    && Recover(d').Some?
    && Holds(d', Recover(d').value)
    && SameViews(d, c, d', Recover(d').value, kept)
  }

  lemma ReopensWith(d: Dir, c: seq<Name>, d': Dir, c': seq<Name>, kept: set<Name>)
    requires Holds(d', c') && SameViews(d, c, d', c', kept)
    ensures Reopens(d, c, d', kept)
  {
    HoldsRecovers(d', c');
  }

  lemma DeleteReopens(d: Dir, c: seq<Name>, j: nat, sectors: seq<nat>, k: nat, kept: set<Name>)
    requires Holds(d, c) && CanAct(d, c, Delete(j, sectors, k), kept)
    ensures Reopens(d, c, ApplyAll(d, DeleteOps(d, c[j - 1], c[j], c[j + 1], sectors)[..k]), kept)
  {
    var d' := ApplyAll(d, DeleteOps(d, c[j - 1], c[j], c[j + 1], sectors)[..k]);
    DeleteCrashAtomic(d, c, j, sectors, k);
    if k <= BypassIndex(sectors) {
      FoldingKeepsViews(d, d', c, j, kept);
      ReopensWith(d, c, d', c, kept);
    } else {
      DeletedKeepsViews(d, d', c, j, kept);
      ReopensWith(d, c, d', DropAt(c, j), kept);
    }
  }

  lemma ActReopens(d: Dir, c: seq<Name>, a: Action, kept: set<Name>)
    requires Holds(d, c) && CanAct(d, c, a, kept) && forall n :: n in kept ==> n.SnapDisk?
    ensures Reopens(d, c, Act(d, c, a, kept), kept)
  {
    match a
    case Take(name, inode, user, fault, k) =>
      SnapshotKeepsViews(d, c, c[0].index, name, inode, user, fault, k, kept);
    case Delete(j, sectors, k) => DeleteReopens(d, c, j, sectors, k, kept);
  }

  /**
    However often a replica crashes in the middle of snapshots and deletions, it
    can be opened again, with a complete chain, the live view it had, and every
    kept snapshot in place with the view it had.
  */
  lemma {:induction false} CrashRunKeepsViews(d: Dir, c: seq<Name>, acts: seq<Action>, kept: set<Name>)
    requires Holds(d, c) && IsCrashRun(d, c, acts, kept)
    requires forall n :: n in kept ==> n.SnapDisk?
    ensures Reopens(d, c, CrashRun(d, c, acts, kept), kept)
    decreases |acts|
  {
    if acts == [] {
      ReopensWith(d, c, d, c, kept);
    } else {
      var d' := Act(d, c, acts[0], kept);
      ActReopens(d, c, acts[0], kept);
      var c', end := Recover(d').value, CrashRun(d, c, acts, kept);
      CrashRunKeepsViews(d', c', acts[1..], kept);
      SameViewsTransitive(d, c, d', c', end, Recover(end).value, kept);
    }
  }
}
