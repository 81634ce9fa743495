/**
  What a replica keeps in memory about its chain: the disk records with their
  parents, the children map and the list of active disks.  The three have to
  describe one and the same chain, or the next snapshot or deletion goes wrong.
*/
module ReplicaChain {
  import opened ReplicaDir

  datatype Outcome =
    | Done
    | Refused   // nothing in memory was changed
    | Broken    // a metadata write failed after memory had been changed

  /** Names from the head down. */
  function HeadFirst(active: seq<Name>): (c: seq<Name>)
    ensures |c| == |active|
    ensures forall k :: 0 <= k < |c| ==> c[k] == active[|active| - 1 - k]
  {
    seq(|active|, k requires 0 <= k < |active| => active[|active| - 1 - k])
  }

  type Children = map<Option<Name>, set<Name>>

  function AddChild(children: Children, parent: Option<Name>, child: Name): Children {
    children[parent := (if parent in children then children[parent] else {}) + {child}]
  }

  /** The last child takes its parent's entry with it. */
  function RemoveChild(children: Children, parent: Option<Name>, child: Name): Children {
    if parent !in children || child !in children[parent] then children
    else if children[parent] == {child} then children - {parent}
    else children[parent := children[parent] - {child}]
  }

  function UpdateChild(children: Children, parent: Option<Name>, oldName: Name, newName: Option<Name>): Children {
    var c := RemoveChild(children, parent, oldName);
    if newName.Some? then AddChild(c, parent, newName.value) else c
  }

  predicate HasChild(children: Children, parent: Option<Name>, child: Name) {
    parent in children && child in children[parent]
  }

  /** The children map after one of its updates: exactly the one pair is new, gone, or replaced. */
  lemma ChildrenExact(children: Children, parent: Option<Name>, child: Name, newName: Option<Name>, p: Option<Name>, n: Name)
    ensures HasChild(AddChild(children, parent, child), p, n) <==> HasChild(children, p, n) || (p == parent && n == child)
    ensures HasChild(RemoveChild(children, parent, child), p, n) <==> HasChild(children, p, n) && !(p == parent && n == child)
    ensures HasChild(UpdateChild(children, parent, child, newName), p, n) <==>
              || (HasChild(children, p, n) && !(p == parent && n == child))
              || (p == parent && newName == Some(n))
    ensures HasChild(children, parent, child) && parent in RemoveChild(children, parent, child) ==>
              RemoveChild(children, parent, child)[parent] != {}
  {
    assert HasChild(children, parent, child) ==> (children[parent] - {child} == {} <==> children[parent] == {child});
  }

  function Below(active: seq<Name>, k: nat): Option<Name>
    requires k < |active|
  {
    if k == 0 then None else Some(active[k - 1])
  }

  predicate Named(active: seq<Name>) {
    && |active| > 0
    && Distinct(active)
    && active[|active| - 1].HeadDisk?
    && forall k :: 0 <= k < |active| - 1 ==> active[k].SnapDisk?
  }

  predicate ParentAt(diskData: map<Name, Meta>, active: seq<Name>, k: nat)
    requires k < |active|
  {
    active[k] in diskData && diskData[active[k]].parent == Below(active, k)
  }

  ghost predicate Records(diskData: map<Name, Meta>, active: seq<Name>) {
    && (forall n :: n in diskData ==> n in active)
    && (forall k: nat :: k < |active| ==> ParentAt(diskData, active, k))
  }

  /** The records describe exactly the active disks, each with the disk below it as parent. */
  ghost predicate Chained(diskData: map<Name, Meta>, active: seq<Name>) {
    Named(active) && Records(diskData, active)
  }

  predicate ChildAt(children: Children, active: seq<Name>, k: nat)
    requires k < |active| - 1
  {
    Some(active[k]) in children && children[Some(active[k])] == {active[k + 1]}
  }

  /** On the disks of the chain, the children map is the inverse of the parent pointers. */
  ghost predicate Inverse(children: Children, active: seq<Name>) {
    && (forall k: nat :: k < |active| - 1 ==> ChildAt(children, active, k))
    && (forall p :: p in children && p.Some? ==> p.value.SnapDisk?)
  }

  lemma RecordedIffActive(diskData: map<Name, Meta>, active: seq<Name>, n: Name)
    requires Records(diskData, active)
    ensures n in diskData <==> n in active
  {
    if n in active {
      var k :| 0 <= k < |active| && active[k] == n;
      assert ParentAt(diskData, active, k);
    }
  }

  lemma RecordsParent(diskData: map<Name, Meta>, active: seq<Name>)
    requires Chained(diskData, active)
    ensures active[|active| - 1] in diskData
    ensures diskData[active[|active| - 1]].parent == Below(active, |active| - 1)
  {
    assert ParentAt(diskData, active, |active| - 1);
  }

  /** The parent pointers lead from the head to the base: this is what makes following them stop. */
  lemma ChainedWalks(diskData: map<Name, Meta>, active: seq<Name>)
    requires Chained(diskData, active)
    ensures Linked(diskData, HeadFirst(active)) && Distinct(HeadFirst(active))
    ensures Walk(diskData, active[|active| - 1], diskData.Keys) == Some(HeadFirst(active))
  {
    var c := HeadFirst(active);
    forall k | 0 <= k < |c|
      ensures c[k] in diskData
      ensures diskData[c[k]].parent == if k < |c| - 1 then Some(c[k + 1]) else None
    {
      assert ParentAt(diskData, active, |active| - 1 - k);
    }
    assert c[|c| - 1] == active[0] && ParentAt(diskData, active, 0);
    assert Linked(diskData, c);
    WalkFindsChain(diskData, c, diskData.Keys);
  }

  /** A child recorded for a live disk is exactly a live disk that has it as parent. */
  lemma InverseIsExact(diskData: map<Name, Meta>, children: Children, active: seq<Name>, p: Name, n: Name)
    requires Chained(diskData, active) && Inverse(children, active)
    requires p in diskData
    ensures (Some(p) in children && n in children[Some(p)]) <==> (n in diskData && diskData[n].parent == Some(p))
  {
    var k :| 0 <= k < |active| && active[k] == p;
    if n in diskData {
      var m :| 0 <= m < |active| && active[m] == n;
      assert ParentAt(diskData, active, m);
    }
    if k < |active| - 1 {
      assert ChildAt(children, active, k);
      assert ParentAt(diskData, active, k + 1);
    }
  }

  // ---- Snapshots ----

  function Renamed(diskData: map<Name, Meta>, oldHead: Name, newHead: Name, snap: Name, userCreated: bool): map<Name, Meta>
    requires oldHead in diskData
  {
    diskData[newHead := HeadMeta(snap)][snap := diskData[oldHead].(userCreated := userCreated)] - {oldHead}
  }

  /**
    What a snapshot does to the records: the new head points to the snapshot, the
    snapshot has the record of the old head but for the requested mark, the old head
    has none, and no other record changes.
  */
  predicate SnapshotRecorded(data: map<Name, Meta>, data': map<Name, Meta>, oldHead: Name, newHead: Name, snap: Name, userCreated: bool) {
    && oldHead in data
    && data'.Keys == data.Keys - {oldHead} + {newHead, snap}
    && data'[newHead] == Meta(Some(snap), false, false)
    && data'[snap] == Meta(data[oldHead].parent, userCreated, data[oldHead].removed)
    && forall n :: n in data && n !in {oldHead, newHead, snap} ==> data'[n] == data[n]
  }

  /** What a deletion does to the records: the child gets the parent of the disk, which is forgotten; nothing else changes. */
  predicate RemovalRecorded(data: map<Name, Meta>, data': map<Name, Meta>, n: Name, child: Name) {
    && n in data && child in data && child != n
    && data'.Keys == data.Keys - {n}
    && data'[child] == Meta(data[n].parent, data[child].userCreated, data[child].removed)
    && forall m :: m in data && m !in {n, child} ==> data'[m] == data[m]
  }

  lemma RenamedIsRecorded(data: map<Name, Meta>, oldHead: Name, newHead: Name, snap: Name, userCreated: bool)
    requires oldHead in data && oldHead != newHead && snap !in {oldHead, newHead}
    ensures SnapshotRecorded(data, Renamed(data, oldHead, newHead, snap, userCreated), oldHead, newHead, snap, userCreated)
  {
  }

  lemma DroppedIsRecorded(data: map<Name, Meta>, n: Name, child: Name)
    requires n in data && child in data && child != n
    ensures RemovalRecorded(data, Dropped(data, n, child), n, child)
  {
  }

  function Grown(active: seq<Name>, snap: Name, newHead: Name): (a: seq<Name>)
    requires |active| > 0
    ensures |a| == |active| + 1 && a[|active|] == newHead && a[|active| - 1] == snap
    ensures forall k :: 0 <= k < |active| - 1 ==> a[k] == active[k]
  {
    active[|active| - 1 := snap] + [newHead]
  }

  lemma CreateKeepsNamed(active: seq<Name>, i: nat, name: string)
    requires Named(active) && active[|active| - 1] == HeadDisk(i)
    requires SnapDisk(name) !in active
    ensures Named(Grown(active, SnapDisk(name), HeadDisk(i + 1)))
  {
  }

  lemma CreateKeepsChained(diskData: map<Name, Meta>, active: seq<Name>, i: nat, name: string, userCreated: bool)
    requires Chained(diskData, active) && active[|active| - 1] == HeadDisk(i)
    requires SnapDisk(name) !in active
    ensures HeadDisk(i) in diskData
    ensures Chained(Renamed(diskData, HeadDisk(i), HeadDisk(i + 1), SnapDisk(name), userCreated),
                    Grown(active, SnapDisk(name), HeadDisk(i + 1)))
  {
    var oldHead, newHead, snap := HeadDisk(i), HeadDisk(i + 1), SnapDisk(name);
    var a := Grown(active, snap, newHead);
    assert ParentAt(diskData, active, |active| - 1);
    var data := Renamed(diskData, oldHead, newHead, snap, userCreated);
    CreateKeepsNamed(active, i, name);
    forall n | n in data
      ensures n in a
    {
      if n != newHead && n != snap {
        var k :| 0 <= k < |active| && active[k] == n;
        assert a[k] == n;
      }
    }
    forall k: nat | k < |a|
      ensures ParentAt(data, a, k)
    {
      if k < |active| {
        assert ParentAt(diskData, active, k);
      }
    }
  }

  function ChildrenAfterCreate(children: Children, parent: Option<Name>, oldHead: Name, newHead: Name, snap: Name): Children {
    UpdateChild(AddChild(children, Some(snap), newHead), parent, oldHead, Some(snap))
  }

  /**
    The children map stays exact through a snapshot if and only if it has no left
    over entry for the snapshot's name.  Deleting a disk leaves such an entry
    behind, so a name must not be used twice while the replica is open.
  */
  lemma CreateInverseIff(children: Children, active: seq<Name>, i: nat, name: string)
    requires Named(active) && Inverse(children, active) && active[|active| - 1] == HeadDisk(i)
    requires SnapDisk(name) !in active
    ensures var oldHead, newHead, snap := HeadDisk(i), HeadDisk(i + 1), SnapDisk(name);
            Inverse(ChildrenAfterCreate(children, Below(active, |active| - 1), oldHead, newHead, snap),
                    Grown(active, snap, newHead))
            <==> (Some(snap) in children ==> children[Some(snap)] <= {newHead})
  {
    var oldHead, newHead, snap := HeadDisk(i), HeadDisk(i + 1), SnapDisk(name);
    var last := |active| - 1;
    var parent := Below(active, last);
    var a := Grown(active, snap, newHead);
    var ch := ChildrenAfterCreate(children, parent, oldHead, newHead, snap);
    assert parent != Some(snap);
    assert forall p :: p in ch ==> p in children || p == parent || p == Some(snap);
    assert ch[Some(snap)] == (if Some(snap) in children then children[Some(snap)] else {}) + {newHead};
    forall k: nat | k < last
      ensures ChildAt(ch, a, k)
    {
      assert ChildAt(children, active, k);
    }
    assert ChildAt(ch, a, last) <==> (Some(snap) in children ==> children[Some(snap)] <= {newHead});
  }

  // ---- Deletions ----

  lemma DropKeepsNamed(active: seq<Name>, index: nat)
    requires Named(active) && index < |active| - 1
    ensures Named(DropAt(active, index))
  {
  }

  /** The records once the child of a disk has taken over its parent and the disk is forgotten. */
  function Dropped(diskData: map<Name, Meta>, n: Name, child: Name): map<Name, Meta>
    requires n in diskData && child in diskData
  {
    diskData[child := diskData[child].(parent := diskData[n].parent)] - {n}
  }

  lemma DropKeepsChained(diskData: map<Name, Meta>, active: seq<Name>, index: nat)
    requires Chained(diskData, active) && index < |active| - 1
    ensures ParentAt(diskData, active, index) && ParentAt(diskData, active, index + 1)
    ensures Chained(Dropped(diskData, active[index], active[index + 1]), DropAt(active, index))
  {
    assert ParentAt(diskData, active, index) && ParentAt(diskData, active, index + 1);
    var data := Dropped(diskData, active[index], active[index + 1]);
    var a := DropAt(active, index);
    DropKeepsNamed(active, index);
    forall m | m in data
      ensures m in a
    {
      assert m in active && m != active[index];
      DropKeepsMember(active, index, m);
    }
    forall k: nat | k < |a|
      ensures ParentAt(data, a, k)
    {
      DropKeepsParent(diskData, active, index, k);
    }
  }

  lemma DropKeepsMember(active: seq<Name>, index: nat, m: Name)
    requires index < |active| && m in active && m != active[index]
    ensures m in DropAt(active, index)
  {
    var k :| 0 <= k < |active| && active[k] == m;
    assert DropAt(active, index)[if k < index then k else k - 1] == m;
  }

  lemma DropKeepsParent(diskData: map<Name, Meta>, active: seq<Name>, index: nat, k: nat)
    requires Chained(diskData, active) && index < |active| - 1 && k < |active| - 1
    requires active[index] in diskData && active[index + 1] in diskData
    ensures ParentAt(Dropped(diskData, active[index], active[index + 1]), DropAt(active, index), k)
  {
    assert ParentAt(diskData, active, if k < index then k else k + 1);
    assert ParentAt(diskData, active, index);
  }

  lemma DropKeepsInverse(children: Children, active: seq<Name>, index: nat)
    requires Named(active) && Inverse(children, active) && index < |active| - 1
    ensures Inverse(UpdateChild(children, Below(active, index), active[index], Some(active[index + 1])),
                    DropAt(active, index))
  {
    var n, child := active[index], active[index + 1];
    var parent := Below(active, index);
    var ch := UpdateChild(children, parent, n, Some(child));
    var a := DropAt(active, index);
    assert forall p :: p in ch ==> p in children || p == parent;
    forall k: nat | k < |a| - 1
      ensures ChildAt(ch, a, k)
    {
      assert ChildAt(children, active, if k < index then k else k + 1);
    }
  }

  // ---- Names and files ----

  function NamesOf(c: seq<Name>): set<string> {
    set n | n in c && n.SnapDisk? :: n.name
  }

  /** Every snapshot of the chain, and every disk that the children map has an entry for, has a used name. */
  ghost predicate NamesUsed(children: Children, active: seq<Name>, used: set<string>) {
    && (forall p :: p in children && p.Some? ==> p.value.SnapDisk? && p.value.name in used)
    && (forall n :: n in active && n.SnapDisk? ==> n.name in used)
  }

  /** The open files are those that the disks were opened as, in the order of the disks. */
  ghost predicate FilesMatch(files: seq<nat>, handles: map<Name, nat>, active: seq<Name>) {
    |files| == |active| && forall k :: 0 <= k < |active| ==> active[k] in handles && files[k] == handles[active[k]]
  }

  /** The old head goes on under the snapshot's name, as the same file. */
  function HandlesAfterCreate(handles: map<Name, nat>, oldHead: Name, newHead: Name, snap: Name, newFile: nat): map<Name, nat>
    requires oldHead in handles
  {
    handles[snap := handles[oldHead]][newHead := newFile]
  }

  lemma CreateKeepsNames(children: Children, active: seq<Name>, used: set<string>, i: nat, name: string)
    requires Named(active) && active[|active| - 1] == HeadDisk(i)
    requires NamesUsed(children, active, used)
    ensures NamesUsed(ChildrenAfterCreate(children, Below(active, |active| - 1), HeadDisk(i), HeadDisk(i + 1), SnapDisk(name)),
                      Grown(active, SnapDisk(name), HeadDisk(i + 1)), used + {name})
  {
    var a := Grown(active, SnapDisk(name), HeadDisk(i + 1));
    forall n | n in a && n.SnapDisk?
      ensures n.name in used + {name}
    {
      var k :| 0 <= k < |a| && a[k] == n;
      assert k < |active| - 1 ==> active[k] == n;
    }
  }

  lemma CreateKeepsFiles(files: seq<nat>, handles: map<Name, nat>, active: seq<Name>, i: nat, name: string, newFile: nat)
    requires Named(active) && active[|active| - 1] == HeadDisk(i) && SnapDisk(name) !in active
    requires FilesMatch(files, handles, active)
    ensures HeadDisk(i) in handles
    ensures FilesMatch(files + [newFile], HandlesAfterCreate(handles, HeadDisk(i), HeadDisk(i + 1), SnapDisk(name), newFile),
                       Grown(active, SnapDisk(name), HeadDisk(i + 1)))
  {
  }

  lemma DropKeepsNames(children: Children, active: seq<Name>, used: set<string>, index: nat)
    requires Named(active) && index < |active| - 1 && NamesUsed(children, active, used)
    ensures NamesUsed(UpdateChild(children, Below(active, index), active[index], Some(active[index + 1])),
                      DropAt(active, index), used)
  {
    var a := DropAt(active, index);
    assert index > 0 ==> active[index - 1] in active;
    forall n | n in a && n.SnapDisk?
      ensures n.name in used
    {
      var k :| 0 <= k < |a| && a[k] == n;
      assert active[if k < index then k else k + 1] == n;
    }
  }

  lemma DropKeepsFiles(files: seq<nat>, handles: map<Name, nat>, active: seq<Name>, index: nat)
    requires FilesMatch(files, handles, active) && index < |active|
    ensures FilesMatch(DropAt(files, index), handles, DropAt(active, index))
  {
  }

  /** The volume information names the head and the latest snapshot. */
  predicate AtTop(head: Name, parent: Option<Name>, active: seq<Name>) {
    |active| > 0 && head == active[|active| - 1] && parent == Below(active, |active| - 1)
  }

  lemma DropKeepsTop(head: Name, parent: Option<Name>, active: seq<Name>, index: nat)
    requires AtTop(head, parent, active) && index < |active| - 2
    ensures AtTop(head, parent, DropAt(active, index))
  {
  }

  lemma TopIsLast(head: Name, parent: Option<Name>, active: seq<Name>, name: Name, index: nat)
    requires AtTop(head, parent, active) && name != head && parent != Some(name)
    requires index < |active| && active[index] == name
    ensures index < |active| - 2
  {
  }

  /** All records of a replica describe one and the same chain. */
  ghost predicate OneChain(head: Name, parent: Option<Name>, diskData: map<Name, Meta>, children: Children, active: seq<Name>,
                           files: seq<nat>, used: set<string>, handles: map<Name, nat>)
  {
    && Chained(diskData, active)
    && Inverse(children, active)
    && AtTop(head, parent, active)
    && NamesUsed(children, active, used)
    && FilesMatch(files, handles, active)
  }

  /** What a snapshot makes of the records, before it is known whether the children map had anything stale. */
  lemma TakeKeepsChain(head: Name, parent: Option<Name>, diskData: map<Name, Meta>, active: seq<Name>, name: string, userCreated: bool)
    requires Chained(diskData, active) && AtTop(head, parent, active) && SnapDisk(name) !in active
    ensures head.HeadDisk? && head in diskData && diskData[head].parent == parent
    ensures var newHead, snap := HeadDisk(head.index + 1), SnapDisk(name);
            var data, a := Renamed(diskData, head, newHead, snap, userCreated), Grown(active, snap, newHead);
            && Chained(data, a) && AtTop(newHead, Some(snap), a)
            && SnapshotRecorded(diskData, data, head, newHead, snap, userCreated)
  {
    RecordsParent(diskData, active);
    CreateKeepsChained(diskData, active, head.index, name, userCreated);
    RenamedIsRecorded(diskData, head, HeadDisk(head.index + 1), SnapDisk(name), userCreated);
  }

  /** After a snapshot all records agree if and only if the children map had nothing stale under its name. */
  lemma TakeKeeps(head: Name, parent: Option<Name>, diskData: map<Name, Meta>, children: Children, active: seq<Name>,
                  files: seq<nat>, used: set<string>, handles: map<Name, nat>, name: string, userCreated: bool, newFile: nat)
    requires OneChain(head, parent, diskData, children, active, files, used, handles) && SnapDisk(name) !in active
    ensures head.HeadDisk? && head in diskData && head in handles
    ensures var newHead, snap := HeadDisk(head.index + 1), SnapDisk(name);
            var data, a := Renamed(diskData, head, newHead, snap, userCreated), Grown(active, snap, newHead);
            var ch := ChildrenAfterCreate(children, parent, head, newHead, snap);
            && (OneChain(newHead, Some(snap), data, ch, a, files + [newFile], used + {name},
                         HandlesAfterCreate(handles, head, newHead, snap, newFile))
                <==> (Some(snap) in children ==> children[Some(snap)] <= {newHead}))
            && (name !in used ==> Some(snap) !in children)
  {
    TakeKeepsChain(head, parent, diskData, active, name, userCreated);
    CreateInverseIff(children, active, head.index, name);
    CreateKeepsNames(children, active, used, head.index, name);
    CreateKeepsFiles(files, handles, active, head.index, name, newFile);
  }

  /** Forgetting a disk keeps the records in agreement. */
  lemma ForgetKeeps(head: Name, parent: Option<Name>, diskData: map<Name, Meta>, children: Children, active: seq<Name>,
                    files: seq<nat>, used: set<string>, handles: map<Name, nat>, index: nat)
    requires OneChain(head, parent, diskData, children, active, files, used, handles) && index < |active| - 2
    ensures var n, child := active[index], active[index + 1];
            && n in diskData && child in diskData && diskData[n].parent == Below(active, index) && |files| == |active|
            && OneChain(head, parent, Dropped(diskData, n, child), UpdateChild(children, diskData[n].parent, n, Some(child)),
                        DropAt(active, index), DropAt(files, index), used, handles)
  {
    DropKeepsChained(diskData, active, index);
    DropKeepsInverse(children, active, index);
    DropKeepsTop(head, parent, active, index);
    DropKeepsNames(children, active, used, index);
    DropKeepsFiles(files, handles, active, index);
  }

  // ---- Opening a volume ----

  /** The records of the first k disks of the chain c, head first. */
  function DataOf(metas: map<Name, Meta>, c: seq<Name>, k: nat): map<Name, Meta>
    requires k <= |c| && forall n :: n in c ==> n in metas
  {
    if k == 0 then map[] else DataOf(metas, c, k - 1)[c[k - 1] := metas[c[k - 1]]]
  }

  /** The children recorded once the first k disks have been read. */
  function ChildrenOf(c: seq<Name>, k: nat): Children
    requires k <= |c|
  {
    if k == 0 then map[]
    else if k == |c| then ChildrenOf(c, k - 1)
    else AddChild(ChildrenOf(c, k - 1), Some(c[k]), c[k - 1])
  }

  lemma {:induction false} DataOfExact(metas: map<Name, Meta>, c: seq<Name>, k: nat, n: Name)
    requires k <= |c| && forall m :: m in c ==> m in metas
    ensures n in DataOf(metas, c, k) <==> n in c[..k]
    ensures n in DataOf(metas, c, k) ==> n in metas && DataOf(metas, c, k)[n] == metas[n]
  {
    if k > 0 {
      DataOfExact(metas, c, k - 1, n);
      assert c[..k] == c[..k - 1] + [c[k - 1]];
    }
  }

  lemma {:induction false} ChildrenOfExact(c: seq<Name>, k: nat, p: Option<Name>)
    requires k <= |c| && Distinct(c)
    ensures p in ChildrenOf(c, k) ==> p.Some? && exists j :: 1 <= j <= k && j < |c| && c[j] == p.value
    ensures forall j: nat :: ReadChild(c, k, j) && p == Some(c[j]) ==> p in ChildrenOf(c, k) && ChildrenOf(c, k)[p] == {c[j - 1]}
  {
    if k > 0 {
      ChildrenOfExact(c, k - 1, p);
      if p in ChildrenOf(c, k - 1) {
        var j :| 1 <= j <= k - 1 && j < |c| && c[j] == p.value;
        assert k < |c| ==> c[j] != c[k];
      }
      forall j: nat | ReadChild(c, k, j) && p == Some(c[j])
        ensures p in ChildrenOf(c, k) && ChildrenOf(c, k)[p] == {c[j - 1]}
      {
        if j < k {
          assert ReadChild(c, k - 1, j);
        }
      }
    }
  }

  predicate ReadChild(c: seq<Name>, k: nat, j: nat) {
    1 <= j <= k <= |c| && j < |c|
  }

  /** Reads the metadata of the head and then of one parent after the other. */
  method ReadMetadata(d: Dir, ghost c: seq<Name>) returns (data: map<Name, Meta>, ch: Children, names: seq<Name>)
    requires Holds(d, c)
    ensures data == DataOf(d.metas, c, |c|) && ch == ChildrenOf(c, |c|) && names == HeadFirst(c)
  {
    data, ch, names := map[], map[], [];
    var cur := d.head;
    ghost var k := 0;
    while cur.Some?
      invariant 0 <= k <= |c|
      invariant data == DataOf(d.metas, c, k) && ch == ChildrenOf(c, k)
      invariant |names| == k && forall j :: 0 <= j < k ==> names[j] == c[k - 1 - j]
      invariant cur == if k < |c| then Some(c[k]) else None
      decreases |c| - k
    {
      var n := cur.value;
      var p := d.metas[n].parent;
      assert k + 1 < |c| ==> LinkedAt(d.metas, c, k);
      assert p == if k + 1 < |c| then Some(c[k + 1]) else None;
      data := data[n := d.metas[n]];
      if p.Some? {
        ch := AddChild(ch, p, n);
      }
      names := [n] + names;
      cur := p;
      k := k + 1;
    }
    assert names == HeadFirst(c);
  }

  /** What has been read describes the chain found on disk, and one chain only. */
  lemma LoadedIsChained(d: Dir, c: seq<Name>)
    requires Holds(d, c)
    ensures Chained(DataOf(d.metas, c, |c|), HeadFirst(c)) && Inverse(ChildrenOf(c, |c|), HeadFirst(c))
    ensures NamesUsed(ChildrenOf(c, |c|), HeadFirst(c), NamesOf(c))
    ensures HeadFirst(HeadFirst(c)) == c
  {
    var data, ch, names := DataOf(d.metas, c, |c|), ChildrenOf(c, |c|), HeadFirst(c);
    assert c[..|c|] == c;
    forall n | n in data
      ensures n in names
    {
      DataOfExact(d.metas, c, |c|, n);
      var j :| 0 <= j < |c| && c[j] == n;
      assert names[|c| - 1 - j] == n;
    }
    forall k: nat | k < |names|
      ensures ParentAt(data, names, k)
    {
      LoadedParent(d, c, k);
    }
    forall k: nat | k < |names| - 1
      ensures ChildAt(ch, names, k)
    {
      ChildrenOfExact(c, |c|, Some(names[k]));
      assert ReadChild(c, |c|, |c| - 1 - k);
    }
    forall p | p in ch && p.Some?
      ensures p.value.SnapDisk? && p.value.name in NamesOf(c)
    {
      ChildrenOfExact(c, |c|, p);
    }
    LoadedNamed(c, names);
  }

  lemma LoadedParent(d: Dir, c: seq<Name>, k: nat)
    requires Holds(d, c) && k < |c|
    ensures ParentAt(DataOf(d.metas, c, |c|), HeadFirst(c), k)
  {
    var j := |c| - 1 - k;
    assert c[..|c|] == c;
    DataOfExact(d.metas, c, |c|, c[j]);
    assert HeadFirst(c)[k] == c[j];
    assert j < |c| - 1 ==> LinkedAt(d.metas, c, j);
  }

  lemma LoadedNamed(c: seq<Name>, names: seq<Name>)
    requires WellNamed(c) && Distinct(c) && |names| == |c| && forall j :: 0 <= j < |c| ==> names[j] == c[|c| - 1 - j]
    ensures Named(names)
  {
  }

  class Replica {
    var head: Name
    var parent: Option<Name>
    var diskData: map<Name, Meta>
    var children: Children
    /** Base first, head last. */
    var active: seq<Name>
    /** The open files of the volume, aligned with active. */
    var files: seq<nat>
    var writable: bool
    /** The snapshot names used since the replica was opened. */
    ghost var used: set<string>
    /** Which file each disk was opened as. */
    ghost var handles: map<Name, nat>

    ghost predicate Valid()
      reads this
    {
      OneChain(head, parent, diskData, children, active, files, used, handles)
    }

    /** Opens the files of a chain whose metadata has been read, from the base up. */
    constructor (data: map<Name, Meta>, ch: Children, names: seq<Name>, inodes: map<Name, nat>, writable: bool)
      requires Chained(data, names) && Inverse(ch, names) && NamesUsed(ch, names, NamesOf(names))
      requires forall n :: n in names ==> n in inodes
      ensures Valid() && active == names && diskData == data && children == ch && this.writable == writable
      ensures used == NamesOf(names) && handles == inodes
    {
      RecordsParent(data, names);
      head, diskData, children, active := names[|names| - 1], data, ch, names;
      parent := data[names[|names| - 1]].parent;
      files := seq(|names|, k requires 0 <= k < |names| => inodes[names[k]]);
      this.writable := writable;
      used, handles := NamesOf(names), inodes;
    }

    /** Follows the parent pointers from the head to the base; every name met has metadata. */
    method Chain() returns (chain: seq<Name>)
      requires Valid()
      ensures chain == HeadFirst(active)
    {
      var result := [];
      var cur := Some(head);
      ghost var k := |active| - 1;
      while cur.Some?
        invariant -1 <= k < |active|
        invariant cur == if k >= 0 then Some(active[k]) else None
        invariant |result| == |active| - 1 - k
        invariant forall j :: 0 <= j < |result| ==> result[j] == active[|active| - 1 - j]
        decreases k
      {
        result := result + [cur.value];
        assert ParentAt(diskData, active, k);
        cur := diskData[cur.value].parent;
        k := k - 1;
      }
      return result;
    }

    /** The position of a disk in the chain, counted from 1; 0 if it is not there. */
    method FindDisk(name: Name) returns (index: nat)
      ensures index == 0 ==> name !in active
      ensures index > 0 ==> index <= |active| && active[index - 1] == name
    {
      index := 1;
      while index <= |active|
        invariant 1 <= index <= |active| + 1
        invariant forall k :: 0 <= k < index - 1 ==> active[k] != name
      {
        if active[index - 1] == name {
          return;
        }
        index := index + 1;
      }
      index := 0;
    }

    /**
      Takes a snapshot.  Each file step may fail: before the links are made,
      memory is untouched; after, it is left as it is in the middle.  A name that
      is in use cannot be linked to.
    */
    method CreateDisk(name: string, userCreated: bool, newFile: nat, maxChain: nat,
                      linkable: bool, written: bool, recorded: bool) returns (outcome: Outcome)
      requires Valid()
      modifies this`head, this`parent, this`diskData, this`children, this`active, this`files, this`used, this`handles
      ensures outcome == Refused ==> unchanged(this)
      ensures outcome == Refused <==>
                old(|active|) + 2 > maxChain || !old(writable) || SnapDisk(name) in old(active) || !linkable
      ensures outcome == Done ==> written && recorded
      ensures outcome == Broken ==> !(written && recorded) && head == old(head) && parent == old(parent)
      ensures outcome != Refused ==> old(head) in old(diskData) && old(head).HeadDisk? && used == old(used) + {name}
      ensures outcome == Done || (outcome == Broken && written) ==>
                var oldHead, newHead, snap := old(head), HeadDisk(old(head).index + 1), SnapDisk(name);
                && active == Grown(old(active), snap, newHead)
                && children == ChildrenAfterCreate(old(children), old(parent), oldHead, newHead, snap)
                && files == old(files) + [newFile]
                && Chained(diskData, active)
                && SnapshotRecorded(old(diskData), diskData, oldHead, newHead, snap, userCreated)
      ensures outcome == Broken && !written ==>
                var newHead, snap := HeadDisk(old(head).index + 1), SnapDisk(name);
                && active == old(active) && files == old(files) && children == AddChild(old(children), Some(snap), newHead)
                && old(head) in diskData && diskData[old(head)] == old(diskData)[old(head)]
                && SnapshotRecorded(old(diskData), diskData - {old(head)}, old(head), newHead, snap, userCreated)
      ensures outcome == Done ==> AtTop(head, parent, active)
      ensures outcome == Done ==>
                (Valid() <==> (Some(SnapDisk(name)) in old(children) ==>
                                 old(children)[Some(SnapDisk(name))] <= {HeadDisk(old(head).index + 1)}))
      ensures outcome == Done && name !in old(used) ==> Valid()
    {
      if !writable || |active| + 2 > maxChain {
        return Refused;
      }
      if SnapDisk(name) in active || !linkable {
        return Refused;
      }
      TakeKeepsChain(head, parent, diskData, active, name, userCreated);
      TakeKeeps(head, parent, diskData, children, active, files, used, handles, name, userCreated, newFile);
      outcome := RecordSnapshot(name, userCreated, newFile, written, recorded);
    }

    /** What follows once the new head exists and the old one has been linked under the snapshot's name. */
    method RecordSnapshot(name: string, userCreated: bool, newFile: nat, written: bool, recorded: bool)
      returns (outcome: Outcome)
      requires head.HeadDisk? && head in diskData && head in handles && |active| > 0
      modifies this`head, this`parent, this`diskData, this`children, this`active, this`files, this`used, this`handles
      ensures outcome == if written && recorded then Done else Broken
      ensures used == old(used) + {name}
      ensures var oldHead, newHead, snap := old(head), HeadDisk(old(head).index + 1), SnapDisk(name);
              if written then
                && active == Grown(old(active), snap, newHead)
                && diskData == Renamed(old(diskData), oldHead, newHead, snap, userCreated)
                && children == ChildrenAfterCreate(old(children), old(diskData)[oldHead].parent, oldHead, newHead, snap)
                && files == old(files) + [newFile]
                && handles == HandlesAfterCreate(old(handles), oldHead, newHead, snap, newFile)
                && (if recorded then head == newHead && parent == Some(snap) else head == oldHead && parent == old(parent))
              else
                && active == old(active) && files == old(files) && handles == old(handles)
                && children == AddChild(old(children), Some(snap), newHead)
                && head == oldHead && parent == old(parent)
                && oldHead in diskData && diskData[oldHead] == old(diskData)[oldHead]
                && diskData - {oldHead} == Renamed(old(diskData), oldHead, newHead, snap, userCreated)
    {
      used := used + {name};
      var oldHead, snap := head, SnapDisk(name);
      var newHead := HeadDisk(oldHead.index + 1);
      var oldParent := diskData[oldHead].parent;
      children := AddChild(children, Some(snap), newHead);
      diskData := diskData[newHead := HeadMeta(snap)][snap := diskData[oldHead].(userCreated := userCreated)];
      if !written {
        return Broken;
      }
      Activate(oldParent, oldHead, newHead, snap, newFile);
      if !recorded {
        return Broken;
      }
      head, parent := newHead, Some(snap);
      return Done;
    }

    /** Once the metadata of the snapshot is written: the old head's name gives way to the snapshot's. */
    method Activate(oldParent: Option<Name>, oldHead: Name, newHead: Name, snap: Name, newFile: nat)
      requires oldHead in handles && |active| > 0
      modifies this`diskData, this`children, this`active, this`files, this`handles
      ensures children == UpdateChild(old(children), oldParent, oldHead, Some(snap))
      ensures diskData == old(diskData) - {oldHead}
      ensures handles == HandlesAfterCreate(old(handles), oldHead, newHead, snap, newFile)
      ensures files == old(files) + [newFile] && active == Grown(old(active), snap, newHead)
    {
      children := UpdateChild(children, oldParent, oldHead, Some(snap));
      diskData := diskData - {oldHead};
      handles := HandlesAfterCreate(handles, oldHead, newHead, snap, newFile);
      files := files + [newFile];
      active := Grown(active, snap, newHead);
    }

    /**
      Takes a disk out of the records and returns where it was.  A disk that is
      not known is no error; a failed metadata write stops the process.
    */
    method RemoveDiskNode(name: Name) returns (ghost index: int)
      requires Valid()
      requires name != head && parent != Some(name)
      modifies this
      ensures Valid() && head == old(head)
      ensures used == old(used) && handles == old(handles) && writable == old(writable)
      ensures name !in old(active) ==> unchanged(this)
      ensures name in old(active) ==>
                && 0 <= index < old(|active|) - 1 && old(active)[index] == name
                && active == DropAt(old(active), index)
                && files == DropAt(old(files), index)
                && children == UpdateChild(old(children), Below(old(active), index), name, Some(old(active)[index + 1]))
                && name in old(diskData) && old(active)[index + 1] in old(diskData)
                && diskData == Dropped(old(diskData), name, old(active)[index + 1])
    {
      RecordedIffActive(diskData, active, name);
      index := -1;
      if name !in diskData {
        return;
      }
      var i := FindDisk(name);
      index := i - 1;
      TopIsLast(head, parent, active, name, index);
      assert ChildAt(children, active, index);
      if Some(name) !in children || |children[Some(name)]| > 1 {
        assert false;
      }
      var child :| child in children[Some(name)];
      ForgetDisk(i - 1, child);
    }

    /** The child takes over the parent, and the disk leaves all three records. */
    method ForgetDisk(index: nat, child: Name)
      requires Valid() && index < |active| - 2 && child == active[index + 1]
      modifies this
      ensures Valid() && head == old(head)
      ensures used == old(used) && handles == old(handles) && writable == old(writable)
      ensures active == DropAt(old(active), index) && files == DropAt(old(files), index)
      ensures children == UpdateChild(old(children), Below(old(active), index), old(active)[index], Some(child))
      ensures old(active)[index] in old(diskData) && child in old(diskData)
      ensures diskData == Dropped(old(diskData), old(active)[index], child)
    {
      var name := active[index];
      ForgetKeeps(head, parent, diskData, children, active, files, used, handles, index);
      children := UpdateChild(children, diskData[name].parent, name, Some(child));
      diskData := Dropped(diskData, name, child);
      files := DropAt(files, index);
      active := DropAt(active, index);
    }

    /**
      Deletes a disk that has been folded into its parent; the head and the latest
      snapshot are refused.  The disk's own entry in the children map stays behind.
    */
    method RemoveDiffDisk(name: Name) returns (ok: bool, ghost index: int)
      requires Valid()
      modifies this
      ensures Valid() && head == old(head)
      ensures ok <==> old(writable) && name != old(head) && old(parent) != Some(name)
      ensures used == old(used) && handles == old(handles) && writable == old(writable)
      ensures !ok || name !in old(active) ==> unchanged(this)
      ensures ok && name in old(active) ==>
                && 0 <= index < old(|active|) - 1 && old(active)[index] == name
                && active == DropAt(old(active), index)
                && files == DropAt(old(files), index)
                && children == UpdateChild(old(children), Below(old(active), index), name, Some(old(active)[index + 1]))
                && RemovalRecorded(old(diskData), diskData, name, old(active)[index + 1])
    {
      if !writable || name == head || parent == Some(name) {
        return false, -1;
      }
      ghost var data, was := diskData, active;
      index := RemoveDiskNode(name);
      ok := true;
      if name in was {
        DroppedIsRecorded(data, name, was[index + 1]);
      }
    }

    /** One event of a run; a snapshot has to have a name that was never used. */
    method Handle(e: Event, maxChain: nat) returns (broken: bool)
      requires Valid()
      requires e.TakeEvent? ==> e.name !in used
      modifies this
      ensures writable == old(writable)
      ensures !broken ==> Valid() && active == After(old(active), e, writable, maxChain)
      ensures !broken ==> used <= old(used) + (if e.TakeEvent? then {e.name} else {})
      ensures !broken ==> MarksFollow(old(diskData), diskData, old(active), active, e)
      ensures !broken ==> head == old(head) || (old(head).HeadDisk? && head == HeadDisk(old(head).index + 1))
      ensures broken ==> e.TakeEvent? && !(e.written && e.recorded)
    {
      ghost var before, data := active, diskData;
      match e {
        case TakeEvent(name, user, file, linkable, written, recorded) =>
          var outcome := CreateDisk(name, user, file, maxChain, linkable, written, recorded);
          if outcome == Refused {
            UnchangedMarks(diskData, active, e);
          } else if outcome == Done {
            SnapshotMarks(data, diskData, before, old(head).index, e);
          }
          return outcome == Broken;
        case DropEvent(disk) =>
          ghost var index;
          var ok;
          ok, index := RemoveDiffDisk(disk);
          DropAfter(before, disk, ok, index, writable, maxChain);
          if ok && disk in before {
            RemovalMarks(data, diskData, before, index, e);
          } else {
            UnchangedMarks(diskData, active, e);
          }
          return false;
      }
    }
  }

  // ---- Whole runs ----

  /** A snapshot or a deletion; the flags say which file operations of a snapshot succeed. */
  datatype Event =
    | TakeEvent(name: string, userCreated: bool, file: nat, linkable: bool, written: bool, recorded: bool)
    | DropEvent(disk: Name)

  /** What an event makes of the list of active disks. */
  ghost function After(active: seq<Name>, e: Event, writable: bool, maxChain: nat): seq<Name> {
    match e
    case TakeEvent(name, _, _, linkable, _, _) =>
      if !writable || !linkable || |active| + 2 > maxChain || SnapDisk(name) in active
         || active == [] || !active[|active| - 1].HeadDisk?
      then active
      else Grown(active, SnapDisk(name), HeadDisk(active[|active| - 1].index + 1))
    case DropEvent(disk) =>
      if writable && exists k :: 0 <= k < |active| - 2 && active[k] == disk
      then var k :| 0 <= k < |active| - 2 && active[k] == disk; DropAt(active, k)
      else active
  }

  /** Disks keep their mark; a snapshot that has been taken has the one that was asked for, and a new head has none. */
  ghost predicate MarksFollow(data: map<Name, Meta>, data': map<Name, Meta>, active: seq<Name>, active': seq<Name>, e: Event) {
    forall n :: n in active' ==> MarkFollows(data, data', active, e, n)
  }

  ghost predicate MarkFollows(data: map<Name, Meta>, data': map<Name, Meta>, active: seq<Name>, e: Event, n: Name) {
    && n in data'
    && if n in active then n in data && data'[n].userCreated == data[n].userCreated
       else data'[n].userCreated == (e.TakeEvent? && n == SnapDisk(e.name) && e.userCreated)
  }

  lemma SnapshotMarks(data: map<Name, Meta>, data': map<Name, Meta>, active: seq<Name>, i: nat, e: Event)
    requires Chained(data, active) && active[|active| - 1] == HeadDisk(i) && e.TakeEvent? && SnapDisk(e.name) !in active
    requires SnapshotRecorded(data, data', HeadDisk(i), HeadDisk(i + 1), SnapDisk(e.name), e.userCreated)
    ensures MarksFollow(data, data', active, Grown(active, SnapDisk(e.name), HeadDisk(i + 1)), e)
  {
    var a := Grown(active, SnapDisk(e.name), HeadDisk(i + 1));
    assert HeadDisk(i + 1) !in active;
    forall n | n in a
      ensures MarkFollows(data, data', active, e, n)
    {
      var k :| 0 <= k < |a| && a[k] == n;
      if k < |active| - 1 {
        assert n == active[k] && ParentAt(data, active, k);
      }
    }
  }

  lemma RemovalMarks(data: map<Name, Meta>, data': map<Name, Meta>, active: seq<Name>, index: nat, e: Event)
    requires Chained(data, active) && index < |active| - 1 && RemovalRecorded(data, data', active[index], active[index + 1])
    ensures MarksFollow(data, data', active, DropAt(active, index), e)
  {
    var a := DropAt(active, index);
    forall n | n in a
      ensures MarkFollows(data, data', active, e, n)
    {
      var k :| 0 <= k < |a| && a[k] == n;
      var p := if k < index then k else k + 1;
      assert n == active[p] && ParentAt(data, active, p);
    }
  }

  lemma UnchangedMarks(data: map<Name, Meta>, active: seq<Name>, e: Event)
    requires Chained(data, active)
    ensures MarksFollow(data, data, active, active, e)
  {
    forall n | n in active
      ensures MarkFollows(data, data, active, e, n)
    {
      RecordedIffActive(data, active, n);
    }
  }

  ghost function AfterAll(active: seq<Name>, events: seq<Event>, writable: bool, maxChain: nat): seq<Name>
    decreases |events|
  {
    if events == [] then active
    else After(AfterAll(active, events[..|events| - 1], writable, maxChain), events[|events| - 1], writable, maxChain)
  }

  /** No name is used for two snapshots, nor for one that was there at the start. */
  predicate FreshNames(events: seq<Event>, c: seq<Name>) {
    && (forall i :: 0 <= i < |events| && events[i].TakeEvent? ==> SnapDisk(events[i].name) !in c)
    && (forall i, j :: 0 <= i < j < |events| && events[i].TakeEvent? && events[j].TakeEvent? ==>
          events[i].name != events[j].name)
  }

  /** The names of the events from the given one on have not been used. */
  ghost predicate Unused(events: seq<Event>, from: nat, used: set<string>) {
    forall j :: from <= j < |events| && events[j].TakeEvent? ==> events[j].name !in used
  }

  lemma StillUnused(events: seq<Event>, c: seq<Name>, from: nat, used: set<string>, used': set<string>)
    requires FreshNames(events, c) && from < |events| && Unused(events, from, used)
    requires used' <= used + if events[from].TakeEvent? then {events[from].name} else {}
    ensures Unused(events, from + 1, used')
  {
  }

  lemma DropAfter(active: seq<Name>, disk: Name, ok: bool, index: int, writable: bool, maxChain: nat)
    requires Named(active)
    requires ok <==> writable && disk != active[|active| - 1] && Below(active, |active| - 1) != Some(disk)
    requires ok && disk in active ==> 0 <= index < |active| && active[index] == disk
    ensures After(active, DropEvent(disk), writable, maxChain)
            == if ok && disk in active then DropAt(active, index) else active
  {
    if ok && disk in active {
      assert index < |active| - 2;
    }
  }

  /** Opening a volume: its metadata is read and its files are opened. */
  method Open(d: Dir, ghost c: seq<Name>, writable: bool) returns (r: Replica)
    requires Holds(d, c)
    ensures fresh(r) && r.Valid() && r.writable == writable
    ensures r.active == HeadFirst(c) && r.used == NamesOf(c) && r.handles == d.data && r.head == c[0]
    ensures AsAsked(d, c, [], r.diskData, r.active)
  {
    var data, ch, names := ReadMetadata(d, c);
    LoadedIsChained(d, c);
    SameMembers(c);
    LoadedAsAsked(d, c);
    r := new Replica(data, ch, names, d.data, writable);
  }

  lemma LoadedAsAsked(d: Dir, c: seq<Name>)
    requires Holds(d, c)
    ensures AsAsked(d, c, [], DataOf(d.metas, c, |c|), HeadFirst(c))
  {
    SameMembers(c);
    assert c[..|c|] == c;
    forall n | n in HeadFirst(c)
      ensures MarkAsAsked(d, c, [], DataOf(d.metas, c, |c|), n)
    {
      DataOfExact(d.metas, c, |c|, n);
    }
  }

  /** The mark of a disk is what the event that took it asked for, or what its metadata said when the volume was opened. */
  ghost predicate MarkAsAsked(d: Dir, c: seq<Name>, events: seq<Event>, data: map<Name, Meta>, n: Name) {
    && n in data
    && (forall i :: 0 <= i < |events| && Takes(events[i], n) ==> data[n].userCreated == events[i].userCreated)
    && ((forall i :: 0 <= i < |events| ==> !Takes(events[i], n)) ==>
          data[n].userCreated == (n in c && n in d.metas && d.metas[n].userCreated))
  }

  predicate Takes(e: Event, n: Name) {
    e.TakeEvent? && n == SnapDisk(e.name)
  }

  ghost predicate AsAsked(d: Dir, c: seq<Name>, events: seq<Event>, data: map<Name, Meta>, active: seq<Name>) {
    forall n :: n in active ==> MarkAsAsked(d, c, events, data, n)
  }

  /** Heads are numbered upwards from the one found on opening. */
  predicate HigherHead(active: seq<Name>, c: seq<Name>) {
    && |active| > 0 && active[|active| - 1].HeadDisk?
    && |c| > 0 && c[0].HeadDisk? && active[|active| - 1].index >= c[0].index
  }

  lemma NewMembers(active: seq<Name>, e: Event, writable: bool, maxChain: nat, n: Name)
    requires Named(active) && n in After(active, e, writable, maxChain)
    ensures n in active || (e.TakeEvent? && (n == SnapDisk(e.name) || n == HeadDisk(active[|active| - 1].index + 1)))
  {
    var a := After(active, e, writable, maxChain);
    if a != active {
      if e.DropEvent? {
        var i :| 0 <= i < |active| - 2 && active[i] == e.disk && a == DropAt(active, i);
        DropHasNoNew(active, i, n);
      } else {
        GrownHas(active, SnapDisk(e.name), HeadDisk(active[|active| - 1].index + 1), n);
      }
    }
  }

  lemma DropHasNoNew(active: seq<Name>, i: nat, n: Name)
    requires i < |active| && n in DropAt(active, i)
    ensures n in active
  {
    var k :| 0 <= k < |active| - 1 && DropAt(active, i)[k] == n;
    assert n == active[if k < i then k else k + 1];
  }

  lemma GrownHas(active: seq<Name>, snap: Name, newHead: Name, n: Name)
    requires |active| > 0 && n in Grown(active, snap, newHead)
    ensures n in active || n == snap || n == newHead
  {
    var k :| 0 <= k <= |active| && Grown(active, snap, newHead)[k] == n;
    assert k < |active| - 1 ==> n == active[k];
  }

  lemma StillHigher(active: seq<Name>, c: seq<Name>, e: Event, writable: bool, maxChain: nat)
    requires Named(active) && HigherHead(active, c)
    ensures HigherHead(After(active, e, writable, maxChain), c)
  {
  }

  lemma StillAsAsked(d: Dir, c: seq<Name>, events: seq<Event>, e: Event, data: map<Name, Meta>, data': map<Name, Meta>,
                     active: seq<Name>, n: Name)
    requires n in active ==> MarkAsAsked(d, c, events, data, n)
    requires MarkFollows(data, data', active, e, n)
    requires n in active ==> !Takes(e, n)
    requires n !in active ==> Takes(e, n) || n !in c
    requires n !in active ==> forall i :: 0 <= i < |events| ==> !Takes(events[i], n)
    ensures MarkAsAsked(d, c, events + [e], data', n)
  {
    var all := events + [e];
    assert all[|events|] == e && forall i :: 0 <= i < |events| ==> all[i] == events[i];
    if n in active && forall i :: 0 <= i < |all| ==> !Takes(all[i], n) {
      assert forall i :: 0 <= i < |events| ==> !Takes(events[i], n);
    }
  }

  /** A step of a run leaves every mark as it was asked for. */
  lemma AllAsAsked(d: Dir, c: seq<Name>, events: seq<Event>, done: nat, data: map<Name, Meta>, data': map<Name, Meta>,
                   active: seq<Name>, active': seq<Name>, used: set<string>, writable: bool, maxChain: nat)
    requires WellNamed(c) && FreshNames(events, c) && done < |events| && Unused(events, done, used)
    requires Named(active) && HigherHead(active, c) && forall n :: n in active && n.SnapDisk? ==> n.name in used
    requires AsAsked(d, c, events[..done], data, active)
    requires active' == After(active, events[done], writable, maxChain)
    requires MarksFollow(data, data', active, active', events[done])
    ensures AsAsked(d, c, events[..done + 1], data', active')
  {
    var e := events[done];
    assert events[..done + 1] == events[..done] + [e];
    forall n | n in active'
      ensures MarkAsAsked(d, c, events[..done + 1], data', n)
    {
      assert MarkFollows(data, data', active, e, n);
      NewMembers(active, e, writable, maxChain, n);
      StillAsAsked(d, c, events[..done], e, data, data', active, n);
    }
  }

  lemma SameMembers(c: seq<Name>)
    ensures forall n :: n in HeadFirst(c) <==> n in c
    ensures NamesOf(HeadFirst(c)) == NamesOf(c)
  {
    forall n
      ensures n in HeadFirst(c) <==> n in c
    {
      if n in c {
        var k :| 0 <= k < |c| && c[k] == n;
        assert HeadFirst(c)[|c| - 1 - k] == n;
      }
    }
  }

  /**
    Over every run of snapshots with fresh names and of deletions, from any volume
    that can be opened, all records go on describing one chain, and following the
    parents from the head gives it.  Only a failed metadata write ends the run early.
  */
  method RunChain(d: Dir, ghost c: seq<Name>, writable: bool, maxChain: nat, events: seq<Event>)
    returns (r: Replica, chain: seq<Name>, done: nat)
    requires Holds(d, c) && FreshNames(events, c)
    ensures fresh(r) && done <= |events|
    ensures done == |events| ==>
              && r.Valid() && chain == HeadFirst(r.active)
              && r.active == AfterAll(HeadFirst(c), events, writable, maxChain)
              && AsAsked(d, c, events, r.diskData, r.active)
    ensures done < |events| ==> events[done].TakeEvent? && !(events[done].written && events[done].recorded)
  {
    r := Open(d, c, writable);
    done := 0;
    chain := [];
    while done < |events|
      invariant 0 <= done <= |events| && fresh(r) && Reached(r, d, c, events, done, writable, maxChain)
    {
      var broken := HandleNext(r, d, c, events, done, writable, maxChain);
      if broken {
        return;
      }
      done := done + 1;
    }
    assert events[..done] == events;
    chain := r.Chain();
  }

  /** Where a run is before the given event. */
  ghost predicate Reached(r: Replica, d: Dir, c: seq<Name>, events: seq<Event>, done: nat, writable: bool, maxChain: nat)
    requires done <= |events|
    reads r
  {
    && r.Valid() && r.writable == writable
    && r.active == AfterAll(HeadFirst(c), events[..done], writable, maxChain)
    && Unused(events, done, r.used)
    && AsAsked(d, c, events[..done], r.diskData, r.active) && HigherHead(r.active, c)
  }

  method HandleNext(r: Replica, ghost d: Dir, ghost c: seq<Name>, events: seq<Event>, done: nat, writable: bool, maxChain: nat)
    returns (broken: bool)
    requires WellNamed(c) && FreshNames(events, c) && done < |events|
    requires Reached(r, d, c, events, done, writable, maxChain)
    modifies r
    ensures !broken ==> Reached(r, d, c, events, done + 1, writable, maxChain)
    ensures broken ==> events[done].TakeEvent? && !(events[done].written && events[done].recorded)
  {
    assert events[..done + 1][..done] == events[..done];
    ghost var used, data, active := r.used, r.diskData, r.active;
    broken := r.Handle(events[done], maxChain);
    if !broken {
      StillUnused(events, c, done, used, r.used);
      AllAsAsked(d, c, events, done, data, r.diskData, active, r.active, used, writable, maxChain);
      StillHigher(active, c, events[done], writable, maxChain);
    }
  }

  /** Deleting a disk leaves its own entry in the children map, with the child it had. */
  lemma EntryIsLeft(children: Children, active: seq<Name>, index: nat)
    requires Named(active) && Inverse(children, active) && index < |active| - 1
    ensures var ch := UpdateChild(children, Below(active, index), active[index], Some(active[index + 1]));
            Some(active[index]) in ch && ch[Some(active[index])] == {active[index + 1]}
  {
    assert ChildAt(children, active, index);
  }

  /**
    A name used twice: whenever a disk is deleted and the next snapshot is given its
    name, the entry left behind gives that snapshot two children, and the records
    do not describe a chain any more.
  */
  method UseNameAgain(r: Replica, name: string, file: nat, maxChain: nat)
    requires r.Valid() && r.writable && |r.active| + 1 <= maxChain
    requires exists k :: 0 <= k < |r.active| - 2 && r.active[k] == SnapDisk(name)
    modifies r
    ensures Chained(r.diskData, r.active) && !r.Valid()
    ensures Some(SnapDisk(name)) in r.children && |r.children[Some(SnapDisk(name))]| == 2
  {
    ghost var child := DeleteNamed(r, name);
    ghost var newHead := HeadDisk(r.head.index + 1);
    var outcome := r.CreateDisk(name, false, file, maxChain, true, true, true);
    assert r.children[Some(SnapDisk(name))] == {child, newHead};
  }

  /** Deletes a snapshot; the entry that its child had under it is left. */
  method DeleteNamed(r: Replica, name: string) returns (ghost child: Name)
    requires r.Valid() && r.writable
    requires exists k :: 0 <= k < |r.active| - 2 && r.active[k] == SnapDisk(name)
    modifies r
    ensures r.Valid() && r.writable && |r.active| == old(|r.active|) - 1 && SnapDisk(name) !in r.active && r.head == old(r.head)
    ensures child.SnapDisk? && Some(SnapDisk(name)) in r.children && r.children[Some(SnapDisk(name))] == {child}
  {
    ghost var was, children := r.active, r.children;
    ghost var index;
    var ok;
    ok, index := r.RemoveDiffDisk(SnapDisk(name));
    EntryIsLeft(children, was, index);
    child := was[index + 1];
  }
}
